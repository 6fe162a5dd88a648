/** Bytes, powers of two and bit strings.

    A bit string lists its bits from the least significant one on, which is the order in
    which the GIF format fills a byte with codes (Appendix F of the GIF89a specification). */
module Bits {
  import opened Arithmetic
  import opened Common

  function Pow2(n: nat): (p: nat)
    ensures p >= 1
  {
    if n == 0 then 1 else 2 * Pow2(n - 1)
  }

  lemma SmallPowers()
    ensures Pow2(0) == 1 && Pow2(1) == 2 && Pow2(2) == 4 && Pow2(3) == 8
    ensures Pow2(4) == 16 && Pow2(5) == 32 && Pow2(6) == 64 && Pow2(7) == 128
    ensures Pow2(8) == 256 && Pow2(9) == 512 && Pow2(10) == 1024 && Pow2(11) == 2048
    ensures Pow2(12) == 4096 && Pow2(13) == 8192 && Pow2(20) == 0x10_0000
    ensures Pow2(32) == 0x1_0000_0000 && Pow2(52) == 0x10_0000_0000_0000
    ensures Pow2(64) == 0x1_0000_0000_0000_0000
  {
    assert Pow2(4) == 16;
    assert Pow2(8) == 256;
    assert Pow2(12) == 4096;
    assert Pow2(16) == 65536;
    assert Pow2(20) == 0x10_0000;
    assert Pow2(24) == 0x100_0000;
    assert Pow2(28) == 0x1000_0000;
    assert Pow2(32) == 0x1_0000_0000;
    assert Pow2(36) == 0x10_0000_0000;
    assert Pow2(40) == 0x100_0000_0000;
    assert Pow2(44) == 0x1000_0000_0000;
    assert Pow2(48) == 0x1_0000_0000_0000;
    assert Pow2(52) == 0x10_0000_0000_0000;
    assert Pow2(56) == 0x100_0000_0000_0000;
    assert Pow2(60) == 0x1000_0000_0000_0000;
  }

  lemma EightBits()
    ensures Pow2(8) == 256
  {
    SmallPowers();
  }

  lemma TwelveBits()
    ensures Pow2(12) == 4096
  {
    SmallPowers();
  }

  lemma TwentyBits()
    ensures Pow2(20) == 0x10_0000
  {
    SmallPowers();
  }

  lemma {:induction false} Pow2Monotone(m: nat, n: nat)
    requires m <= n
    ensures Pow2(m) <= Pow2(n)
    ensures m < n ==> 2 * Pow2(m) <= Pow2(n)
  {
    if m == n {
    } else {
      Pow2Monotone(m, n - 1);
    }
  }

  // ----- bitwise operators on unsigned words of any width

  function BitOr(x: nat, y: nat): nat
  {
    if x == 0 && y == 0 then 0
    else 2 * BitOr(x / 2, y / 2) + (if x % 2 == 1 || y % 2 == 1 then 1 else 0)
  }

  function BitAnd(x: nat, y: nat): nat
  {
    if x == 0 || y == 0 then 0
    else 2 * BitAnd(x / 2, y / 2) + (if x % 2 == 1 && y % 2 == 1 then 1 else 0)
  }

  function BitXor(x: nat, y: nat): nat
  {
    if x == 0 && y == 0 then 0
    else 2 * BitXor(x / 2, y / 2) + (if x % 2 != y % 2 then 1 else 0)
  }

  /** OR with a word shifted past every used bit is addition. */
  lemma {:induction false} OrOfDisjointBits(x: nat, y: nat, shift: nat)
    requires x < Pow2(shift)
    ensures BitOr(x, ShiftLeft(y, shift)) == x + ShiftLeft(y, shift)
  {
    if shift == 0 {
      OrWithZero(y);
    } else {
      assert ShiftLeft(y, shift) == 2 * ShiftLeft(y, shift - 1);
      OrOfDisjointBits(x / 2, y, shift - 1);
    }
  }

  lemma {:induction false} OrWithZero(y: nat)
    ensures BitOr(0, y) == y
  {
    if y == 0 {
    } else {
      OrWithZero(y / 2);
    }
  }

  lemma {:induction false} OrCommutes(x: nat, y: nat)
    ensures BitOr(x, y) == BitOr(y, x)
  {
    if x == 0 && y == 0 {
    } else {
      OrCommutes(x / 2, y / 2);
    }
  }

  function ShiftLeft(x: nat, k: nat): (y: nat)
    ensures x == 0 ==> y == 0
  {
    if k == 0 then x else 2 * ShiftLeft(x, k - 1)
  }

  lemma {:induction false} ShiftedPower(m: nat, k: nat)
    ensures ShiftLeft(Pow2(m), k) == Pow2(m + k)
  {
    if k == 0 {
    } else {
      ShiftedPower(m, k - 1);
    }
  }

  /** A word packed from a high and a low part has as many bits as both. */
  lemma {:induction false} PackedBound(x: nat, shift: nat, y: nat, width: nat)
    requires x < Pow2(shift) && y < Pow2(width)
    ensures x + ShiftLeft(y, shift) < Pow2(shift + width)
  {
    if shift == 0 {
    } else {
      PackedBound(x / 2, shift - 1, y, width);
    }
  }

  lemma {:induction false} ShiftMonotone(x: nat, y: nat, k: nat)
    requires x <= y
    ensures ShiftLeft(x, k) <= ShiftLeft(y, k)
  {
    if k == 0 {
    } else {
      ShiftMonotone(x, y, k - 1);
    }
  }

  function ShiftRight(x: nat, k: nat): nat
  {
    if k == 0 then x else ShiftRight(x / 2, k - 1)
  }

  /** A mask of k ones. */
  function Ones(k: nat): nat { Pow2(k) - 1 }

  /** AND with a mask of k ones keeps the k lowest bits ... */
  lemma {:induction false} MaskBounds(x: nat, k: nat)
    ensures BitAnd(x, Ones(k)) < Pow2(k)
    ensures x < Pow2(k) ==> BitAnd(x, Ones(k)) == x
  {
    if k == 0 {
    } else {
      MaskBounds(x / 2, k - 1);
      assert Ones(k) == 2 * Ones(k - 1) + 1;
    }
  }

  /** ... and is undone, with the shift, by packing a high part above a low one. */
  lemma {:induction false} PackedWord(high: nat, low: nat, k: nat)
    requires low < Pow2(k)
    ensures ShiftRight(low + ShiftLeft(high, k), k) == high
    ensures BitAnd(low + ShiftLeft(high, k), Ones(k)) == low
  {
    if k == 0 {
    } else {
      var x := low + ShiftLeft(high, k);
      assert x / 2 == low / 2 + ShiftLeft(high, k - 1) && x % 2 == low % 2;
      assert ShiftRight(x, k) == ShiftRight(x / 2, k - 1);
      MaskedHalf(x, k);
      assert low / 2 < Pow2(k - 1);
      hide *;
      PackedWord(high, low / 2, k - 1);
    }
  }

  lemma {:induction false} AllOnes(high: nat, low: nat)
    ensures Ones(high + low) == Ones(low) + ShiftLeft(Ones(high), low)
  {
    if low == 0 {
    } else {
      AllOnes(high, low - 1);
    }
  }

  lemma {:induction false} ShiftRightBound(x: nat, m: nat, k: nat)
    requires x < Pow2(m + k)
    ensures ShiftRight(x, k) < Pow2(m)
  {
    if k == 0 {
    } else {
      ShiftRightBound(x / 2, m, k - 1);
    }
  }

  // ----- bit strings

  /** The lowest `width` bits of `x`, least significant first. */
  function ToBits(x: nat, width: nat): (b: seq<bool>)
    ensures |b| == width
  {
    if width == 0 then [] else [x % 2 == 1] + ToBits(x / 2, width - 1)
  }

  function FromBits(b: seq<bool>): (x: nat)
    ensures x < Pow2(|b|)
  {
    if b == [] then 0 else (if b[0] then 1 else 0) + 2 * FromBits(b[1..])
  }

  lemma {:induction false} FromToBits(x: nat, width: nat)
    requires x < Pow2(width)
    ensures FromBits(ToBits(x, width)) == x
  {
    if width == 0 {
    } else {
      FromToBits(x / 2, width - 1);
      assert ToBits(x, width)[1..] == ToBits(x / 2, width - 1);
    }
  }

  lemma {:induction false} ToFromBits(b: seq<bool>)
    ensures ToBits(FromBits(b), |b|) == b
  {
    if b == [] {
    } else {
      ToFromBits(b[1..]);
      assert FromBits(b) / 2 == FromBits(b[1..]);
    }
  }

  /** Placing `y` above the `shift` used bits of `x` appends its bits. */
  lemma {:induction false} ToBitsAppend(x: nat, shift: nat, y: nat, width: nat)
    requires x < Pow2(shift)
    ensures ToBits(x + ShiftLeft(y, shift), shift + width) == ToBits(x, shift) + ToBits(y, width)
  {
    if shift == 0 {
    } else {
      var z := x + ShiftLeft(y, shift);
      assert ShiftLeft(y, shift) == 2 * ShiftLeft(y, shift - 1);
      assert z / 2 == x / 2 + ShiftLeft(y, shift - 1) && z % 2 == x % 2;
      ToBitsAppend(x / 2, shift - 1, y, width);
    }
  }

  /** Masking and shifting right split a bit string. */
  lemma {:induction false} ToBitsSplit(x: nat, low: nat, high: nat)
    ensures ToBits(x, low + high) == ToBits(BitAnd(x, Ones(low)), low) + ToBits(ShiftRight(x, low), high)
  {
    if low == 0 {
    } else {
      FirstBit(x, low);
      var front := ToBits(BitAnd(x / 2, Ones(low - 1)), low - 1);
      assert ToBits(x, low + high) == [x % 2 == 1] + ToBits(x / 2, low - 1 + high);
      assert ShiftRight(x, low) == ShiftRight(x / 2, low - 1);
      hide *;
      ToBitsSplit(x / 2, low - 1, high);
      Regroup([x % 2 == 1], front, ToBits(ShiftRight(x, low), high));
    }
  }

  lemma FirstBit(x: nat, low: nat)
    requires low > 0
    ensures ToBits(BitAnd(x, Ones(low)), low) == [x % 2 == 1] + ToBits(BitAnd(x / 2, Ones(low - 1)), low - 1)
  {
    assert Ones(low) == 2 * Ones(low - 1) + 1;
    var y := BitAnd(x, Ones(low));
    assert y / 2 == BitAnd(x / 2, Ones(low - 1)) && y % 2 == x % 2;
  }

  /** OR puts new bits above the used bits of a register. */
  lemma RegisterAppend(x: nat, shift: nat, y: nat, width: nat)
    requires x < Pow2(shift) && y < Pow2(width)
    ensures BitOr(x, ShiftLeft(y, shift)) < Pow2(shift + width)
    ensures ToBits(BitOr(x, ShiftLeft(y, shift)), shift + width) == ToBits(x, shift) + ToBits(y, width)
  {
    OrOfDisjointBits(x, y, shift);
    ToBitsAppend(x, shift, y, width);
    PackedBound(x, shift, y, width);
  }

  /** An empty register. */
  lemma NoBits()
    ensures Pow2(0) == 1 && ToBits(0, 0) == []
  {}

  /** Halving a number halves what it leaves and gives when it is divided. */
  lemma HalfDivided(x: nat, m: nat)
    requires m > 0
    ensures x % (2 * m) == 2 * (x / 2 % m) + x % 2 && x / (2 * m) == x / 2 / m
  {
    var q, r := x / 2 / m, x / 2 % m;
    Division(x / 2, m);
    assert q * (2 * m) == 2 * (m * q);
    QuotientOf(q, 2 * m, 2 * r + x % 2);
  }

  /** AND with a mask is the remainder. */
  lemma {:induction false} MaskIsRemainder(x: nat, k: nat)
    ensures BitAnd(x, Ones(k)) == x % Pow2(k)
  {
    if k == 0 {
    } else {
      MaskIsRemainder(x / 2, k - 1);
      HalfDivided(x, Pow2(k - 1));
      MaskedHalf(x, k);
    }
  }

  lemma MaskedHalf(x: nat, k: nat)
    requires k > 0
    ensures BitAnd(x, Ones(k)) == 2 * BitAnd(x / 2, Ones(k - 1)) + x % 2
  {
    assert Ones(k) == 2 * Ones(k - 1) + 1;
  }

  lemma {:induction false} ShiftIsPower(x: nat, k: nat)
    ensures ShiftLeft(x, k) == x * Pow2(k) && ShiftRight(x, k) == x / Pow2(k)
  {
    if k == 0 {
    } else {
      ShiftIsPower(x, k - 1);
      ShiftIsPower(x / 2, k - 1);
      HalfDivided(x, Pow2(k - 1));
      Twice(x, Pow2(k - 1));
    }
  }

  lemma Twice(x: nat, m: nat)
    ensures 2 * (x * m) == x * (2 * m)
  {}

  /** Bit `k` of a number. */
  predicate Bit(x: nat, k: nat) {
    x / Pow2(k) % 2 == 1
  }

  lemma BitOfHalf(x: nat, k: nat)
    ensures Bit(x, 0) <==> x % 2 == 1
    ensures k > 0 ==> (Bit(x, k) <==> Bit(x / 2, k - 1))
  {
    if k > 0 {
      HalfDivided(x, Pow2(k - 1));
    }
  }

  /** OR, AND and exclusive OR go bit by bit. */
  lemma {:induction false} BitByBit(x: nat, y: nat, k: nat)
    ensures Bit(BitOr(x, y), k) <==> Bit(x, k) || Bit(y, k)
    ensures Bit(BitAnd(x, y), k) <==> Bit(x, k) && Bit(y, k)
    ensures Bit(BitXor(x, y), k) <==> Bit(x, k) != Bit(y, k)
  {
    hide *;
    BitOfHalf(x, k);
    BitOfHalf(y, k);
    BitOfHalf(BitOr(x, y), k);
    BitOfHalf(BitAnd(x, y), k);
    BitOfHalf(BitXor(x, y), k);
    Halves(x, y);
    if k == 0 {
    } else {
      BitByBit(x / 2, y / 2, k - 1);
    }
  }

  lemma TwicePlus(n: nat, odd: bool)
    ensures var x := 2 * n + if odd then 1 else 0; x / 2 == n && (x % 2 == 1 <==> odd)
  {}

  lemma Halves(x: nat, y: nat)
    ensures BitOr(x, y) / 2 == BitOr(x / 2, y / 2) && BitAnd(x, y) / 2 == BitAnd(x / 2, y / 2)
    ensures BitXor(x, y) / 2 == BitXor(x / 2, y / 2)
    ensures BitOr(x, y) % 2 == 1 <==> x % 2 == 1 || y % 2 == 1
    ensures BitAnd(x, y) % 2 == 1 <==> x % 2 == 1 && y % 2 == 1
    ensures BitXor(x, y) % 2 == 1 <==> (x % 2 == 1) != (y % 2 == 1)
  {
    var or, and, xor := BitOr(x / 2, y / 2), BitAnd(x / 2, y / 2), BitXor(x / 2, y / 2);
    assert BitOr(x, y) == 2 * or + if x % 2 == 1 || y % 2 == 1 then 1 else 0;
    assert BitAnd(x, y) == 2 * and + if x % 2 == 1 && y % 2 == 1 then 1 else 0;
    assert BitXor(x, y) == 2 * xor + if x % 2 != y % 2 then 1 else 0;
    hide *;
    TwicePlus(or, x % 2 == 1 || y % 2 == 1);
    TwicePlus(and, x % 2 == 1 && y % 2 == 1);
    TwicePlus(xor, x % 2 != y % 2);
  }

  /** The bits of a number come with the lowest first. */
  lemma {:induction false} BitAt(x: nat, width: nat, k: nat)
    requires k < width
    ensures ToBits(x, width)[k] <==> x / Pow2(k) % 2 == 1
  {
    if k == 0 {
    } else {
      BitAt(x / 2, width - 1, k - 1);
      HalfDivided(x, Pow2(k - 1));
    }
  }

  // ----- byte strings as bit strings

  function BytesToBits(s: seq<byte>): (b: seq<bool>)
    ensures |b| == 8 * |s|
  {
    if s == [] then [] else ToBits(s[0], 8) + BytesToBits(s[1..])
  }

  lemma {:induction false} BytesToBitsAppend(s: seq<byte>, t: seq<byte>)
    ensures BytesToBits(s + t) == BytesToBits(s) + BytesToBits(t)
  {
    hide Pow2, ToBits;
    if s == [] {
      assert s + t == t;
    } else {
      assert (s + t)[1..] == s[1..] + t;
      assert BytesToBits(s + t) == ToBits((s + t)[0], 8) + BytesToBits(s[1..] + t);
      assert BytesToBits(s) == ToBits(s[0], 8) + BytesToBits(s[1..]);
      hide BytesToBits;
      BytesToBitsAppend(s[1..], t);
      Regroup(ToBits(s[0], 8), BytesToBits(s[1..]), BytesToBits(t));
    }
  }

  /** Cuts a bit string into bytes; the last byte is filled up with zero bits. */
  function BitsToBytes(b: seq<bool>): (s: seq<byte>)
  {
    SmallPowers();
    if b == [] then []
    else if |b| < 8 then Pow2Monotone(|b|, 8); [FromBits(b)]
    else [FromBits(b[..8])] + BitsToBytes(b[8..])
  }

  lemma {:induction false} BitsToBytesAppend(s: seq<byte>, b: seq<bool>)
    ensures BitsToBytes(BytesToBits(s) + b) == s + BitsToBytes(b)
  {
    hide Pow2, ToBits, FromBits, BitsToBytes;
    var all := BytesToBits(s) + b;
    if s == [] {
      assert all == b;
    } else {
      BitsToBytesAppend(s[1..], b);
      assert all == ToBits(s[0], 8) + (BytesToBits(s[1..]) + b);
      FirstByte(s[0], BytesToBits(s[1..]) + b);
    }
  }

  lemma FirstByte(x: byte, b: seq<bool>)
    ensures BitsToBytes(ToBits(x, 8) + b) == [x] + BitsToBytes(b)
  {
    var all := ToBits(x, 8) + b;
    assert all[..8] == ToBits(x, 8) && all[8..] == b;
    assert Pow2(8) == 256 by { SmallPowers(); }
    FromToBits(x, 8);
  }

  /** Reading the bytes back gives the bits, followed by fewer than eight filling bits. */
  lemma {:induction false} BitsSurviveBytes(b: seq<bool>)
    ensures b <= BytesToBits(BitsToBytes(b))
    ensures |BytesToBits(BitsToBytes(b))| < |b| + 8
  {
    SmallPowers();
    if b == [] {
    } else if |b| < 8 {
      Pow2Monotone(|b|, 8);
      var x: byte := FromBits(b);
      assert BitsToBytes(b) == [x];
      ToFromBits(b);
      ToBitsSplit(x, |b|, 8 - |b|);
      MaskBounds(x, |b|);
      assert BytesToBits([x]) == ToBits(x, 8) + BytesToBits([]);
    } else {
      BitsSurviveBytes(b[8..]);
      ToFromBits(b[..8]);
      var s := BitsToBytes(b);
      assert s[1..] == BitsToBytes(b[8..]);
      assert BytesToBits(s) == b[..8] + BytesToBits(s[1..]);
      assert b == b[..8] + b[8..];
    }
  }

  // ----- numbers of any widths

  /** A number and the bits it is written with. */
  datatype Code = Code(value: nat, width: nat)

  predicate Fitting(codes: seq<Code>) {
    forall k :: 0 <= k < |codes| ==> codes[k].value < Pow2(codes[k].width)
  }

  function Packed(codes: seq<Code>): seq<bool> {
    if codes == [] then [] else ToBits(codes[0].value, codes[0].width) + Packed(codes[1..])
  }

  /** Reads numbers off a bit string, width by width, as long as there are enough bits. */
  function Unpacked(bits: seq<bool>, widths: seq<nat>): Option<seq<nat>> {
    if widths == [] then Some([])
    else if |bits| < widths[0] then None
    else
      match Unpacked(bits[widths[0]..], widths[1..])
      case None => None
      case Some(values) => Some([FromBits(bits[..widths[0]])] + values)
  }

  function Widths(codes: seq<Code>): seq<nat> {
    seq(|codes|, k requires 0 <= k < |codes| => codes[k].width)
  }

  function Values(codes: seq<Code>): seq<nat> {
    seq(|codes|, k requires 0 <= k < |codes| => codes[k].value)
  }

  /** Whatever the widths, the numbers come back, and what follows does not matter. */
  lemma {:induction false} UnpackPacked(codes: seq<Code>, extra: seq<bool>)
    requires Fitting(codes)
    ensures Unpacked(Packed(codes) + extra, Widths(codes)) == Some(Values(codes))
  {
    hide Pow2, ToBits, FromBits;
    if codes == [] {
    } else {
      var first, rest := codes[0], codes[1..];
      var bits := ToBits(first.value, first.width);
      FromToBits(first.value, first.width);
      UnpackPacked(rest, extra);
      Regroup(bits, Packed(rest), extra);
      assert (bits + (Packed(rest) + extra))[..first.width] == bits;
      assert (bits + (Packed(rest) + extra))[first.width..] == Packed(rest) + extra;
      assert Widths(codes)[1..] == Widths(rest);
      assert Values(codes) == [first.value] + Values(rest);
    }
  }
}
