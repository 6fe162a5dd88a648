/** Image data put into band-interleaved-by-pixel order: all at once by the converter, and strip
    by strip by the TIFF writer. */
module Reorganise {
  import opened Arithmetic
  import opened Common
  import opened IndexSpace

  /** The dimensions of the same image in band-interleaved-by-pixel order. */
  function BipSize(org: Org, size: Dims): Dims
  {
    Dims(Bands(size, org), Samples(size, org), Lines(size, org))
  }

  lemma SameTotal(org: Org, size: Dims)
    ensures BipSize(org, size).Total() == size.Total()
    ensures size.Positive() <==> BipSize(org, size).Positive()
  {
    match org
    case BSQ => assert size.d1 * (size.d0 * size.d2) == size.d2 * (size.d1 * size.d0);
    case BIL => assert size.d2 * (size.d0 * size.d1) == size.d2 * (size.d1 * size.d0);
    case BIP =>
  }

  /** Where the `i`-th pixel of the result is in the data. */
  function Source(i: nat, org: Org, size: Dims): (k: nat)
    requires size.Positive() && i < size.Total()
    ensures k < size.Total()
  {
    SameTotal(org, size);
    var p := Xpos(i, BIP, BipSize(org, size));
    CposOfXpos(i, BIP, BipSize(org, size));
    XposOfCpos(p, org, size);
    Cpos(p.x, p.y, p.z, org, size)
  }

  /** The bytes of one sample. */
  function Sample(data: seq<byte>, k: nat, nbytes: nat): (s: seq<byte>)
    requires (k + 1) * nbytes <= |data|
    ensures |s| == nbytes
  {
    assert k * nbytes + nbytes == (k + 1) * nbytes;
    data[k * nbytes..(k + 1) * nbytes]
  }

  lemma SampleIsPart(data: seq<byte>, i: nat, nbytes: nat)
    requires (i + 1) * nbytes <= |data|
    ensures Part(data, i * nbytes, nbytes) == Sample(data, i, nbytes)
  {
    OneMore(i, nbytes);
  }

  /** The first `n` samples of the image in band-interleaved-by-pixel order. */
  function Bip(data: seq<byte>, org: Org, size: Dims, nbytes: nat, n: nat): (r: seq<byte>)
    requires size.Positive() && |data| == size.Total() * nbytes && n <= size.Total()
    ensures |r| == n * nbytes
  {
    if n == 0 then [] else
      SampleFits(size, nbytes, Source(n - 1, org, size));
      assert n * nbytes == (n - 1) * nbytes + nbytes;
      Bip(data, org, size, nbytes, n - 1) + Sample(data, Source(n - 1, org, size), nbytes)
  }

  lemma SampleFits(size: Dims, nbytes: nat, k: nat)
    requires k < size.Total()
    ensures (k + 1) * nbytes <= size.Total() * nbytes
  {
    Grows(k + 1, size.Total(), nbytes);
  }

  /** Every pixel of the result is the same pixel of the data. */
  lemma BipPixel(data: seq<byte>, org: Org, size: Dims, nbytes: nat, p: Pixel)
    requires |data| == size.Total() * nbytes && InImage(p, org, size)
    ensures size.Positive()
    ensures var i, j := Cpos(p.x, p.y, p.z, BIP, BipSize(org, size)), Cpos(p.x, p.y, p.z, org, size);
            && (i + 1) * nbytes <= |data| && (j + 1) * nbytes <= |data|
            && Sample(Bip(data, org, size, nbytes, size.Total()), i, nbytes) == Sample(data, j, nbytes)
  {
    hide Bip, Cpos, Xpos, Sample;
    XposOfCpos(p, org, size);
    SameTotal(org, size);
    XposOfCpos(p, BIP, BipSize(org, size));
    var i, j := Cpos(p.x, p.y, p.z, BIP, BipSize(org, size)), Cpos(p.x, p.y, p.z, org, size);
    SampleFits(size, nbytes, i);
    SampleFits(size, nbytes, j);
    BipAt(data, org, size, nbytes, size.Total(), i);
  }

  lemma {:induction false} BipAt(data: seq<byte>, org: Org, size: Dims, nbytes: nat, n: nat, i: nat)
    requires size.Positive() && |data| == size.Total() * nbytes && i < n <= size.Total()
    ensures (i + 1) * nbytes <= n * nbytes && (Source(i, org, size) + 1) * nbytes <= |data|
    ensures Sample(Bip(data, org, size, nbytes, n), i, nbytes) == Sample(data, Source(i, org, size), nbytes)
  {
    hide Source, Sample;
    Grows(i + 1, n, nbytes);
    SampleFits(size, nbytes, Source(i, org, size));
    SampleFits(size, nbytes, Source(n - 1, org, size));
    var front, last := Bip(data, org, size, nbytes, n - 1), Sample(data, Source(n - 1, org, size), nbytes);
    assert Bip(data, org, size, nbytes, n) == front + last;
    if i < n - 1 {
      BipAt(data, org, size, nbytes, n - 1, i);
      hide Bip;
      SampleOfSum(front, last, nbytes, i);
    } else {
      hide Bip;
      SampleOfSum(front, last, nbytes, i);
    }
  }

  lemma SampleOfSum(s: seq<byte>, t: seq<byte>, nbytes: nat, i: nat)
    requires (i + 1) * nbytes <= |s + t|
    ensures (i + 1) * nbytes <= |s| ==> Sample(s + t, i, nbytes) == Sample(s, i, nbytes)
    ensures i * nbytes == |s| && |t| == nbytes ==> Sample(s + t, i, nbytes) == t
  {
    assert i * nbytes + nbytes == (i + 1) * nbytes;
  }

  /** Data in the right order already. */
  lemma {:induction false} BipOfBip(data: seq<byte>, size: Dims, nbytes: nat, n: nat)
    requires size.Positive() && |data| == size.Total() * nbytes && n <= size.Total()
    ensures n * nbytes <= |data| && Bip(data, BIP, size, nbytes, n) == data[..n * nbytes]
  {
    hide Xpos, Cpos;
    Grows(n, size.Total(), nbytes);
    if n == 0 {
    } else {
      BipOfBip(data, size, nbytes, n - 1);
      SourceOfBip(n - 1, size);
      SampleFits(size, nbytes, n - 1);
      Append(data, nbytes, n - 1);
    }
  }

  lemma SourceOfBip(i: nat, size: Dims)
    requires size.Positive() && i < size.Total()
    ensures Source(i, BIP, size) == i
  {
    CposOfXpos(i, BIP, size);
  }

  lemma Append(data: seq<byte>, nbytes: nat, n: nat)
    requires (n + 1) * nbytes <= |data|
    ensures n * nbytes + nbytes == (n + 1) * nbytes
    ensures data[..n * nbytes] + Sample(data, n, nbytes) == data[..(n + 1) * nbytes]
  {
    assert n * nbytes + nbytes == (n + 1) * nbytes;
  }

  // ----- the converter

  /** Copies bytes into a buffer. */
  method CopyTo(buffer: array<byte>, at: nat, s: seq<byte>)
    requires at + |s| <= buffer.Length
    modifies buffer
    ensures buffer[..] == old(buffer[..at]) + s + old(buffer[at + |s|..])
  {
    for k := 0 to |s|
      invariant buffer[..] == old(buffer[..at]) + s[..k] + old(buffer[at + k..])
    {
      buffer[at + k] := s[k];
    }
  }

  /** The converter's index of a pixel in each order. */
  function Offset(x: nat, y: nat, z: nat, org: Org, xsize: nat, ysize: nat, zsize: nat): int
  {
    match org
    case BIP => y * (xsize * zsize) + x * zsize + z
    case BSQ => z * (ysize * xsize) + y * xsize + x
    case BIL => y * (xsize * zsize) + z * xsize + x
  }

  lemma OffsetIsCpos(x: nat, y: nat, z: nat, org: Org, size: Dims)
    ensures Offset(x, y, z, org, Samples(size, org), Lines(size, org), Bands(size, org)) == Cpos(x, y, z, org, size)
    ensures Offset(x, y, z, BIP, Samples(size, org), Lines(size, org), Bands(size, org))
            == Cpos(x, y, z, BIP, BipSize(org, size))
  {
    var a, b, c := size.d0, size.d1, size.d2;
    match org
    case BSQ =>
      assert z * (b * a) + y * a == a * (y + z * b);
      assert y * (a * c) + x * c == c * (x + y * a);
    case BIL =>
      assert y * (a * b) + z * a == a * (z + y * b);
      assert y * (a * b) + x * b == b * (x + y * a);
    case BIP =>
      assert y * (b * a) + x * a == a * (x + y * b);
  }

  /** The indices of the result come one after the other. */
  lemma NextIndex(x: nat, y: nat, b: Dims)
    ensures Cpos(x, y, b.d0, BIP, b) == Cpos(x + 1, y, 0, BIP, b)
    ensures Cpos(b.d1, y, 0, BIP, b) == Cpos(0, y + 1, 0, BIP, b)
    ensures Cpos(0, 0, 0, BIP, b) == 0
    ensures Cpos(0, b.d2, 0, BIP, b) == b.Total()
  {
    assert b.d0 * (x + 1 + y * b.d1) == b.d0 + b.d0 * (x + y * b.d1);
    assert b.d0 * (b.d1 + y * b.d1) == b.d0 * ((y + 1) * b.d1);
    assert b.d0 * (b.d2 * b.d1) == b.d2 * (b.d1 * b.d0);
  }

  /** The source of the result's pixel. */
  lemma SourceOf(x: nat, y: nat, z: nat, org: Org, size: Dims)
    requires size.Positive() && InImage(Pixel(x, y, z), org, size)
    ensures var i := Cpos(x, y, z, BIP, BipSize(org, size));
            i < size.Total() && Source(i, org, size) == Cpos(x, y, z, org, size)
  {
    hide Cpos, Xpos;
    SameTotal(org, size);
    XposOfCpos(Pixel(x, y, z), BIP, BipSize(org, size));
  }

  /** Puts one pixel of the result in place. */
  method ConvertPixel(data: seq<byte>, org: Org, size: Dims, nbytes: nat, bip: array<byte>, x: nat, y: nat, z: nat)
    requires size.Positive() && |data| == size.Total() * nbytes == bip.Length && InImage(Pixel(x, y, z), org, size)
    requires var i := Cpos(x, y, z, BIP, BipSize(org, size));
             i <= size.Total() && i * nbytes <= bip.Length && bip[..i * nbytes] == Bip(data, org, size, nbytes, i)
    modifies bip
    ensures var i := Cpos(x, y, z, BIP, BipSize(org, size)) + 1;
            && i <= size.Total() && i * nbytes <= bip.Length && bip[..i * nbytes] == Bip(data, org, size, nbytes, i)
  {
    hide Cpos, Source, Offset;
    ghost var i := Cpos(x, y, z, BIP, BipSize(org, size));
    SourceOf(x, y, z, org, size);
    OffsetIsCpos(x, y, z, org, size);
    SampleFits(size, nbytes, i);
    SampleFits(size, nbytes, Source(i, org, size));
    var offset := Offset(x, y, z, org, Samples(size, org), Lines(size, org), Bands(size, org));
    var offset2 := Offset(x, y, z, BIP, Samples(size, org), Lines(size, org), Bands(size, org));
    assert (i + 1) * nbytes == i * nbytes + nbytes;
    CopyTo(bip, offset2 * nbytes, Sample(data, offset, nbytes));
  }

  /** Converts image data to band-interleaved-by-pixel order. */
  method ConvertToBIP(data: seq<byte>, org: Org, size: Dims, nbytes: nat) returns (bip: array<byte>)
    requires size.Positive() && |data| == size.Total() * nbytes
    ensures fresh(bip) && bip[..] == Bip(data, org, size, nbytes, size.Total())
  {
    hide Bip, Cpos, Offset;
    var xsize, ysize, zsize := Samples(size, org), Lines(size, org), Bands(size, org);
    ghost var b := BipSize(org, size);
    SameTotal(org, size);
    bip := new byte[size.Total() * nbytes](_ => 0);
    if org == BIP {
      BipOfBip(data, size, nbytes, size.Total());
      CopyTo(bip, 0, data);
    } else {
      NextIndex(0, 0, b);
      EmptyBip(data, org, size, nbytes);
      for y := 0 to ysize
        invariant Converted(data, org, size, nbytes, bip[..], Cpos(0, y, 0, BIP, b))
      {
        for x := 0 to xsize
          invariant Converted(data, org, size, nbytes, bip[..], Cpos(x, y, 0, BIP, b))
        {
          for z := 0 to zsize
            invariant Converted(data, org, size, nbytes, bip[..], Cpos(x, y, z, BIP, b))
          {
            ConvertPixel(data, org, size, nbytes, bip, x, y, z);
            NextBand(x, y, z, b);
          }
          NextIndex(x, y, b);
        }
        NextIndex(0, y, b);
      }
      NextIndex(0, 0, b);
      assert bip[..] == bip[..size.Total() * nbytes];
    }
  }

  lemma NextBand(x: nat, y: nat, z: nat, b: Dims)
    ensures Cpos(x, y, z + 1, BIP, b) == Cpos(x, y, z, BIP, b) + 1
  {}

  lemma EmptyBip(data: seq<byte>, org: Org, size: Dims, nbytes: nat)
    requires size.Positive() && |data| == size.Total() * nbytes
    ensures Bip(data, org, size, nbytes, 0) == []
  {}

  /** The first `i` pixels are in place. */
  ghost predicate Converted(data: seq<byte>, org: Org, size: Dims, nbytes: nat, bip: seq<byte>, i: nat)
  {
    && size.Positive() && |data| == size.Total() * nbytes == |bip|
    && i <= size.Total() && i * nbytes <= |bip| && bip[..i * nbytes] == Bip(data, org, size, nbytes, i)
  }
}
