/** Images written to 24-bit and 8-bit BMP files and read back. */
module Bmp {
  import opened Arithmetic
  import opened Common
  import opened IndexSpace
  import opened Reorganise

  const WIN_NEW := 40
  const OS2_NEW := 64
  const BI_RGB := 0
  const BI_RLE4 := 2

  // ----- numbers of the header

  function ShortBytes(n: nat): (r: seq<byte>)
    ensures |r| == 2
  {
    [n % 256, n / 256 % 256]
  }

  function IntBytes(n: nat): (r: seq<byte>)
    ensures |r| == 4
  {
    [n % 256, n / 256 % 256, n / 65536 % 256, n / 16777216 % 256]
  }

  /** The four bytes are the number as far as 32 bits go. */
  lemma IntOfBytes(n: nat)
    ensures n % 256 + n / 256 % 256 * 256 + n / 65536 % 256 * 65536 + n / 16777216 % 256 * 16777216
            == n % 4294967296
  {
    var a, b, c, d := n / 256, n / 65536, n / 16777216, n / 4294967296;
    assert b == a / 256 && c == b / 256 && d == c / 256;
    assert n == 256 * a + n % 256 && a == 256 * b + a % 256 && b == 256 * c + b % 256 && c == 256 * d + c % 256;
  }

  /** A file that is read from front to back. */
  class Stream {
    var rest: seq<byte>

    constructor (file: seq<byte>)
      ensures rest == file
    {
      rest := file;
    }

    /** Reads a byte; the ghost parameters say what the file goes on with. */
    method GetC(ghost b: byte, ghost tail: seq<byte>) returns (c: nat)
      requires rest == [b] + tail
      modifies this
      ensures c == b && rest == tail
    {
      c := rest[0];
      rest := rest[1..];
    }

    method GetShort(ghost n: nat, ghost tail: seq<byte>) returns (v: nat)
      requires n < 65536 && rest == ShortBytes(n) + tail
      modifies this
      ensures v == n && rest == tail
    {
      assert rest == [n % 256] + ([n / 256 % 256] + tail);
      var c := GetC(n % 256, [n / 256 % 256] + tail);
      var c1 := GetC(n / 256 % 256, tail);
      v := c + c1 * 256;
    }

    method GetInt(ghost n: nat, ghost tail: seq<byte>) returns (v: nat)
      requires n < 4294967296 && rest == IntBytes(n) + tail
      modifies this
      ensures v == n && rest == tail
    {
      ghost var tail3 := [n / 16777216 % 256] + tail;
      ghost var tail2 := [n / 65536 % 256] + tail3;
      assert rest == [n % 256] + ([n / 256 % 256] + tail2);
      var c := GetC(n % 256, [n / 256 % 256] + tail2);
      var c1 := GetC(n / 256 % 256, tail2);
      var c2 := GetC(n / 65536 % 256, tail3);
      var c3 := GetC(n / 16777216 % 256, tail);
      IntOfBytes(n);
      v := c + c1 * 256 + c2 * 65536 + c3 * 16777216;
    }

    /** Skips bytes. */
    method Skip(n: nat, ghost tail: seq<byte>)
      requires rest == Zeros(n) + tail
      modifies this
      ensures rest == tail
    {
      for i := 0 to n
        invariant rest == Zeros(n - i) + tail
      {
        assert Zeros(n - i) == [0] + Zeros(n - i - 1);
        assert rest == [0] + (Zeros(n - i - 1) + tail);
        var c := GetC(0, Zeros(n - i - 1) + tail);
      }
    }

    /** Reads a 24-bit line into its place. */
    method LoadLine24(data: array<byte>, w: nat, start: nat, ghost bip: seq<byte>, ghost tail: seq<byte>)
      requires start + 3 * w <= |bip| == data.Length && rest == Line24(bip, start, w) + tail
      modifies this, data
      ensures rest == tail
      ensures forall k :: 0 <= k < data.Length ==>
                data[k] == if start <= k < start + 3 * w then bip[k] else old(data[k])
    {
      hide Line24;
      var pp := start;
      for j := 0 to w
        invariant pp == start + 3 * j && rest == Line24(bip, pp, w - j) + tail
        invariant forall k :: 0 <= k < data.Length ==> data[k] == if start <= k < pp then bip[k] else old(data[k])
      {
        NextPixel24(bip, pp, w - j);
        ghost var more := Line24(bip, pp + 3, w - j - 1) + tail;
        assert rest == [bip[pp + 2]] + ([bip[pp + 1]] + ([bip[pp]] + more));
        var b := GetC(bip[pp + 2], [bip[pp + 1]] + ([bip[pp]] + more));
        var g := GetC(bip[pp + 1], [bip[pp]] + more);
        var r := GetC(bip[pp], more);
        data[pp], data[pp + 1], data[pp + 2] := r, g, b;
        pp := pp + 3;
      }
      NoPixel24(bip, pp);
    }

    /** Reads 24-bit lines, the last one of the image first. */
    method LoadBMP24(data: array<byte>, w: nat, h: nat, ghost bip: seq<byte>)
      requires h * (3 * w) == |bip| == data.Length && rest == Lines24(bip, w, h)
      modifies this, data
      ensures data[..] == bip
    {
      hide Line24, Lines24, Zeros, Pad24;
      var padb := Pad24(w);
      var i: nat := h;
      while i > 0
        invariant i <= h && i * (3 * w) <= |bip| && rest == Lines24(bip, w, i)
        invariant forall k :: i * (3 * w) <= k < |bip| ==> data[k] == bip[k]
      {
        NextLine24(bip, w, i);
        i := i - 1;
        LoadLine24(data, w, i * (3 * w), bip, Zeros(padb) + Lines24(bip, w, i));
        Skip(padb, Lines24(bip, w, i));
      }
      NoLines(bip, w);
    }

    /** Reads an 8-bit line into its place. */
    method LoadLine8(data: array<byte>, w: nat, start: nat, red: array<byte>,
                     ghost bip: seq<byte>, ghost tail: seq<byte>)
      requires start + w <= |bip| == data.Length && rest == bip[start..start + w] + tail
      requires red.Length == 256 && red != data && forall k :: 0 <= k < 256 ==> red[k] == k
      modifies this, data
      ensures rest == tail
      ensures forall k :: 0 <= k < data.Length ==>
                data[k] == if start <= k < start + w then bip[k] else old(data[k])
    {
      ghost var line := bip[start..start + w];
      var pp := start;
      for j := 0 to w
        invariant pp == start + j && rest == line[j..] + tail
        invariant forall k :: 0 <= k < data.Length ==> data[k] == if start <= k < pp then bip[k] else old(data[k])
      {
        assert line[j..] == [bip[pp]] + line[j + 1..];
        assert rest == [bip[pp]] + (line[j + 1..] + tail);
        var c := GetC(bip[pp], line[j + 1..] + tail);
        data[pp] := red[c];
        pp := pp + 1;
      }
    }

    /** Reads 8-bit lines through a grey palette, the last line of the image first. */
    method LoadBMP8(data: array<byte>, w: nat, h: nat, red: array<byte>, ghost bip: seq<byte>)
      requires h * w == |bip| == data.Length && rest == Lines8(bip, w, h)
      requires red.Length == 256 && red != data && forall k :: 0 <= k < 256 ==> red[k] == k
      modifies this, data
      ensures data[..] == bip
    {
      hide Lines8, Zeros;
      assert (w + 3) / 4 * 4 - w == Pad8(w);
      hide Pad8;
      var padw := (w + 3) / 4 * 4;
      var i: nat := h;
      while i > 0
        invariant i <= h && i * w <= |bip| && rest == Lines8(bip, w, i)
        invariant forall k :: i * w <= k < |bip| ==> data[k] == bip[k]
      {
        NextLine8(bip, w, i);
        i := i - 1;
        LoadLine8(data, w, i * w, red, bip, Zeros(padw - w) + Lines8(bip, w, i));
        Skip(padw - w, Lines8(bip, w, i));
      }
      NoLines(bip, w);
    }

    /** Reads the palette; there is one band if all its colours are grey. */
    method LoadPalette(cmaplen: nat, red: array<byte>, green: array<byte>, blue: array<byte>, bPad: int,
                       ghost tail: seq<byte>)
      returns (z: nat, bPad': int)
      requires cmaplen == 256 == red.Length == green.Length == blue.Length
      requires red != green && green != blue && blue != red && rest == Greys(0) + tail
      modifies this, red, green, blue
      ensures rest == tail && z == 1 && bPad' == bPad - 4 * cmaplen
      ensures forall k :: 0 <= k < 256 ==> red[k] == green[k] == blue[k] == k
    {
      hide Greys;
      var grey := true;
      bPad' := bPad;
      for i := 0 to cmaplen
        invariant rest == Greys(i) + tail && grey && bPad' == bPad - 4 * i
        invariant forall k :: 0 <= k < i ==> red[k] == green[k] == blue[k] == k
      {
        NextGrey(i);
        ghost var more := Greys(i + 1) + tail;
        assert rest == [i] + ([i] + ([i] + ([0] + more)));
        var b := GetC(i, [i] + ([i] + ([0] + more)));
        var g := GetC(i, [i] + ([0] + more));
        var r := GetC(i, [0] + more);
        var unused := GetC(0, more);
        blue[i], green[i], red[i] := b, g, r;
        bPad' := bPad' - 4;
        grey := grey && red[i] == blue[i] && red[i] == green[i];
      }
      z := BandsOf(grey);
      LastGrey();
    }
  }

  function BandsOf(grey: bool): nat {
    if grey then 1 else 3
  }

  // ----- what a file holds

  function Zeros(n: nat): seq<byte> {
    seq(n, _ => 0)
  }

  /** `n` pixels of three bytes from position `at` on, with the bytes of each turned round. */
  function Line24(bip: seq<byte>, at: nat, n: nat): seq<byte>
    requires at + 3 * n <= |bip|
    decreases n
  {
    if n == 0 then [] else [bip[at + 2], bip[at + 1], bip[at]] + Line24(bip, at + 3, n - 1)
  }

  /** The first `h` lines, the last of them first, each padded to a multiple of four bytes. */
  function Lines24(bip: seq<byte>, w: nat, h: nat): seq<byte>
    requires h * (3 * w) <= |bip|
  {
    if h == 0 then [] else
      LineFits(h, 3 * w);
      Line24(bip, (h - 1) * (3 * w), w) + Zeros(Pad24(w)) + Lines24(bip, w, h - 1)
  }

  function Lines8(bip: seq<byte>, w: nat, h: nat): seq<byte>
    requires h * w <= |bip|
  {
    if h == 0 then [] else
      LineFits(h, w);
      bip[(h - 1) * w..(h - 1) * w + w] + Zeros(Pad8(w)) + Lines8(bip, w, h - 1)
  }

  lemma LineFits(h: nat, m: nat)
    requires h > 0
    ensures h * m == (h - 1) * m + m && 0 <= (h - 1) * m
  {
    OneMore(h - 1, m);
    Grows(0, h - 1, m);
  }

  function Pad24(w: nat): nat {
    (4 - 3 * w % 4) % 4
  }

  function Pad8(w: nat): nat {
    (w + 3) / 4 * 4 - w
  }

  /** The grey palette from entry `i` on. */
  function Greys(i: nat): seq<byte>
    requires i <= 256
    decreases 256 - i
  {
    if i == 256 then [] else [i, i, i, 0] + Greys(i + 1)
  }

  /** The 32-bit words in a line of `w` pixels. */
  function Words(w: nat, nbits: nat): nat {
    (w * nbits + 31) / 32
  }

  /** The header of an image of `nbits` per pixel with `nc` palette entries, and what follows. */
  function HeaderThen(x: nat, y: nat, nbits: nat, nc: nat, tail: seq<byte>): seq<byte> {
    var bperlin := Words(x, nbits) * 3;
    [66, 77] + (IntBytes(54 + nc * 4 + bperlin * y) + (ShortBytes(0) + (ShortBytes(0) + (IntBytes(54 + nc * 4)
    + InfoThen(x, y, nbits, nc, bperlin * y, tail)))))
  }

  function InfoThen(x: nat, y: nat, nbits: nat, nc: nat, imageSize: nat, tail: seq<byte>): seq<byte> {
    IntBytes(40) + (IntBytes(x) + (IntBytes(y) + (ShortBytes(1) + (ShortBytes(nbits) + (IntBytes(BI_RGB)
    + (IntBytes(imageSize) + (IntBytes(2925) + (IntBytes(2925) + (IntBytes(nc) + (IntBytes(nc) + tail))))))))))
  }

  /** The file of an image with one or three bands. */
  function BmpFile(x: nat, y: nat, z: nat, bip: seq<byte>): seq<byte>
    requires (z == 1 || z == 3) && y * (z * x) <= |bip|
  {
    if z == 3 then HeaderThen(x, y, 24, 0, Lines24(bip, x, y))
    else HeaderThen(x, y, 8, 256, Greys(0) + Lines8(bip, x, y))
  }

  // ----- the sizes that the header gives

  /** The number in the four bytes at a position. */
  function NumberAt(file: seq<byte>, at: nat): (n: nat)
    requires at + 4 <= |file|
    ensures n < 4294967296
  {
    var a: nat, b: nat, c: nat, d: nat := file[at], file[at + 1], file[at + 2], file[at + 3];
    a + b * 256 + c * 65536 + d * 16777216
  }

  /** A padded line is a whole number of words, and a word has four bytes. */
  lemma LineLength24(bip: seq<byte>, at: nat, w: nat, rest: seq<byte>)
    requires at + 3 * w <= |bip|
    ensures |Line24(bip, at, w) + (Zeros(Pad24(w)) + rest)| == Words(w, 24) * 4 + |rest|
  {
    hide Line24, Pad24, Words;
    Line24Length(bip, at, w);
    PaddedLine24(w);
  }

  lemma LineLength8(bip: seq<byte>, at: nat, w: nat, rest: seq<byte>)
    requires at + w <= |bip|
    ensures |bip[at..at + w] + (Zeros(Pad8(w)) + rest)| == Words(w, 8) * 4 + |rest|
  {
    hide Pad8, Words;
    PaddedLine8(w);
  }

  lemma OneLine24(bip: seq<byte>, w: nat, h: nat)
    requires h > 0 && h * (3 * w) <= |bip|
    ensures (h - 1) * (3 * w) <= |bip|
    ensures |Lines24(bip, w, h)| == Words(w, 24) * 4 + |Lines24(bip, w, h - 1)|
  {
    hide Lines24, Line24, Zeros, Pad24, Words;
    NextLine24(bip, w, h);
    LineLength24(bip, (h - 1) * (3 * w), w, Lines24(bip, w, h - 1));
  }

  lemma OneLine8(bip: seq<byte>, w: nat, h: nat)
    requires h > 0 && h * w <= |bip|
    ensures (h - 1) * w <= |bip|
    ensures |Lines8(bip, w, h)| == Words(w, 8) * 4 + |Lines8(bip, w, h - 1)|
  {
    hide Lines8, Zeros, Pad8, Words;
    NextLine8(bip, w, h);
    LineLength8(bip, (h - 1) * w, w, Lines8(bip, w, h - 1));
  }

  lemma {:induction false} Lines24Length(bip: seq<byte>, w: nat, h: nat)
    requires h * (3 * w) <= |bip|
    ensures |Lines24(bip, w, h)| == h * (Words(w, 24) * 4)
  {
    hide Lines24, Words;
    if h == 0 {
      NoLines(bip, w);
    } else {
      OneLine24(bip, w, h);
      Lines24Length(bip, w, h - 1);
      OneMore(h - 1, Words(w, 24) * 4);
    }
  }

  lemma {:induction false} Lines8Length(bip: seq<byte>, w: nat, h: nat)
    requires h * w <= |bip|
    ensures |Lines8(bip, w, h)| == h * (Words(w, 8) * 4)
  {
    hide Lines8, Words;
    if h == 0 {
      NoLines(bip, w);
    } else {
      OneLine8(bip, w, h);
      Lines8Length(bip, w, h - 1);
      OneMore(h - 1, Words(w, 8) * 4);
    }
  }

  lemma {:induction false} Line24Length(bip: seq<byte>, at: nat, n: nat)
    requires at + 3 * n <= |bip|
    ensures |Line24(bip, at, n)| == 3 * n
    decreases n
  {
    if n == 0 {
    } else {
      Line24Length(bip, at + 3, n - 1);
    }
  }

  lemma PaddedLine24(w: nat)
    ensures 3 * w + Pad24(w) == Words(w, 24) * 4
  {
    var q, r := 3 * w / 4, 3 * w % 4;
    if r == 0 {
      QuotientOf(q, 32, 31);
    } else {
      QuotientOf(q + 1, 32, 8 * r - 1);
    }
  }

  lemma PaddedLine8(w: nat)
    ensures w + Pad8(w) == Words(w, 8) * 4
  {}

  lemma {:induction false} GreysLength(i: nat)
    requires i <= 256
    ensures |Greys(i)| == 4 * (256 - i)
    decreases 256 - i
  {
    if i == 256 {
    } else {
      GreysLength(i + 1);
    }
  }

  lemma FirstNumber(n: nat, rest: seq<byte>)
    ensures NumberAt(IntBytes(n) + rest, 0) == n % 4294967296
  {
    IntOfBytes(n);
  }

  lemma NumberBehind(front: seq<byte>, rest: seq<byte>, at: nat)
    requires at + 4 <= |rest|
    ensures NumberAt(front + rest, |front| + at) == NumberAt(rest, at)
  {}

  lemma TwoShorts(m: nat, n: nat, rest: seq<byte>)
    ensures NumberAt(ShortBytes(m) + (ShortBytes(n) + rest), 0) == m % 65536 + 65536 * (n % 65536)
  {
    var s := ShortBytes(m) + (ShortBytes(n) + rest);
    assert s[0] == m % 256 && s[1] == m / 256 % 256 && s[2] == n % 256 && s[3] == n / 256 % 256;
    ShortOfBytes(m);
    ShortOfBytes(n);
  }

  lemma ShortOfBytes(n: nat)
    ensures n % 256 + n / 256 % 256 * 256 == n % 65536
  {
    var a := n / 256;
    assert n == 256 * a + n % 256 && a == 256 * (a / 256) + a % 256;
    assert n == 65536 * (a / 256) + (n % 256 + a % 256 * 256);
  }

  lemma InfoNumbers(x: nat, y: nat, nbits: nat, nc: nat, bytes: nat, tail: seq<byte>)
    ensures var info := InfoThen(x, y, nbits, nc, bytes, tail);
            && |info| == 40 + |tail|
            && NumberAt(info, 0) == 40 && NumberAt(info, 4) == x % 4294967296 && NumberAt(info, 8) == y % 4294967296
            && NumberAt(info, 12) == 1 + 65536 * (nbits % 65536) && NumberAt(info, 16) == 0
            && NumberAt(info, 20) == bytes % 4294967296 && NumberAt(info, 32) == nc % 4294967296
  {
    hide NumberAt, IntBytes, ShortBytes;
    var colours := IntBytes(nc) + (IntBytes(nc) + tail);
    var density := IntBytes(2925) + (IntBytes(2925) + colours);
    var size := IntBytes(bytes) + density;
    var rgb := IntBytes(BI_RGB) + size;
    var kind := ShortBytes(1) + (ShortBytes(nbits) + rgb);
    var height := IntBytes(y) + kind;
    var width := IntBytes(x) + height;
    assert InfoThen(x, y, nbits, nc, bytes, tail) == IntBytes(40) + width;
    hide InfoThen;
    FirstNumber(40, width);
    FirstNumber(x, height);
    FirstNumber(y, kind);
    TwoShorts(1, nbits, rgb);
    FirstNumber(BI_RGB, size);
    FirstNumber(bytes, density);
    FirstNumber(nc, IntBytes(nc) + tail);
    NumberBehind(IntBytes(40), width, 0);
    FourBehind(IntBytes(40), IntBytes(x), height, 0);
    FourBehind(IntBytes(40), IntBytes(x), height, 4);
    FourBehind(IntBytes(40), IntBytes(x), height, 8);
    FourBehind(IntBytes(40), IntBytes(x), height, 12);
    FourBehind(IntBytes(40), IntBytes(x), height, 24);
    NumberBehind(IntBytes(y), kind, 0);
    NumberBehind(IntBytes(y), kind, 4);
    NumberBehind(IntBytes(y), kind, 8);
    NumberBehind(IntBytes(y), kind, 20);
    FourBehind(ShortBytes(1), ShortBytes(nbits), rgb, 0);
    FourBehind(ShortBytes(1), ShortBytes(nbits), rgb, 4);
    FourBehind(ShortBytes(1), ShortBytes(nbits), rgb, 16);
    NumberBehind(IntBytes(BI_RGB), size, 0);
    NumberBehind(IntBytes(BI_RGB), size, 12);
    NumberBehind(IntBytes(bytes), density, 8);
    FourBehind(IntBytes(2925), IntBytes(2925), colours, 0);
  }

  lemma FourBehind(a: seq<byte>, b: seq<byte>, rest: seq<byte>, at: nat)
    requires at + 4 <= |rest|
    ensures NumberAt(a + (b + rest), |a| + |b| + at) == NumberAt(rest, at)
  {
    NumberBehind(b, rest, at);
    NumberBehind(a, b + rest, |b| + at);
  }

  /** The numbers in a header. */
  lemma HeaderNumbers(x: nat, y: nat, nbits: nat, nc: nat, tail: seq<byte>)
    ensures var file, bytes := HeaderThen(x, y, nbits, nc, tail), Words(x, nbits) * 3 * y;
            && |file| == 54 + |tail| && file[0] == 66 && file[1] == 77
            && NumberAt(file, 2) == (54 + nc * 4 + bytes) % 4294967296
            && NumberAt(file, 10) == (54 + nc * 4) % 4294967296
            && NumberAt(file, 14) == 40 && NumberAt(file, 18) == x % 4294967296 && NumberAt(file, 22) == y % 4294967296
            && NumberAt(file, 26) == 1 + 65536 * (nbits % 65536) && NumberAt(file, 30) == 0
            && NumberAt(file, 34) == bytes % 4294967296 && NumberAt(file, 46) == nc % 4294967296
  {
    hide NumberAt, IntBytes, ShortBytes, InfoThen;
    var bytes := Words(x, nbits) * 3 * y;
    var info := InfoThen(x, y, nbits, nc, bytes, tail);
    var offset := IntBytes(54 + nc * 4) + info;
    var reserved := ShortBytes(0) + (ShortBytes(0) + offset);
    var size := IntBytes(54 + nc * 4 + bytes) + reserved;
    assert HeaderThen(x, y, nbits, nc, tail) == [66, 77] + size;
    hide HeaderThen, Words;
    InfoNumbers(x, y, nbits, nc, bytes, tail);
    FirstNumber(54 + nc * 4 + bytes, reserved);
    NumberBehind([66, 77], size, 0);
    FirstNumber(54 + nc * 4, info);
    NumberAfter(size, bytes, nc, info, 0);
    NumberAfter(size, bytes, nc, info, 4);
    NumberBehind(IntBytes(54 + nc * 4), info, 0);
    InfoAfter(size, bytes, nc, info, 4);
    InfoAfter(size, bytes, nc, info, 8);
    InfoAfter(size, bytes, nc, info, 12);
    InfoAfter(size, bytes, nc, info, 16);
    InfoAfter(size, bytes, nc, info, 20);
    InfoAfter(size, bytes, nc, info, 32);
  }

  lemma NumberAfter(size: seq<byte>, bytes: nat, nc: nat, info: seq<byte>, at: nat)
    requires at + 4 <= 4 + |info|
    requires size == IntBytes(54 + nc * 4 + bytes) + (ShortBytes(0) + (ShortBytes(0) + (IntBytes(54 + nc * 4) + info)))
    ensures NumberAt([66, 77] + size, 10 + at) == NumberAt(IntBytes(54 + nc * 4) + info, at)
  {
    hide NumberAt, IntBytes, ShortBytes;
    var offset := IntBytes(54 + nc * 4) + info;
    FourBehind(ShortBytes(0), ShortBytes(0), offset, at);
    FourBehind([66, 77], IntBytes(54 + nc * 4 + bytes), ShortBytes(0) + (ShortBytes(0) + offset), 4 + at);
  }

  lemma InfoAfter(size: seq<byte>, bytes: nat, nc: nat, info: seq<byte>, at: nat)
    requires at + 4 <= |info|
    requires size == IntBytes(54 + nc * 4 + bytes) + (ShortBytes(0) + (ShortBytes(0) + (IntBytes(54 + nc * 4) + info)))
    ensures NumberAt([66, 77] + size, 14 + at) == NumberAt(info, at)
  {
    hide NumberAt, IntBytes, ShortBytes;
    NumberBehind(IntBytes(54 + nc * 4), info, at);
    NumberAfter(size, bytes, nc, info, 4 + at);
  }

  // ----- where a file has a pixel

  lemma {:induction false} ByteOfLine24(bip: seq<byte>, at: nat, n: nat, c: nat, b: nat)
    requires at + 3 * n <= |bip| && c < n && b < 3
    ensures 3 * c + 2 - b < |Line24(bip, at, n)| && Line24(bip, at, n)[3 * c + 2 - b] == bip[at + 3 * c + b]
    decreases n
  {
    Line24Length(bip, at, n);
    if c == 0 {
    } else {
      ByteOfLine24(bip, at + 3, n - 1, c - 1, b);
    }
  }

  /** The line of `w` pixels from position `at` on, if it is all there. */
  function Row24(bip: seq<byte>, at: int, w: nat): seq<byte> {
    if 0 <= at && at + 3 * w <= |bip| then Line24(bip, at, w) else []
  }

  lemma NextRow24(bip: seq<byte>, w: nat, h: nat)
    requires h > 0 && h * (3 * w) <= |bip|
    ensures (h - 1) * (3 * w) <= |bip| && |Row24(bip, (h - 1) * (3 * w), w)| == 3 * w
    ensures Lines24(bip, w, h) == Row24(bip, (h - 1) * (3 * w), w) + (Zeros(Pad24(w)) + Lines24(bip, w, h - 1))
  {
    hide Lines24, Line24, Zeros, Pad24;
    NextLine24(bip, w, h);
    Line24Length(bip, (h - 1) * (3 * w), w);
  }

  lemma OneLineOn(line: seq<byte>, pad: seq<byte>, rest: seq<byte>, k: nat, stride: nat, n: nat)
    requires |line| + |pad| == stride
    ensures Part(line + (pad + rest), (k + 1) * stride, n) == Part(rest, k * stride, n)
  {
    hide Part;
    OneMore(k, stride);
    PartBehind(line + pad, rest, k * stride, n);
    Regroup(line, pad, rest);
  }

  /** Line `r` of `h` lines, of which the last comes first. */
  lemma {:induction false} LineAt24(bip: seq<byte>, w: nat, h: nat, r: nat)
    requires h * (3 * w) <= |bip| && r < h
    ensures Part(Lines24(bip, w, h), (h - 1 - r) * (Words(w, 24) * 4), 3 * w) == Row24(bip, r * (3 * w), w)
    decreases h
  {
    hide Lines24, Row24, Pad24, Words, Part;
    if r == h - 1 {
      TopLine24(bip, w, h);
    } else {
      NextRow24(bip, w, h);
      LineAt24(bip, w, h - 1, r);
      LowerLine24(bip, w, h, h - 2 - r);
    }
  }

  lemma TopLine24(bip: seq<byte>, w: nat, h: nat)
    requires h * (3 * w) <= |bip| && 0 < h
    ensures Part(Lines24(bip, w, h), 0, 3 * w) == Row24(bip, (h - 1) * (3 * w), w)
  {
    hide Lines24, Row24, Pad24, Words, Part;
    NextRow24(bip, w, h);
    FirstPart(Row24(bip, (h - 1) * (3 * w), w), Zeros(Pad24(w)) + Lines24(bip, w, h - 1));
  }

  lemma LowerLine24(bip: seq<byte>, w: nat, h: nat, k: nat)
    requires h * (3 * w) <= |bip| && 0 < h
    ensures (h - 1) * (3 * w) <= |bip|
    ensures Part(Lines24(bip, w, h), (k + 1) * (Words(w, 24) * 4), 3 * w)
            == Part(Lines24(bip, w, h - 1), k * (Words(w, 24) * 4), 3 * w)
  {
    hide Lines24, Row24, Pad24, Words, Part;
    NextRow24(bip, w, h);
    PaddedLine24(w);
    OneLineOn(Row24(bip, (h - 1) * (3 * w), w), Zeros(Pad24(w)), Lines24(bip, w, h - 1), k, Words(w, 24) * 4, 3 * w);
  }

  lemma NextRow8(bip: seq<byte>, w: nat, h: nat)
    requires h > 0 && h * w <= |bip|
    ensures (h - 1) * w <= |bip| && |Part(bip, (h - 1) * w, w)| == w
    ensures Lines8(bip, w, h) == Part(bip, (h - 1) * w, w) + (Zeros(Pad8(w)) + Lines8(bip, w, h - 1))
  {
    hide Lines8, Zeros, Pad8;
    NextLine8(bip, w, h);
  }

  lemma {:induction false} LineAt8(bip: seq<byte>, w: nat, h: nat, r: nat)
    requires h * w <= |bip| && r < h
    ensures Part(Lines8(bip, w, h), (h - 1 - r) * (Words(w, 8) * 4), w) == Part(bip, r * w, w)
  {
    hide Lines8, Pad8, Words, Part;
    NextRow8(bip, w, h);
    PaddedLine8(w);
    var line, pad, rest := Part(bip, (h - 1) * w, w), Zeros(Pad8(w)), Lines8(bip, w, h - 1);
    if r == h - 1 {
      FirstPart(line, pad + rest);
    } else {
      LineAt8(bip, w, h - 1, r);
      OneLineOn(line, pad, rest, h - 2 - r, Words(w, 8) * 4, w);
    }
  }

  /** What follows the header. */
  lemma InfoTail(x: nat, y: nat, nbits: nat, nc: nat, bytes: nat, tail: seq<byte>, at: nat, n: nat)
    ensures Part(InfoThen(x, y, nbits, nc, bytes, tail), 40 + at, n) == Part(tail, at, n)
  {
    hide IntBytes, ShortBytes, Part;
    var colours := IntBytes(nc) + (IntBytes(nc) + tail);
    var sizes := IntBytes(bytes) + (IntBytes(2925) + (IntBytes(2925) + colours));
    var kind := ShortBytes(nbits) + (IntBytes(BI_RGB) + sizes);
    var height := IntBytes(y) + (ShortBytes(1) + kind);
    assert InfoThen(x, y, nbits, nc, bytes, tail) == IntBytes(40) + (IntBytes(x) + height);
    PartBehind(IntBytes(nc), tail, at, n);
    PartBehind(IntBytes(nc), IntBytes(nc) + tail, 4 + at, n);
    PartBehind(IntBytes(2925), colours, 8 + at, n);
    PartBehind(IntBytes(2925), IntBytes(2925) + colours, 12 + at, n);
    PartBehind(IntBytes(bytes), IntBytes(2925) + (IntBytes(2925) + colours), 16 + at, n);
    PartBehind(IntBytes(BI_RGB), sizes, 20 + at, n);
    PartBehind(ShortBytes(nbits), IntBytes(BI_RGB) + sizes, 24 + at, n);
    PartBehind(ShortBytes(1), kind, 26 + at, n);
    PartBehind(IntBytes(y), ShortBytes(1) + kind, 28 + at, n);
    PartBehind(IntBytes(x), height, 32 + at, n);
    PartBehind(IntBytes(40), IntBytes(x) + height, 36 + at, n);
  }

  lemma HeaderTail(x: nat, y: nat, nbits: nat, nc: nat, tail: seq<byte>, at: nat, n: nat)
    ensures Part(HeaderThen(x, y, nbits, nc, tail), 54 + at, n) == Part(tail, at, n)
  {
    hide IntBytes, ShortBytes, InfoThen, Part;
    var bytes := Words(x, nbits) * 3 * y;
    var info := InfoThen(x, y, nbits, nc, bytes, tail);
    var offset := IntBytes(54 + nc * 4) + info;
    var reserved := ShortBytes(0) + (ShortBytes(0) + offset);
    var size := IntBytes(54 + nc * 4 + bytes) + reserved;
    assert HeaderThen(x, y, nbits, nc, tail) == [66, 77] + size;
    hide HeaderThen, Words;
    InfoTail(x, y, nbits, nc, bytes, tail, at, n);
    PartBehind(IntBytes(54 + nc * 4), info, 40 + at, n);
    PartBehind(ShortBytes(0), offset, 44 + at, n);
    PartBehind(ShortBytes(0), ShortBytes(0) + offset, 46 + at, n);
    PartBehind(IntBytes(54 + nc * 4 + bytes), reserved, 48 + at, n);
    PartBehind([66, 77], size, 52 + at, n);
  }

  lemma {:induction false} GreyAt(i: nat, k: nat, j: nat)
    requires i <= k < 256 && j < 4
    ensures Part(Greys(i), 4 * (k - i) + j, 1) == [if j < 3 then k else 0]
    decreases 256 - i
  {
    if i == k {
    } else {
      GreyAt(i + 1, k, j);
      PartBehind([i, i, i, 0], Greys(i + 1), 4 * (k - i - 1) + j, 1);
    }
  }

  lemma OneOfPart<T>(s: seq<T>, at: int, t: seq<T>, q: nat)
    requires q < |t| && Part(s, at, |t|) == t
    ensures Part(s, at + q, 1) == [t[q]] == Part(t, q, 1)
  {}

  lemma PixelIndex(x: nat, r: nat, c: nat, b: nat)
    ensures r * (3 * x) + 3 * c + b == (r * x + c) * 3 + b
  {}

  /** Where the file of an image of three bands has a byte of a pixel: the lines start behind the
      header, each takes a whole number of words, the last line comes first, and blue comes before
      green and red. */
  lemma PixelOfFile24(x: nat, y: nat, bip: seq<byte>, r: nat, c: nat, b: nat)
    requires y * (3 * x) <= |bip| && r < y && c < x && b < 3
    ensures Part(BmpFile(x, y, 3, bip), 54 + ((y - 1 - r) * ((x * 24 + 31) / 32 * 4) + 3 * c + (2 - b)), 1)
            == Part(bip, (r * x + c) * 3 + b, 1) != []
  {
    hide HeaderThen, Lines24, Line24;
    LineAt24(bip, x, y, r);
    RowInImage(x, y, bip, r);
    PixelOfRow(x, y, bip, r * (3 * x), c, b, (y - 1 - r) * (Words(x, 24) * 4));
    PixelIndex(x, r, c, b);
  }

  lemma RowInImage(x: nat, y: nat, bip: seq<byte>, r: nat)
    requires y * (3 * x) <= |bip| && r < y
    ensures 0 <= r * (3 * x) && r * (3 * x) + 3 * x <= |bip| && (y - 1 - r) * (Words(x, 24) * 4) >= 0
  {
    hide Words;
    RowFits(r, y, 3 * x);
    Grows(0, r, 3 * x);
    Grows(0, y - 1 - r, Words(x, 24) * 4);
  }

  lemma PixelOfRow(x: nat, y: nat, bip: seq<byte>, start: nat, c: nat, b: nat, p: nat)
    requires y * (3 * x) <= |bip| && start + 3 * x <= |bip| && c < x && b < 3
    requires Part(Lines24(bip, x, y), p, 3 * x) == Row24(bip, start, x)
    ensures Part(BmpFile(x, y, 3, bip), 54 + (p + 3 * c + (2 - b)), 1) == Part(bip, start + 3 * c + b, 1) != []
  {
    hide HeaderThen, Lines24, Line24;
    var line := Line24(bip, start, x);
    Line24Length(bip, start, x);
    ByteOfLine24(bip, start, x, c, b);
    OneOfPart(Lines24(bip, x, y), p, line, 3 * c + 2 - b);
    HeaderTail(x, y, 24, 0, Lines24(bip, x, y), p + 3 * c + 2 - b, 1);
  }

  /** The same for one band, behind a palette of 256 greys. */
  lemma PixelOfFile8(x: nat, y: nat, bip: seq<byte>, r: nat, c: nat)
    requires y * x <= |bip| && r < y && c < x
    ensures Part(BmpFile(x, y, 1, bip), 1078 + ((y - 1 - r) * ((x * 8 + 31) / 32 * 4) + c), 1)
            == Part(bip, r * x + c, 1) != []
  {
    hide HeaderThen, Lines8, Greys;
    LineAt8(bip, x, y, r);
    RowInImage8(x, y, bip, r);
    PixelOfRow8(x, y, bip, r * x, c, (y - 1 - r) * (Words(x, 8) * 4));
  }

  lemma RowInImage8(x: nat, y: nat, bip: seq<byte>, r: nat)
    requires y * x <= |bip| && r < y
    ensures 0 <= r * x && r * x + x <= |bip| && (y - 1 - r) * (Words(x, 8) * 4) >= 0
  {
    hide Words;
    RowFits(r, y, x);
    Grows(0, r, x);
    Grows(0, y - 1 - r, Words(x, 8) * 4);
  }

  lemma PixelOfRow8(x: nat, y: nat, bip: seq<byte>, start: nat, c: nat, p: nat)
    requires y * x <= |bip| && start + x <= |bip| && c < x
    requires Part(Lines8(bip, x, y), p, x) == Part(bip, start, x)
    ensures Part(BmpFile(x, y, 1, bip), 1078 + (p + c), 1) == Part(bip, start + c, 1) != []
  {
    hide HeaderThen, Lines8, Greys;
    var lines := Lines8(bip, x, y);
    OneOfPart(lines, p, Part(bip, start, x), c);
    OneOfPart(bip, start, Part(bip, start, x), c);
    GreysLength(0);
    PartBehind(Greys(0), lines, p + c, 1);
    HeaderTail(x, y, 8, 256, Greys(0) + lines, 1024 + p + c, 1);
  }

  lemma GreyOfFile(x: nat, y: nat, bip: seq<byte>, k: nat, j: nat)
    requires y * x <= |bip| && k < 256 && j < 4
    ensures Part(BmpFile(x, y, 1, bip), 54 + (4 * k + j), 1) == [if j < 3 then k else 0]
  {
    hide HeaderThen, Lines8, Greys;
    GreyAt(0, k, j);
    GreysLength(0);
    PartBefore(Greys(0), Lines8(bip, x, y), 4 * k + j, 1);
    HeaderTail(x, y, 8, 256, Greys(0) + Lines8(bip, x, y), 4 * k + j, 1);
  }

  /** The fields of the header that a reader goes by. */
  lemma HeaderFields(x: nat, y: nat, z: nat, bip: seq<byte>)
    requires (z == 1 || z == 3) && y * (z * x) <= |bip|
    requires x < 4294967296 && y < 4294967296
    ensures var file := BmpFile(x, y, z, bip);
            && |file| >= 54 && file[..2] == [66, 77]
            && NumberAt(file, 10) == (if z == 3 then 54 else 1078) && NumberAt(file, 14) == 40
            && NumberAt(file, 18) == x && NumberAt(file, 22) == y && NumberAt(file, 26) == 1 + 65536 * (8 * z)
            && NumberAt(file, 30) == 0 && NumberAt(file, 46) == (if z == 3 then 0 else 256)
  {
    hide HeaderThen, Lines24, Lines8, Greys, NumberAt, Words;
    var tail := if z == 3 then Lines24(bip, x, y) else Greys(0) + Lines8(bip, x, y);
    HeaderNumbers(x, y, 8 * z, if z == 3 then 0 else 256, tail);
  }

  /** The header gives the size of the file, and that of the image data behind the offset. */
  ghost predicate RightFileSize(file: seq<byte>) {
    |file| >= 54 && NumberAt(file, 2) == |file|
  }

  ghost predicate RightImageSize(file: seq<byte>) {
    |file| >= 54 && NumberAt(file, 34) == |file| - NumberAt(file, 10)
  }

  /** The writer takes a word for three bytes. So both sizes are right exactly if the image is
      empty, and each is short by a byte for every word if it fits 32 bits at all. */
  lemma HeaderSizes(x: nat, y: nat, z: nat, bip: seq<byte>)
    requires (z == 1 || z == 3) && y * (z * x) <= |bip|
    ensures var file, words := BmpFile(x, y, z, bip), y * Words(x, 8 * z);
            && (RightFileSize(file) <==> x == 0 || y == 0)
            && (RightImageSize(file) <==> x == 0 || y == 0)
            && |file| >= 54
            && (|file| < 4294967296 ==>
                  && NumberAt(file, 2) + words == |file|
                  && NumberAt(file, 34) + words == |file| - NumberAt(file, 10))
  {
    hide HeaderThen, Lines24, Lines8, Greys, NumberAt, Words;
    var nc, w := if z == 3 then 0 else 256, Words(x, 8 * z);
    var tail := if z == 3 then Lines24(bip, x, y) else Greys(0) + Lines8(bip, x, y);
    if z == 3 {
      Lines24Length(bip, x, y);
    } else {
      Lines8Length(bip, x, y);
    }
    GreysLength(0);
    HeaderNumbers(x, y, 8 * z, nc, tail);
    WordsTimes(w, y);
    NoWords(x, y, 8 * z);
    var file := BmpFile(x, y, z, bip);
    SizesAdd(nc, y * w, |file|, NumberAt(file, 2), NumberAt(file, 10), NumberAt(file, 34));
  }

  lemma SizesAdd(nc: nat, words: nat, length: nat, size: nat, offset: nat, imageSize: nat)
    requires nc <= 256 && length == 54 + nc * 4 + 4 * words
    requires size == (54 + nc * 4 + 3 * words) % 4294967296
    requires offset == (54 + nc * 4) % 4294967296 && imageSize == 3 * words % 4294967296
    ensures size == length <==> words == 0
    ensures imageSize == length - offset <==> words == 0
    ensures length < 4294967296 ==> size + words == length && imageSize + words == length - offset
  {}

  lemma WordsTimes(w: nat, y: nat)
    ensures w * 3 * y == 3 * (y * w) && y * (w * 4) == 4 * (y * w)
  {}

  lemma NoWords(x: nat, y: nat, nbits: nat)
    requires nbits > 0
    ensures y * Words(x, nbits) == 0 <==> x == 0 || y == 0
  {
    if x > 0 && y > 0 {
      Grows(1, x, nbits);
      assert Words(x, nbits) >= 1;
      MulPositive(y, Words(x, nbits));
    }
  }

  /** An image of one black pixel: a file of 1082 bytes, 4 of them image data, for which the header
      says 1081 and 3. */
  lemma OnePixelSizes()
    ensures var file := BmpFile(1, 1, 1, [0]);
            |file| == 1082 && NumberAt(file, 2) == 1081 && NumberAt(file, 10) == 1078 && NumberAt(file, 34) == 3
  {
    hide HeaderThen, Lines8, Greys, NumberAt;
    Lines8Length([0], 1, 1);
    GreysLength(0);
    HeaderNumbers(1, 1, 8, 256, Greys(0) + Lines8([0], 1, 1));
  }

  // ----- writing

  /** A file that is written from front to back. */
  class Sink {
    var file: seq<byte>

    constructor ()
      ensures file == []
    {
      file := [];
    }

    method PutC(c: byte)
      modifies this
      ensures file == old(file) + [c]
    {
      file := file + [c];
    }

    /** Writes a number; `whole` is what the file is to become. */
    method PutShort(n: nat, ghost whole: seq<byte>, ghost tail: seq<byte>)
      requires whole == file + (ShortBytes(n) + tail)
      modifies this
      ensures whole == file + tail
    {
      PutC(n % 256);
      PutC(n / 256 % 256);
    }

    method PutInt(n: nat, ghost whole: seq<byte>, ghost tail: seq<byte>)
      requires whole == file + (IntBytes(n) + tail)
      modifies this
      ensures whole == file + tail
    {
      PutC(n % 256);
      PutC(n / 256 % 256);
      PutC(n / 65536 % 256);
      PutC(n / 16777216 % 256);
    }

    method PutZeros(n: nat, ghost whole: seq<byte>, ghost tail: seq<byte>)
      requires whole == file + (Zeros(n) + tail)
      modifies this
      ensures whole == file + tail
    {
      ghost var was := file;
      for j := 0 to n
        invariant file == was + Zeros(j)
      {
        PutC(0);
        assert Zeros(j + 1) == Zeros(j) + [0];
      }
    }

    method PutHeader(x: nat, y: nat, nbits: nat, nc: nat, ghost tail: seq<byte>)
      requires file == []
      modifies this
      ensures HeaderThen(x, y, nbits, nc, tail) == file + tail
    {
      hide IntBytes, ShortBytes;
      var bperlin := (x * nbits + 31) / 32 * 3;
      ghost var whole := HeaderThen(x, y, nbits, nc, tail);
      ghost var info := InfoThen(x, y, nbits, nc, bperlin * y, tail);
      PutC(66);
      PutC(77);
      PutInt(54 + nc * 4 + bperlin * y, whole, ShortBytes(0) + (ShortBytes(0) + (IntBytes(54 + nc * 4) + info)));
      PutShort(0, whole, ShortBytes(0) + (IntBytes(54 + nc * 4) + info));
      PutShort(0, whole, IntBytes(54 + nc * 4) + info);
      PutInt(54 + nc * 4, whole, info);
      PutInfo(x, y, nbits, nc, bperlin * y, whole, tail);
    }

    method PutInfo(x: nat, y: nat, nbits: nat, nc: nat, imageSize: nat, ghost whole: seq<byte>, ghost tail: seq<byte>)
      requires whole == file + InfoThen(x, y, nbits, nc, imageSize, tail)
      modifies this
      ensures whole == file + tail
    {
      hide IntBytes, ShortBytes;
      ghost var colours := IntBytes(nc) + (IntBytes(nc) + tail);
      ghost var sizes := IntBytes(imageSize) + (IntBytes(2925) + (IntBytes(2925) + colours));
      PutInt(40, whole,
             IntBytes(x) + (IntBytes(y) + (ShortBytes(1) + (ShortBytes(nbits) + (IntBytes(BI_RGB) + sizes)))));
      PutInt(x, whole, IntBytes(y) + (ShortBytes(1) + (ShortBytes(nbits) + (IntBytes(BI_RGB) + sizes))));
      PutInt(y, whole, ShortBytes(1) + (ShortBytes(nbits) + (IntBytes(BI_RGB) + sizes)));
      PutShort(1, whole, ShortBytes(nbits) + (IntBytes(BI_RGB) + sizes));
      PutShort(nbits, whole, IntBytes(BI_RGB) + sizes);
      PutInt(BI_RGB, whole, sizes);
      PutInt(imageSize, whole, IntBytes(2925) + (IntBytes(2925) + colours));
      PutInt(75 * 39, whole, IntBytes(2925) + colours);
      PutInt(75 * 39, whole, colours);
      PutInt(nc, whole, IntBytes(nc) + tail);
      PutInt(nc, whole, tail);
    }

    method WriteLine24(data: seq<byte>, w: nat, start: nat, ghost whole: seq<byte>, ghost tail: seq<byte>)
      requires start + 3 * w <= |data| && whole == file + (Line24(data, start, w) + tail)
      modifies this
      ensures whole == file + tail
    {
      hide Line24;
      var pp := start;
      for j := 0 to w
        invariant pp == start + 3 * j && whole == file + (Line24(data, pp, w - j) + tail)
      {
        NextPixel24(data, pp, w - j);
        ghost var more := Line24(data, pp + 3, w - j - 1);
        assert whole == file + ([data[pp + 2]] + ([data[pp + 1]] + ([data[pp]] + (more + tail))));
        PutC(data[pp + 2]);
        PutC(data[pp + 1]);
        PutC(data[pp]);
        pp := pp + 3;
      }
      NoPixel24(data, pp);
    }

    /** Writes 24-bit lines, the last one of the image first. */
    method WriteBMP24(data: seq<byte>, w: nat, h: nat)
      requires h * (3 * w) <= |data|
      modifies this
      ensures file == old(file) + Lines24(data, w, h)
    {
      hide Line24, Lines24, Zeros, Pad24;
      ghost var whole := file + Lines24(data, w, h);
      var padb := Pad24(w);
      var i: nat := h;
      while i > 0
        invariant i <= h && i * (3 * w) <= |data| && whole == file + Lines24(data, w, i)
      {
        NextLine24(data, w, i);
        i := i - 1;
        WriteLine24(data, w, i * (3 * w), whole, Zeros(padb) + Lines24(data, w, i));
        PutZeros(padb, whole, Lines24(data, w, i));
      }
      NoLines(data, w);
    }

    method WriteLine8(data: seq<byte>, w: nat, start: nat, ghost whole: seq<byte>, ghost tail: seq<byte>)
      requires start + w <= |data| && whole == file + (data[start..start + w] + tail)
      modifies this
      ensures whole == file + tail
    {
      ghost var line := data[start..start + w];
      var pp := start;
      for j := 0 to w
        invariant pp == start + j && whole == file + (line[j..] + tail)
      {
        assert line[j..] == [data[pp]] + line[j + 1..];
        assert whole == file + ([data[pp]] + (line[j + 1..] + tail));
        PutC(data[pp]);
        pp := pp + 1;
      }
    }

    /** Writes 8-bit lines, the last one of the image first. */
    method WriteBMP8(data: seq<byte>, w: nat, h: nat)
      requires h * w <= |data|
      modifies this
      ensures file == old(file) + Lines8(data, w, h)
    {
      hide Lines8, Zeros;
      assert (w + 3) / 4 * 4 - w == Pad8(w);
      hide Pad8;
      ghost var whole := file + Lines8(data, w, h);
      var padw := (w + 3) / 4 * 4;
      var i: nat := h;
      while i > 0
        invariant i <= h && i * w <= |data| && whole == file + Lines8(data, w, i)
      {
        NextLine8(data, w, i);
        i := i - 1;
        WriteLine8(data, w, i * w, whole, Zeros(padw - w) + Lines8(data, w, i));
        PutZeros(padw - w, whole, Lines8(data, w, i));
      }
      NoLines(data, w);
    }

    method WriteGreys()
      modifies this
      ensures file == old(file) + Greys(0)
    {
      hide Greys;
      ghost var whole := file + Greys(0);
      for i := 0 to 256
        invariant whole == file + Greys(i)
      {
        NextGrey(i);
        PutC(i);
        PutC(i);
        PutC(i);
        PutC(0);
        assert whole == file + Greys(i + 1);
      }
      LastGrey();
    }
  }

  lemma NextGrey(i: nat)
    requires i < 256
    ensures Greys(i) == [i, i, i, 0] + Greys(i + 1)
  {}

  lemma LastGrey()
    ensures Greys(256) == []
  {}

  lemma NextLine24(data: seq<byte>, w: nat, i: nat)
    requires 0 < i && i * (3 * w) <= |data|
    ensures i * (3 * w) == (i - 1) * (3 * w) + 3 * w && 0 <= (i - 1) * (3 * w)
    ensures Lines24(data, w, i)
            == Line24(data, (i - 1) * (3 * w), w) + (Zeros(Pad24(w)) + Lines24(data, w, i - 1))
  {
    hide Line24;
    LineFits(i, 3 * w);
  }

  lemma NextPixel24(data: seq<byte>, at: nat, n: nat)
    requires n > 0 && at + 3 * n <= |data|
    ensures Line24(data, at, n) == [data[at + 2], data[at + 1], data[at]] + Line24(data, at + 3, n - 1)
  {}

  lemma NoPixel24(data: seq<byte>, at: nat)
    requires at <= |data|
    ensures Line24(data, at, 0) == []
  {}

  lemma NoLines(data: seq<byte>, w: nat)
    ensures 0 * (3 * w) == 0 && Lines24(data, w, 0) == [] && Lines8(data, w, 0) == []
  {}

  lemma NextLine8(data: seq<byte>, w: nat, i: nat)
    requires 0 < i && i * w <= |data|
    ensures i * w == (i - 1) * w + w
    ensures Lines8(data, w, i)
            == data[(i - 1) * w..(i - 1) * w + w] + (Zeros(Pad8(w)) + Lines8(data, w, i - 1))
  {
    LineFits(i, w);
  }

  // ----- whole files

  /** Writes an image of one or three bands. */
  method WriteBMP(indata: seq<byte>, org: Org, size: Dims) returns (file: seq<byte>)
    requires size.Positive() && |indata| == size.Total() && (Bands(size, org) == 1 || Bands(size, org) == 3)
    ensures Whole(size, org)
    ensures file == BmpFile(Samples(size, org), Lines(size, org), Bands(size, org),
                            Bip(indata, org, size, 1, size.Total()))
    ensures !RightFileSize(file) && !RightImageSize(file)
  {
    hide HeaderThen, Lines24, Lines8, Greys, Bip, RightFileSize, RightImageSize;
    var x, y, z := Samples(size, org), Lines(size, org), Bands(size, org);
    WholeImage(size, org);
    var data := indata;
    if org == BIP {
      BipOfBip(indata, size, 1, size.Total());
      assert indata[..size.Total() * 1] == indata;
    } else {
      var bip := ConvertToBIP(indata, org, size, 1);
      data := bip[..];
    }
    var out := new Sink();
    if z == 3 {
      out.PutHeader(x, y, 24, 0, Lines24(data, x, y));
      out.WriteBMP24(data, x, y);
    } else {
      out.PutHeader(x, y, 8, 256, Greys(0) + Lines8(data, x, y));
      ghost var head := out.file;
      out.WriteGreys();
      out.WriteBMP8(data, x, y);
      assert head + Greys(0) + Lines8(data, x, y) == head + (Greys(0) + Lines8(data, x, y));
    }
    file := out.file;
    HeaderSizes(x, y, z, data);
  }

  ghost predicate Whole(size: Dims, org: Org) {
    Lines(size, org) * (Bands(size, org) * Samples(size, org)) == size.Total()
  }

  lemma WholeImage(size: Dims, org: Org)
    ensures Whole(size, org)
  {
    var a, b, c := size.d0, size.d1, size.d2;
    match org
    case BSQ => assert b * (c * a) == c * (b * a);
    case BIL => assert c * (b * a) == c * (b * a);
    case BIP => assert c * (a * b) == c * (b * a);
  }

  datatype Info = Info(width: nat, height: nat, planes: nat, bitCount: nat, compression: nat, clrUsed: nat)

  /** Reads the info header after its size. */
  method GetInfo(fp: Stream, ghost x: nat, ghost y: nat, ghost nbits: nat, ghost nc: nat, ghost imageSize: nat,
                 ghost tail: seq<byte>) returns (info: Info)
    requires fp.rest == InfoAfterSize(x, y, nbits, nc, imageSize, tail)
    requires x < 4294967296 && y < 4294967296 && nbits < 65536 && nc < 4294967296 && imageSize < 4294967296
    modifies fp
    ensures info == Info(x, y, 1, nbits, BI_RGB, nc) && fp.rest == tail
  {
    hide IntBytes, ShortBytes;
    ghost var colours := IntBytes(nc) + (IntBytes(nc) + tail);
    ghost var sizes := IntBytes(imageSize) + (IntBytes(2925) + (IntBytes(2925) + colours));
    var biWidth := fp.GetInt(x, IntBytes(y) + (ShortBytes(1) + (ShortBytes(nbits) + (IntBytes(BI_RGB) + sizes))));
    var biHeight := fp.GetInt(y, ShortBytes(1) + (ShortBytes(nbits) + (IntBytes(BI_RGB) + sizes)));
    var biPlanes := fp.GetShort(1, ShortBytes(nbits) + (IntBytes(BI_RGB) + sizes));
    var biBitCount := fp.GetShort(nbits, IntBytes(BI_RGB) + sizes);
    var biCompression := fp.GetInt(BI_RGB, sizes);
    var biSizeImage := fp.GetInt(imageSize, IntBytes(2925) + (IntBytes(2925) + colours));
    var biXPelsPerMeter := fp.GetInt(2925, IntBytes(2925) + colours);
    var biYPelsPerMeter := fp.GetInt(2925, colours);
    var biClrUsed := fp.GetInt(nc, IntBytes(nc) + tail);
    var biClrImportant := fp.GetInt(nc, tail);
    info := Info(biWidth, biHeight, biPlanes, biBitCount, biCompression, biClrUsed);
  }

  function InfoAfterSize(x: nat, y: nat, nbits: nat, nc: nat, imageSize: nat, tail: seq<byte>): seq<byte> {
    IntBytes(x) + (IntBytes(y) + (ShortBytes(1) + (ShortBytes(nbits) + (IntBytes(BI_RGB)
    + (IntBytes(imageSize) + (IntBytes(2925) + (IntBytes(2925) + (IntBytes(nc) + (IntBytes(nc) + tail)))))))))
  }

  /** Reads the header of a file. */
  method GetHeader(fp: Stream, ghost x: nat, ghost y: nat, ghost nbits: nat, ghost nc: nat, ghost tail: seq<byte>)
    returns (info: Info, bfOffBits: nat, biSize: nat)
    requires fp.rest == HeaderThen(x, y, nbits, nc, tail)
    requires x < 4294967296 && y < 4294967296 && nbits < 65536 && nc <= 256
    requires 54 + 1024 + (x * nbits + 31) / 32 * 3 * y < 4294967296
    modifies fp
    ensures info == Info(x, y, 1, nbits, BI_RGB, nc) && bfOffBits == 54 + nc * 4 && biSize == 40 && fp.rest == tail
  {
    hide IntBytes, ShortBytes;
    ghost var imageSize := (x * nbits + 31) / 32 * 3 * y;
    ghost var after := IntBytes(40) + InfoAfterSize(x, y, nbits, nc, imageSize, tail);
    ghost var fields := ShortBytes(0) + (ShortBytes(0) + (IntBytes(54 + nc * 4) + after));
    assert fp.rest == [66] + ([77] + (IntBytes(54 + nc * 4 + imageSize) + fields));
    var b := fp.GetC(66, [77] + (IntBytes(54 + nc * 4 + imageSize) + fields));
    var m := fp.GetC(77, IntBytes(54 + nc * 4 + imageSize) + fields);
    var bfSize := fp.GetInt(54 + nc * 4 + imageSize, fields);
    var reserved1 := fp.GetShort(0, ShortBytes(0) + (IntBytes(54 + nc * 4) + after));
    var reserved2 := fp.GetShort(0, IntBytes(54 + nc * 4) + after);
    bfOffBits := fp.GetInt(54 + nc * 4, after);
    biSize := fp.GetInt(40, InfoAfterSize(x, y, nbits, nc, imageSize, tail));
    assert biSize == WIN_NEW || biSize == OS2_NEW;
    info := GetInfo(fp, x, y, nbits, nc, imageSize, tail);
  }

  /** The checks on the header before an image is read. */
  predicate Bogus(info: Info) {
    || (info.bitCount != 1 && info.bitCount != 4 && info.bitCount != 8 && info.bitCount != 24 && info.bitCount != 32)
    || info.planes != 1 || info.compression > BI_RLE4
    || ((info.bitCount == 1 || info.bitCount == 24 || info.bitCount != 32) && info.compression != BI_RGB)
  }

  /** Reads a file that was written so: the image comes back with all its bytes. */
  method ReadBMP(file: seq<byte>, ghost x: nat, ghost y: nat, ghost z: nat, ghost bip: seq<byte>)
    returns (ok: bool, xout: nat, yout: nat, zout: nat, dout: array<byte>)
    requires (z == 1 || z == 3) && y * (z * x) == |bip| && x < 2147483648 && y < 2147483648
    requires 54 + 1024 + (x * 24 + 31) / 32 * 3 * y < 4294967296
    requires file == BmpFile(x, y, z, bip)
    ensures ok && xout == x && yout == y && zout == z && dout[..] == bip
  {
    hide HeaderThen, Lines24, Lines8, Greys;
    ghost var nbits, nc := if z == 3 then 24 else 8, if z == 3 then 0 else 256;
    ghost var tail := if z == 3 then Lines24(bip, x, y) else Greys(0) + Lines8(bip, x, y);
    SmallerImage(x, y);
    var fp := new Stream(file);
    var info, bfOffBits, biSize := GetHeader(fp, x, y, nbits, nc, tail);
    xout, yout, zout, ok := info.width, info.height, 1, !Bogus(info);
    assert ok;
    var bPad: int := bfOffBits - (biSize + 14);
    if info.bitCount != 24 {
      var red, green, blue := new byte[256](_ => 0), new byte[256](_ => 0), new byte[256](_ => 0);
      zout, bPad := fp.LoadPalette(info.clrUsed, red, green, blue, bPad, Lines8(bip, x, y));
      assert fp.rest == Zeros(0) + fp.rest;
      fp.Skip(bPad, Lines8(bip, x, y));
      dout := new byte[yout * (zout * xout)](_ => 0);
      fp.LoadBMP8(dout, xout, yout, red, bip);
    } else {
      zout := 3;
      assert fp.rest == Zeros(0) + fp.rest;
      fp.Skip(bPad, Lines24(bip, x, y));
      dout := new byte[yout * (zout * xout)](_ => 0);
      fp.LoadBMP24(dout, xout, yout, bip);
    }
  }

  lemma SmallerImage(x: nat, y: nat)
    ensures (x * 8 + 31) / 32 * 3 * y <= (x * 24 + 31) / 32 * 3 * y
  {
    Grows((x * 8 + 31) / 32 * 3, (x * 24 + 31) / 32 * 3, y);
  }
}
