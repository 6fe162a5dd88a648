/** Compressed image data as a file holds it, and what reading lines of pixels from it
    yields. */
module LzwStream {
  import opened Common
  import opened Bits
  import opened SubBlocks
  import opened Lzw

  // ----- writing an image

  function ImageCodes(bpp: nat, pixels: seq<byte>): seq<nat>
    requires BitsPerPixel(bpp) && Pixels(bpp, pixels) && pixels != []
  {
    [Clear(bpp)] + CompressAll(bpp, pixels) + [Eof(bpp)]
  }

  /** The image data of a GIF file: the code size and the chain of sub-blocks. */
  function EncodeImage(bpp: nat, pixels: seq<byte>): seq<byte>
    requires BitsPerPixel(bpp) && Pixels(bpp, pixels) && pixels != []
  {
    var size: byte := bpp;
    [size] + Chain(BitsToBytes(Serialize(bpp, 0, ImageCodes(bpp, pixels))))
  }

  // ----- reading pixels

  /** Bits not read yet; whether the file breaks off after them; the expander's table; and
      the pixels of the last code that no line has taken yet. */
  datatype Source = Source(bits: seq<bool>, cut: bool, table: Table, pending: Str)

  /** `Unsupported` stands for two streams that the decoder does not check for: the table
      grows past code 4095, or the empty block comes before the pixels are complete. */
  datatype Pixel = Pixel(value: byte, rest: Source) | AtEof | Defect | Unsupported

  function NextPixel(bpp: nat, src: Source): (r: Pixel)
    requires BitsPerPixel(bpp) && Fits(bpp, src.table)
    ensures r.Pixel? ==> Fits(bpp, r.rest.table)
    decreases |src.bits|
  {
    if src.pending != [] then
      Pixel(src.pending[0], src.(pending := src.pending[1..]))
    else
      var w := Width(bpp, Count(src.table));
      if |src.bits| < w then if src.cut then Defect else Unsupported
      else
        var code, bits := FromBits(src.bits[..w]), src.bits[w..];
        assert code <= MAX_CODE by { Pow2Monotone(w, MAX_BITS); SmallPowers(); }
        if code == Eof(bpp) then AtEof
        else if code == Clear(bpp) then CodeRanges(bpp); NextPixel(bpp, Source(bits, src.cut, EMPTY, []))
        else
          var s := Lookup(bpp, src.table, code);
          if s == [] then Defect
          else if !Fits(bpp, Learn(src.table, s)) then Unsupported
          else Pixel(s[0], Source(bits, src.cut, Learn(src.table, s), s[1..]))
  }

  /** A line of pixels. An EOF code in the place of the last pixel of the image is let pass,
      and leaves that pixel as it was. */
  datatype Line = Line(pixels: Str, rest: Source) | LastMissing(pixels: Str) | Bad | Beyond

  function ReadLine(bpp: nat, src: Source, n: nat, final: bool): (r: Line)
    requires BitsPerPixel(bpp) && Fits(bpp, src.table)
    ensures r.Line? ==> |r.pixels| == n && Fits(bpp, r.rest.table)
    ensures r.LastMissing? ==> |r.pixels| == n - 1 && final
    decreases n
  {
    if n == 0 then Line([], src)
    else
      match NextPixel(bpp, src)
      case AtEof => if n == 1 && final then LastMissing([]) else Bad
      case Defect => Bad
      case Unsupported => Beyond
      case Pixel(p, rest) => Prepend([p], ReadLine(bpp, rest, n - 1, final))
  }

  function Prepend(s: Str, line: Line): Line
  {
    match line
    case Line(pixels, rest) => Line(s + pixels, rest)
    case LastMissing(pixels) => LastMissing(s + pixels)
    case _ => line
  }

  lemma PrependKinds(s: Str, line: Line)
    ensures Prepend(s, line).Beyond? <==> line.Beyond?
    ensures line.Bad? ==> Prepend(s, line) == Bad
    ensures line.LastMissing? ==> Prepend(s, line) == LastMissing(s + line.pixels)
  {}

  lemma PrependTwice(s: Str, t: Str, line: Line)
    ensures Prepend(s, Prepend(t, line)) == Prepend(s + t, line)
    ensures Prepend([], line) == line
  {
    if line.Line? || line.LastMissing? {
      assert s + (t + line.pixels) == s + t + line.pixels;
      assert [] + line.pixels == line.pixels;
    }
  }

  /** Lines may be cut anywhere: reading m pixels and then n is reading m + n. */
  lemma {:induction false} ReadTwoLines(bpp: nat, src: Source, m: nat, n: nat, final: bool)
    requires BitsPerPixel(bpp) && Fits(bpp, src.table)
    requires ReadLine(bpp, src, m, false).Line?
    ensures var line := ReadLine(bpp, src, m, false);
            ReadLine(bpp, src, m + n, final) == Prepend(line.pixels, ReadLine(bpp, line.rest, n, final))
    decreases m
  {
    hide NextPixel;
    if m == 0 {
      PrependTwice([], [], ReadLine(bpp, src, n, final));
    } else {
      var r := NextPixel(bpp, src);
      var line := ReadLine(bpp, r.rest, m - 1, false);
      assert ReadLine(bpp, src, m, false) == Prepend([r.value], line);
      assert ReadLine(bpp, src, m + n, final) == Prepend([r.value], ReadLine(bpp, r.rest, m - 1 + n, final));
      hide ReadLine;
      ReadTwoLines(bpp, r.rest, m - 1, n, final);
      PrependTwice([r.value], line.pixels, ReadLine(bpp, line.rest, n, final));
    }
  }

  /** Pixels that wait to be taken come first. */
  lemma {:induction false} TakePending(bpp: nat, src: Source, k: nat, n: nat, final: bool)
    requires BitsPerPixel(bpp) && Fits(bpp, src.table)
    requires k <= n && k <= |src.pending|
    ensures ReadLine(bpp, src, n, final)
            == Prepend(src.pending[..k], ReadLine(bpp, src.(pending := src.pending[k..]), n - k, final))
    decreases k
  {
    hide Lookup, Width, Expand, NextPixel, Prepend, Fits;
    if k == 0 {
      hide ReadLine;
      PrependTwice([], [], ReadLine(bpp, src, n, final));
      assert src.pending[0..] == src.pending;
    } else {
      var p, rest := src.pending[0], src.(pending := src.pending[1..]);
      PopPending(bpp, src);
      assert ReadLine(bpp, src, n, final) == Prepend([p], ReadLine(bpp, rest, n - 1, final));
      hide ReadLine;
      TakePending(bpp, rest, k - 1, n - 1, final);
      assert rest.pending[k - 1..] == src.pending[k..];
      assert [p] + rest.pending[..k - 1] == src.pending[..k];
      PrependTwice([p], rest.pending[..k - 1], ReadLine(bpp, src.(pending := src.pending[k..]), n - k, final));
    }
  }

  /** The code that comes first in the bits. */
  function FirstCode(bpp: nat, src: Source): nat
    requires BitsPerPixel(bpp) && Width(bpp, Count(src.table)) <= |src.bits|
  {
    FromBits(src.bits[..Width(bpp, Count(src.table))])
  }

  function AfterCode(bpp: nat, src: Source): seq<bool>
    requires BitsPerPixel(bpp) && Width(bpp, Count(src.table)) <= |src.bits|
  {
    src.bits[Width(bpp, Count(src.table))..]
  }

  /** The rest of a line of `n` pixels, when a code has just been read. */
  predicate ByCode(bpp: nat, src: Source, code: nat, n: nat, final: bool, line: Line)
    requires BitsPerPixel(bpp) && Fits(bpp, src.table) && code <= MAX_CODE
  {
    if code == Eof(bpp) then line == if n == 1 && final then LastMissing([]) else Bad
    else if code == Clear(bpp) then
      Fits(bpp, EMPTY) && line == ReadLine(bpp, src.(table := EMPTY, pending := []), n, final)
    else
      var s := Lookup(bpp, src.table, code);
      if s == [] then line == Bad
      else if !Fits(bpp, Learn(src.table, s)) then line == Beyond
      else line == ReadLine(bpp, src.(table := Learn(src.table, s), pending := s), n, final)
  }

  /** What a line that needs another code turns on. */
  lemma LineByCode(bpp: nat, src: Source, n: nat, final: bool)
    requires BitsPerPixel(bpp) && Fits(bpp, src.table) && src.pending == [] && n > 0
    ensures var line := ReadLine(bpp, src, n, final);
            if Width(bpp, Count(src.table)) > |src.bits| then line == if src.cut then Bad else Beyond
            else
              var code, bits := FirstCode(bpp, src), AfterCode(bpp, src);
              code <= MAX_CODE && ByCode(bpp, src.(bits := bits), code, n, final, line)
  {
    CodeRanges(bpp);
    Pow2Monotone(Width(bpp, Count(src.table)), MAX_BITS);
    TwelveBits();
  }

  // ----- reading back what was written

  predicate Yields(bpp: nat, src: Source, n: nat, final: bool, pixels: Str)
    requires BitsPerPixel(bpp) && Fits(bpp, src.table)
  {
    var line := ReadLine(bpp, src, n, final);
    line.Line? && line.pixels == pixels
  }

  lemma YieldsAfterPixel(bpp: nat, src: Source, n: nat, final: bool, src': Source, p: byte, pixels: Str)
    requires BitsPerPixel(bpp) && Fits(bpp, src.table) && Fits(bpp, src'.table)
    requires n > 0 && NextPixel(bpp, src) == Pixel(p, src')
    requires Yields(bpp, src', n - 1, final, pixels)
    ensures Yields(bpp, src, n, final, [p] + pixels)
  {}

  lemma YieldsAfterClear(bpp: nat, src: Source, n: nat, final: bool, src': Source, pixels: Str)
    requires BitsPerPixel(bpp) && Fits(bpp, src.table) && Fits(bpp, src'.table)
    requires n > 0 && NextPixel(bpp, src) == NextPixel(bpp, src')
    requires Yields(bpp, src', n, final, pixels)
    ensures Yields(bpp, src, n, final, pixels)
  {}

  lemma PopPending(bpp: nat, src: Source)
    requires BitsPerPixel(bpp) && Fits(bpp, src.table) && src.pending != []
    ensures NextPixel(bpp, src) == Pixel(src.pending[0], src.(pending := src.pending[1..]))
  {}

  /** Bits that start with a run of meaningful codes yield the pixels that the run means. */
  lemma {:induction false} ReadCodes(bpp: nat, src: Source, codes: seq<nat>, extra: seq<bool>, n: nat, final: bool)
    requires BitsPerPixel(bpp) && Fits(bpp, src.table)
    requires Expand(bpp, src.table, codes).Means?
    requires src.bits == Serialize(bpp, Count(src.table), codes) + extra
    requires n <= |src.pending| + |Expand(bpp, src.table, codes).pixels|
    ensures Yields(bpp, src, n, final, (src.pending + Expand(bpp, src.table, codes).pixels)[..n])
    decreases |codes|, |src.pending|
  {
    hide Pow2, Width, NextPixel, Next;
    var pixels := Expand(bpp, src.table, codes).pixels;
    if n == 0 {
    } else if src.pending != [] {
      var src' := src.(pending := src.pending[1..]);
      ReadCodes(bpp, src', codes, extra, n - 1, final);
      PopPending(bpp, src);
      YieldsAfterPixel(bpp, src, n, final, src', src.pending[0], (src'.pending + pixels)[..n - 1]);
      TakeOne(src.pending, pixels, n);
    } else {
      var src', s := ReadOneCode(bpp, src, codes, extra);
      var rest := Expand(bpp, src'.table, codes[1..]).pixels;
      assert pixels == src.pending + pixels;
      if s == [] {
        assert pixels == rest == src'.pending + rest;
        ReadCodes(bpp, src', codes[1..], extra, n, final);
        YieldsAfterClear(bpp, src, n, final, src', pixels[..n]);
      } else {
        ReadCodes(bpp, src', codes[1..], extra, n - 1, final);
        YieldsAfterPixel(bpp, src, n, final, src', s[0], (src'.pending + rest)[..n - 1]);
        TakeOne(s, rest, n);
      }
    }
  }

  lemma TakeOne(s: Str, t: Str, n: nat)
    requires s != [] && 0 < n <= |s| + |t|
    ensures (s + t)[..n] == [s[0]] + (s[1..] + t)[..n - 1]
  {}

  /** Reading the first code of such bits: a Clear (`s` is empty), or the string `s`. */
  lemma ReadOneCode(bpp: nat, src: Source, codes: seq<nat>, extra: seq<bool>) returns (src': Source, s: Str)
    requires BitsPerPixel(bpp) && Fits(bpp, src.table) && src.pending == []
    requires codes != [] && Expand(bpp, src.table, codes).Means?
    requires src.bits == Serialize(bpp, Count(src.table), codes) + extra
    ensures Fits(bpp, src'.table) && src'.bits == Serialize(bpp, Count(src'.table), codes[1..]) + extra
    ensures Expand(bpp, src'.table, codes[1..]).Means?
    ensures Expand(bpp, src.table, codes).pixels == s + Expand(bpp, src'.table, codes[1..]).pixels
    ensures NextPixel(bpp, src) == if s == [] then NextPixel(bpp, src') else Pixel(s[0], src')
    ensures src'.pending == if s == [] then [] else s[1..]
  {
    hide Pow2, Width, ToBits, FromBits;
    CodeRanges(bpp);
    var code := codes[0];
    var w := Width(bpp, Count(src.table));
    CodeFitsWidth(bpp, src.table, code);
    FromToBits(code, w);
    var step := Next(bpp, src.table, code);
    var bits := Serialize(bpp, Count(step.table), codes[1..]) + extra;
    assert src.bits == ToBits(code, w) + bits;
    assert src.bits[..w] == ToBits(code, w) && src.bits[w..] == bits;
    s := step.pixels;
    src' := Source(bits, src.cut, step.table, if s == [] then [] else s[1..]);
  }

  function Opened(file: seq<byte>): Source
  {
    Source(BytesToBits(Payload(file)), EndingOf(file).Truncated?, EMPTY, [])
  }

  /** The data of an image, whatever follows it in the file, reads as the pixels of the
      image, in one line or in several; and the chain ends where the data ends. */
  lemma DecodeEncode(bpp: nat, pixels: seq<byte>, after: seq<byte>, n: nat, final: bool)
    requires BitsPerPixel(bpp) && Pixels(bpp, pixels) && pixels != []
    requires n <= |pixels|
    ensures Fits(bpp, EMPTY)
    ensures var file := EncodeImage(bpp, pixels) + after;
            && file[0] == bpp
            && EndingOf(file[1..]) == Terminated(after)
            && var line := ReadLine(bpp, Opened(file[1..]), n, final);
            line.Line? && line.pixels == pixels[..n]
  {
    hide Pow2, Width, NextPixel, ReadLine, Expand, Opened, EncodeImage, Serialize;
    CodeRanges(bpp);
    FileBits(bpp, pixels, after);
    var data := [Clear(bpp)] + CompressAll(bpp, pixels);
    ExpandImage(bpp, pixels);
    SerializeAppend(bpp, 0, data, [Eof(bpp)]);
    var src := Opened((EncodeImage(bpp, pixels) + after)[1..]);
    var prefix, bits := Serialize(bpp, 0, data), Serialize(bpp, 0, ImageCodes(bpp, pixels));
    assert prefix <= bits <= src.bits;
    ReadCodes(bpp, src, data, src.bits[|prefix|..], n, final);
    assert [] + pixels == pixels;
  }

  /** The code size, the end of the chain, and the bits of the codes in the file of an image. */
  lemma FileBits(bpp: nat, pixels: seq<byte>, after: seq<byte>)
    requires BitsPerPixel(bpp) && Pixels(bpp, pixels) && pixels != []
    ensures var file := EncodeImage(bpp, pixels) + after;
            && file != [] && file[0] == bpp
            && EndingOf(file[1..]) == Terminated(after)
            && var src := Opened(file[1..]);
            && Serialize(bpp, 0, ImageCodes(bpp, pixels)) <= src.bits
            && src.table == EMPTY && src.pending == []
  {
    hide Pow2, Chain, BitsToBytes, BytesToBits, Serialize, ImageCodes, Payload, EndingOf;
    var size: byte := bpp;
    var bits := Serialize(bpp, 0, ImageCodes(bpp, pixels));
    var bytes := BitsToBytes(bits);
    var file := EncodeImage(bpp, pixels) + after;
    assert file == [size] + (Chain(bytes) + after);
    assert file[1..] == Chain(bytes) + after;
    ChainRoundTrip(bytes, after);
    BitsSurviveBytes(bits);
  }

  lemma ExpandImage(bpp: nat, pixels: seq<byte>)
    requires BitsPerPixel(bpp) && Pixels(bpp, pixels) && pixels != []
    ensures var m := Expand(bpp, EMPTY, [Clear(bpp)] + CompressAll(bpp, pixels));
            m.Means? && m.pixels == pixels
  {
    SendClear(bpp, EMPTY);
    ExpandCompress(bpp, pixels);
    ExpandAppend(bpp, EMPTY, [Clear(bpp)], CompressAll(bpp, pixels));
    assert [] + pixels == pixels;
  }
}
