/** Encoder and decoder together: what one writes, in lines of any lengths, the other reads
    back, in lines of any other lengths. */
module GifRoundTrip {
  import opened Arithmetic
  import opened Common
  import opened Bits
  import opened SubBlocks
  import opened Lzw
  import opened LzwStream
  import opened GifEncoder
  import opened GifDecoder
  import GifTextbook

  /** Where the lines of an image of `total` pixels begin, and where the last one ends. */
  predicate Cuts(cuts: seq<nat>, total: nat)
  {
    && |cuts| >= 2 && cuts[0] == 0 && cuts[|cuts| - 1] == total
    && forall i, j :: 0 <= i < j < |cuts| ==> cuts[i] < cuts[j]
  }

  lemma LineOfCuts(cuts: seq<nat>, total: nat, i: nat)
    requires Cuts(cuts, total) && i < |cuts| - 1
    ensures cuts[i] < cuts[i + 1] <= total
    ensures cuts[i] < total && (cuts[i + 1] == total <==> i == |cuts| - 2)
  {}

  lemma MaskedPart(bpp: nat, image: seq<byte>, lo: nat, hi: nat)
    requires BitsPerPixel(bpp) && lo <= hi <= |image|
    ensures Masked(bpp, image[..hi]) == Masked(bpp, image[..lo]) + Masked(bpp, image[lo..hi])
  {}

  /** Whatever the lines, the file gets the same bytes. */
  method Encode(before: seq<byte>, image: seq<byte>, cuts: seq<nat>, mapBits: nat, width: nat, height: nat,
                wordBits: nat) returns (file: seq<byte>)
    requires wordBits == 32 || wordBits == 64
    requires 1 <= mapBits <= 8 && 0 < width <= 0xFFFF && 0 < height <= 0xFFFF && |image| == width * height
    requires Cuts(cuts, |image|)
    ensures Masked(BitsUsed(mapBits), image) != []
    ensures file == before + EncodeImage(BitsUsed(mapBits), Masked(BitsUsed(mapBits), image))
    ensures Readable(file, |before|, if mapBits < 2 then 2 else mapBits, Masked(BitsUsed(mapBits), image))
  {
    hide *;
    var bpp := BitsUsed(mapBits);
    var encoder := new GifEncoder(before, mapBits, width, height, wordBits);
    Start(mapBits, image, cuts);
    var i := 0;
    while i < |cuts| - 1
      invariant 0 <= i <= |cuts| - 1 && cuts[i] <= |image|
      invariant encoder.Valid() && encoder.start == before && encoder.bitsPerPixel == bpp
      invariant encoder.pixelCount == |image| - cuts[i]
      invariant encoder.fed == Masked(bpp, image[..cuts[i]])
      invariant cuts[i] == |image| ==> Complete(encoder)
      invariant fresh(encoder) && fresh(encoder.writer) && fresh(encoder.writer.buf)
      invariant fresh(encoder.hash) && fresh(encoder.hash.table)
    {
      LineOfCuts(cuts, |image|, i);
      PutPart(encoder, image, cuts[i], cuts[i + 1]);
      i := i + 1;
    }
    file := encoder.writer.file;
    FileOf(encoder);
    MaskedImage(mapBits, image);
    FileIsReadable(before, bpp, Masked(bpp, image));
  }

  /** From byte `at` on the file has the code size and a chain of sub-blocks in which a textbook
      reader finds the pixels and then the end code, and nothing follows the chain. */
  ghost predicate Readable(file: seq<byte>, at: nat, bpp: nat, pixels: seq<byte>) {
    && BitsPerPixel(bpp) && at < |file| && file[at] == bpp && EndingOf(file[at + 1..]) == Terminated([])
    && GifTextbook.Read(bpp, BytesToBits(Payload(file[at + 1..])), GifTextbook.Initial(bpp), [], bpp + 1)
       == GifTextbook.Reading(pixels, GifTextbook.AtEnd)
  }

  lemma FileIsReadable(before: seq<byte>, bpp: nat, pixels: seq<byte>)
    requires BitsPerPixel(bpp) && Pixels(bpp, pixels) && pixels != []
    ensures Readable(before + EncodeImage(bpp, pixels), |before|, bpp, pixels)
  {
    hide EncodeImage, Payload, EndingOf, BytesToBits, GifTextbook.Read, GifTextbook.Parse, GifTextbook.Initial;
    GifTextbook.ImageIsRead(bpp, pixels, []);
    GifTextbook.BitsOfFile(bpp, pixels, []);
    var data := EncodeImage(bpp, pixels);
    assert data + [] == data && (before + data)[|before| + 1..] == data[1..];
  }

  lemma FileOf(encoder: GifEncoder)
    requires Complete(encoder)
    ensures BitsPerPixel(encoder.bitsPerPixel) && Pixels(encoder.bitsPerPixel, encoder.fed) && encoder.fed != []
    ensures encoder.writer.file == encoder.start + EncodeImage(encoder.bitsPerPixel, encoder.fed)
  {}

  ghost predicate Complete(encoder: GifEncoder)
    reads encoder, encoder.writer
  {
    && BitsPerPixel(encoder.bitsPerPixel) && Pixels(encoder.bitsPerPixel, encoder.fed) && encoder.fed != []
    && encoder.writer.file == encoder.start + EncodeImage(encoder.bitsPerPixel, encoder.fed)
  }

  lemma Start(mapBits: nat, image: seq<byte>, cuts: seq<nat>)
    requires 1 <= mapBits <= 8 && Cuts(cuts, |image|)
    ensures BitsPerPixel(BitsUsed(mapBits))
    ensures |cuts| >= 2 && cuts[0] == 0 && cuts[|cuts| - 1] == |image|
    ensures image != []
    ensures Masked(BitsUsed(mapBits), image[..0]) == []
    ensures image[..|image|] == image
  {}

  method PutPart(encoder: GifEncoder, image: seq<byte>, lo: nat, hi: nat)
    requires encoder.Valid() && lo < hi <= |image| && BitsPerPixel(encoder.bitsPerPixel)
    requires encoder.pixelCount == |image| - lo
    requires encoder.fed == Masked(encoder.bitsPerPixel, image[..lo])
    modifies encoder, encoder.writer, encoder.writer.buf, encoder.hash, encoder.hash.table
    ensures encoder.Valid() && encoder.start == old(encoder.start) && encoder.bitsPerPixel == old(encoder.bitsPerPixel)
    ensures encoder.pixelCount == |image| - hi
    ensures encoder.fed == Masked(encoder.bitsPerPixel, image[..hi])
    ensures hi == |image| ==> Complete(encoder)
  {
    hide Mask, Masked, Pow2, EncodeImage, Pixels, Serialize, ToBits, BytesToBits;
    var line := new byte[hi - lo](k requires 0 <= k < hi - lo => image[lo + k]);
    assert line[..hi - lo] == image[lo..hi];
    var ok := encoder.PutLine(line, hi - lo);
    MaskedPart(encoder.bitsPerPixel, image, lo, hi);
  }

  // ----- reading

  /** Cut as it may be, the rest of the image follows. */
  lemma NextPart(bpp: nat, first: Source, pixels: seq<byte>, got: seq<byte>, src: Source, n: nat, final: bool)
    requires BitsPerPixel(bpp) && Fits(bpp, first.table) && got <= pixels && |got| + n <= |pixels|
    requires ReadLine(bpp, first, |got|, false) == LzwStream.Line(got, src)
    requires Yields(bpp, first, |got| + n, final, pixels[..|got| + n])
    requires Yields(bpp, first, |got| + n, false, pixels[..|got| + n])
    ensures Fits(bpp, src.table)
    ensures Yields(bpp, src, n, final, pixels[|got|..|got| + n])
    ensures !final ==>
              var rest := ReadLine(bpp, src, n, final).rest;
              ReadLine(bpp, first, |got| + n, false) == LzwStream.Line(pixels[..|got| + n], rest)
  {
    ReadTwoLines(bpp, first, |got|, n, final);
    assert pixels[..|got| + n][|got|..] == pixels[|got|..|got| + n];
    assert pixels[..|got| + n] == got + pixels[|got|..|got| + n];
    var line := ReadLine(bpp, src, n, final);
    assert (got + line.pixels)[|got|..] == line.pixels;
  }

  lemma WholeImage(bpp: nat, pixels: seq<byte>, after: seq<byte>, n: nat, final: bool)
    requires BitsPerPixel(bpp) && Pixels(bpp, pixels) && pixels != [] && n <= |pixels|
    ensures Fits(bpp, EMPTY) && Yields(bpp, Opened((EncodeImage(bpp, pixels) + after)[1..]), n, final, pixels[..n])
  {
    DecodeEncode(bpp, pixels, after, n, final);
  }

  /** What the decoder's next line is to be. */
  lemma NextGoal(decoder: GifDecoder, pixels: seq<byte>, after: seq<byte>, got: seq<byte>, n: nat)
    requires decoder.Valid() && Pixels(decoder.bitsPerPixel, pixels) && 0 < n
    requires |got| + n <= |pixels| && Reading(decoder, pixels, after, got)
    ensures decoder.Left(n) == |pixels| - |got| - n
    ensures var goal := decoder.LineGoal(n);
            && goal.Line? && goal.pixels == pixels[|got|..|got| + n]
            && (|got| + n < |pixels| ==>
                  ReadLine(decoder.bitsPerPixel, ImageStart(decoder, pixels, after), |got| + n, false)
                  == LzwStream.Line(pixels[..|got| + n], goal.rest))
  {
    hide Pow2, ToBits, FromBits, BytesToBits, Width, Payload, EndingOf, FromTop, ReadLine, NextPixel, Lookup;
    hide Chains, Blank, StringOf, Learn, EncodeImage, Pixels;
    var bpp := decoder.bitsPerPixel;
    var final := |got| + n == |pixels|;
    WholeImage(bpp, pixels, after, |got| + n, final);
    WholeImage(bpp, pixels, after, |got| + n, false);
    NextPart(bpp, ImageStart(decoder, pixels, after), pixels, got, decoder.Src(), n, final);
  }

  /** The image as it stood before its first line was read. */
  ghost function ImageStart(decoder: GifDecoder, pixels: seq<byte>, after: seq<byte>): Source
    requires decoder.Valid() && Pixels(decoder.bitsPerPixel, pixels) && pixels != []
    reads decoder, decoder.reader, decoder.reader.buf, decoder.stack, decoder.suffix, decoder.prefix
  {
    Opened((EncodeImage(decoder.bitsPerPixel, pixels) + after)[1..])
  }

  /** `got` are the first pixels of the image, and the decoder stands after them. */
  ghost predicate Reading(decoder: GifDecoder, pixels: seq<byte>, after: seq<byte>, got: seq<byte>)
    reads decoder, decoder.reader, decoder.reader.buf, decoder.stack, decoder.suffix, decoder.prefix
  {
    && decoder.Valid() && Pixels(decoder.bitsPerPixel, pixels) && Fits(decoder.bitsPerPixel, EMPTY)
    && pixels != [] && got <= pixels
    && ReadLine(decoder.bitsPerPixel, ImageStart(decoder, pixels, after), |got|, false)
       == LzwStream.Line(got, decoder.Src())
    && decoder.pixelCount == |pixels| - |got| && decoder.reader.End() == Terminated(after)
  }

  /** Reads the next `n` pixels of an image that was written by Encode. */
  method GetPart(decoder: GifDecoder, ghost pixels: seq<byte>, ghost after: seq<byte>, ghost got: seq<byte>, n: nat)
    returns (part: seq<byte>)
    requires Pixels(decoder.bitsPerPixel, pixels) && 0 < n < 0x8000_0000
    requires |got| + n <= |pixels| <= 0xFFFF * 0xFFFF && Reading(decoder, pixels, after, got)
    modifies decoder, decoder.reader, decoder.reader.buf, decoder.stack, decoder.suffix, decoder.prefix
    ensures part == pixels[|got|..|got| + n] && decoder.bitsPerPixel == old(decoder.bitsPerPixel)
    ensures |got| + n < |pixels| ==> Reading(decoder, pixels, after, pixels[..|got| + n])
    ensures |got| + n == |pixels| ==>
              decoder.reader.pos <= |decoder.reader.file| && decoder.reader.file[decoder.reader.pos..] == after
  {
    hide Pow2, ToBits, FromBits, BytesToBits, Width, Payload, EndingOf, FromTop, ReadLine, NextPixel, Lookup;
    hide Chains, Blank, StringOf, Learn, Opened, EncodeImage, Pixels, PixelsLeft, Stands, Prepend, ToBits, Fits;
    hide GifDecoder.LineGoal, GifDecoder.Goal, GifDecoder.Input, GifDecoder.Cut, GifDecoder.TableOk;
    hide GifDecoder.CountersOk;
    NextGoal(decoder, pixels, after, got, n);
    SmallEnough(|pixels| - |got| - n);
    ghost var goal := decoder.LineGoal(n);
    var line := new byte[n](_ => 0);
    var ok := decoder.GetLine(line, n);
    part := line[..n];
    assert part == goal.pixels;
  }

  lemma SmallEnough(count: nat)
    requires count <= 0xFFFF * 0xFFFF
    ensures count <= TOO_BIG
  {}

  /** Reads back the image that `file` holds from byte `at` on, in lines of any lengths: the
      pixels are those that were written, and the file is read up to what follows them. */
  method Decode(file: seq<byte>, at: nat, ghost bpp: nat, ghost pixels: seq<byte>, ghost after: seq<byte>,
                cuts: seq<nat>, width: nat, height: nat, wordBits: nat) returns (image: seq<byte>, rest: seq<byte>)
    requires wordBits == 32 || wordBits == 64
    requires 0 < width <= 0xFFFF && 0 < height <= 0xFFFF
    requires BitsPerPixel(bpp) && Pixels(bpp, pixels) && |pixels| == width * height > 0
    requires at <= |file| && file[at..] == EncodeImage(bpp, pixels) + after
    requires Cuts(cuts, width * height)
    requires forall i :: 0 <= i < |cuts| - 1 ==> cuts[i + 1] - cuts[i] < 0x8000_0000
    ensures image == pixels && rest == after
  {
    hide *;
    CodeSize(bpp, pixels, after);
    var decoder := new GifDecoder(file[at..], width, height, wordBits);
    StartReading(decoder, pixels, after);
    AreaBound(width, height);
    CutsEnds(cuts, width * height);
    image := [];
    var i := 0;
    while i < |cuts| - 1
      invariant 0 <= i <= |cuts| - 1 && cuts[i] <= |pixels| && image == pixels[..cuts[i]]
      invariant decoder.bitsPerPixel == bpp
      invariant cuts[i] == |pixels| ==>
                  decoder.reader.pos <= |decoder.reader.file| && decoder.reader.file[decoder.reader.pos..] == after
      invariant cuts[i] < |pixels| ==> Reading(decoder, pixels, after, image)
      invariant fresh(decoder) && fresh(decoder.reader) && fresh(decoder.reader.buf)
      invariant fresh(decoder.stack) && fresh(decoder.suffix) && fresh(decoder.prefix)
    {
      LineOfCuts(cuts, |pixels|, i);
      var part := GetPart(decoder, pixels, after, image, cuts[i + 1] - cuts[i]);
      assert pixels[..cuts[i + 1]] == pixels[..cuts[i]] + pixels[cuts[i]..cuts[i + 1]];
      image := image + part;
      i := i + 1;
    }
    assert pixels[..|pixels|] == pixels;
    rest := decoder.reader.file[decoder.reader.pos..];
  }

  lemma CutsEnds(cuts: seq<nat>, total: nat)
    requires Cuts(cuts, total)
    ensures |cuts| >= 2 && cuts[0] == 0 && cuts[|cuts| - 1] == total
  {}

  lemma AreaBound(width: nat, height: nat)
    requires width <= 0xFFFF && height <= 0xFFFF
    ensures width * height <= 0xFFFF * 0xFFFF
  {
    Grows(width, 0xFFFF, height);
    Grows(height, 0xFFFF, 0xFFFF);
  }

  lemma CodeSize(bpp: nat, pixels: seq<byte>, after: seq<byte>)
    requires BitsPerPixel(bpp) && Pixels(bpp, pixels) && pixels != []
    ensures var data := EncodeImage(bpp, pixels) + after;
            data != [] && data[0] == bpp && BitsPerPixel(data[0]) && Fits(bpp, EMPTY)
  {
    DecodeEncode(bpp, pixels, after, 0, false);
  }

  lemma StartReading(decoder: GifDecoder, pixels: seq<byte>, after: seq<byte>)
    requires decoder.Valid() && Pixels(decoder.bitsPerPixel, pixels) && pixels != []
    requires decoder.reader.file == EncodeImage(decoder.bitsPerPixel, pixels) + after
    requires decoder.Src() == Opened(decoder.reader.file[1..])
    requires decoder.reader.End() == EndingOf(decoder.reader.file[1..])
    requires decoder.pixelCount == |pixels|
    ensures Reading(decoder, pixels, after, pixels[..0])
  {
    DecodeEncode(decoder.bitsPerPixel, pixels, after, 0, false);
  }

  /** Writes an image behind `before` in lines of any lengths, lets `after` follow, and reads it
      back in lines of any other lengths, with words of whatever width on either side. */
  method RoundTrip(before: seq<byte>, image: seq<byte>, after: seq<byte>, cuts: seq<nat>, otherCuts: seq<nat>,
                   mapBits: nat, width: nat, height: nat, wordBits: nat, otherWordBits: nat)
    returns (back: seq<byte>, rest: seq<byte>)
    requires wordBits == 32 || wordBits == 64
    requires otherWordBits == 32 || otherWordBits == 64
    requires 1 <= mapBits <= 8 && 0 < width <= 0xFFFF && 0 < height <= 0xFFFF && |image| == width * height
    requires Cuts(cuts, |image|) && Cuts(otherCuts, |image|)
    requires forall i :: 0 <= i < |otherCuts| - 1 ==> otherCuts[i + 1] - otherCuts[i] < 0x8000_0000
    ensures |back| == |image| && rest == after
    ensures var bpp := if mapBits < 2 then 2 else mapBits;
            forall i :: 0 <= i < |image| ==> back[i] as nat == image[i] % Pow2(bpp)
    ensures (forall i :: 0 <= i < |image| ==> image[i] < Pow2(mapBits)) ==> back == image
  {
    hide *;
    var file := Encode(before, image, cuts, mapBits, width, height, wordBits);
    ghost var bpp := BitsUsed(mapBits);
    MaskedImage(mapBits, image);
    file := file + after;
    assert file[|before|..] == EncodeImage(bpp, Masked(bpp, image)) + after;
    back, rest := Decode(file, |before|, bpp, Masked(bpp, image), after, otherCuts, width, height, otherWordBits);
  }

  lemma MaskedImage(mapBits: nat, image: seq<byte>)
    requires 1 <= mapBits <= 8
    ensures BitsUsed(mapBits) == if mapBits < 2 then 2 else mapBits
    ensures var bpp := BitsUsed(mapBits);
            && BitsPerPixel(bpp) && Pixels(bpp, Masked(bpp, image)) && |Masked(bpp, image)| == |image|
            && (forall i :: 0 <= i < |image| ==> Masked(bpp, image)[i] as nat == image[i] % Pow2(bpp))
            && ((forall i :: 0 <= i < |image| ==> image[i] < Pow2(mapBits)) ==> Masked(bpp, image) == image)
  {
    var bpp := BitsUsed(mapBits);
    Pow2Monotone(mapBits, bpp);
    forall i | 0 <= i < |image|
      ensures Masked(bpp, image)[i] as nat == image[i] % Pow2(bpp)
    {
      MaskIsRemainder(image[i], bpp);
    }
  }
}
