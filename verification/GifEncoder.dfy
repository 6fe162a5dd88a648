/** The encoder: code output through a shift register, and LZW compression of an image that
    arrives in lines. */
module GifEncoder {
  import opened Common
  import opened Bits
  import opened SubBlocks
  import opened Lzw
  import opened LzwStream
  import opened GifHash
  import opened GifDictionary
  import opened EncoderState

  /** The masks for 0 to 8 bits a pixel. */
  const CODE_MASK: seq<byte> := [0x00, 0x01, 0x03, 0x07, 0x0f, 0x1f, 0x3f, 0x7f, 0xff]

  lemma MaskOfBits(bpp: nat)
    requires bpp <= 8
    ensures CODE_MASK[bpp] == Ones(bpp)
  {
    SmallPowers();
  }

  /** An image has no fewer than two bits a pixel. */
  function BitsUsed(mapBits: nat): nat {
    if mapBits < 2 then 2 else mapBits
  }

  /** A pixel cut down to the bits that the image has for each. */
  function Mask(bpp: nat, p: byte): (q: byte)
    requires BitsPerPixel(bpp)
    ensures q < Pow2(bpp)
    ensures p < Pow2(bpp) ==> q == p
  {
    MaskBounds(p, bpp);
    Pow2Monotone(bpp, 8);
    SmallPowers();
    BitAnd(p, Ones(bpp))
  }

  function Masked(bpp: nat, s: seq<byte>): (t: seq<byte>)
    requires BitsPerPixel(bpp)
    ensures |t| == |s| && Pixels(bpp, t)
    ensures Pixels(bpp, s) ==> t == s
  {
    seq(|s|, i requires 0 <= i < |s| => Mask(bpp, s[i]))
  }

  class GifEncoder {
    const imageWidth: nat
    var bitsPerPixel: nat
    var clearCode: nat
    var eofCode: nat
    var runningCode: nat
    var runningBits: nat
    var maxCode1: nat
    var crntCode: nat
    var shiftState: int
    var shiftDWord: nat
    var pixelCount: nat
    const writer: BlockWriter
    const hash: GifHashTable
    /** The file before the image data, the pixels taken in, and the codes sent. */
    ghost var start: seq<byte>
    ghost var fed: seq<byte>
    ghost var codes: seq<nat>

    ghost predicate Parts()
      reads this
    {
      && hash.table as object != writer.buf && hash.Shape() && writer.buf.Length == 256
      && imageWidth > 0
    }

    /** Opens an image of `width` by `height` pixels after what the file already holds. The
        colour map has `mapBits` bits a pixel. */
    constructor (contents: seq<byte>, mapBits: nat, width: nat, height: nat, wordBits: nat)
      requires wordBits == 32 || wordBits == 64
      requires 1 <= mapBits <= 8 && width > 0 && height > 0
      ensures Valid() && fresh(writer) && fresh(writer.buf) && fresh(hash) && fresh(hash.table)
      ensures imageWidth == width && pixelCount == width * height
      ensures bitsPerPixel == BitsUsed(mapBits)
      ensures start == contents && fed == []
    {
      imageWidth := width;
      writer := new BlockWriter(contents);
      hash := new GifHashTable(wordBits);
      bitsPerPixel, clearCode, eofCode, runningCode, runningBits := 0, 0, 0, 0, 0;
      maxCode1, crntCode, shiftState, shiftDWord := 0, 0, 0, 0;
      pixelCount := width * height;
      start, fed, codes := contents, [], [];
      new;
      SetupCompress(mapBits);
    }

    // ----- code output

    ghost predicate Register()
      reads this, writer, writer.buf
    {
      && writer.Valid()
      && 0 <= shiftState < 8 && shiftDWord < Pow2(shiftState)
      && 3 <= runningBits <= 12 && maxCode1 == Pow2(runningBits) && runningCode <= 4095
    }

    /** The bits sent so far: those of the bytes put out, and those in the register. */
    ghost function SentBits(): seq<bool>
      requires shiftState >= 0
      reads this, writer
    {
      BytesToBits(writer.payload) + ToBits(shiftDWord, shiftState)
    }

    /** The register takes the bits of a code and gives up its full bytes. */
    method AppendBits(code: nat)
      requires Parts() && Register() && code < Pow2(runningBits)
      modifies this`shiftDWord, this`shiftState, writer, writer.buf
      ensures Register() && writer.base == old(writer.base)
      ensures SentBits() == old(SentBits()) + ToBits(code, runningBits)
    {
      RegisterAppend(shiftDWord, shiftState, code, runningBits);
      assert old(SentBits()) + ToBits(code, runningBits)
          == BytesToBits(writer.payload) + (ToBits(shiftDWord, shiftState) + ToBits(code, runningBits));
      shiftDWord := BitOr(shiftDWord, ShiftLeft(code, shiftState));
      shiftState := shiftState + runningBits;
      DumpFullBytes();
    }

    method DumpFullBytes()
      requires Parts() && writer.Valid() && 0 <= shiftState && shiftDWord < Pow2(shiftState)
      modifies this`shiftDWord, this`shiftState, writer, writer.buf
      ensures writer.Valid() && writer.base == old(writer.base)
      ensures 0 <= shiftState < 8 && shiftDWord < Pow2(shiftState)
      ensures SentBits() == old(SentBits())
    {
      while shiftState >= 8
        invariant 0 <= shiftState && shiftDWord < Pow2(shiftState)
        invariant writer.Valid() && writer.base == old(writer.base)
        invariant SentBits() == old(SentBits())
      {
        var b: byte := LowByte(shiftDWord);
        RegisterShift(writer.payload, shiftDWord, shiftState);
        writer.Put(b);
        shiftDWord := ShiftRight(shiftDWord, 8);
        shiftState := shiftState - 8;
      }
    }

    /** The bits left in the register go out in one more byte, and the chain ends. */
    method FlushBits()
      requires Parts() && Register()
      modifies this`shiftDWord, this`shiftState, writer, writer.buf
      ensures Register() && SentBits() == []
      ensures writer.file == writer.base == old(writer.base) + Chain(BitsToBytes(old(SentBits())))
    {
      ghost var bits := ToBits(shiftDWord, shiftState);
      BitsToBytesAppend(writer.payload, bits);
      ghost var rest := shiftState;
      assert rest == 0 ==> bits == [] && writer.payload + [] == writer.payload;
      while shiftState > 0
        invariant shiftState == rest || (shiftState == rest - 8 && rest > 0)
        invariant shiftState == rest ==>
                    shiftDWord == old(shiftDWord) && writer.payload == old(writer.payload)
        invariant shiftState != rest ==>
                    shiftDWord == 0 && writer.payload == old(writer.payload) + BitsToBytes(bits)
        invariant writer.Valid() && writer.base == old(writer.base)
      {
        LastByte(shiftDWord, shiftState);
        var b: byte := LowByte(shiftDWord);
        writer.Put(b);
        shiftDWord := ShiftRight(shiftDWord, 8);
        shiftState := shiftState - 8;
      }
      shiftState := 0;
      writer.Put(FLUSH_OUTPUT);
    }

    /** Sends a code, or the flush signal; then the code width may grow. */
    method CompressOutput(code: nat)
      requires Parts() && Register()
      requires code == FLUSH_OUTPUT || code < Pow2(runningBits)
      modifies this`shiftDWord, this`shiftState, this`runningBits, this`maxCode1, writer, writer.buf
      ensures Register()
      ensures code == FLUSH_OUTPUT ==>
                writer.file == writer.base == old(writer.base) + Chain(BitsToBytes(old(SentBits())))
      ensures code != FLUSH_OUTPUT ==>
                writer.base == old(writer.base) && SentBits() == old(SentBits()) + ToBits(code, old(runningBits))
      ensures runningBits == old(runningBits)
                             + if runningCode >= Pow2(old(runningBits)) && code <= 4095 then 1 else 0
    {
      if code == FLUSH_OUTPUT {
        FlushBits();
      } else {
        AppendBits(code);
      }
      if runningCode >= maxCode1 && code <= 4095 {
        TwelveBits();
        ShiftedPower(0, runningBits + 1);
        runningBits := runningBits + 1;
        maxCode1 := ShiftLeft(1, runningBits);
      }
    }

    // ----- compression

    ghost function Now(): State
      reads this, hash
    {
      State(bitsPerPixel, runningCode, runningBits, codes, fed, hash.entries)
    }

    /** The codes of the format, the register and the file: the bits sent are those of the
        codes sent. */
    ghost predicate Machine()
      reads this, writer, writer.buf, hash, hash.table
    {
      && Parts() && Register() && hash.Valid()
      && WellFormed(Now())
      && clearCode == Clear(bitsPerPixel) && eofCode == Eof(bitsPerPixel)
      && writer.base == start + [bitsPerPixel as byte]
      && SentBits() == Serialize(bitsPerPixel, 0, codes)
    }

    ghost predicate InProgress(crnt: nat)
      reads this, writer, writer.buf, hash, hash.table
    {
      Machine() && InStep(Now()) && Matching(Now(), crnt)
    }

    /** As long as pixels are missing, the image is in progress. */
    ghost predicate Valid()
      reads this, writer, writer.buf, hash, hash.table
    {
      Parts() && (pixelCount > 0 ==> InProgress(crntCode))
    }

    method SetupCompress(mapBits: nat)
      requires Parts() && 1 <= mapBits <= 8
      modifies this, writer, writer.buf, hash, hash.table
      ensures InProgress(crntCode)
      ensures bitsPerPixel == BitsUsed(mapBits)
      ensures start == old(writer.file) && fed == [] && pixelCount == old(pixelCount)
    {
      hide Pow2, ToBits, BytesToBits, Serialize, BitsToBytes, Chain, Compress, Matching, InStep;
      var bpp: byte := BitsUsed(mapBits);
      start := writer.file;
      writer.StartChain(bpp);
      hash.Clear();
      ResetFields(bpp);
      SetupWidths(bpp);
      StartsMatching(Now());
      Send(clearCode);
    }

    method ResetFields(bpp: nat)
      requires BitsPerPixel(bpp)
      modifies this
      ensures bitsPerPixel == bpp && clearCode == Clear(bpp) && eofCode == Eof(bpp) && runningCode == First(bpp)
      ensures runningBits == bpp + 1 && maxCode1 == Pow2(bpp + 1)
      ensures crntCode == FIRST_CODE && shiftState == 0 && shiftDWord == 0
      ensures fed == [] && codes == [] && start == old(start) && pixelCount == old(pixelCount)
    {
      SmallestPower();
      hide Pow2, ShiftLeft;
      ShiftedPower(0, bpp);
      ShiftedPower(0, bpp + 1);
      bitsPerPixel := bpp;
      clearCode := ShiftLeft(1, bpp);
      eofCode := clearCode + 1;
      runningCode := eofCode + 1;
      runningBits := bpp + 1;
      maxCode1 := ShiftLeft(1, runningBits);
      crntCode := FIRST_CODE;
      shiftState := 0;
      shiftDWord := 0;
      fed, codes := [], [];
    }

    /** Sends a code that has been assigned. */
    method Send(code: nat)
      requires Machine() && MaySend(Now(), code)
      modifies this`shiftDWord, this`shiftState, this`runningBits, this`maxCode1, this`codes, writer, writer.buf
      ensures Machine() && Now() == old(AfterSending(Now(), code))
    {
      hide Pow2, ToBits, BytesToBits, Serialize, Width, CountAfter, Pixels;
      AssignedCodeFits(bitsPerPixel, Sent(Now()), code);
      SerializeOneMore(bitsPerPixel, codes, code);
      CompressOutput(code);
      codes := codes + [code];
    }

    /** Notes that a pixel is taken in. */
    ghost method Take(pixel: byte)
      requires Machine() && pixel < Pow2(bitsPerPixel)
      modifies this`fed
      ensures Machine() && Now() == old(Now()).(fed := old(fed) + [pixel])
    {
      fed := fed + [pixel];
    }

    /** Puts a key with the running code in the hash table. */
    method AddEntry(key: nat)
      requires Machine() && runningCode < MAX_CODE
      requires |hash.entries| < 4096 && key < 0xF_FFFF && key !in hash.entries
      modifies this`runningCode, hash, hash.table
      ensures Machine()
      ensures Now() == old(Now()).(runningCode := old(runningCode) + 1,
                                   entries := old(hash.entries)[key := old(runningCode)])
    {
      hash.Insert(key, runningCode);
      runningCode := runningCode + 1;
    }

    method ResetTable()
      requires Machine()
      modifies this`runningCode, this`runningBits, this`maxCode1, hash, hash.table
      ensures Machine()
      ensures Now() == old(State(bitsPerPixel, First(bitsPerPixel), bitsPerPixel + 1, codes, fed, map[]))
    {
      hide Pow2, ToBits, BytesToBits, Serialize, CountAfter, Pixels, Width, ShiftLeft;
      SetupWidths(bitsPerPixel);
      SmallestPower();
      ShiftedPower(0, bitsPerPixel + 1);
      runningCode := eofCode + 1;
      runningBits := bitsPerPixel + 1;
      maxCode1 := ShiftLeft(1, runningBits);
      hash.Clear();
    }

    /** One turn of the compression loop: looks up the match followed by `pixel`. */
    method CompressOne(crnt: nat, pixel: byte) returns (crnt': nat)
      requires InProgress(crnt) && fed != [] && pixel < Pow2(bitsPerPixel)
      modifies this`shiftDWord, this`shiftState, this`runningBits, this`maxCode1, this`codes
      modifies this`runningCode, this`fed, writer, writer.buf, hash, hash.table
      ensures InProgress(crnt') && fed == old(fed) + [pixel]
    {
      var newKey := ShiftLeft(crnt, 8) + pixel;
      Looked(Now(), crnt, pixel);
      var newCode := hash.Exists(newKey);
      if newCode >= 0 {
        crnt' := newCode;
        Take(pixel);
      } else {
        crnt' := pixel;
        EndMatch(crnt, newKey, pixel);
      }
    }

    /** The code of the match goes out. Then the longer string enters the table, or a full
        table is cleared. */
    method EndMatch(crnt: nat, newKey: nat, ghost pixel: byte)
      requires InProgress(crnt) && fed != [] && pixel < Pow2(bitsPerPixel)
      requires newKey == Key(crnt, pixel) && MatchEnds(Now(), pixel)
      modifies this`shiftDWord, this`shiftState, this`runningBits, this`maxCode1, this`codes
      modifies this`runningCode, this`fed, writer, writer.buf, hash, hash.table
      ensures InProgress(pixel) && fed == old(fed) + [pixel]
    {
      MatchSent(Now(), crnt);
      Send(crnt);
      if runningCode >= MAX_CODE {
        ClearBoth(crnt, pixel);
      } else {
        EnterLonger(crnt, newKey, pixel);
      }
    }

    method EnterLonger(ghost crnt: nat, newKey: nat, ghost pixel: byte)
      requires Machine() && InStep(Now()) && Between(Now(), crnt) && MatchEnds(Now(), pixel)
      requires pixel < Pow2(bitsPerPixel) && newKey == Key(crnt, pixel) && runningCode < MAX_CODE
      modifies this`runningCode, this`fed, hash, hash.table
      ensures InProgress(pixel) && fed == old(fed) + [pixel]
    {
      KeyIsNew(Now(), crnt, pixel);
      EntryAdded(Now(), crnt, pixel);
      AddEntry(newKey);
      Take(pixel);
    }

    method ClearBoth(ghost crnt: nat, ghost pixel: byte)
      requires Machine() && InStep(Now()) && Between(Now(), crnt) && MatchEnds(Now(), pixel)
      requires pixel < Pow2(bitsPerPixel) && runningCode >= MAX_CODE
      modifies this`shiftDWord, this`shiftState, this`runningBits, this`maxCode1, this`codes
      modifies this`runningCode, this`fed, writer, writer.buf, hash, hash.table
      ensures InProgress(pixel) && fed == old(fed) + [pixel]
    {
      TableCleared(Now(), crnt, pixel);
      Send(clearCode);
      ResetTable();
      Take(pixel);
    }

    /** The last code, the end code and the end of the chain. */
    method Finish(crnt: nat)
      requires InProgress(crnt) && fed != []
      modifies this`shiftDWord, this`shiftState, this`runningBits, this`maxCode1, this`codes, writer, writer.buf
      ensures writer.file == start + EncodeImage(bitsPerPixel, fed)
    {
      hide Pow2, ToBits, BytesToBits, Serialize, BitsToBytes, Chain, Compress, Matching, InStep, Between;
      MatchSent(Now(), crnt);
      Send(crnt);
      EndCode(Now(), crnt);
      Send(eofCode);
      assert codes == ImageCodes(bitsPerPixel, fed);
      CompressOutput(FLUSH_OUTPUT);
      Regroup(start, [bitsPerPixel as byte], Chain(BitsToBytes(Serialize(bitsPerPixel, 0, codes))));
    }

    /** The compression loop, from pixel `i` of the line on. */
    method CompressRest(line: array<byte>, i: nat, lineLen: nat, crnt: nat) returns (crnt': nat)
      requires InProgress(crnt) && fed != []
      requires line != writer.buf && line as object != hash.table
      requires i <= lineLen <= line.Length
      requires forall k :: i <= k < lineLen ==> line[k] < Pow2(bitsPerPixel)
      modifies this`shiftDWord, this`shiftState, this`runningBits, this`maxCode1, this`codes
      modifies this`runningCode, this`fed, writer, writer.buf, hash, hash.table
      ensures InProgress(crnt') && fed == old(fed + line[i..lineLen])
    {
      hide *;
      ghost var input := line[..lineLen];
      crnt' := crnt;
      var j := i;
      while j < lineLen
        invariant i <= j <= lineLen && line[..lineLen] == input
        invariant forall k :: i <= k < lineLen ==> input[k] < Pow2(bitsPerPixel)
        invariant fed != [] && fed == old(fed) + input[i..j]
        invariant InProgress(crnt')
      {
        assert line[j] == input[j];
        crnt' := CompressOne(crnt', line[j]);
        Regroup(old(fed), input[i..j], [input[j]]);
        j := j + 1;
        assert input[i..j] == input[i..j - 1] + [input[j - 1]];
      }
    }

    /** Compresses part of the image; the match in progress carries over to the next part. */
    method CompressLine(line: array<byte>, lineLen: nat)
      requires InProgress(crntCode)
      requires line != writer.buf && line as object != hash.table
      requires 0 < lineLen <= line.Length
      requires forall k :: 0 <= k < lineLen ==> line[k] < Pow2(bitsPerPixel)
      modifies this`shiftDWord, this`shiftState, this`runningBits, this`maxCode1, this`codes
      modifies this`runningCode, this`crntCode, this`fed, writer, writer.buf, hash, hash.table
      ensures fed == old(fed + line[..lineLen]) && fed != []
      ensures BitsPerPixel(bitsPerPixel) && Pixels(bitsPerPixel, fed)
      ensures pixelCount > 0 ==> InProgress(crntCode)
      ensures pixelCount == 0 ==> writer.file == start + EncodeImage(bitsPerPixel, fed)
    {
      hide *;
      ghost var input := line[..lineLen];
      assert line[0] == input[0] && input == [line[0]] + input[1..];
      Regroup(fed, [line[0]], input[1..]);
      var i, crnt := BeginLine(line[0]);
      assert line[i..lineLen] == input[i..];
      crnt := CompressRest(line, i, lineLen, crnt);
      EndLine(crnt);
    }

    /** The code to go on with: the one kept from the last line, or the first pixel. */
    method BeginLine(pixel: byte) returns (i: nat, crnt: nat)
      requires InProgress(crntCode) && pixel < Pow2(bitsPerPixel)
      modifies this`fed
      ensures InProgress(crnt) && fed != [] && i <= 1
      ensures fed == old(fed) + if i == 0 then [] else [pixel]
    {
      SignalIsNoCode(Now(), crntCode);
      if crntCode == FIRST_CODE {
        FirstPixel(Now(), pixel);
        Take(pixel);
        return 1, pixel;
      }
      return 0, crntCode;
    }

    /** Keeps the code for the next line; after the last pixel, ends the image. */
    method EndLine(crnt: nat)
      requires InProgress(crnt) && fed != []
      modifies this`shiftDWord, this`shiftState, this`runningBits, this`maxCode1, this`codes, this`crntCode
      modifies writer, writer.buf
      ensures BitsPerPixel(bitsPerPixel) && Pixels(bitsPerPixel, fed)
      ensures pixelCount > 0 ==> InProgress(crntCode)
      ensures pixelCount == 0 ==> writer.file == start + EncodeImage(bitsPerPixel, fed)
    {
      hide Pow2, ToBits, BytesToBits, Serialize, BitsToBytes, Chain, Compress, Matching, InStep;
      crntCode := crnt;
      if pixelCount == 0 {
        Finish(crnt);
      }
    }

    // ----- lines

    /** Takes a line of pixels, cut down to the image's bits per pixel, unless the image has
        fewer pixels left. With the last pixel the image data is complete. */
    method PutLine(line: array<byte>, lineLen: nat) returns (ok: bool)
      requires Valid() && line != writer.buf && line as object != hash.table
      requires (if lineLen == 0 then imageWidth else lineLen) <= line.Length
      modifies this, writer, writer.buf, hash, hash.table, line
      ensures Valid()
      ensures var n := if lineLen == 0 then imageWidth else lineLen;
              && (ok <==> n <= old(pixelCount))
              && (ok ==> TookLine(line, n))
      ensures !ok ==> unchanged(this) && unchanged(writer, writer.buf, hash, hash.table, line)
      ensures ok && pixelCount == 0 ==>
                BitsPerPixel(bitsPerPixel) && Pixels(bitsPerPixel, fed) && fed != []
                && writer.file == start + EncodeImage(bitsPerPixel, fed)
    {
      hide InProgress, Machine, EncodeImage, Masked, Pixels;
      var n := if lineLen == 0 then imageWidth else lineLen;
      if pixelCount < n {
        return false;
      }
      TakeOff(n);
      MaskLine(line, n);
      CompressLine(line, n);
      return true;
    }

    method TakeOff(n: nat)
      requires Valid() && 0 < n <= pixelCount
      modifies this`pixelCount
      ensures InProgress(crntCode) && BitsPerPixel(bitsPerPixel) && pixelCount == old(pixelCount) - n
    {
      pixelCount := pixelCount - n;
    }

    /** Makes sure that no pixel is out of the range of the codes. */
    method MaskLine(line: array<byte>, n: nat)
      requires BitsPerPixel(bitsPerPixel) && n <= line.Length
      modifies line
      ensures line[..n] == Masked(bitsPerPixel, old(line[..n])) && line[n..] == old(line[n..])
      ensures forall k :: 0 <= k < n ==> line[k] < Pow2(bitsPerPixel)
    {
      var mask := CODE_MASK[bitsPerPixel];
      MaskOfBits(bitsPerPixel);
      for i := 0 to n
        invariant forall k :: 0 <= k < i ==> line[k] == Mask(bitsPerPixel, old(line[k]))
        invariant line[i..] == old(line[i..])
      {
        assert line[i..][0] == old(line[i..])[0];
        MaskBounds(line[i], bitsPerPixel);
        var p: byte := Mask(bitsPerPixel, line[i]);
        assert p == BitAnd(line[i], mask);
        line[i] := p;
        assert line[i + 1..] == old(line[i..])[1..];
      }
      assert line[..n] == Masked(bitsPerPixel, old(line[..n]));
    }

    /** The next `n` pixels of the image came from the line. */
    twostate predicate TookLine(line: array<byte>, n: nat)
      requires n <= line.Length
      reads this, line
    {
      && pixelCount == old(pixelCount) - n
      && bitsPerPixel == old(bitsPerPixel) && start == old(start)
      && BitsPerPixel(bitsPerPixel)
      && line[..n] == Masked(bitsPerPixel, old(line[..n])) && line[n..] == old(line[n..])
      && fed == old(fed) + line[..n]
    }
  }

  lemma SmallestPower()
    ensures Pow2(0) == 1
  {}

  /** The byte that leaves the register next. */
  function LowByte(x: nat): byte
  {
    EightBits();
    MaskBounds(x, 8);
    BitAnd(x, Ones(8))
  }

  /** A full byte moves from the register to the payload; the bits stay the same. */
  lemma RegisterShift(payload: seq<byte>, x: nat, shift: nat)
    requires shift >= 8 && x < Pow2(shift)
    ensures ShiftRight(x, 8) < Pow2(shift - 8)
    ensures BytesToBits(payload + [LowByte(x)]) + ToBits(ShiftRight(x, 8), shift - 8)
            == BytesToBits(payload) + ToBits(x, shift)
  {
    hide Pow2, ToBits, BytesToBits, BitAnd, ShiftRight, LowByte;
    LowByteIsMasked(x);
    ShiftRightBound(x, shift - 8, 8);
    ToBitsSplit(x, 8, shift - 8);
    OneByte(LowByte(x));
    BytesToBitsAppend(payload, [LowByte(x)]);
  }

  lemma LowByteIsMasked(x: nat)
    ensures LowByte(x) == BitAnd(x, Ones(8))
  {}

  lemma OneByte(b: byte)
    ensures BytesToBits([b]) == ToBits(b, 8)
  {
    assert BytesToBits([b][1..]) == [];
  }

  /** The last byte carries the remaining bits. */
  lemma LastByte(x: nat, shift: nat)
    requires 0 < shift < 8 && x < Pow2(shift)
    ensures BitsToBytes(ToBits(x, shift)) == [LowByte(x)]
    ensures ShiftRight(x, 8) == 0
  {
    hide Pow2, ToBits, FromBits, BitsToBytes;
    Pow2Monotone(shift, 8);
    FromToBits(x, shift);
    MaskBounds(x, 8);
    ShiftRightBound(x, 0, 8);
    NoBits();
    ShortBits(ToBits(x, shift));
  }

  lemma ShortBits(b: seq<bool>)
    requires 0 < |b| < 8
    ensures FromBits(b) < 256 && BitsToBytes(b) == [FromBits(b)]
  {
    EightBits();
    Pow2Monotone(|b|, 8);
  }
}
