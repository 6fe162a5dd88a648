/** The decoder: code input through a shift register, and expansion of the codes with the
    Prefix and Suffix arrays and the pixel stack. */
module GifDecoder {
  import opened Common
  import opened Bits
  import opened SubBlocks
  import opened Lzw
  import opened LzwStream

  const NO_SUCH_CODE := 4098
  const STACK_SIZE := 4095

  // ----- the table in two arrays

  /** A code that stands for a pixel or an entry of the table. */
  predicate Assigned(bpp: nat, strings: seq<Str>, code: nat)
  {
    code < Clear(bpp) || First(bpp) <= code < First(bpp) + |strings|
  }

  function StringOf(bpp: nat, strings: seq<Str>, code: nat): Str
    requires BitsPerPixel(bpp) && Assigned(bpp, strings, code)
  {
    CodesFitBytes(bpp, code);
    if code < Clear(bpp) then [code] else strings[code - First(bpp)]
  }

  /** Entry `i` of the arrays: the code of a shorter string, assigned before, and a pixel. */
  ghost predicate Linked(bpp: nat, strings: seq<Str>, prefix: seq<nat>, suffix: seq<byte>, i: nat)
    requires BitsPerPixel(bpp) && i < |strings|
    requires First(bpp) + |strings| <= 4096 && |prefix| == |suffix| == 4096
  {
    var c := First(bpp) + i;
    && Assigned(bpp, strings[..i], prefix[c])
    && strings[i] == StringOf(bpp, strings[..i], prefix[c]) + [suffix[c]]
  }

  ghost predicate Chains(bpp: nat, strings: seq<Str>, prefix: seq<nat>, suffix: seq<byte>)
  {
    && BitsPerPixel(bpp) && First(bpp) + |strings| <= 4096 && |prefix| == |suffix| == 4096
    && forall i {:trigger Linked(bpp, strings, prefix, suffix, i)} ::
         0 <= i < |strings| ==> Linked(bpp, strings, prefix, suffix, i)
  }

  /** No code from `from` on has an entry. */
  ghost predicate Blank(prefix: seq<nat>, from: nat)
  {
    forall c :: from <= c < |prefix| ==> prefix[c] == NO_SUCH_CODE
  }

  /** One step along the chain of a code takes the last pixel off its string. */
  lemma FollowChain(bpp: nat, strings: seq<Str>, prefix: seq<nat>, suffix: seq<byte>, code: nat)
    requires Chains(bpp, strings, prefix, suffix)
    requires Assigned(bpp, strings, code) && code > Clear(bpp)
    ensures First(bpp) <= code < 4096 && prefix[code] < code
    ensures Assigned(bpp, strings, prefix[code])
    ensures StringOf(bpp, strings, prefix[code]) != []
    ensures StringOf(bpp, strings, code) == StringOf(bpp, strings, prefix[code]) + [suffix[code]]
  {
    CodeRanges(bpp);
    var i := code - First(bpp);
    assert Linked(bpp, strings, prefix, suffix, i);
    if prefix[code] >= First(bpp) {
      var j := prefix[code] - First(bpp);
      assert strings[..i][j] == strings[j];
      assert Linked(bpp, strings, prefix, suffix, j);
    }
  }

  /** A new entry leaves the others as they are. */
  lemma NewLink(bpp: nat, strings: seq<Str>, prefix: seq<nat>, suffix: seq<byte>, last: nat, p: byte)
    requires Chains(bpp, strings, prefix, suffix) && First(bpp) + |strings| < 4096
    requires Assigned(bpp, strings, last)
    ensures var c := First(bpp) + |strings|;
            Chains(bpp, strings + [StringOf(bpp, strings, last) + [p]], prefix[c := last], suffix[c := p])
  {
    var c := First(bpp) + |strings|;
    var longer := strings + [StringOf(bpp, strings, last) + [p]];
    var prefix', suffix' := prefix[c := last], suffix[c := p];
    forall i | 0 <= i < |longer|
      ensures Linked(bpp, longer, prefix', suffix', i)
    {
      if i < |strings| {
        assert Linked(bpp, strings, prefix, suffix, i);
        assert longer[..i] == strings[..i];
      } else {
        assert longer[..i] == strings;
      }
    }
  }

  /** Arrays and last code stand for a table and its last string. */
  ghost predicate Stands(bpp: nat, t: Table, prefix: seq<nat>, suffix: seq<byte>, lastCode: nat)
  {
    && Fits(bpp, t) && Chains(bpp, t.strings, prefix, suffix) && Blank(prefix, First(bpp) + |t.strings|)
    && if t.last == [] then lastCode == NO_SUCH_CODE
       else Assigned(bpp, t.strings, lastCode) && StringOf(bpp, t.strings, lastCode) == t.last
  }

  lemma LearnCount(bpp: nat, t: Table, s: Str)
    requires s != []
    ensures Count(Learn(t, s)) == Count(t) + 1
    ensures Fits(bpp, Learn(t, s)) && t.last != [] ==> First(bpp) + |t.strings| <= MAX_CODE
    ensures Count(t) == if t.last == [] then 0 else |t.strings| + 1
  {}

  lemma PixelCode(bpp: nat, t: Table, code: nat)
    requires BitsPerPixel(bpp) && code <= MAX_CODE
    ensures code < Clear(bpp) ==> code < 256 && Lookup(bpp, t, code) == [code as byte]
    ensures FromTop([]) == []
  {
    CodesFitBytes(bpp, code);
  }

  /** The first code after a Clear makes no entry. */
  lemma LearnFirst(bpp: nat, t: Table, prefix: seq<nat>, suffix: seq<byte>, code: nat)
    requires Stands(bpp, t, prefix, suffix, NO_SUCH_CODE) && code <= MAX_CODE
    requires Lookup(bpp, t, code) != []
    ensures Stands(bpp, Learn(t, Lookup(bpp, t, code)), prefix, suffix, code)
  {
    hide Chains, Blank;
    CodesFitBytes(bpp, code);
  }

  /** The code from which the first pixel of the new string is found. */
  lemma LearnChar(bpp: nat, t: Table, prefix: seq<nat>, suffix: seq<byte>, lastCode: nat, code: nat)
    requires Stands(bpp, t, prefix, suffix, lastCode) && lastCode != NO_SUCH_CODE
    requires code <= MAX_CODE && code != Clear(bpp) && First(bpp) + |t.strings| <= MAX_CODE
    requires Lookup(bpp, t, code) != []
    ensures t.last != []
    ensures var c := First(bpp) + |t.strings|;
            var from := if code == c then lastCode else code;
            && Assigned(bpp, t.strings, from) && StringOf(bpp, t.strings, from) != []
            && StringOf(bpp, t.strings, from)[0] == Lookup(bpp, t, code)[0]
            && Chains(bpp, t.strings, prefix[c := lastCode], suffix)
  {
    var c := First(bpp) + |t.strings|;
    LastIsCode(bpp, t, prefix, suffix, lastCode);
    hide Linked, Blank;
    CodesFitBytes(bpp, code);
    assert suffix[c := suffix[c]] == suffix;
    WriteBeyond(bpp, t.strings, prefix, suffix, c, lastCode, suffix[c]);
  }

  lemma LastIsCode(bpp: nat, t: Table, prefix: seq<nat>, suffix: seq<byte>, lastCode: nat)
    requires Stands(bpp, t, prefix, suffix, lastCode) && lastCode != NO_SUCH_CODE
    ensures t.last != [] && Assigned(bpp, t.strings, lastCode) && StringOf(bpp, t.strings, lastCode) == t.last
  {}

  /** The new entry. */
  lemma LearnNext(bpp: nat, t: Table, prefix: seq<nat>, suffix: seq<byte>, lastCode: nat, code: nat, p: byte)
    requires Stands(bpp, t, prefix, suffix, lastCode) && lastCode != NO_SUCH_CODE
    requires code <= MAX_CODE && code != Clear(bpp) && First(bpp) + |t.strings| <= MAX_CODE
    requires Lookup(bpp, t, code) != [] && p == Lookup(bpp, t, code)[0]
    ensures var c := First(bpp) + |t.strings|;
            Fits(bpp, Learn(t, Lookup(bpp, t, code))) ==>
              Stands(bpp, Learn(t, Lookup(bpp, t, code)), prefix[c := lastCode], suffix[c := p], code)
  {
    LastIsCode(bpp, t, prefix, suffix, lastCode);
    NewLink(bpp, t.strings, prefix, suffix, lastCode, p);
    hide Chains, Linked;
    CodesFitBytes(bpp, code);
  }

  /** The stack, from its top. */
  function FromTop(s: seq<byte>): seq<byte>
  {
    if s == [] then [] else [s[|s| - 1]] + FromTop(s[..|s| - 1])
  }

  lemma Pushed(s: seq<byte>, p: byte)
    ensures FromTop(s + [p]) == [p] + FromTop(s)
  {
    assert (s + [p])[..|s|] == s;
  }

  lemma {:induction false} PoppedAt(s: seq<byte>)
    ensures |FromTop(s)| == |s| && forall t :: 0 <= t < |s| ==> FromTop(s)[t] == s[|s| - 1 - t]
  {
    if s == [] {
    } else {
      PoppedAt(s[..|s| - 1]);
    }
  }

  /** What is left when `k` pixels have been popped, and what the line has then. */
  lemma Popped(s: seq<byte>, k: nat, was: seq<byte>, line: seq<byte>, i: nat)
    requires k <= |s| && i + k <= |line| == |was|
    requires forall t :: 0 <= t < |line| ==> line[t] == if i <= t < i + k then s[|s| - 1 - (t - i)] else was[t]
    ensures |FromTop(s)| == |s| && FromTop(s[..|s| - k]) == FromTop(s)[k..]
    ensures line[..i + k] == was[..i] + FromTop(s)[..k] && line[i + k..] == was[i + k..]
  {
    hide FromTop;
    PoppedAt(s);
    PoppedAt(s[..|s| - k]);
  }

  /** The masks for codes of 0 to 12 bits. */
  const CODE_MASKS: seq<nat> := [
    0x0000, 0x0001, 0x0003, 0x0007, 0x000f, 0x001f, 0x003f, 0x007f,
    0x00ff, 0x01ff, 0x03ff, 0x07ff, 0x0fff]

  lemma MaskOfWidth(width: nat)
    requires width <= 12
    ensures CODE_MASKS[width] == Ones(width)
  {
    SmallPowers();
  }

  class GifDecoder {
    const imageWidth: nat
    /** The width of an `unsigned long`. */
    const wordBits: nat
    var bitsPerPixel: nat
    var clearCode: nat
    var eofCode: nat
    var runningCode: nat
    var runningBits: nat
    var maxCode1: nat
    var lastCode: nat
    var stackPtr: nat
    var shiftState: nat
    var shiftDWord: nat
    var pixelCount: nat
    const reader: BlockReader
    const stack: array<byte>
    const suffix: array<byte>
    const prefix: array<nat>
    /** The table that the arrays stand for. */
    ghost var table: Table

    ghost predicate Shape()
    {
      && reader.buf.Length == 256 && stack.Length == 4095 && suffix.Length == 4096 && prefix.Length == 4096
      && stack != suffix && stack != reader.buf && suffix != reader.buf
      && prefix as object != stack && prefix as object != suffix && prefix as object != reader.buf
    }

    /** Opens the data of an image of `width` by `height` pixels, which start with the code
        size. */
    constructor (data: seq<byte>, width: nat, height: nat, wordBits: nat)
      requires wordBits == 32 || wordBits == 64
      requires width > 0 && height > 0
      requires data != [] && BitsPerPixel(data[0])
      ensures Valid() && fresh(reader) && fresh(reader.buf) && fresh(stack) && fresh(suffix) && fresh(prefix)
      ensures imageWidth == width && this.wordBits == wordBits && pixelCount == width * height
      ensures bitsPerPixel == data[0] && Src() == Opened(data[1..])
      ensures reader.file == data && reader.End() == EndingOf(data[1..])
    {
      hide Payload, EndingOf, Opened, Pow2, Valid, Src, TableOk, CountersOk, InputOk;
      imageWidth, this.wordBits := width, wordBits;
      reader := new BlockReader(data);
      stack := new byte[STACK_SIZE](_ => 0);
      suffix := new byte[MAX_CODE + 1](_ => 0);
      prefix := new nat[MAX_CODE + 1](_ => 0);
      bitsPerPixel, clearCode, eofCode, runningCode, runningBits := 0, 0, 0, 0, 0;
      maxCode1, lastCode, stackPtr, shiftState, shiftDWord := 0, 0, 0, 0, 0;
      pixelCount := width * height;
      table := EMPTY;
      new;
      SetupDecompress();
    }

    // ----- code input

    ghost predicate InputOk()
      reads this, reader, reader.buf
    {
      Shape() && reader.Valid() && shiftDWord < Pow2(shiftState)
    }

    /** The bits not read yet: those in the register, and those of the bytes to come. */
    ghost function Input(): seq<bool>
      requires InputOk()
      reads this, reader, reader.buf
    {
      ToBits(shiftDWord, shiftState) + BytesToBits(reader.Left())
    }

    ghost predicate Cut()
      requires InputOk()
      reads this, reader, reader.buf
    {
      reader.End().Truncated?
    }

    /** Brings a byte into the register, which does not hold a code yet. */
    method AddNextByte() returns (ok: bool)
      requires InputOk() && shiftState < runningBits && (|Input()| < runningBits ==> Cut())
      modifies this`shiftDWord, this`shiftState, reader, reader.buf
      ensures !ok ==> |old(Input())| < runningBits
      ensures ok ==> InputOk() && Input() == old(Input()) && reader.End() == old(reader.End())
      ensures ok ==> shiftState == old(shiftState) + 8
    {
      hide Pow2, ToBits, BytesToBits, ShiftLeft, BitOr, Payload, EndingOf;
      var more, b := reader.NextByte();
      if !more {
        return false;
      }
      AddByte(shiftDWord, shiftState, b, reader.Left());
      shiftDWord := BitOr(shiftDWord, ShiftLeft(b, shiftState));
      shiftState := shiftState + 8;
      return true;
    }

    /** Brings bytes into the register until it holds a code. */
    method FillRegister() returns (ok: bool)
      requires InputOk() && (|Input()| < runningBits ==> Cut())
      modifies this`shiftDWord, this`shiftState, reader, reader.buf
      ensures ok <==> |old(Input())| >= runningBits
      ensures ok ==> InputOk() && Input() == old(Input()) && reader.End() == old(reader.End())
      ensures ok ==> shiftState >= runningBits
    {
      hide Pow2, ToBits, BytesToBits, ShiftLeft, BitOr, Payload, EndingOf;
      while shiftState < runningBits
        invariant InputOk() && Input() == old(Input()) && reader.End() == old(reader.End())
        decreases runningBits - shiftState
      {
        ok := AddNextByte();
        if !ok {
          return;
        }
      }
      return true;
    }

    method DecompressInput() returns (ok: bool, code: nat)
      requires InputOk() && 3 <= runningBits <= 12 && maxCode1 == Pow2(runningBits)
      requires |Input()| < runningBits ==> Cut()
      modifies this`shiftDWord, this`shiftState, this`runningCode, this`runningBits, this`maxCode1
      modifies reader, reader.buf
      ensures ok <==> |old(Input())| >= old(runningBits)
      ensures ok ==>
                && InputOk() && reader.End() == old(reader.End())
                && code == FromBits(old(Input()[..runningBits]))
                && Input() == old(Input()[runningBits..])
                && runningCode == old(runningCode) + 1
                && var w := old(runningBits);
                && runningBits == (if runningCode > Pow2(w) && w < 12 then w + 1 else w)
                && maxCode1 == Pow2(runningBits)
    {
      hide Pow2, ToBits, BytesToBits, ShiftLeft, BitOr, FromBits, Payload, EndingOf;
      code := 0;
      ok := FillRegister();
      if !ok {
        return;
      }
      DoublePower(runningBits);
      MaskOfWidth(runningBits);
      TakeCode(shiftDWord, shiftState, runningBits, reader.Left());
      code := BitAnd(shiftDWord, CODE_MASKS[runningBits]);
      shiftDWord := ShiftRight(shiftDWord, runningBits);
      shiftState := shiftState - runningBits;
      runningCode := runningCode + 1;
      if runningCode > maxCode1 && runningBits < MAX_BITS {
        maxCode1 := ShiftLeft(maxCode1, 1);
        runningBits := runningBits + 1;
      }
    }

    // ----- expansion

    /** The arrays stand for the table, and the last code for the last string. */
    ghost predicate TableOk()
      reads this, prefix, suffix
    {
      && Shape() && BitsPerPixel(bitsPerPixel)
      && clearCode == Clear(bitsPerPixel) && eofCode == Eof(bitsPerPixel)
      && stackPtr <= STACK_SIZE && Stands(bitsPerPixel, table, prefix[..], suffix[..], lastCode)
    }

    /** The running code and width after `count` codes since the last Clear. */
    ghost predicate CountersOk(count: nat)
      reads this
    {
      && BitsPerPixel(bitsPerPixel)
      && runningCode == First(bitsPerPixel) + count
      && runningBits == Width(bitsPerPixel, count) && maxCode1 == Pow2(runningBits)
    }

    ghost predicate Valid()
      reads this, reader, reader.buf, stack, suffix, prefix
    {
      InputOk() && TableOk() && CountersOk(Count(table))
    }

    /** What is left to read. */
    ghost function Src(): Source
      requires Valid()
      reads this, reader, reader.buf, stack, suffix, prefix
    {
      Source(Input(), Cut(), table, FromTop(stack[..stackPtr]))
    }

    method SetupDecompress()
      requires Shape() && reader.Valid() && reader.pos < |reader.file| && reader.buf[0] == 0
      requires BitsPerPixel(reader.file[reader.pos])
      modifies this, reader, reader.buf, prefix
      ensures Valid() && pixelCount == old(pixelCount) && bitsPerPixel == reader.file[old(reader.pos)]
      ensures Src() == Opened(reader.file[old(reader.pos) + 1..])
      ensures reader.End() == EndingOf(reader.file[old(reader.pos) + 1..])
    {
      hide Pow2, ToBits, BytesToBits, ShiftLeft, Payload, EndingOf, Width, TableOk, CountersOk;
      var ok, codeSize := reader.ReadByte();
      NoBits();
      bitsPerPixel := codeSize;
      clearCode := ShiftLeft(1, codeSize);
      eofCode := clearCode + 1;
      stackPtr := 0;
      shiftState := 0;
      shiftDWord := 0;
      ShiftedPower(0, codeSize);
      ResetTable();
    }

    /** Empties the table, as at the start and at a Clear code. */
    method ResetTable()
      requires Shape() && BitsPerPixel(bitsPerPixel) && stackPtr <= STACK_SIZE
      requires clearCode == Clear(bitsPerPixel) && eofCode == Eof(bitsPerPixel)
      modifies this`runningCode, this`runningBits, this`maxCode1, this`lastCode, this`table, prefix
      ensures TableOk() && table == EMPTY && CountersOk(0)
    {
      hide Pow2, ShiftLeft;
      forall j | 0 <= j <= MAX_CODE {
        prefix[j] := NO_SUCH_CODE;
      }
      runningCode := eofCode + 1;
      runningBits := bitsPerPixel + 1;
      maxCode1 := ShiftLeft(1, runningBits);
      lastCode := NO_SUCH_CODE;
      table := EMPTY;
      CodeRanges(bitsPerPixel);
      FirstWidth(bitsPerPixel);
      NoBits();
      ShiftedPower(0, bitsPerPixel + 1);
    }

    /** The first pixel of a code's string. */
    method GetPrefixChar(code: nat) returns (c: nat)
      requires Shape() && clearCode == Clear(bitsPerPixel)
      requires Chains(bitsPerPixel, table.strings, prefix[..], suffix[..])
      requires Assigned(bitsPerPixel, table.strings, code)
      ensures StringOf(bitsPerPixel, table.strings, code) != []
      ensures c < 256 && c == StringOf(bitsPerPixel, table.strings, code)[0]
    {
      CodeRanges(bitsPerPixel);
      var i := 0;
      c := code;
      if code > clearCode {
        FollowChain(bitsPerPixel, table.strings, prefix[..], suffix[..], code);
      }
      while c > clearCode && i <= MAX_CODE
        invariant i + c <= code
        invariant Assigned(bitsPerPixel, table.strings, c)
        invariant StringOf(bitsPerPixel, table.strings, c) != []
        invariant StringOf(bitsPerPixel, table.strings, c)[0] == StringOf(bitsPerPixel, table.strings, code)[0]
        decreases MAX_CODE + 1 - i
      {
        FollowChain(bitsPerPixel, table.strings, prefix[..], suffix[..], c);
        c := prefix[c];
        i := i + 1;
      }
    }

    /** Pushes the string of a code, last pixel first. The count of steps stays far below the
        limit that guards against cycles, and the stack has room. */
    method Trace(code: nat) returns (ok: bool)
      requires Shape() && clearCode == Clear(bitsPerPixel) && stackPtr <= 1
      requires Chains(bitsPerPixel, table.strings, prefix[..], suffix[..])
      requires Assigned(bitsPerPixel, table.strings, code)
      modifies this`stackPtr, stack
      ensures ok && stackPtr <= STACK_SIZE
      ensures FromTop(stack[..stackPtr])
              == StringOf(bitsPerPixel, table.strings, code) + old(FromTop(stack[..stackPtr]))
    {
      CodeRanges(bitsPerPixel);
      var j: nat, c: nat := 0, code;
      ghost var strings := table.strings;
      while j <= MAX_CODE && c > clearCode && c <= MAX_CODE
        invariant Shape() && Assigned(bitsPerPixel, strings, c)
        invariant j + Height(bitsPerPixel, c) <= Height(bitsPerPixel, code)
        invariant stackPtr == old(stackPtr) + j
        invariant StringOf(bitsPerPixel, strings, code) + old(FromTop(stack[..stackPtr]))
               == StringOf(bitsPerPixel, strings, c) + FromTop(stack[..stackPtr])
        decreases MAX_CODE + 1 - j
      {
        FollowChain(bitsPerPixel, strings, prefix[..], suffix[..], c);
        ghost var shorter := StringOf(bitsPerPixel, strings, prefix[c]);
        Regroup(shorter, [suffix[c]], FromTop(stack[..stackPtr]));
        Push(suffix[c]);
        c := prefix[c];
        j := j + 1;
      }
      ok := !(j + 1 >= MAX_CODE || c > MAX_CODE);
      if ok {
        CodesFitBytes(bitsPerPixel, c);
        Push(c);
      }
    }

    /** Pushes the string of a code that is no pixel: an entry of the table, or the one that
        the table is about to get. Any other code is an error. */
    method PushString(code: nat) returns (ok: bool)
      requires TableOk() && stackPtr == 0 && CountersOk(Count(table) + 1)
      requires First(bitsPerPixel) <= code <= MAX_CODE
      modifies this`stackPtr, stack, suffix
      ensures TableOk()
      ensures ok <==> Lookup(bitsPerPixel, table, code) != []
      ensures ok ==> FromTop(stack[..stackPtr]) == Lookup(bitsPerPixel, table, code)
    {
      CodeRanges(bitsPerPixel);
      var crntPrefix := code;
      ghost var known := code < First(bitsPerPixel) + |table.strings|;
      if known {
        FollowChain(bitsPerPixel, table.strings, prefix[..], suffix[..], code);
      }
      if prefix[code] == NO_SUCH_CODE {
        if code != runningCode - 2 {
          return false;
        }
        crntPrefix := lastCode;
        var c := GetPrefixChar(lastCode);
        WriteBeyond(bitsPerPixel, table.strings, prefix[..], suffix[..], code, prefix[code], c);
        suffix[code] := c;
        Push(c);
      }
      ok := Trace(crntPrefix);
    }

    /** The table gets the entry made of the last string and the first pixel of this one. */
    method LearnCode(code: nat)
      requires TableOk() && CountersOk(Count(table) + 1)
      requires code <= MAX_CODE && code != Clear(bitsPerPixel)
      requires Lookup(bitsPerPixel, table, code) != []
      requires Fits(bitsPerPixel, Learn(table, Lookup(bitsPerPixel, table, code)))
      modifies this`lastCode, this`table, prefix, suffix
      ensures TableOk() && table == old(Learn(table, Lookup(bitsPerPixel, table, code)))
      ensures CountersOk(Count(table))
    {
      hide Pow2, Width, Chains, Stands, Lookup, Learn, Assigned, StringOf;
      ghost var s := Lookup(bitsPerPixel, table, code);
      LearnCount(bitsPerPixel, table, s);
      if lastCode == NO_SUCH_CODE {
        LearnFirst(bitsPerPixel, table, prefix[..], suffix[..], code);
      } else {
        var c := runningCode - 2;
        LastIsCode(bitsPerPixel, table, prefix[..], suffix[..], lastCode);
        LearnChar(bitsPerPixel, table, prefix[..], suffix[..], lastCode, code);
        ghost var was, pixels := prefix[..], suffix[..];
        prefix[c] := lastCode;
        assert prefix[..] == was[c := lastCode];
        var p := GetPrefixChar(if code == c then lastCode else code);
        LearnNext(bitsPerPixel, table, was, pixels, lastCode, code, p);
        suffix[c] := p;
        assert suffix[..] == pixels[c := p];
      }
      lastCode := code;
      table := Learn(table, s);
    }

    method Push(p: byte)
      requires Shape() && stackPtr < STACK_SIZE
      modifies this`stackPtr, stack
      ensures stackPtr == old(stackPtr) + 1
      ensures FromTop(stack[..stackPtr]) == [p] + old(FromTop(stack[..stackPtr]))
    {
      Pushed(stack[..stackPtr], p);
      stack[stackPtr] := p;
      stackPtr := stackPtr + 1;
      assert stack[..stackPtr] == old(stack[..stackPtr]) + [p];
    }

    // ----- lines

    /** Pops pixels from the stack into the line, from pixel `i` on, until one of them ends. */
    method PopInto(line: array<byte>, i: nat, n: nat) returns (k: nat)
      requires Shape() && stackPtr <= STACK_SIZE && i <= n <= line.Length && line != stack
      modifies this`stackPtr, line
      ensures stackPtr <= STACK_SIZE && i + k <= n && (i + k < n ==> stackPtr == 0)
      ensures k <= |old(FromTop(stack[..stackPtr]))|
      ensures line[..i + k] == old(line[..i]) + old(FromTop(stack[..stackPtr]))[..k]
      ensures line[i + k..] == old(line[i + k..])
      ensures FromTop(stack[..stackPtr]) == old(FromTop(stack[..stackPtr]))[k..]
    {
      ghost var top, s, was := stackPtr, stack[..stackPtr], line[..];
      k := 0;
      while stackPtr != 0 && i + k < n
        invariant i + k <= n && k <= top && stackPtr == top - k
        invariant forall t :: 0 <= t < line.Length ==>
                    line[t] == if i <= t < i + k then s[top - 1 - (t - i)] else was[t]
      {
        stackPtr := stackPtr - 1;
        line[i + k] := stack[stackPtr];
        k := k + 1;
      }
      Popped(s, k, was, line[..], i);
      assert stack[..stackPtr] == s[..top - k];
    }

    /** Puts the string of a code that means something into the line, as far as it goes. */
    method Emit(code: nat, line: array<byte>, i: nat, n: nat) returns (ok: bool, k: nat)
      requires TableOk() && stackPtr == 0 && CountersOk(Count(table) + 1)
      requires code <= MAX_CODE && code != Clear(bitsPerPixel) && code != Eof(bitsPerPixel)
      requires i < n <= line.Length && line != stack && line != suffix && line as object != prefix
      modifies this`stackPtr, stack, suffix, line
      ensures TableOk()
      ensures ok <==> Lookup(bitsPerPixel, table, code) != []
      ensures ok ==>
                var s := Lookup(bitsPerPixel, table, code);
                && i + k <= n && k <= |s| && (i + k < n ==> stackPtr == 0)
                && line[..i + k] == old(line[..i]) + s[..k] && line[i + k..] == old(line[i + k..])
                && FromTop(stack[..stackPtr]) == s[k..]
    {
      hide Pow2, Width, Stands, Chains, Lookup, FromTop;
      PixelCode(bitsPerPixel, table, code);
      ok, k := true, 1;
      if code < clearCode {
        line[i] := code;
        assert line[..i + 1] == old(line[..i]) + [code as byte];
        assert line[i + 1..] == old(line[i + 1..]);
        assert stack[..stackPtr] == [];
      } else {
        ok := PushString(code);
        if ok {
          k := PopInto(line, i, n);
        }
      }
    }

    ghost predicate Apart(line: array<byte>)
      reads this
    {
      line != stack && line != suffix && line != reader.buf && line as object != prefix
    }

    /** What a line of `n` more pixels is to be. */
    ghost function Goal(n: nat): Line
      requires Valid()
      reads this, reader, reader.buf, stack, suffix, prefix
    {
      ReadLine(bitsPerPixel, Src(), n, pixelCount == 0)
    }

    /** One turn of the decoding loop: reads a code and puts `k` pixels into the line. An end
        code in place of the last pixel ends the loop as if the pixel had come. */
    method ReadCode(line: array<byte>, i: nat, n: nat) returns (ok: bool, eof: bool, k: nat)
      requires Valid() && Apart(line) && stackPtr == 0 && i < n <= line.Length
      requires !Goal(n - i).Beyond?
      modifies this`stackPtr, this`runningCode, this`runningBits, this`maxCode1, this`lastCode, this`table
      modifies this`shiftDWord, this`shiftState, reader, reader.buf, stack, suffix, prefix, line
      ensures !ok ==> old(Goal(n - i)) == Bad
      ensures ok ==> InputOk() && reader.End() == old(reader.End())
      ensures ok && eof ==> n - i == 1 && old(Goal(n - i)) == LastMissing([]) && line[..] == old(line[..])
      ensures ok && !eof ==>
                && Valid() && i + k <= n && (i + k < n ==> stackPtr == 0)
                && |Input()| < |old(Input())|
                && line[..i] == old(line[..i]) && line[i + k..] == old(line[i + k..])
                && old(Goal(n - i)) == Prepend(line[i..i + k], Goal(n - i - k))
    {
      hide Pow2, ToBits, FromBits, BytesToBits, Width, Payload, EndingOf, ReadLine, NextPixel, Lookup;
      hide Chains, Blank, StringOf, FromTop, Prepend, Learn, Fits, Assigned, ByCode;
      k, eof := 0, false;
      ghost var src, goal := Src(), Goal(n - i);
      NothingStacked();
      LineByCode(bitsPerPixel, src, n - i, pixelCount == 0);
      WidthStep(bitsPerPixel, Count(table));
      var code;
      ok, code := DecompressInput();
      if !ok {
        return;
      }
      ok, eof, k := ActOnCode(code, line, i, n, goal);
    }

    /** Does what the code that has been read says. */
    method ActOnCode(code: nat, line: array<byte>, i: nat, n: nat, ghost goal: Line)
      returns (ok: bool, eof: bool, k: nat)
      requires InputOk() && TableOk() && CountersOk(Count(table) + 1)
      requires Apart(line) && stackPtr == 0 && i < n <= line.Length && code <= MAX_CODE && !goal.Beyond?
      requires ByCode(bitsPerPixel, Source(Input(), Cut(), table, []), code, n - i, pixelCount == 0, goal)
      modifies this`stackPtr, this`runningCode, this`runningBits, this`maxCode1, this`lastCode, this`table
      modifies stack, suffix, prefix, line
      ensures !ok ==> goal == Bad
      ensures ok && eof ==> n - i == 1 && goal == LastMissing([]) && line[..] == old(line[..]) && InputOk()
      ensures ok && !eof ==>
                && Valid() && i + k <= n && (i + k < n ==> stackPtr == 0)
                && Input() == old(Input())
                && line[..i] == old(line[..i]) && line[i + k..] == old(line[i + k..])
                && goal == Prepend(line[i..i + k], Goal(n - i - k))
    {
      hide Pow2, ToBits, FromBits, BytesToBits, Width, Payload, EndingOf, ReadLine, NextPixel, Lookup;
      hide Chains, Blank, StringOf, FromTop, Prepend, Learn, Fits, Assigned;
      ok, eof, k := true, false, 0;
      if code == eofCode {
        eof := true;
        ok := i == n - 1 && pixelCount == 0;
      } else if code == clearCode {
        Restart(goal, n - i);
        assert line[i..i + k] == [];
        PrependTwice([], [], Goal(n - i));
      } else {
        ok, k := DataCode(code, line, i, n, goal);
      }
    }

    lemma NothingStacked()
      requires Shape() && stackPtr == 0
      ensures FromTop(stack[..stackPtr]) == []
    {}

    /** A Clear code has been read. */
    method Restart(ghost goal: Line, ghost n: nat)
      requires InputOk() && TableOk() && stackPtr == 0 && Fits(bitsPerPixel, EMPTY)
      requires goal == ReadLine(bitsPerPixel, Source(Input(), Cut(), EMPTY, []), n, pixelCount == 0)
      modifies this`runningCode, this`runningBits, this`maxCode1, this`lastCode, this`table, prefix
      ensures Valid() && Input() == old(Input()) && goal == Goal(n)
    {
      ResetTable();
      NothingStacked();
    }

    /** A code that is neither Clear nor the end code has been read, but not yet learned. */
    method DataCode(code: nat, line: array<byte>, i: nat, n: nat, ghost goal: Line) returns (ok: bool, k: nat)
      requires InputOk() && TableOk() && CountersOk(Count(table) + 1)
      requires Apart(line) && stackPtr == 0 && i < n <= line.Length
      requires code <= MAX_CODE && code != Clear(bitsPerPixel) && code != Eof(bitsPerPixel)
      requires var s := Lookup(bitsPerPixel, table, code);
               if s == [] then goal == Bad
               else
                 var t := Learn(table, s);
                 Fits(bitsPerPixel, t)
                 && goal == ReadLine(bitsPerPixel, Source(Input(), Cut(), t, s), n - i, pixelCount == 0)
      modifies this`stackPtr, this`lastCode, this`table, stack, suffix, prefix, line
      ensures !ok ==> goal == Bad
      ensures ok ==>
                && Valid() && i + k <= n && (i + k < n ==> stackPtr == 0)
                && Input() == old(Input())
                && line[..i] == old(line[..i]) && line[i + k..] == old(line[i + k..])
                && goal == Prepend(line[i..i + k], Goal(n - i - k))
    {
      hide Pow2, ToBits, FromBits, BytesToBits, Width, Payload, EndingOf, FromTop, ReadLine, NextPixel, Lookup;
      hide Stands, Fits, Assigned, Learn, Prepend, Goal;
      ghost var s, before := Lookup(bitsPerPixel, table, code), line[..i];
      ok, k := Emit(code, line, i, n);
      if ok {
        assert line[..i + k] == before + s[..k];
        assert line[..i] == line[..i + k][..i] == before;
        assert line[i..i + k] == line[..i + k][i..] == s[..k];
        LearnCode(code);
        LineGoesOn(s, k, n - i);
      }
    }

    /** Some pixels of a string are in the line, the others on the stack. */
    lemma LineGoesOn(s: Str, k: nat, n: nat)
      requires Valid() && k <= n && k <= |s| && FromTop(stack[..stackPtr]) == s[k..]
      ensures ReadLine(bitsPerPixel, Source(Input(), Cut(), table, s), n, pixelCount == 0)
              == Prepend(s[..k], Goal(n - k))
    {
      hide ReadLine, NextPixel, FromTop, Prepend, Chains, Blank, StringOf, Assigned;
      TakePending(bitsPerPixel, Source(Input(), Cut(), table, s), k, n, pixelCount == 0);
    }

    /** Decodes the next `lineLen` pixels, from the stack as long as it has any. */
    method DecompressLine(line: array<byte>, lineLen: nat) returns (ok: bool)
      requires Valid() && Apart(line) && lineLen <= line.Length
      requires !Goal(lineLen).Beyond?
      modifies this`stackPtr, this`runningCode, this`runningBits, this`maxCode1, this`lastCode, this`table
      modifies this`shiftDWord, this`shiftState, reader, reader.buf, stack, suffix, prefix, line
      ensures Delivered(old(Goal(lineLen)), ok, line, lineLen)
      ensures ok && !old(Goal(lineLen)).Beyond? ==> InputOk() && reader.End() == old(reader.End())
      ensures ok ==> line[lineLen..] == old(line[lineLen..])
    {
      hide Pow2, ToBits, FromBits, BytesToBits, Width, Payload, EndingOf, FromTop, ReadLine, NextPixel, Lookup;
      hide Chains, Blank, StringOf, Learn, Goal;
      ghost var goal, tail := Goal(lineLen), line[lineLen..];
      var i: nat := PopStacked(line, lineLen);
      while i < lineLen
        invariant Valid() && i <= lineLen && (i < lineLen ==> stackPtr == 0)
        invariant goal == Prepend(line[..i], Goal(lineLen - i))
        invariant line[lineLen..] == tail && reader.End() == old(reader.End())
        decreases |Input()|
      {
        var more, eof, j := ReadOn(line, i, lineLen, goal);
        if !more || eof {
          return more;
        }
        i := j;
      }
      LineDone();
      return true;
    }

    /** ReadCode, seen from the start of the line. */
    method ReadOn(line: array<byte>, i: nat, n: nat, ghost goal: Line) returns (ok: bool, eof: bool, j: nat)
      requires Valid() && Apart(line) && stackPtr == 0 && i < n <= line.Length
      requires goal == Prepend(line[..i], Goal(n - i)) && !goal.Beyond?
      modifies this`stackPtr, this`runningCode, this`runningBits, this`maxCode1, this`lastCode, this`table
      modifies this`shiftDWord, this`shiftState, reader, reader.buf, stack, suffix, prefix, line
      ensures !ok ==> goal == Bad
      ensures ok ==> InputOk() && reader.End() == old(reader.End()) && line[n..] == old(line[n..])
      ensures ok && eof ==> goal == LastMissing(line[..n - 1])
      ensures ok && !eof ==>
                && Valid() && j <= n && (j < n ==> stackPtr == 0)
                && |Input()| < |old(Input())|
                && goal == Prepend(line[..j], Goal(n - j))
    {
      hide *;
      ghost var before, tail := line[..i], line[n..];
      PrependKinds(before, Goal(n - i));
      var k;
      ok, eof, k := ReadCode(line, i, n);
      j := i + k;
      if ok && eof {
        assert line[..][n..] == tail && line[..][..i] == before;
      } else if ok {
        assert line[j..][n - j..] == line[n..];
        PrependTwice(before, line[i..j], Goal(n - i - k));
        assert line[..j] == before + line[i..j];
      }
    }

    lemma LineDone()
      requires Valid()
      ensures Goal(0) == Line([], Src())
    {}

    /** First come the pixels that the last line left on the stack. */
    method PopStacked(line: array<byte>, n: nat) returns (i: nat)
      requires Valid() && Apart(line) && n <= line.Length
      modifies this`stackPtr, line
      ensures Valid() && i <= n && (i < n ==> stackPtr == 0)
      ensures old(Goal(n)) == Prepend(line[..i], Goal(n - i)) && Input() == old(Input())
      ensures line[n..] == old(line[n..])
    {
      hide Pow2, ToBits, FromBits, BytesToBits, Width, Payload, EndingOf, FromTop, ReadLine, NextPixel, Lookup;
      hide Chains, Blank, StringOf, Learn;
      ghost var src, tail := Src(), line[n..];
      TakeStacked(n);
      i := PopInto(line, 0, n);
      assert line[..i] == src.pending[..i];
      assert Src() == src.(pending := src.pending[i..]);
      assert line[i..][n - i..] == line[n..];
    }

    /** The outcome of a line: pixels, an error, or all pixels but the last one. */
    ghost predicate Delivered(goal: Line, ok: bool, line: array<byte>, n: nat)
      requires n <= line.Length
      reads this, reader, reader.buf, stack, suffix, prefix, line
    {
      match goal
      case Line(pixels, rest) => ok && Valid() && Src() == rest && line[..n] == pixels
      case LastMissing(pixels) => ok && n > 0 && line[..n - 1] == pixels
      case Bad => !ok
      case Beyond => true
    }

    lemma TakeStacked(n: nat)
      requires Valid()
      ensures forall k :: 0 <= k <= n && k <= |Src().pending| ==>
                Goal(n) == Prepend(Src().pending[..k],
                                   ReadLine(bitsPerPixel, Src().(pending := Src().pending[k..]), n - k,
                                            pixelCount == 0))
    {
      forall k | 0 <= k <= n && k <= |Src().pending|
        ensures Goal(n) == Prepend(Src().pending[..k],
                                   ReadLine(bitsPerPixel, Src().(pending := Src().pending[k..]), n - k,
                                            pixelCount == 0))
      {
        TakePending(bitsPerPixel, Src(), k, n, pixelCount == 0);
      }
    }

    /** Decodes a line of pixels. With the last pixel of the image, the rest of its chain of
        sub-blocks is passed over. */
    method GetLine(line: array<byte>, lineLen: nat) returns (ok: bool)
      requires Valid() && Apart(line) && lineLen < 0x8000_0000
      requires LineLen(lineLen) <= line.Length
      requires !LineGoal(LineLen(lineLen)).Beyond?
      modifies this, reader, reader.buf, stack, suffix, prefix, line
      ensures ok ==> line[LineLen(lineLen)..] == old(line[LineLen(lineLen)..])
      ensures old(Left(LineLen(lineLen))) > TOO_BIG ==> !ok
      ensures old(Left(LineLen(lineLen))) <= TOO_BIG ==>
                match old(LineGoal(LineLen(lineLen)))
                case Line(pixels, rest) =>
                  && line[..LineLen(lineLen)] == pixels
                  && if old(Left(LineLen(lineLen))) > 0 then
                       && ok && Valid() && Src() == rest
                       && pixelCount == old(Left(LineLen(lineLen)))
                       && reader.End() == old(reader.End())
                     else
                       && ok == old(reader.End()).Terminated?
                       && (ok ==> reader.pos <= |reader.file| && reader.file[reader.pos..] == old(reader.End()).after)
                case LastMissing(pixels) =>
                  && |pixels| == LineLen(lineLen) - 1 && line[..|pixels|] == pixels
                  && ok == old(reader.End()).Terminated?
                case _ => !ok
      ensures bitsPerPixel == old(bitsPerPixel)
    {
      hide Pow2, ToBits, FromBits, BytesToBits, Width, Payload, EndingOf, FromTop, ReadLine, NextPixel, Lookup;
      hide Chains, Blank, StringOf, Learn;
      var n := LineLen(lineLen);
      CountDown(n);
      if pixelCount > TOO_BIG {
        return false;
      }
      ok := DecompressLine(line, n);
      if ok && pixelCount == 0 {
        ok := SkipRest();
      }
    }

    function LineLen(lineLen: nat): (n: nat)
      ensures lineLen > 0 ==> n == lineLen
      ensures lineLen == 0 ==> n == imageWidth
    {
      if lineLen == 0 then imageWidth else lineLen
    }

    ghost function Left(n: nat): nat
      reads this
    {
      PixelsLeft(pixelCount, n, wordBits)
    }

    ghost function LineGoal(n: nat): Line
      requires Valid()
      reads this, reader, reader.buf, stack, suffix, prefix
    {
      ReadLine(bitsPerPixel, Src(), n, Left(n) == 0)
    }

    method CountDown(n: nat)
      requires Valid()
      modifies this`pixelCount
      ensures Valid() && pixelCount == old(Left(n)) && Goal(n) == old(LineGoal(n)) && Src() == old(Src())
    {
      pixelCount := PixelsLeft(pixelCount, n, wordBits);
    }

    method SkipRest() returns (ok: bool)
      requires InputOk()
      modifies reader, reader.buf
      ensures ok <==> old(reader.End()).Terminated?
      ensures ok ==> reader.pos <= |reader.file| && reader.file[reader.pos..] == old(reader.End()).after
    {
      ok := reader.SkipChain();
    }
  }

  const TOO_BIG := 0xffff_0000

  /** The pixels left after `n` more, in unsigned words of `wordBits` bits. */
  function PixelsLeft(count: nat, n: nat, wordBits: nat): nat
  {
    if count >= n then count - n
    else if n - count <= Pow2(wordBits) then Pow2(wordBits) - (n - count) else 0
  }

  /** The test that rejects a line that is longer than what is left of the image: in 64-bit
      words it always does, in 32-bit words only if the line is less than 65536 pixels too
      long. Lines that fit are never rejected. */
  lemma OverlongLine(count: nat, n: nat, wordBits: nat)
    requires wordBits == 32 || wordBits == 64
    requires count <= 0xFFFF * 0xFFFF && n < 0x8000_0000
    ensures PixelsLeft(count, n, wordBits) > TOO_BIG <==> n > count && (wordBits == 64 || n - count < 0x1_0000)
    ensures n <= count ==> PixelsLeft(count, n, wordBits) == count - n
  {
    SmallPowers();
  }

  /** A line of 65537 pixels is not rejected, in 32-bit words, when one pixel is left. */
  lemma OverlongLineMissed()
    ensures PixelsLeft(1, 0x1_0001, 32) == TOO_BIG && PixelsLeft(1, 0x1_0001, 64) > TOO_BIG
  {
    SmallPowers();
  }

  /** What is written past the table does not touch its entries. */
  lemma WriteBeyond(bpp: nat, strings: seq<Str>, prefix: seq<nat>, suffix: seq<byte>, c: nat, q: nat, p: byte)
    requires Chains(bpp, strings, prefix, suffix)
    requires First(bpp) + |strings| <= c < 4096
    ensures Chains(bpp, strings, prefix[c := q], suffix[c := p])
    ensures prefix[c := prefix[c]] == prefix && suffix[c := suffix[c]] == suffix
  {
    var prefix', suffix' := prefix[c := q], suffix[c := p];
    forall i | 0 <= i < |strings|
      ensures Linked(bpp, strings, prefix', suffix', i)
    {
      assert Linked(bpp, strings, prefix, suffix, i);
    }
  }

  /** At most so many steps lead from a code to a pixel. */
  function Height(bpp: nat, code: nat): nat
  {
    if code >= First(bpp) then code - First(bpp) + 1 else 0
  }

  lemma DoublePower(width: nat)
    ensures ShiftLeft(Pow2(width), 1) == Pow2(width + 1)
  {}

  /** A byte enters the register: the input stays the same. */
  lemma AddByte(x: nat, shift: nat, b: byte, left: seq<byte>)
    requires x < Pow2(shift)
    ensures var y := BitOr(x, ShiftLeft(b, shift));
            && y < Pow2(shift + 8)
            && ToBits(y, shift + 8) + BytesToBits(left) == ToBits(x, shift) + BytesToBits([b] + left)
  {
    EightBits();
    hide Pow2, ToBits, ShiftLeft, BitOr;
    RegisterAppend(x, shift, b, 8);
    assert ([b] + left)[1..] == left;
    var bits := BytesToBits(left);
    assert ToBits(x, shift) + ToBits(b, 8) + bits == ToBits(x, shift) + (ToBits(b, 8) + bits);
  }

  /** A code leaves the register: its bits come off the front of the input. */
  lemma TakeCode(x: nat, shift: nat, width: nat, left: seq<byte>)
    requires width <= shift && x < Pow2(shift)
    ensures var input := ToBits(x, shift) + BytesToBits(left);
            && BitAnd(x, Ones(width)) == FromBits(input[..width])
            && ShiftRight(x, width) < Pow2(shift - width)
            && ToBits(ShiftRight(x, width), shift - width) + BytesToBits(left) == input[width..]
  {
    ToBitsSplit(x, width, shift - width);
    MaskBounds(x, width);
    FromToBits(BitAnd(x, Ones(width)), width);
    ShiftRightBound(x, shift - width, width);
    var input := ToBits(x, shift) + BytesToBits(left);
    assert input[..width] == ToBits(BitAnd(x, Ones(width)), width);
  }
}
