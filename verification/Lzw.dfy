/** LZW as section 22 and Appendix F of the GIF89a specification describe it, over tables of
    strings: the compressor, the expander, and the variable code widths. The encoder and the
    decoder are proved against these definitions. */
module Lzw {
  import opened Common
  import opened Bits

  type Str = seq<byte>

  const MAX_CODE := 4095
  const MAX_BITS := 12

  /** Two to eight bits a pixel; a code size of 1 is written as 2. */
  predicate BitsPerPixel(bpp: int) { 2 <= bpp <= 8 }

  function Clear(bpp: nat): nat { Pow2(bpp) }
  function Eof(bpp: nat): nat { Pow2(bpp) + 1 }
  /** The code of the first table entry. */
  function First(bpp: nat): nat { Pow2(bpp) + 2 }

  predicate Pixels(bpp: nat, s: seq<byte>)
  {
    forall i :: 0 <= i < |s| ==> s[i] < Pow2(bpp)
  }

  lemma CodeRanges(bpp: nat)
    requires BitsPerPixel(bpp)
    ensures 4 <= Clear(bpp) <= 256 && First(bpp) <= 258
    ensures First(bpp) < Pow2(bpp + 1) <= 512
  {
    assert Pow2(2) == 4 && Pow2(8) == 256 by { SmallPowers(); }
    hide Pow2;
    Pow2Monotone(2, bpp);
    Pow2Monotone(bpp, 8);
    Doubled(bpp);
  }

  lemma Doubled(n: nat)
    ensures Pow2(n + 1) == 2 * Pow2(n)
  {}

  // ----- code widths

  /** The least number of bits, from `w` on and up to 12, that holds every code below
      `limit`. */
  function LeastWidth(limit: nat, w: nat): (r: nat)
    requires w <= MAX_BITS
    ensures w <= r <= MAX_BITS
    decreases MAX_BITS - w
  {
    if limit <= Pow2(w) || w == MAX_BITS then w else LeastWidth(limit, w + 1)
  }

  lemma {:induction false} LeastWidthIsLeast(limit: nat, w: nat)
    requires w <= MAX_BITS
    ensures var r := LeastWidth(limit, w);
            && (limit <= Pow2(r) || r == MAX_BITS)
            && forall v :: w <= v < r ==> Pow2(v) < limit
    decreases MAX_BITS - w
  {
    if limit <= Pow2(w) || w == MAX_BITS {
    } else {
      LeastWidthIsLeast(limit, w + 1);
    }
  }

  /** The width of a code that comes `count` codes after the last Clear. */
  function Width(bpp: nat, count: nat): (w: nat)
    requires BitsPerPixel(bpp)
    ensures bpp + 1 <= w <= MAX_BITS
  {
    LeastWidth(First(bpp) + count, bpp + 1)
  }

  /** One more code widens the codes by one bit exactly when it no longer fits. */
  lemma WidthStep(bpp: nat, count: nat)
    requires BitsPerPixel(bpp)
    ensures var w := Width(bpp, count);
            Width(bpp, count + 1) == if First(bpp) + count + 1 > Pow2(w) && w < MAX_BITS then w + 1 else w
  {
    hide Pow2;
    var limit := First(bpp) + count;
    var w, v := Width(bpp, count), Width(bpp, count + 1);
    assert limit + 1 == First(bpp) + (count + 1);
    LeastWidthStep(limit, bpp + 1);
  }

  lemma FirstWidth(bpp: nat)
    requires BitsPerPixel(bpp)
    ensures Width(bpp, 0) == bpp + 1
  {
    CodeRanges(bpp);
  }

  lemma {:induction false} LeastWidthStep(limit: nat, w: nat)
    requires w <= MAX_BITS
    ensures var r := LeastWidth(limit, w);
            LeastWidth(limit + 1, w) == if limit + 1 > Pow2(r) && r < MAX_BITS then r + 1 else r
    decreases MAX_BITS - w
  {
    if limit < Pow2(w) || w == MAX_BITS {
    } else if limit == Pow2(w) {
      assert limit + 1 <= Pow2(w + 1);
    } else {
      LeastWidthStep(limit, w + 1);
    }
  }

  // ----- the expander

  /** The strings of the table, the first one having code First, and the string of the code
      before; `last` is empty after a Clear. */
  datatype Table = Table(strings: seq<Str>, last: Str)

  const EMPTY := Table([], [])

  /** The string of a code, or the empty string when the code has no meaning. The code the
      table is about to define stands for the last string and its first pixel. */
  function Lookup(bpp: nat, t: Table, code: nat): (s: Str)
    requires code <= MAX_CODE
  {
    CodesFitBytes(bpp, code);
    if code < Clear(bpp) && code < 256 then [code]
    else if First(bpp) <= code < First(bpp) + |t.strings| then t.strings[code - First(bpp)]
    else if code == First(bpp) + |t.strings| && t.last != [] then t.last + [t.last[0]]
    else []
  }

  lemma CodesFitBytes(bpp: nat, code: nat)
    ensures BitsPerPixel(bpp) && code < Clear(bpp) ==> code < 256
  {
    hide Pow2;
    EightBits();
    if BitsPerPixel(bpp) {
      Pow2Monotone(bpp, 8);
    }
  }

  function Learn(t: Table, s: Str): Table
    requires s != []
  {
    if t.last == [] then Table([], s) else Table(t.strings + [t.last + [s[0]]], s)
  }

  /** The number of codes since the last Clear. */
  function Count(t: Table): nat
  {
    if t.last == [] then 0 else |t.strings| + 1
  }

  /** Codes have twelve bits at most, and no entry comes before the second code. */
  predicate Fits(bpp: nat, t: Table)
  {
    && First(bpp) + |t.strings| <= MAX_CODE + 1
    && (t.last == [] ==> t.strings == [])
  }

  /** What a run of codes means. */
  datatype Meaning = Meaningless | Means(pixels: Str, table: Table)

  function Next(bpp: nat, t: Table, code: nat): Meaning
  {
    if code > MAX_CODE then Meaningless
    else if code == Clear(bpp) then Means([], EMPTY)
    else
      var s := Lookup(bpp, t, code);
      if s == [] || !Fits(bpp, Learn(t, s)) then Meaningless else Means(s, Learn(t, s))
  }

  function Expand(bpp: nat, t: Table, codes: seq<nat>): Meaning
    decreases |codes|
  {
    if codes == [] then Means([], t)
    else
      match Next(bpp, t, codes[0])
      case Meaningless => Meaningless
      case Means(s, t') =>
        match Expand(bpp, t', codes[1..])
        case Meaningless => Meaningless
        case Means(s', t'') => Means(s + s', t'')
  }

  lemma {:induction false} ExpandAppend(bpp: nat, t: Table, codes: seq<nat>, more: seq<nat>)
    requires Expand(bpp, t, codes).Means?
    ensures var a := Expand(bpp, t, codes);
            var b := Expand(bpp, a.table, more);
            Expand(bpp, t, codes + more) == if b.Means? then Means(a.pixels + b.pixels, b.table) else Meaningless
    decreases |codes|
  {
    if codes == [] {
      assert codes + more == more;
      var b := Expand(bpp, t, more);
      assert b.Means? ==> [] + b.pixels == b.pixels;
    } else {
      var all := codes + more;
      assert all[0] == codes[0] && all[1..] == codes[1..] + more;
      var first := Next(bpp, t, codes[0]);
      ExpandAppend(bpp, first.table, codes[1..], more);
      var a := Expand(bpp, first.table, codes[1..]);
      var b := Expand(bpp, a.table, more);
      if b.Means? {
        assert first.pixels + (a.pixels + b.pixels) == (first.pixels + a.pixels) + b.pixels;
      }
    }
  }

  // ----- the compressor

  /** The table, from strings to codes, and the string that is matched so far; `current` is
      empty before the first pixel. */
  datatype Compressor = Compressor(table: map<Str, nat>, current: Str)

  const START := Compressor(map[], [])

  predicate Known(table: map<Str, nat>, s: Str)
  {
    |s| == 1 || s in table
  }

  function CodeOf(table: map<Str, nat>, s: Str): nat
    requires Known(table, s)
  {
    if |s| == 1 then s[0] else table[s]
  }

  datatype Step = Step(next: Compressor, codes: seq<nat>)

  /** The longest match grows while the table has it. Then its code goes out, the match with
      the new pixel enters the table (or a full table is cleared), and the pixel starts the
      next match. */
  function CompressPixel(bpp: nat, c: Compressor, p: byte): Step
    requires c.current != [] ==> Known(c.table, c.current)
  {
    var s := c.current + [p];
    var next := First(bpp) + |c.table|;
    if Known(c.table, s) then Step(c.(current := s), [])
    else if next >= MAX_CODE then Step(Compressor(map[], [p]), [CodeOf(c.table, c.current), Clear(bpp)])
    else Step(Compressor(c.table[s := next], [p]), [CodeOf(c.table, c.current)])
  }

  /** A string without its last pixel. */
  function Front(s: Str): Str
  {
    if s == [] then [] else s[..|s| - 1]
  }

  /** An entry of a table: two or more pixels, one pixel longer than a string the table knows,
      with a code in the range of the table. */
  predicate Entry(bpp: nat, table: map<Str, nat>, s: Str)
    requires s in table
  {
    && |s| >= 2
    && Pixels(bpp, s)
    && Known(table, Front(s))
    && First(bpp) <= table[s] < First(bpp) + |table|
  }

  predicate GoodTable(bpp: nat, table: map<Str, nat>)
  {
    forall s {:trigger Entry(bpp, table, s)} :: s in table ==> Entry(bpp, table, s)
  }

  /** Every reachable state; the table stays below code 4095. */
  predicate Sound(bpp: nat, c: Compressor)
  {
    && BitsPerPixel(bpp)
    && First(bpp) + |c.table| <= MAX_CODE
    && GoodTable(bpp, c.table)
    && (c.current != [] ==> Known(c.table, c.current))
    && (c.current == [] ==> c.table == map[])
    && Pixels(bpp, c.current)
  }

  /** A new string that extends a known one keeps the table good. */
  lemma TableGrows(bpp: nat, table: map<Str, nat>, s: Str, p: byte)
    requires GoodTable(bpp, table) && Known(table, s) && s != []
    requires Pixels(bpp, s + [p]) && s + [p] !in table
    ensures GoodTable(bpp, table[s + [p] := First(bpp) + |table|])
  {
    var longer := table[s + [p] := First(bpp) + |table|];
    assert Front(s + [p]) == s;
    assert |longer| == |table| + 1;
    forall t | t in longer
      ensures Entry(bpp, longer, t)
    {
      assert t in table ==> Entry(bpp, table, t);
    }
  }

  lemma SoundStep(bpp: nat, c: Compressor, p: byte)
    requires Sound(bpp, c) && p < Pow2(bpp)
    ensures Sound(bpp, CompressPixel(bpp, c, p).next)
  {
    CodeRanges(bpp);
    var s := c.current + [p];
    if !Known(c.table, s) && First(bpp) + |c.table| < MAX_CODE {
      TableGrows(bpp, c.table, c.current, p);
    }
  }

  function Compress(bpp: nat, pixels: seq<byte>): (r: Step)
    requires BitsPerPixel(bpp) && Pixels(bpp, pixels)
    ensures Sound(bpp, r.next)
    ensures pixels != [] ==> r.next.current != []
  {
    CodeRanges(bpp);
    if pixels == [] then Step(START, [])
    else
      var r := Compress(bpp, pixels[..|pixels| - 1]);
      SoundStep(bpp, r.next, pixels[|pixels| - 1]);
      var step := CompressPixel(bpp, r.next, pixels[|pixels| - 1]);
      Step(step.next, r.codes + step.codes)
  }

  /** The codes of an image without the leading Clear and the closing EOF. */
  function CompressAll(bpp: nat, pixels: seq<byte>): seq<nat>
    requires BitsPerPixel(bpp) && Pixels(bpp, pixels) && pixels != []
  {
    var r := Compress(bpp, pixels);
    r.codes + [CodeOf(r.next.table, r.next.current)]
  }

  lemma CompressOneMore(bpp: nat, pixels: seq<byte>, p: byte)
    requires BitsPerPixel(bpp) && Pixels(bpp, pixels) && p < Pow2(bpp)
    ensures Pixels(bpp, pixels + [p])
    ensures var r := Compress(bpp, pixels);
            var step := CompressPixel(bpp, r.next, p);
            Compress(bpp, pixels + [p]) == Step(step.next, r.codes + step.codes)
  {
    assert (pixels + [p])[..|pixels|] == pixels;
  }

  // ----- the two agree

  /** The expander's table has the compressor's strings at the places that their codes tell. */
  predicate SameTable(bpp: nat, table: map<Str, nat>, strings: seq<Str>)
  {
    && |strings| == |table|
    && forall s {:trigger Placed(bpp, table, strings, s)} :: s in table ==> Placed(bpp, table, strings, s)
  }

  predicate Placed(bpp: nat, table: map<Str, nat>, strings: seq<Str>, s: Str)
    requires s in table
  {
    First(bpp) <= table[s] < First(bpp) + |strings| && strings[table[s] - First(bpp)] == s
  }

  /** The expander lags one entry behind. The entry it lacks is its last string followed by
      the first pixel of the match in progress. */
  predicate Lags(bpp: nat, c: Compressor, t: Table)
  {
    if c.table == map[] then t == EMPTY
    else t.last != [] && c.current != [] && SameTable(bpp, c.table, t.strings + [t.last + [c.current[0]]])
  }

  /** Sending the code of the match: the expander finds the match, even when its code is the
      one entry it lacks, and its table catches up. */
  lemma SendMatch(bpp: nat, c: Compressor, t: Table)
    requires Sound(bpp, c) && c.current != [] && Lags(bpp, c, t)
    ensures var code := CodeOf(c.table, c.current);
            && code <= MAX_CODE && code != Clear(bpp) && code <= First(bpp) + |t.strings|
            && Next(bpp, t, code) == Means(c.current, Learn(t, c.current))
            && SameTable(bpp, c.table, Learn(t, c.current).strings)
  {
    CodeRanges(bpp);
    var s := c.current;
    var code := CodeOf(c.table, s);
    if |s| == 1 {
      assert s[0] < Clear(bpp);
      assert s == [s[0]];
    } else {
      assert Entry(bpp, c.table, s);
      var i := code - First(bpp);
      var strings := t.strings + [t.last + [s[0]]];
      assert Placed(bpp, c.table, strings, s);
      if i == |t.strings| {
        assert s[0] == t.last[0];
      }
    }
    assert Lookup(bpp, t, code) == s;
  }

  lemma SendClear(bpp: nat, t: Table)
    requires BitsPerPixel(bpp)
    ensures Expand(bpp, t, [Clear(bpp)]) == Means([], EMPTY)
  {
    CodeRanges(bpp);
    assert [Clear(bpp)][1..] == [];
  }

  lemma ExpandOne(bpp: nat, t: Table, code: nat)
    requires Next(bpp, t, code).Means?
    ensures Expand(bpp, t, [code]) == Next(bpp, t, code)
  {
    var r := Next(bpp, t, code);
    assert [code][1..] == [];
    assert r.pixels + [] == r.pixels;
  }

  /** The codes sent so far mean the pixels taken in so far, but for the match in progress. */
  predicate Synchronous(bpp: nat, r: Step, pixels: seq<byte>)
  {
    var m := Expand(bpp, EMPTY, r.codes);
    m.Means? && m.pixels + r.next.current == pixels && Lags(bpp, r.next, m.table)
  }

  lemma {:induction false} CodesMeanPixels(bpp: nat, pixels: seq<byte>)
    requires BitsPerPixel(bpp) && Pixels(bpp, pixels)
    ensures Synchronous(bpp, Compress(bpp, pixels), pixels)
  {
    if pixels == [] {
    } else {
      var n := |pixels| - 1;
      CodesMeanPixels(bpp, pixels[..n]);
      SynchronousStep(bpp, Compress(bpp, pixels[..n]), pixels[..n], pixels[n]);
      assert pixels == pixels[..n] + [pixels[n]];
    }
  }

  lemma SynchronousStep(bpp: nat, r: Step, pixels: seq<byte>, p: byte)
    requires Sound(bpp, r.next) && p < Pow2(bpp)
    requires Synchronous(bpp, r, pixels)
    ensures var step := CompressPixel(bpp, r.next, p);
            Synchronous(bpp, Step(step.next, r.codes + step.codes), pixels + [p])
  {
    var m := Expand(bpp, EMPTY, r.codes);
    var step := CompressPixel(bpp, r.next, p);
    CodesOfOnePixel(bpp, r.next, m.table, p);
    ExpandAppend(bpp, EMPTY, r.codes, step.codes);
    var m' := Expand(bpp, m.table, step.codes);
    Regroup(m.pixels, m'.pixels, step.next.current);
    Regroup(m.pixels, r.next.current, [p]);
  }

  lemma CodesOfOnePixel(bpp: nat, c: Compressor, t: Table, p: byte)
    requires Sound(bpp, c) && Lags(bpp, c, t) && p < Pow2(bpp)
    ensures var step := CompressPixel(bpp, c, p);
            var m := Expand(bpp, t, step.codes);
            m.Means? && m.pixels + step.next.current == c.current + [p] && Lags(bpp, step.next, m.table)
  {
    var step := CompressPixel(bpp, c, p);
    if step.codes != [] {
      var code := CodeOf(c.table, c.current);
      SendMatch(bpp, c, t);
      ExpandOne(bpp, t, code);
      var sent := Learn(t, c.current);
      if |step.codes| == 2 {
        ExpandAppend(bpp, t, [code], [Clear(bpp)]);
        SendClear(bpp, sent);
        assert c.current + [] == c.current;
        assert step.codes == [code] + [Clear(bpp)];
      } else {
        LagsAgain(bpp, c, sent, p);
      }
    }
  }

  /** The new entry of the compressor is the one that the expander lacks. */
  lemma LagsAgain(bpp: nat, c: Compressor, t: Table, p: byte)
    requires Sound(bpp, c) && c.current != [] && t.last == c.current && SameTable(bpp, c.table, t.strings)
    requires c.current + [p] !in c.table
    ensures Lags(bpp, Compressor(c.table[c.current + [p] := First(bpp) + |c.table|], [p]), t)
  {
    var strings := t.strings + [c.current + [p]];
    var longer := c.table[c.current + [p] := First(bpp) + |c.table|];
    assert c.current + [p] in longer;
    assert |longer| == |c.table| + 1;
    forall s | s in longer
      ensures Placed(bpp, longer, strings, s)
    {
      if s in c.table {
        assert Placed(bpp, c.table, t.strings, s);
      }
    }
  }

  /** LZW round trip: the codes of an image expand to the image. */
  lemma ExpandCompress(bpp: nat, pixels: seq<byte>)
    requires BitsPerPixel(bpp) && Pixels(bpp, pixels) && pixels != []
    ensures var m := Expand(bpp, EMPTY, CompressAll(bpp, pixels));
            m.Means? && m.pixels == pixels
  {
    CodesMeanPixels(bpp, pixels);
    var r := Compress(bpp, pixels);
    var m := Expand(bpp, EMPTY, r.codes);
    var code := CodeOf(r.next.table, r.next.current);
    SendMatch(bpp, r.next, m.table);
    ExpandOne(bpp, m.table, code);
    ExpandAppend(bpp, EMPTY, r.codes, [code]);
  }

  // ----- codes as bits

  /** The bits of a run of codes, `count` codes after the last Clear. */
  function Serialize(bpp: nat, count: nat, codes: seq<nat>): seq<bool>
    requires BitsPerPixel(bpp)
    decreases |codes|
  {
    if codes == [] then []
    else
      ToBits(codes[0], Width(bpp, count))
      + Serialize(bpp, if codes[0] == Clear(bpp) then 0 else count + 1, codes[1..])
  }

  /** Each code with its width. */
  function Coded(bpp: nat, count: nat, codes: seq<nat>): seq<Code>
    requires BitsPerPixel(bpp)
    decreases |codes|
  {
    if codes == [] then []
    else
      [Code(codes[0], Width(bpp, count))]
      + Coded(bpp, if codes[0] == Clear(bpp) then 0 else count + 1, codes[1..])
  }

  /** The bits of codes, with the widths that the codes themselves call for. */
  lemma {:induction false} SerializeIsPacked(bpp: nat, count: nat, codes: seq<nat>)
    requires BitsPerPixel(bpp)
    ensures Serialize(bpp, count, codes) == Packed(Coded(bpp, count, codes))
    ensures Values(Coded(bpp, count, codes)) == codes
    decreases |codes|
  {
    hide Width, ToBits;
    if codes == [] {
    } else {
      var next, coded := if codes[0] == Clear(bpp) then 0 else count + 1, Coded(bpp, count, codes);
      SerializeIsPacked(bpp, next, codes[1..]);
      assert coded[1..] == Coded(bpp, next, codes[1..]);
      assert Values(coded) == [codes[0]] + Values(coded[1..]);
    }
  }

  function CountAfter(bpp: nat, count: nat, codes: seq<nat>): nat
    decreases |codes|
  {
    if codes == [] then count
    else CountAfter(bpp, if codes[0] == Clear(bpp) then 0 else count + 1, codes[1..])
  }

  lemma {:induction false} SerializeAppend(bpp: nat, count: nat, codes: seq<nat>, more: seq<nat>)
    requires BitsPerPixel(bpp)
    ensures CountAfter(bpp, count, codes + more) == CountAfter(bpp, CountAfter(bpp, count, codes), more)
    ensures Serialize(bpp, count, codes + more)
            == Serialize(bpp, count, codes) + Serialize(bpp, CountAfter(bpp, count, codes), more)
    decreases |codes|
  {
    hide Pow2, Width, ToBits;
    if codes == [] {
      assert codes + more == more;
    } else {
      var all := codes + more;
      var count' := if codes[0] == Clear(bpp) then 0 else count + 1;
      assert all[0] == codes[0] && all[1..] == codes[1..] + more;
      SerializeAppend(bpp, count', codes[1..], more);
      var bits := ToBits(codes[0], Width(bpp, count));
      var rest := Serialize(bpp, CountAfter(bpp, count, codes), more);
      assert Serialize(bpp, count, all) == bits + (Serialize(bpp, count', codes[1..]) + rest);
    }
  }

  lemma SerializeOneMore(bpp: nat, codes: seq<nat>, code: nat)
    requires BitsPerPixel(bpp)
    ensures var count := CountAfter(bpp, 0, codes);
            && Serialize(bpp, 0, codes + [code]) == Serialize(bpp, 0, codes) + ToBits(code, Width(bpp, count))
            && CountAfter(bpp, 0, codes + [code]) == if code == Clear(bpp) then 0 else count + 1
  {
    var count := CountAfter(bpp, 0, codes);
    SerializeAppend(bpp, 0, codes, [code]);
    assert [code][1..] == [];
    assert Serialize(bpp, count, [code]) == ToBits(code, Width(bpp, count)) + [];
  }

  /** Every code assigned so far fits the width in force. */
  lemma AssignedCodeFits(bpp: nat, count: nat, code: nat)
    requires BitsPerPixel(bpp)
    requires code < First(bpp) + count && code <= MAX_CODE
    ensures code < Pow2(Width(bpp, count))
  {
    LeastWidthIsLeast(First(bpp) + count, bpp + 1);
    TwelveBits();
  }

  /** A code that means something fits the width it is written with. */
  lemma CodeFitsWidth(bpp: nat, t: Table, code: nat)
    requires BitsPerPixel(bpp) && Fits(bpp, t)
    requires Next(bpp, t, code).Means?
    ensures code < Pow2(Width(bpp, Count(t)))
    ensures Count(Next(bpp, t, code).table) == if code == Clear(bpp) then 0 else Count(t) + 1
  {
    CodeRanges(bpp);
    AssignedCodeFits(bpp, Count(t), code);
  }
}
