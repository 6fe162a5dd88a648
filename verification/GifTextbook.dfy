/** The format as Appendix F of the GIF89a specification has it, apart from the tables and states
    of the library: one table of strings, indexed by the codes themselves. The codes that the
    compressor sends are those of a greedy parse, and what the reader makes of any bits, errors
    and the end code included, is what such a table gives. */
module GifTextbook {
  import opened Common
  import opened Bits
  import opened SubBlocks
  import opened Lzw
  import opened LzwStream

  // ----- the table

  /** The table after a Clear: a string for each pixel, and none for the Clear and the end code. */
  function Initial(bpp: nat): (t: seq<Str>)
    requires BitsPerPixel(bpp)
    ensures |t| == Pow2(bpp) + 2 && t[Pow2(bpp)] == t[Pow2(bpp) + 1] == []
    ensures forall k :: 0 <= k < Pow2(bpp) ==> k < 256 && t[k] == [k as byte]
  {
    PixelsAreBytes(bpp);
    seq(Pow2(bpp), k requires 0 <= k < Pow2(bpp) => [k as byte]) + [[], []]
  }

  lemma PixelsAreBytes(bpp: nat)
    requires BitsPerPixel(bpp)
    ensures 4 <= Pow2(bpp) <= 256
  {
    CodeRanges(bpp);
  }

  // ----- writing

  /** The length of the longest start of `s`, up to `n` pixels, that the table has. */
  function Longest(t: seq<Str>, s: Str, n: nat): (m: nat)
    requires n <= |s|
    ensures m <= n && (m > 0 ==> s[..m] in t)
    ensures forall k :: m < k <= n ==> s[..k] !in t
  {
    if n == 0 || s[..n] in t then n else Longest(t, s, n - 1)
  }

  function CodeIn(t: seq<Str>, s: Str): (k: nat)
    requires s in t
    ensures k < |t| && t[k] == s && forall j :: 0 <= j < k ==> t[j] != s
  {
    if t[0] == s then 0 else CodeIn(t[1..], s) + 1
  }

  /** The codes for `s`, up to the end code: the longest start that has a code, and so on. Each code
      is followed by a new entry, its string with one more pixel, or by a Clear if 4095 is the code
      that would come next. */
  function Parse(bpp: nat, t: seq<Str>, s: Str): seq<nat>
    requires BitsPerPixel(bpp) && Pixels(bpp, s) && Initial(bpp) <= t
    decreases |s|
  {
    if s == [] then [Pow2(bpp) + 1]
    else
      var n := Longest(t, s, |s|);
      assert n > 0 by { OnePixel(bpp, t, s); }
      var code := CodeIn(t, s[..n]);
      if n == |s| then [code, Pow2(bpp) + 1]
      else if |t| >= 4095 then [code, Pow2(bpp)] + Parse(bpp, Initial(bpp), s[n..])
      else [code] + Parse(bpp, t + [s[..n + 1]], s[n..])
  }

  lemma OnePixel(bpp: nat, t: seq<Str>, s: Str)
    requires BitsPerPixel(bpp) && Pixels(bpp, s) && Initial(bpp) <= t && s != []
    ensures s[..1] in t && CodeIn(t, s[..1]) == s[0]
  {
    assert Initial(bpp)[s[0]] == [s[0]] == s[..1] == t[s[0]];
    forall j | 0 <= j < s[0]
      ensures t[j] != s[..1]
    {
      assert t[j] == Initial(bpp)[j] == [j as byte];
    }
  }

  /** The compressor's table is that of the parse. */
  predicate Same(bpp: nat, table: map<Str, nat>, t: seq<Str>) {
    && BitsPerPixel(bpp) && Initial(bpp) <= t && |t| == Pow2(bpp) + 2 + |table|
    && (forall s :: s in table ==> Pow2(bpp) + 2 <= table[s] < |t| && t[table[s]] == s)
    && (forall k :: Pow2(bpp) + 2 <= k < |t| ==> t[k] in table && table[t[k]] == k)
  }

  lemma SameCodes(bpp: nat, table: map<Str, nat>, t: seq<Str>, s: Str)
    requires GoodTable(bpp, table) && Same(bpp, table, t) && Pixels(bpp, s) && s != []
    ensures Known(table, s) <==> s in t
    ensures Known(table, s) ==> CodeOf(table, s) == CodeIn(t, s)
  {
    if s in t {
      var k :| 0 <= k < |t| && t[k] == s;
      if k < Pow2(bpp) + 2 {
        assert t[k] == Initial(bpp)[k];
      }
    }
    if |s| == 1 {
      OnePixel(bpp, t, s);
      assert s == s[..1];
    } else if s in table {
      assert Entry(bpp, table, s);
      forall j | 0 <= j < table[s]
        ensures t[j] != s
      {
        if j < Pow2(bpp) + 2 {
          assert t[j] == Initial(bpp)[j];
        }
      }
    }
  }

  /** Whatever start of a known string is known, too. */
  lemma {:induction false} StartsKnown(bpp: nat, table: map<Str, nat>, s: Str, n: nat)
    requires GoodTable(bpp, table) && Known(table, s) && 0 < n <= |s|
    ensures Known(table, s[..n])
    decreases |s|
  {
    if n == |s| {
      assert s[..n] == s;
    } else {
      assert Entry(bpp, table, s);
      StartsKnown(bpp, table, Front(s), n);
      assert Front(s)[..n] == s[..n];
    }
  }

  /** The codes that go out from a state on. */
  function Onward(bpp: nat, c: Compressor, s: Str): seq<nat>
    requires Sound(bpp, c) && c.current != [] && Pixels(bpp, s)
    decreases |s|
  {
    if s == [] then [CodeOf(c.table, c.current)]
    else
      SoundStep(bpp, c, s[0]);
      var step := CompressPixel(bpp, c, s[0]);
      step.codes + Onward(bpp, step.next, s[1..])
  }

  lemma {:induction false} CodesOnward(bpp: nat, pixels: seq<byte>, n: nat)
    requires BitsPerPixel(bpp) && Pixels(bpp, pixels) && 0 < n <= |pixels|
    ensures var r := Compress(bpp, pixels[..n]);
            CompressAll(bpp, pixels) == r.codes + Onward(bpp, r.next, pixels[n..])
    decreases |pixels| - n
  {
    hide CompressPixel, Sound;
    if n == |pixels| {
      assert pixels[..n] == pixels;
    } else {
      CodesOnward(bpp, pixels, n + 1);
      assert pixels[..n + 1] == pixels[..n] + [pixels[n]];
      CompressOneMore(bpp, pixels[..n], pixels[n]);
      assert pixels[n..][1..] == pixels[n + 1..];
      var r := Compress(bpp, pixels[..n]);
      SoundParts(bpp, r.next);
      var step := CompressPixel(bpp, r.next, pixels[n]);
      hide Onward;
      Regroup(r.codes, step.codes, Onward(bpp, step.next, pixels[n + 1..]));
    }
  }

  /** A match that the next pixel ends is the longest one. */
  lemma MatchIsLongest(bpp: nat, c: Compressor, t: seq<Str>, s: Str)
    requires Sound(bpp, c) && c.current != [] && Pixels(bpp, s) && Same(bpp, c.table, t)
    requires s != [] && !Known(c.table, c.current + [s[0]])
    ensures Pixels(bpp, c.current + s)
    ensures Longest(t, c.current + s, |c.current + s|) == |c.current|
    ensures (c.current + s)[..|c.current|] == c.current && (c.current + s)[|c.current|..] == s
    ensures (c.current + s)[..|c.current| + 1] == c.current + [s[0]]
  {
    hide Sound, Same;
    var all, n := c.current + s, |c.current|;
    var m := Longest(t, all, |all|);
    SoundParts(bpp, c);
    assert Pixels(bpp, all);
    assert all[..n] == c.current && all[..n + 1] == c.current + [s[0]];
    SameCodes(bpp, c.table, t, all[..n]);
    if m > n {
      SameCodes(bpp, c.table, t, all[..m]);
      assert all[..m][..n + 1] == all[..n + 1];
      StartsKnown(bpp, c.table, all[..m], n + 1);
    }
  }

  lemma SoundParts(bpp: nat, c: Compressor)
    requires Sound(bpp, c)
    ensures BitsPerPixel(bpp) && GoodTable(bpp, c.table) && Pixels(bpp, c.current)
    ensures c.current != [] ==> Known(c.table, c.current)
  {}

  lemma NoEntries(bpp: nat)
    requires BitsPerPixel(bpp)
    ensures Same(bpp, map[], Initial(bpp))
  {}

  lemma OneEntry(bpp: nat, table: map<Str, nat>, t: seq<Str>, s: Str)
    requires Same(bpp, table, t) && s !in table
    ensures |t| == First(bpp) + |table| && Same(bpp, table[s := |t|], t + [s])
    ensures Initial(bpp) <= t + [s]
  {
    var longer := table[s := |t|];
    assert |longer| == |table| + 1;
  }

  /** From any state on, the codes are those of the parse of the match and the pixels to come. */
  lemma {:induction false} OnwardIsParse(bpp: nat, c: Compressor, t: seq<Str>, s: Str)
    requires Sound(bpp, c) && c.current != [] && Pixels(bpp, s) && Same(bpp, c.table, t)
    ensures Pixels(bpp, c.current + s)
    ensures Onward(bpp, c, s) + [Pow2(bpp) + 1] == Parse(bpp, t, c.current + s)
    decreases |s|
  {
    hide *;
    SoundParts(bpp, c);
    SameCodes(bpp, c.table, t, c.current);
    TableSize(bpp, c.table, t);
    PixelsOfSum(bpp, c.current, s);
    if s == [] {
      assert c.current + s == c.current;
      ParseLast(bpp, t, c.current);
      OnwardEnds(bpp, c);
    } else {
      SoundStep(bpp, c, s[0]);
      StepCases(bpp, c, s[0]);
      OnwardStep(bpp, c, s);
      Regroup(CompressPixel(bpp, c, s[0]).codes, Onward(bpp, CompressPixel(bpp, c, s[0]).next, s[1..]),
              [Pow2(bpp) + 1]);
      assert s == [s[0]] + s[1..];
      if Known(c.table, c.current + [s[0]]) {
        assert c.current + s == (c.current + [s[0]]) + s[1..];
        OnwardIsParse(bpp, CompressPixel(bpp, c, s[0]).next, t, s[1..]);
      } else {
        MatchIsLongest(bpp, c, t, s);
        ParseNext(bpp, t, c.current + s, |c.current|);
        if First(bpp) + |c.table| >= 4095 {
          NoEntries(bpp);
          OnwardIsParse(bpp, CompressPixel(bpp, c, s[0]).next, Initial(bpp), s[1..]);
        } else {
          OneEntry(bpp, c.table, t, c.current + [s[0]]);
          OnwardIsParse(bpp, CompressPixel(bpp, c, s[0]).next, t + [c.current + [s[0]]], s[1..]);
        }
      }
    }
  }

  lemma PixelsOfSum(bpp: nat, s: Str, t: Str)
    requires Pixels(bpp, s) && Pixels(bpp, t)
    ensures Pixels(bpp, s + t) && (t != [] ==> t[0] < Pow2(bpp) && Pixels(bpp, t[1..]))
  {}

  lemma ParseLast(bpp: nat, t: seq<Str>, s: Str)
    requires BitsPerPixel(bpp) && Pixels(bpp, s) && Initial(bpp) <= t && s != [] && s in t
    ensures Parse(bpp, t, s) == [CodeIn(t, s), Pow2(bpp) + 1]
  {
    assert s[..|s|] == s;
  }

  lemma ParseNext(bpp: nat, t: seq<Str>, s: Str, n: nat)
    requires BitsPerPixel(bpp) && Pixels(bpp, s) && Initial(bpp) <= t
    requires 0 < n < |s| && n == Longest(t, s, |s|)
    ensures Pixels(bpp, s[n..]) && s[..n] in t && Initial(bpp) <= t + [s[..n + 1]]
    ensures Parse(bpp, t, s)
            == if |t| >= 4095 then [CodeIn(t, s[..n]), Pow2(bpp)] + Parse(bpp, Initial(bpp), s[n..])
               else [CodeIn(t, s[..n])] + Parse(bpp, t + [s[..n + 1]], s[n..])
  {}

  lemma OnwardEnds(bpp: nat, c: Compressor)
    requires Sound(bpp, c) && c.current != []
    ensures Onward(bpp, c, []) == [CodeOf(c.table, c.current)]
  {}

  lemma OnwardStep(bpp: nat, c: Compressor, s: Str)
    requires Sound(bpp, c) && c.current != [] && Pixels(bpp, s) && s != []
    ensures var step := CompressPixel(bpp, c, s[0]);
            && Sound(bpp, step.next) && step.next.current != [] && Pixels(bpp, s[1..])
            && Onward(bpp, c, s) == step.codes + Onward(bpp, step.next, s[1..])
  {
    SoundStep(bpp, c, s[0]);
  }

  lemma TableSize(bpp: nat, table: map<Str, nat>, t: seq<Str>)
    requires Same(bpp, table, t)
    ensures |t| == First(bpp) + |table| && Initial(bpp) <= t
  {}

  lemma StepCases(bpp: nat, c: Compressor, p: byte)
    requires c.current != [] && Known(c.table, c.current)
    ensures var step, s := CompressPixel(bpp, c, p), c.current + [p];
            if Known(c.table, s) then step.next.table == c.table && step.next.current == s && step.codes == []
            else
              && step.next.current == [p]
              && if First(bpp) + |c.table| >= 4095 then
                   step.next.table == map[] && step.codes == [CodeOf(c.table, c.current), Pow2(bpp)]
                 else
                   && step.next.table == c.table[s := First(bpp) + |c.table|]
                   && step.codes == [CodeOf(c.table, c.current)] && s !in c.table
  {}

  /** For every image: the Clear, and then the codes of the greedy parse up to the end code. */
  lemma CodesOfImage(bpp: nat, pixels: seq<byte>)
    requires BitsPerPixel(bpp) && Pixels(bpp, pixels) && pixels != []
    ensures ImageCodes(bpp, pixels) == [Pow2(bpp)] + Parse(bpp, Initial(bpp), pixels)
    ensures var codes := ImageCodes(bpp, pixels); codes[0] == Pow2(bpp) && codes[|codes| - 1] == Pow2(bpp) + 1
  {
    hide *;
    CodesOnward(bpp, pixels, 1);
    FirstMatch(bpp, pixels);
    NoEntries(bpp);
    PixelsAreBytes(bpp);
    var c := Compress(bpp, pixels[..1]).next;
    OnwardIsParse(bpp, c, Initial(bpp), pixels[1..]);
    assert c.current + pixels[1..] == pixels;
    CodesBeforeEnd(bpp, pixels);
    assert CompressAll(bpp, pixels) == Onward(bpp, c, pixels[1..]);
    Regroup([Pow2(bpp)], CompressAll(bpp, pixels), [Pow2(bpp) + 1]);
  }

  lemma FirstMatch(bpp: nat, pixels: seq<byte>)
    requires BitsPerPixel(bpp) && Pixels(bpp, pixels) && pixels != []
    ensures Pixels(bpp, pixels[..1]) && Pixels(bpp, pixels[1..])
    ensures Compress(bpp, pixels[..1]) == Step(Compressor(map[], [pixels[0]]), [])
  {
    assert pixels[..1] == [] + [pixels[0]];
    CompressOneMore(bpp, [], pixels[0]);
  }

  // ----- reading

  /** How the pixels that some bits yield end. */
  datatype Stop = AtEnd | Defective | OutOfBits | TooManyCodes

  datatype Reading = Reading(pixels: Str, stop: Stop)

  function Behind(s: Str, r: Reading): Reading {
    r.(pixels := s + r.pixels)
  }

  /** All that a reader can make of some bits, with the table `t`, the string `last` of the code
      before, if there is one since the last Clear, and codes of `w` bits. */
  function Read(bpp: nat, bits: seq<bool>, t: seq<Str>, last: Str, w: nat): Reading
    requires BitsPerPixel(bpp)
    decreases |bits|
  {
    if |bits| < w || w == 0 then Reading([], OutOfBits)
    else
      var code, rest := FromBits(bits[..w]), bits[w..];
      if code == Pow2(bpp) + 1 then Reading([], AtEnd)
      else if code == Pow2(bpp) then Read(bpp, rest, Initial(bpp), [], bpp + 1)
      else
        var s := StringIn(t, last, code);
        if s == [] then Reading([], Defective)
        else if last != [] && |t| >= 4096 then Reading([], TooManyCodes)
        else Behind(s, Read(bpp, rest, Entered(t, last, s), s, Widened(t, last, w)))
  }

  /** The first code after a Clear makes no entry. */
  function Entered(t: seq<Str>, last: Str, s: Str): seq<Str>
    requires s != []
  {
    if last == [] then t else t + [last + [s[0]]]
  }

  function Widened(t: seq<Str>, last: Str, w: nat): nat {
    if last != [] && |t| + 1 == Pow2(w) && w < 12 then w + 1 else w
  }

  /** The string of a code; the next one to be defined is the last string with its first pixel. */
  function StringIn(t: seq<Str>, last: Str, code: nat): Str {
    if code < |t| then t[code]
    else if code == |t| && last != [] then last + [last[0]]
    else []
  }

  /** The table of a reader that has a table and a last string, and its width. */
  predicate Stands(bpp: nat, table: Table, t: seq<Str>, w: nat) {
    && BitsPerPixel(bpp) && Fits(bpp, table) && t == Initial(bpp) + table.strings
    && w == Width(bpp, Count(table))
  }

  /** A code's string, and the table after it, are the same here and there. */
  lemma SameString(bpp: nat, table: Table, t: seq<Str>, w: nat, code: nat)
    requires Stands(bpp, table, t, w) && code <= MAX_CODE && code != Pow2(bpp) && code != Pow2(bpp) + 1
    ensures StringIn(t, table.last, code) == Lookup(bpp, table, code)
  {
    CodesFitBytes(bpp, code);
    if code < Pow2(bpp) {
      assert t[code] == Initial(bpp)[code];
    }
  }

  lemma TableLearns(bpp: nat, table: Table, t: seq<Str>, w: nat, s: Str)
    requires Stands(bpp, table, t, w) && s != []
    ensures Fits(bpp, Learn(table, s)) <==> table.last == [] || |t| < 4096
    ensures Fits(bpp, Learn(table, s)) ==>
              Stands(bpp, Learn(table, s), Entered(t, table.last, s), Widened(t, table.last, w))
  {
    hide Width, Pow2, Initial;
    CodeRanges(bpp);
    FirstWidth(bpp);
    WidthStep(bpp, Count(table));
    WidthHolds(bpp, Count(table));
    var t' := t + [table.last + [s[0]]];
    assert t' == Initial(bpp) + (table.strings + [table.last + [s[0]]]);
  }

  lemma WidthHolds(bpp: nat, count: nat)
    requires BitsPerPixel(bpp)
    ensures var w := Width(bpp, count); Pow2(bpp) + 2 + count <= Pow2(w) || w == 12
  {
    LeastWidthIsLeast(First(bpp) + count, bpp + 1);
  }

  lemma AfterClear(bpp: nat)
    requires BitsPerPixel(bpp)
    ensures Stands(bpp, EMPTY, Initial(bpp), bpp + 1)
  {
    CodeRanges(bpp);
    FirstWidth(bpp);
  }

  /** What a line of `n` pixels is, if `all` are the pixels to be had, and `stop` what ends them. */
  predicate AsRead(line: Line, all: Str, stop: Stop, cut: bool, n: nat, final: bool) {
    if n <= |all| then line.Line? && line.pixels == all[..n]
    else
      match stop
      case AtEnd => line == if final && n == |all| + 1 then LastMissing(all) else Bad
      case Defective => line == Bad
      case OutOfBits => line == if cut then Bad else Beyond
      case TooManyCodes => line == Beyond
  }

  lemma AsReadBehind(p: byte, line: Line, all: Str, stop: Stop, cut: bool, n: nat, final: bool)
    requires AsRead(line, all, stop, cut, n, final)
    ensures AsRead(Prepend([p], line), [p] + all, stop, cut, n + 1, final)
  {
    if n <= |all| {
      assert ([p] + all)[..n + 1] == [p] + all[..n];
    }
  }

  lemma ReadUnfolds(bpp: nat, bits: seq<bool>, t: seq<Str>, last: Str, w: nat)
    requires BitsPerPixel(bpp) && 0 < w <= |bits|
    ensures var code, rest, r := FromBits(bits[..w]), bits[w..], Read(bpp, bits, t, last, w);
            if code == Pow2(bpp) + 1 then r == Reading([], AtEnd)
            else if code == Pow2(bpp) then r == Read(bpp, rest, Initial(bpp), [], bpp + 1)
            else
              var s := StringIn(t, last, code);
              if s == [] then r == Reading([], Defective)
              else if last != [] && |t| >= 4096 then r == Reading([], TooManyCodes)
              else r == Behind(s, Read(bpp, rest, Entered(t, last, s), s, Widened(t, last, w)))
  {}

  lemma StandsParts(bpp: nat, table: Table, t: seq<Str>, w: nat)
    requires Stands(bpp, table, t, w)
    ensures BitsPerPixel(bpp) && Fits(bpp, table) && w == Width(bpp, Count(table)) && w > 0
  {}

  /** For whatever bits, valid or not: a line is what the textbook makes of them. */
  lemma {:induction false} LineIsRead(bpp: nat, src: Source, t: seq<Str>, w: nat, n: nat, final: bool)
    requires Stands(bpp, src.table, t, w)
    ensures BitsPerPixel(bpp) && Fits(bpp, src.table)
    ensures var r := Read(bpp, src.bits, t, src.table.last, w);
            AsRead(ReadLine(bpp, src, n, final), src.pending + r.pixels, r.stop, src.cut, n, final)
    decreases |src.bits|, n
  {
    hide Pow2, Width, NextPixel, Lookup, Initial, Learn, Read, Stands, Fits, ReadLine, AsRead, StringIn, Prepend;
    StandsParts(bpp, src.table, t, w);
    var r := Read(bpp, src.bits, t, src.table.last, w);
    if n == 0 {
      NoPixels(bpp, src, src.pending + r.pixels, r.stop, final);
    } else if src.pending != [] {
      var rest := src.(pending := src.pending[1..]);
      LineIsRead(bpp, rest, t, w, n - 1, final);
      TakeFirst(bpp, src, n, final);
      AsReadBehind(src.pending[0], ReadLine(bpp, rest, n - 1, final), rest.pending + r.pixels, r.stop, src.cut,
                   n - 1, final);
      assert [src.pending[0]] + (rest.pending + r.pixels) == src.pending + r.pixels;
    } else {
      LineByCode(bpp, src, n, final);
      assert src.pending + r.pixels == r.pixels;
      if |src.bits| < w {
        NoCode(bpp, src, t, w, n, final);
      } else {
        LineOfCode(bpp, src, t, w, n, final);
      }
    }
  }

  lemma NoPixels(bpp: nat, src: Source, all: Str, stop: Stop, final: bool)
    requires BitsPerPixel(bpp) && Fits(bpp, src.table)
    ensures AsRead(ReadLine(bpp, src, 0, final), all, stop, src.cut, 0, final)
  {}

  lemma TakeFirst(bpp: nat, src: Source, n: nat, final: bool)
    requires BitsPerPixel(bpp) && Fits(bpp, src.table) && src.pending != [] && n > 0
    ensures ReadLine(bpp, src, n, final)
            == Prepend([src.pending[0]], ReadLine(bpp, src.(pending := src.pending[1..]), n - 1, final))
  {
    PopPending(bpp, src);
  }

  lemma NoCode(bpp: nat, src: Source, t: seq<Str>, w: nat, n: nat, final: bool)
    requires Stands(bpp, src.table, t, w) && |src.bits| < w && src.pending == [] && n > 0
    ensures BitsPerPixel(bpp) && Fits(bpp, src.table)
    ensures var r := Read(bpp, src.bits, t, src.table.last, w);
            AsRead(ReadLine(bpp, src, n, final), r.pixels, r.stop, src.cut, n, final)
  {
    LineByCode(bpp, src, n, final);
  }

  /** The same where a code comes first. */
  lemma {:induction false} LineOfCode(bpp: nat, src: Source, t: seq<Str>, w: nat, n: nat, final: bool)
    requires Stands(bpp, src.table, t, w) && w <= |src.bits| && src.pending == [] && n > 0
    ensures BitsPerPixel(bpp) && Fits(bpp, src.table)
    ensures var r := Read(bpp, src.bits, t, src.table.last, w);
            AsRead(ReadLine(bpp, src, n, final), r.pixels, r.stop, src.cut, n, final)
    decreases |src.bits|, 0
  {
    hide Pow2, Width, NextPixel, Lookup, Initial, Learn, Read, Stands, Fits, ReadLine, StringIn, Prepend;
    StandsParts(bpp, src.table, t, w);
    LineByCode(bpp, src, n, final);
    ReadUnfolds(bpp, src.bits, t, src.table.last, w);
    var code, rest := FromBits(src.bits[..w]), src.bits[w..];
    if code == Pow2(bpp) + 1 {
    } else if code == Pow2(bpp) {
      AfterClear(bpp);
      LineIsRead(bpp, Source(rest, src.cut, EMPTY, []), Initial(bpp), bpp + 1, n, final);
      NothingBefore(Read(bpp, rest, Initial(bpp), [], bpp + 1));
    } else {
      SameString(bpp, src.table, t, w, code);
      var s := StringIn(t, src.table.last, code);
      if s != [] {
        TableLearns(bpp, src.table, t, w, s);
        if Fits(bpp, Learn(src.table, s)) {
          var src' := Source(rest, src.cut, Learn(src.table, s), s);
          LineIsRead(bpp, src', Entered(t, src.table.last, s), Widened(t, src.table.last, w), n, final);
          LastLearnt(src.table, s);
        }
      }
    }
  }

  lemma NothingBefore(r: Reading)
    ensures [] + r.pixels == r.pixels && EMPTY.last == []
  {}

  lemma LastLearnt(t: Table, s: Str)
    requires s != []
    ensures Learn(t, s).last == s
  {}

  // ----- reading what was written

  /** Bits that are those of meaningful codes and the end code yield what the codes mean, and the
      end. */
  lemma {:induction false} ReadSent(bpp: nat, table: Table, t: seq<Str>, w: nat, codes: seq<nat>, bits: seq<bool>,
                                    extra: seq<bool>)
    requires Stands(bpp, table, t, w) && Expand(bpp, table, codes).Means?
    requires bits == Serialize(bpp, Count(table), codes + [Pow2(bpp) + 1]) + extra
    ensures Read(bpp, bits, t, table.last, w) == Reading(Expand(bpp, table, codes).pixels, AtEnd)
    decreases |codes|
  {
    hide Pow2, Width, Lookup, Initial, Learn, Read, Stands, Fits, StringIn, ToBits, FromBits;
    StandsParts(bpp, table, t, w);
    var all := codes + [Pow2(bpp) + 1];
    var count := if all[0] == Pow2(bpp) then 0 else Count(table) + 1;
    var rest := Serialize(bpp, count, all[1..]) + extra;
    SentFits(bpp, table, codes, w);
    FromToBits(all[0], w);
    assert bits == ToBits(all[0], w) + rest;
    assert bits[..w] == ToBits(all[0], w) && bits[w..] == rest;
    ReadUnfolds(bpp, bits, t, table.last, w);
    if codes != [] {
      assert all[1..] == codes[1..] + [Pow2(bpp) + 1];
      SentMeans(bpp, table, t, w, codes);
      var next := Next(bpp, table, codes[0]).table;
      if codes[0] == Pow2(bpp) {
        AfterClear(bpp);
        ReadSent(bpp, EMPTY, Initial(bpp), bpp + 1, codes[1..], rest, extra);
        NothingBefore(Reading(Expand(bpp, EMPTY, codes[1..]).pixels, AtEnd));
      } else {
        var s := StringIn(t, table.last, codes[0]);
        ReadSent(bpp, next, Entered(t, table.last, s), Widened(t, table.last, w), codes[1..], rest, extra);
      }
    }
  }

  lemma SentFits(bpp: nat, table: Table, codes: seq<nat>, w: nat)
    requires BitsPerPixel(bpp) && Fits(bpp, table) && w == Width(bpp, Count(table))
    requires Expand(bpp, table, codes).Means?
    ensures (codes + [Pow2(bpp) + 1])[0] < Pow2(w)
  {
    if codes == [] {
      CodeRanges(bpp);
      Pow2Monotone(bpp + 1, w);
    } else {
      CodeFitsWidth(bpp, table, codes[0]);
    }
  }

  lemma SentMeans(bpp: nat, table: Table, t: seq<Str>, w: nat, codes: seq<nat>)
    requires Stands(bpp, table, t, w) && codes != [] && Expand(bpp, table, codes).Means?
    ensures codes[0] != Pow2(bpp) + 1
    ensures var next, m := Next(bpp, table, codes[0]), Expand(bpp, table, codes);
            && next.Means? && Expand(bpp, next.table, codes[1..]).Means?
            && m.pixels == next.pixels + Expand(bpp, next.table, codes[1..]).pixels
            && if codes[0] == Pow2(bpp) then next == Means([], EMPTY)
               else
                 var s := StringIn(t, table.last, codes[0]);
                 && s != [] && s == next.pixels && next.table.last == s && Count(next.table) == Count(table) + 1
                 && (table.last == [] || |t| < 4096)
                 && Stands(bpp, next.table, Entered(t, table.last, s), Widened(t, table.last, w))
  {
    CodeFitsWidth(bpp, table, codes[0]);
    if codes[0] != Pow2(bpp) {
      assert codes[0] != Pow2(bpp) + 1;
      SameString(bpp, table, t, w, codes[0]);
      TableLearns(bpp, table, t, w, StringIn(t, table.last, codes[0]));
    }
  }

  /** The data of an image, whatever follows it in the file: a textbook reader finds the pixels and
      then the end code. The codes are those of the greedy parse, each with its width, and fewer
      than eight bits are left over. */
  lemma ImageIsRead(bpp: nat, pixels: seq<byte>, after: seq<byte>)
    requires BitsPerPixel(bpp) && Pixels(bpp, pixels) && pixels != []
    ensures var file, codes := EncodeImage(bpp, pixels) + after, [Pow2(bpp)] + Parse(bpp, Initial(bpp), pixels);
            && file[0] == bpp && EndingOf(file[1..]) == Terminated(after)
            && var bits, sent := BytesToBits(Payload(file[1..])), Coded(bpp, 0, codes);
            && Read(bpp, bits, Initial(bpp), [], bpp + 1) == Reading(pixels, AtEnd)
            && Values(sent) == codes && Packed(sent) <= bits && |bits| < |Packed(sent)| + 8
  {
    hide *;
    CodesOfImage(bpp, pixels);
    BitsOfFile(bpp, pixels, after);
    AfterClear(bpp);
    ExpandImage(bpp, pixels);
    NothingYet(bpp);
    var codes := ImageCodes(bpp, pixels);
    var data := [Clear(bpp)] + CompressAll(bpp, pixels);
    var bits, sent := BytesToBits(Payload((EncodeImage(bpp, pixels) + after)[1..])), Serialize(bpp, 0, codes);
    SerializeIsPacked(bpp, 0, codes);
    CodesBeforeEnd(bpp, pixels);
    assert bits == sent + bits[|sent|..];
    ReadSent(bpp, EMPTY, Initial(bpp), bpp + 1, data, bits, bits[|sent|..]);
  }

  lemma NothingYet(bpp: nat)
    ensures EMPTY.last == [] && Count(EMPTY) == 0
  {}

  lemma CodesBeforeEnd(bpp: nat, pixels: seq<byte>)
    requires BitsPerPixel(bpp) && Pixels(bpp, pixels) && pixels != []
    ensures Clear(bpp) == Pow2(bpp)
    ensures ImageCodes(bpp, pixels) == [Pow2(bpp)] + CompressAll(bpp, pixels) + [Pow2(bpp) + 1]
  {}

  lemma BitsOfFile(bpp: nat, pixels: seq<byte>, after: seq<byte>)
    requires BitsPerPixel(bpp) && Pixels(bpp, pixels) && pixels != []
    ensures var file, sent := EncodeImage(bpp, pixels) + after, Serialize(bpp, 0, ImageCodes(bpp, pixels));
            && file != [] && file[0] == bpp && EndingOf(file[1..]) == Terminated(after)
            && var bits := BytesToBits(Payload(file[1..])); sent <= bits && |bits| < |sent| + 8
  {
    hide Pow2, Chain, BitsToBytes, BytesToBits, Serialize, ImageCodes, Payload, EndingOf;
    var size: byte := bpp;
    var sent := Serialize(bpp, 0, ImageCodes(bpp, pixels));
    var bytes := BitsToBytes(sent);
    var file := EncodeImage(bpp, pixels) + after;
    assert file == [size] + (Chain(bytes) + after);
    assert file[1..] == Chain(bytes) + after;
    ChainRoundTrip(bytes, after);
    BitsSurviveBytes(sent);
  }

  /** So one pixel more than an image has meets the end code. */
  lemma EndCodeFollows(bpp: nat, pixels: seq<byte>, after: seq<byte>)
    requires BitsPerPixel(bpp) && Pixels(bpp, pixels) && pixels != []
    ensures Fits(bpp, EMPTY)
    ensures ReadLine(bpp, Opened((EncodeImage(bpp, pixels) + after)[1..]), |pixels| + 1, true) == LastMissing(pixels)
  {
    hide *;
    ImageIsRead(bpp, pixels, after);
    BitsOfFile(bpp, pixels, after);
    AfterClear(bpp);
    var file := (EncodeImage(bpp, pixels) + after)[1..];
    OpenedParts(file);
    StandsParts(bpp, EMPTY, Initial(bpp), bpp + 1);
    LineIsRead(bpp, Opened(file), Initial(bpp), bpp + 1, |pixels| + 1, true);
    NothingBefore(Reading(pixels, AtEnd));
    AsReadEnd(ReadLine(bpp, Opened(file), |pixels| + 1, true), pixels, EndingOf(file).Truncated?);
  }

  lemma OpenedParts(file: seq<byte>)
    ensures Opened(file) == Source(BytesToBits(Payload(file)), EndingOf(file).Truncated?, EMPTY, [])
  {}

  lemma AsReadEnd(line: Line, all: Str, cut: bool)
    ensures AsRead(line, all, AtEnd, cut, |all| + 1, true) ==> line == LastMissing(all)
  {}
}
