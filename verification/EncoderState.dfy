/** What the fields of the encoder stand for, as a value, and how each turn of its loop
    follows the compressor of section 22 of the GIF89a specification. */
module EncoderState {
  import opened Common
  import opened Bits
  import opened Lzw
  import opened GifDictionary

  const FIRST_CODE := 4097

  /** Code size, running code and width; the codes sent, the pixels taken in, and the map in
      the hash table. */
  datatype State = State(
    bpp: nat, runningCode: nat, runningBits: nat,
    codes: seq<nat>, fed: seq<byte>, entries: map<nat, nat>)

  ghost predicate WellFormed(s: State)
  {
    BitsPerPixel(s.bpp) && Pixels(s.bpp, s.fed)
  }

  function Sent(s: State): nat
  {
    CountAfter(s.bpp, 0, s.codes)
  }

  /** The next code's width is the one that the format prescribes. */
  ghost predicate InStep(s: State)
    requires WellFormed(s)
  {
    s.runningBits == Width(s.bpp, Sent(s))
  }

  /** The running code and the map stand for the compressor's table. */
  ghost predicate TableMatches(s: State)
    requires WellFormed(s)
  {
    var c := Compress(s.bpp, s.fed).next;
    && s.runningCode == First(s.bpp) + |c.table|
    && Represents(c.table, s.entries)
  }

  /** The codes sent are the compressor's, and `crnt` is the code of its match. */
  ghost predicate Matching(s: State, crnt: nat)
    requires WellFormed(s)
  {
    var r := Compress(s.bpp, s.fed);
    && TableMatches(s)
    && s.codes == [Clear(s.bpp)] + r.codes
    && Sent(s) == |r.next.table|
    && crnt == if s.fed == [] then FIRST_CODE else CodeOf(r.next.table, r.next.current)
  }

  /** The code of the match is sent, the pixel after it not yet taken in. */
  ghost predicate Between(s: State, crnt: nat)
    requires WellFormed(s)
  {
    var r := Compress(s.bpp, s.fed);
    && TableMatches(s)
    && s.fed != []
    && s.codes == [Clear(s.bpp)] + r.codes + [crnt]
    && Sent(s) == |r.next.table| + 1
    && crnt == CodeOf(r.next.table, r.next.current)
  }

  /** The match cannot grow by pixel `p`. */
  ghost predicate MatchEnds(s: State, p: byte)
    requires WellFormed(s)
  {
    var c := Compress(s.bpp, s.fed).next;
    !Known(c.table, c.current + [p])
  }

  /** The state after a code has been sent: a code that the running code no longer fits below
      its limit widens the codes. */
  function AfterSending(s: State, code: nat): State
  {
    s.(codes := s.codes + [code],
       runningBits := s.runningBits + if s.runningCode >= Pow2(s.runningBits) then 1 else 0)
  }

  ghost predicate MaySend(s: State, code: nat)
    requires WellFormed(s)
  {
    InStep(s) && s.runningCode <= MAX_CODE && code <= MAX_CODE && code < First(s.bpp) + Sent(s)
  }

  lemma SetupWidths(bpp: nat)
    requires BitsPerPixel(bpp)
    ensures Width(bpp, 0) == bpp + 1 && First(bpp) < Pow2(bpp + 1) && First(bpp) <= MAX_CODE
    ensures First(bpp) == ShiftLeft(1, bpp) + 2
    ensures BytesToBits([]) + ToBits(0, 0) == Serialize(bpp, 0, [])
    ensures CountAfter(bpp, 0, []) == 0
  {
    CodeRanges(bpp);
    FirstWidth(bpp);
    ShiftedPower(0, bpp);
  }

  /** The leading Clear is sent without any effect on the width. */
  lemma StartsMatching(s: State)
    requires WellFormed(s) && s.fed == [] && s.codes == [] && s.entries == map[]
    requires s.runningCode == First(s.bpp) && s.runningBits == s.bpp + 1
    ensures MaySend(s, Clear(s.bpp))
    ensures var s' := AfterSending(s, Clear(s.bpp));
            InStep(s') && Matching(s', FIRST_CODE)
  {
    SetupWidths(s.bpp);
    SerializeOneMore(s.bpp, [], Clear(s.bpp));
    assert [Clear(s.bpp)] + [] == [] + [Clear(s.bpp)];
  }

  lemma FirstPixel(s: State, p: byte)
    requires WellFormed(s) && Matching(s, FIRST_CODE) && s.fed == [] && p < Pow2(s.bpp)
    ensures var s' := s.(fed := s.fed + [p]); WellFormed(s') && Matching(s', p)
  {
    CompressOneMore(s.bpp, [], p);
    assert [] + [p] == [p];
    assert Compress(s.bpp, []).codes + [] == [];
  }

  /** The first-code signal is never a code. */
  lemma SignalIsNoCode(s: State, crnt: nat)
    requires WellFormed(s) && Matching(s, crnt)
    ensures s.fed == [] <==> crnt == FIRST_CODE
  {
    if s.fed != [] {
      MatchCode(s);
    }
  }

  lemma MatchCode(s: State)
    requires WellFormed(s) && s.fed != []
    ensures var c := Compress(s.bpp, s.fed).next;
            var code := CodeOf(c.table, c.current);
            code < First(s.bpp) + |c.table| && code <= 4094 && code != Clear(s.bpp)
  {
    var c := Compress(s.bpp, s.fed).next;
    CodeBelowTable(s.bpp, c.table, c.current);
  }

  /** The table's strings in the order of their codes, as the expander has them. */
  lemma TableStrings(s: State) returns (strings: seq<Str>)
    requires WellFormed(s)
    ensures SameTable(s.bpp, Compress(s.bpp, s.fed).next.table, strings)
  {
    CodesMeanPixels(s.bpp, s.fed);
    var r := Compress(s.bpp, s.fed);
    var t := Expand(s.bpp, EMPTY, r.codes).table;
    strings := if r.next.table == map[] then [] else t.strings + [t.last + [r.next.current[0]]];
  }

  /** The lookup: the match grows as the compressor's does, or ends as it does. */
  lemma Looked(s: State, crnt: nat, p: byte)
    requires WellFormed(s) && Matching(s, crnt) && s.fed != [] && p < Pow2(s.bpp)
    ensures var key := Key(crnt, p);
            && key < 0xF_FFFF && |s.entries| < 4096
            && (key !in s.entries <==> MatchEnds(s, p))
            && var s' := s.(fed := s.fed + [p]);
            WellFormed(s') && (key in s.entries ==> Matching(s', s.entries[key]))
  {
    var r := Compress(s.bpp, s.fed);
    var strings := TableStrings(s);
    LookupAgrees(s.bpp, r.next.table, strings, s.entries, r.next.current, p);
    CompressOneMore(s.bpp, s.fed, p);
    assert r.codes + [] == r.codes;
  }

  lemma MatchSent(s: State, crnt: nat)
    requires WellFormed(s) && Matching(s, crnt) && InStep(s) && s.fed != []
    ensures MaySend(s, crnt)
    ensures var s' := AfterSending(s, crnt); InStep(s') && Between(s', crnt)
  {
    MatchCode(s);
    SerializeOneMore(s.bpp, s.codes, crnt);
    WidthGrows(s.bpp, Sent(s));
  }

  /** The test on the running code, and the format's rule for the width. */
  lemma WidthGrows(bpp: nat, count: nat)
    requires BitsPerPixel(bpp) && First(bpp) + count <= MAX_CODE
    ensures var w := Width(bpp, count);
            Width(bpp, count + 1) == w + if First(bpp) + count >= Pow2(w) then 1 else 0
  {
    WidthStep(bpp, count);
    TwelveBits();
  }

  lemma KeyIsNew(s: State, crnt: nat, p: byte)
    requires WellFormed(s) && Between(s, crnt) && MatchEnds(s, p)
    ensures Key(crnt, p) < 0xF_FFFF && Key(crnt, p) !in s.entries && |s.entries| < 4096
  {
    var c := Compress(s.bpp, s.fed).next;
    var strings := TableStrings(s);
    LookupAgrees(s.bpp, c.table, strings, s.entries, c.current, p);
  }

  /** With room in the table, the longer string enters it. */
  lemma EntryAdded(s: State, crnt: nat, p: byte)
    requires WellFormed(s) && Between(s, crnt) && InStep(s)
    requires p < Pow2(s.bpp) && MatchEnds(s, p) && s.runningCode < MAX_CODE
    requires Key(crnt, p) !in s.entries
    ensures s.fed + [p] != []
    ensures var s' := s.(fed := s.fed + [p], runningCode := s.runningCode + 1,
                         entries := s.entries[Key(crnt, p) := s.runningCode]);
            WellFormed(s') && InStep(s') && Matching(s', p)
  {
    var r := Compress(s.bpp, s.fed);
    var c := r.next;
    InsertAgrees(c.table, s.entries, c.current, p, s.runningCode);
    CompressOneMore(s.bpp, s.fed, p);
    NewEntry(s.bpp, c, p, s.runningCode);
    assert [Clear(s.bpp)] + r.codes + [crnt] == [Clear(s.bpp)] + (r.codes + [crnt]);
  }

  lemma NewEntry(bpp: nat, c: Compressor, p: byte, next: nat)
    requires c.current != [] && Known(c.table, c.current) && !Known(c.table, c.current + [p])
    requires next == First(bpp) + |c.table| < MAX_CODE
    ensures var longer := c.table[c.current + [p] := next];
            && CompressPixel(bpp, c, p) == Step(Compressor(longer, [p]), [CodeOf(c.table, c.current)])
            && |longer| == |c.table| + 1
  {}

  /** A full table is cleared on both sides. */
  lemma TableCleared(s: State, crnt: nat, p: byte)
    requires WellFormed(s) && Between(s, crnt) && InStep(s)
    requires p < Pow2(s.bpp) && MatchEnds(s, p) && s.runningCode >= MAX_CODE
    ensures MaySend(s, Clear(s.bpp))
    ensures var s' := State(s.bpp, First(s.bpp), s.bpp + 1, s.codes + [Clear(s.bpp)], s.fed + [p], map[]);
            WellFormed(s') && InStep(s') && Matching(s', p)
  {
    SetupWidths(s.bpp);
    SerializeOneMore(s.bpp, s.codes, Clear(s.bpp));
    CompressOneMore(s.bpp, s.fed, p);
    var r := Compress(s.bpp, s.fed);
    assert [Clear(s.bpp)] + r.codes + [crnt] + [Clear(s.bpp)]
        == [Clear(s.bpp)] + (r.codes + [crnt, Clear(s.bpp)]);
  }

  /** Every code in the stream's order: Clear, data, end code. */
  lemma EndCode(s: State, crnt: nat)
    requires WellFormed(s) && Between(s, crnt) && InStep(s)
    ensures MaySend(s, Eof(s.bpp))
    ensures s.codes == [Clear(s.bpp)] + CompressAll(s.bpp, s.fed)
    ensures s.codes[0] == Pow2(s.bpp) && Eof(s.bpp) == Pow2(s.bpp) + 1
  {
    SetupWidths(s.bpp);
    var r := Compress(s.bpp, s.fed);
    assert [Clear(s.bpp)] + r.codes + [crnt] == [Clear(s.bpp)] + (r.codes + [crnt]);
  }
}
