/** The values of an ODL keyword: nested sets and sequences of texts, and the scanner that lists
    the texts in them. */
module OdlValues {
  import opened Common

  /** What separates values, and what ends a value that is not quoted. */
  predicate IsGap(c: char) {
    IsDelimiter(c) || c == ' ' || c == '\n'
  }

  predicate IsDelimiter(c: char) {
    c == '{' || c == '}' || c == '(' || c == ')' || c == ','
  }

  // ----- the scanner

  // A pointer into a text is the rest of the text from there.

  /** Where the next value starts. */
  method ValueStart(text: string) returns (start: nat)
    ensures start == Gap(text) <= |text|
    ensures forall k :: 0 <= k < start ==> text[k] in "{}(), \n"
    ensures start < |text| ==> text[start] !in "{}(), \n"
  {
    start := 0;
    while start < |text| && IsGap(text[start])
      invariant start <= |text| && forall k :: 0 <= k < start ==> IsGap(text[k])
    {
      start := start + 1;
    }
  }

  /** How many characters at the start of a text are between values. */
  function Gap(t: string): (n: nat)
    ensures n <= |t| && (n < |t| ==> !IsGap(t[n]))
    ensures forall k :: 0 <= k < n ==> IsGap(t[k])
  {
    if t == "" || !IsGap(t[0]) then 0 else 1 + Gap(t[1..])
  }

  /** The index of the first quote after the first character, or the length. */
  function Quote(t: string, k: nat): (n: nat)
    requires k <= |t|
    ensures k <= n <= |t| && (n < |t| ==> t[n] == '"')
    ensures forall j :: k <= j < n ==> t[j] != '"'
    decreases |t| - k
  {
    if k == |t| || t[k] == '"' then k else Quote(t, k + 1)
  }

  /** The index of the first delimiter, or the length. */
  function Delimiter(t: string, k: nat): (n: nat)
    requires k <= |t|
    ensures k <= n <= |t| && (n < |t| ==> IsDelimiter(t[n]))
    ensures forall j :: k <= j < n ==> !IsDelimiter(t[j])
    decreases |t| - k
  {
    if k == |t| || IsDelimiter(t[k]) then k else Delimiter(t, k + 1)
  }

  /** The index of the last character up to `k` that is not blank, or 0. */
  function BackOver(t: string, k: nat): (n: nat)
    requires k < |t|
    ensures n <= k && (n > 0 ==> t[n] != ' ')
    ensures forall j :: n < j <= k ==> t[j] == ' '
  {
    if k > 0 && t[k] == ' ' then BackOver(t, k - 1) else k
  }

  /** The length of the value at the start of a text. A quoted value runs to the next quote;
      without one there is no value. */
  function ValueLength(t: string): (n: nat)
    requires t != "" && !IsGap(t[0])
    ensures n <= |t| + 1 && n > 0
  {
    if t[0] == '"' then Quote(t, 1) + 1 else
      var d := Delimiter(t, 0);
      if d < |t| then BackOver(t, d - 1) + 1 else |t|
  }

  /** Where the value at the start of a text ends. */
  method ValueEnd(text: string) returns (c: nat)
    requires text != "" && !IsGap(text[0])
    ensures c + 1 == ValueLength(text)
    ensures text[0] == '"' ==> 0 < c <= |text| && (c < |text| ==> text[c] == '"') && '"' !in text[1..c]
    ensures text[0] != '"' && (forall k :: 0 <= k < |text| ==> text[k] !in "{}(),") ==> c == |text| - 1
    ensures forall d :: text[0] != '"' && 0 <= d < |text| && text[d] in "{}(),"
                        && (forall k :: 0 <= k < d ==> text[k] !in "{}(),") ==>
              c < d && (forall k :: c < k < d ==> text[k] == ' ') && (c > 0 ==> text[c] != ' ')
  {
    ValueEndAt(text);
    if text[0] == '"' {
      c := 1;
      while c < |text| && text[c] != '"'
        invariant 0 < c <= |text| && Quote(text, c) == Quote(text, 1)
      {
        c := c + 1;
      }
    } else {
      c := 0;
      while c < |text| && !IsDelimiter(text[c])
        invariant 0 <= c <= |text| && Delimiter(text, c) == Delimiter(text, 0)
      {
        c := c + 1;
      }
      if c < |text| {
        c := c - 1;
        while c > 0 && text[c] == ' '
          invariant c < |text| && BackOver(text, c) == BackOver(text, Delimiter(text, 0) - 1)
        {
          c := c - 1;
        }
      } else {
        c := |text| - 1;
      }
    }
  }

  lemma ValueEndAt(text: string)
    requires text != "" && !IsGap(text[0])
    ensures var c := ValueLength(text) - 1;
            && (text[0] == '"' ==> 0 < c <= |text| && (c < |text| ==> text[c] == '"') && '"' !in text[1..c])
            && (text[0] != '"' && (forall k :: 0 <= k < |text| ==> text[k] !in "{}(),") ==> c == |text| - 1)
            && forall d :: text[0] != '"' && 0 <= d < |text| && text[d] in "{}(),"
                           && (forall k :: 0 <= k < d ==> text[k] !in "{}(),") ==>
                 c < d && (forall k :: c < k < d ==> text[k] == ' ') && (c > 0 ==> text[c] != ' ')
  {
    assert forall x :: IsDelimiter(x) <==> x in "{}(),";
    if text[0] != '"' {
      var e := Delimiter(text, 0);
      assert e < |text| ==> text[e] in "{}(),";
    }
  }

  /** Every quoted value that the scanner comes to has a closing quote. */
  predicate Closed(t: string)
    decreases |t|
  {
    var s := t[Gap(t)..];
    s == "" || (ValueLength(s) <= |s| && Closed(s[ValueLength(s)..]))
  }

  /** The values that the scanner finds. */
  function Scan(t: string): seq<string>
    requires Closed(t)
    decreases |t|
  {
    var s := t[Gap(t)..];
    if s == "" then [] else [s[..ValueLength(s)]] + Scan(s[ValueLength(s)..])
  }

  /** A value is a set or a sequence if its first character that is not blank says so, not
      counting what follows a unit. */
  predicate IsGroup(t: string) {
    var k := Blanks(t);
    k < |t| && (t[k] == '{' || t[k] == '(')
  }

  function Blanks(t: string): (n: nat)
    ensures n <= |t|
  {
    if t == "" || t[0] != ' ' then 0 else 1 + Blanks(t[1..])
  }

  lemma {:induction false} GroupStart(t: string)
    ensures IsGroup(t) <==>
            exists k :: 0 <= k < |t| && (t[k] == '{' || t[k] == '(') && forall j :: 0 <= j < k ==> t[j] == ' '
  {
    var n := Blanks(t);
    BlanksAt(t);
  }

  lemma {:induction false} BlanksAt(t: string)
    ensures var n := Blanks(t); (n < |t| ==> t[n] != ' ') && forall j :: 0 <= j < n ==> t[j] == ' '
  {
    if t == "" || t[0] != ' ' {
    } else {
      BlanksAt(t[1..]);
    }
  }

  /** Lists the values of a keyword; a value that is no set or sequence is the only one. */
  method GetAllKwdValues(value: string) returns (valueList: seq<string>)
    requires IsGroup(value) ==> Closed(value)
    ensures valueList == if IsGroup(value) then Scan(value) else [value]
    ensures IsGroup(value) <==>
            exists k :: 0 <= k < |value| && (value[k] == '{' || value[k] == '(')
                        && forall j :: 0 <= j < k ==> value[j] == ' '
  {
    GroupStart(value);
    hide *;
    if IsGroup(value) {
      valueList := ListValues(value);
    } else {
      valueList := [value];
    }
  }

  /** Lists the values of a set or sequence. */
  method ListValues(value: string) returns (valueList: seq<string>)
    requires Closed(value)
    ensures valueList == Scan(value)
  {
    hide *;
    valueList := [];
    var rest := value;
    var start := ValueStart(rest);
    var val := rest[start..];
    while val != ""
      invariant Closed(rest) && val == rest[Gap(rest)..] && valueList + Scan(rest) == Scan(value)
      decreases |rest|
    {
      ScanStep(rest, val);
      var one, after := TakeOne(val);
      Regroup(valueList, [one], Scan(after));
      valueList := valueList + [one];
      rest := after;
      start := ValueStart(rest);
      val := rest[start..];
    }
    ScanStep(rest, val);
  }

  /** Cuts the value at the start of a text off. */
  method TakeOne(val: string) returns (one: string, after: string)
    requires val != "" && !IsGap(val[0]) && ValueLength(val) <= |val|
    ensures one == val[..ValueLength(val)] && after == val[ValueLength(val)..]
  {
    hide ValueLength, Gap;
    var stop := ValueEnd(val);
    one, after := val[..stop + 1], val[stop + 1..];
  }

  lemma ScanStep(rest: string, val: string)
    requires Closed(rest) && val == rest[Gap(rest)..]
    ensures val == "" ==> Scan(rest) == []
    ensures val != "" ==>
              && !IsGap(val[0]) && ValueLength(val) <= |val| && Closed(val[ValueLength(val)..])
              && |val[ValueLength(val)..]| < |rest|
              && Scan(rest) == [val[..ValueLength(val)]] + Scan(val[ValueLength(val)..])
  {}

  // ----- printed values

  /** A nested set or sequence, in round brackets or in braces. */
  datatype Value = Atom(text: string) | Group(round: bool, items: seq<Item>)

  /** A value in a set or sequence, and the blanks and line ends in front of it. */
  datatype Item = Item(gap: string, value: Value)

  /** A text that can stand as a value: quoted, without a quote in it, or without delimiters,
      and without gaps at the start or blanks at the end. */
  predicate IsAtom(a: string) {
    if |a| > 0 && a[0] == '"' then
      |a| > 1 && a[|a| - 1] == '"' && forall k :: 0 < k < |a| - 1 ==> a[k] != '"'
    else
      |a| > 0 && !IsGap(a[0]) && a[|a| - 1] != ' ' && forall k :: 0 <= k < |a| ==> !IsDelimiter(a[k])
  }

  predicate WellFormed(v: Value) {
    match v
    case Atom(a) => IsAtom(a)
    case Group(_, items) => forall k :: 0 <= k < |items| ==> IsSpacing(items[k].gap) && WellFormed(items[k].value)
  }

  /** Blanks and line ends. */
  predicate IsSpacing(s: string) {
    forall k :: 0 <= k < |s| ==> s[k] == ' ' || s[k] == '\n'
  }

  function Print(v: Value): string {
    match v
    case Atom(a) => a
    case Group(round, items) => [if round then '(' else '{'] + PrintItems(items) + [if round then ')' else '}']
  }

  function PrintItems(items: seq<Item>): string {
    if items == [] then "" else
      items[0].gap + Print(items[0].value) + (if |items| == 1 then "" else "," + PrintItems(items[1..]))
  }

  function Leaves(v: Value): seq<string> {
    match v
    case Atom(a) => [a]
    case Group(_, items) => LeavesOf(items)
  }

  function LeavesOf(items: seq<Item>): seq<string> {
    if items == [] then [] else Leaves(items[0].value) + LeavesOf(items[1..])
  }

  /** The scanner skips what is between values. */
  lemma {:induction false} SkipGap(gap: string, t: string)
    requires Closed(t) && forall k :: 0 <= k < |gap| ==> IsGap(gap[k])
    ensures Closed(gap + t) && Scan(gap + t) == Scan(t)
  {
    if gap == "" {
      assert gap + t == t;
    } else {
      SkipGap(gap[1..], t);
      var u := gap[1..] + t;
      assert gap + t == [gap[0]] + u && (gap + t)[1..] == u;
      assert Gap(gap + t) == 1 + Gap(u);
      assert (gap + t)[Gap(gap + t)..] == u[Gap(u)..];
    }
  }

  /** The scanner takes a whole text if a delimiter follows. */
  lemma TakeAtom(a: string, t: string)
    requires IsAtom(a) && Closed(t) && t != "" && IsDelimiter(t[0])
    ensures Closed(a + t) && Scan(a + t) == [a] + Scan(t)
  {
    var u := a + t;
    assert u[0] == a[0] && Gap(u) == 0 && u[0..] == u;
    if a[0] == '"' {
      assert forall k :: 0 < k < |a| - 1 ==> u[k] != '"';
      assert u[|a| - 1] == '"';
      assert Quote(u, 1) == |a| - 1;
    } else {
      assert forall k :: 0 <= k < |a| ==> !IsDelimiter(u[k]);
      assert u[|a|] == t[0];
      assert Delimiter(u, 0) == |a|;
      assert u[|a| - 1] == a[|a| - 1];
      assert BackOver(u, |a| - 1) == |a| - 1;
    }
    assert u[..|a|] == a && u[|a|..] == t;
  }

  /** What the scanner makes of a text before another. */
  predicate Yields(s: string, t: string, values: seq<string>)
    requires Closed(t)
  {
    Closed(s + t) && Scan(s + t) == values + Scan(t)
  }

  lemma YieldsBoth(s: string, u: string, t: string, a: seq<string>, b: seq<string>)
    requires Closed(t) && Yields(u, t, b) && Yields(s, u + t, a)
    ensures Yields(s + u, t, a + b)
  {
    hide Closed, Scan;
    assert s + u + t == s + (u + t);
    assert a + b + Scan(t) == a + (b + Scan(t));
  }

  lemma GapYields(gap: string, t: string)
    requires Closed(t) && forall k :: 0 <= k < |gap| ==> IsGap(gap[k])
    ensures Yields(gap, t, [])
  {
    hide Closed, Scan, Gap;
    SkipGap(gap, t);
    assert [] + Scan(t) == Scan(t);
  }

  /** The scanner takes a printed value and leaves what follows. */
  lemma {:induction false} TakeValue(v: Value, t: string)
    requires WellFormed(v) && Closed(t) && (v.Atom? ==> t != "" && IsDelimiter(t[0]))
    ensures Yields(Print(v), t, Leaves(v))
    decreases v, 1
  {
    hide Closed, Scan;
    match v
    case Atom(a) =>
      TakeAtom(a, t);
    case Group(round, items) =>
      var open, close := [if round then '(' else '{'], [if round then ')' else '}'];
      GapYields(close, t);
      TakeItems(items, close + t, v);
      GapYields(open, PrintItems(items) + (close + t));
      hide Yields;
      YieldsBoth(PrintItems(items), close, t, LeavesOf(items), []);
      assert PrintItems(items) + (close + t) == PrintItems(items) + close + t;
      YieldsBoth(open, PrintItems(items) + close, t, [], LeavesOf(items) + []);
      assert open + (PrintItems(items) + close) == Print(v);
      assert [] + (LeavesOf(items) + []) == LeavesOf(items);
  }

  /** The same with blanks and line ends in front. */
  lemma {:induction false} TakeItem(item: Item, t: string)
    requires IsSpacing(item.gap) && WellFormed(item.value)
    requires Closed(t) && t != "" && IsDelimiter(t[0])
    ensures Yields(item.gap + Print(item.value), t, Leaves(item.value))
    decreases item, 2
  {
    hide Closed, Scan;
    TakeValue(item.value, t);
    ClosedAfter(Print(item.value), t, Leaves(item.value));
    GapYields(item.gap, Print(item.value) + t);
    hide Yields;
    YieldsBoth(item.gap, Print(item.value), t, [], Leaves(item.value));
    assert [] + Leaves(item.value) == Leaves(item.value);
  }

  lemma {:induction false} TakeItems(items: seq<Item>, t: string, parent: Value)
    requires forall k :: 0 <= k < |items| ==> IsSpacing(items[k].gap) && WellFormed(items[k].value)
    requires forall k :: 0 <= k < |items| ==> items[k] < parent
    requires Closed(t) && t != "" && IsDelimiter(t[0])
    ensures Yields(PrintItems(items), t, LeavesOf(items))
    decreases parent, 0, |items|
  {
    hide Closed, Scan;
    if items == [] {
      GapYields("", t);
    } else if |items| == 1 {
      TakeItem(items[0], t);
      LastItem(items);
    } else {
      var rest := PrintItems(items[1..]);
      TakeItems(items[1..], t, parent);
      ClosedAfter(rest, t, LeavesOf(items[1..]));
      GapYields(",", rest + t);
      ClosedAfter(",", rest + t, []);
      TakeItem(items[0], "," + (rest + t));
      hide Yields, PrintItems, LeavesOf;
      Regroup(",", rest, t);
      YieldsBoth(",", rest, t, [], LeavesOf(items[1..]));
      YieldsBoth(items[0].gap + Print(items[0].value), "," + rest, t,
                 Leaves(items[0].value), [] + LeavesOf(items[1..]));
      FirstItem(items);
    }
  }

  lemma LastItem(items: seq<Item>)
    requires |items| == 1
    ensures PrintItems(items) == items[0].gap + Print(items[0].value) && LeavesOf(items) == Leaves(items[0].value)
  {
    assert items[1..] == [];
  }

  lemma FirstItem(items: seq<Item>)
    requires |items| > 1
    ensures PrintItems(items) == items[0].gap + Print(items[0].value) + ("," + PrintItems(items[1..]))
    ensures LeavesOf(items) == Leaves(items[0].value) + ([] + LeavesOf(items[1..]))
  {}

  lemma ClosedAfter(s: string, t: string, values: seq<string>)
    requires Closed(t) && Yields(s, t, values)
    ensures Closed(s + t)
  {}

  /** Listing the values of a printed set or sequence gives its texts, in order. */
  lemma ScanPrinted(v: Value)
    requires v.Group? && WellFormed(v)
    ensures IsGroup(Print(v)) && Closed(Print(v))
    ensures Scan(Print(v)) == Leaves(v)
  {
    TakeValue(v, "");
    assert Print(v) + "" == Print(v) && Leaves(v) + [] == Leaves(v);
    assert Print(v)[0] == if v.round then '(' else '{';
  }
}
