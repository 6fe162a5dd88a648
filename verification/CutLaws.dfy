/** What a run of median cuts does, spelled out in the numbers of the boxes, the colours and the
    histogram. */
module CutLaws {
  import opened ColorLists
  import opened MedianCut

  // ----- one split

  lemma SumsOf(s: seq<Colour>, hist: seq<int>) returns (sums: seq<int>)
    requires |hist| == COLOR_ARRAY_SIZE
    ensures |sums| == |s| + 1 && sums[0] == 0 && forall k :: 0 <= k < |s| ==> sums[k + 1] == sums[k] + hist[s[k]]
    ensures forall k :: 0 <= k <= |s| ==> sums[k] == PrefixCount(s, hist, k)
  {
    sums := seq(|s| + 1, k requires 0 <= k <= |s| => PrefixCount(s, hist, k));
  }

  lemma {:induction false} SumsGrow(s: seq<Colour>, hist: seq<int>, k: nat)
    requires |hist| == COLOR_ARRAY_SIZE && 0 < k <= |s|
    requires forall i :: 0 <= i < |s| ==> hist[s[i]] > 0
    ensures PrefixCount(s, hist, k) > 0
  {
    if k == 1 {
      assert PrefixCount(s, hist, 1) == PrefixCount(s, hist, 0) + hist[s[0]];
    } else {
      SumsGrow(s, hist, k - 1);
    }
  }

  lemma ColoursOf(s: seq<Colour>, t: seq<Colour>)
    requires multiset(s) == multiset(t)
    ensures forall i :: 0 <= i < |s| ==> s[i] in t
  {
    forall i | 0 <= i < |s|
      ensures s[i] in t
    {
      assert s[i] in multiset(s);
    }
  }

  /** The colours of both halves are those of the box in ascending order along the axis. The first
      half is the longest start of them that has at most half of the count of the box, but at least
      one colour and not all of them. */
  lemma MedianLaw(b: Box, first: Box, second: Box, axis: nat, hist: seq<int>) returns (sums: seq<int>)
    requires |hist| == COLOR_ARRAY_SIZE && SplitOf(b, first, second, axis, hist)
    requires forall c :: c in b.colours ==> hist[c] > 0
    ensures var s, n := first.colours + second.colours, |first.colours|;
            && axis < 3 && multiset(s) == multiset(b.colours) && 0 < n < |s|
            && first.numEntries == n && second.numEntries == |s| - n
            && (forall i, k :: 0 <= i < k < |s| ==>
                  if axis == 0 then s[i] / 1024 <= s[k] / 1024
                  else if axis == 1 then s[i] / 32 % 32 <= s[k] / 32 % 32
                  else s[i] % 32 <= s[k] % 32)
            && |sums| == |s| + 1 && sums[0] == 0 && (forall k :: 0 <= k < |s| ==> sums[k + 1] == sums[k] + hist[s[k]])
            && (forall k :: 1 < k <= n ==> 2 * sums[k] <= b.count)
            && (n + 1 < |s| ==> 2 * sums[n + 1] > b.count)
            && second.count == sums[n] && first.count == b.count - sums[n]
  {
    hide PrefixCount;
    var s, n := first.colours + second.colours, |first.colours|;
    sums := SumsOf(s, hist);
    ColoursOf(s, b.colours);
    PrefixUpTo(s, hist, n, n);
    assert s[..n] == first.colours;
    forall k | 0 < k <= |s|
      ensures sums[k] > 0
    {
      SumsGrow(s, hist, k);
    }
  }

  /** The bounds of the halves along the axis are those of the colours at the cut, and those of the
      box; along the other axes they are those of the box. */
  lemma BoundsLaw(b: Box, first: Box, second: Box, axis: nat, hist: seq<int>)
    requires |hist| == COLOR_ARRAY_SIZE && SplitOf(b, first, second, axis, hist)
    ensures first.min == b.min && 0 < |first.colours| && 0 < |second.colours|
    ensures var last, next := first.colours[|first.colours| - 1], second.colours[0];
            if axis == 0 then
              && second.min == b.min.(red := 8 * (next / 1024))
              && first.width.(red := 0) == second.width.(red := 0) == b.width.(red := 0)
              && first.min.red + first.width.red == 8 * (last / 1024)
              && second.min.red + second.width.red == b.min.red + b.width.red
            else if axis == 1 then
              && second.min == b.min.(green := 8 * (next / 32 % 32))
              && first.width.(green := 0) == second.width.(green := 0) == b.width.(green := 0)
              && first.min.green + first.width.green == 8 * (last / 32 % 32)
              && second.min.green + second.width.green == b.min.green + b.width.green
            else
              && second.min == b.min.(blue := 8 * (next % 32))
              && first.width.(blue := 0) == second.width.(blue := 0) == b.width.(blue := 0)
              && first.min.blue + first.width.blue == 8 * (last % 32)
              && second.min.blue + second.width.blue == b.min.blue + b.width.blue
  {
    ByAxis(b.min, first.min);
    ByAxis(b.min, second.min);
    ByAxis(b.width, first.width);
    ByAxis(b.width, second.width);
  }

  lemma ByAxis(t: Triple, u: Triple)
    ensures t.Of(0) == t.red && t.Of(1) == t.green && t.Of(2) == t.blue
    ensures u.Of(0) == u.red && u.Of(1) == u.green && u.Of(2) == u.blue
  {}

  /** The box that is split is the first of those with the greatest width among the boxes with more
      than one colour, and the axis the first of those along which it has that width. */
  lemma WidestLaw(bs: seq<Box>, cut: Cut, hist: seq<int>, next: seq<Box>)
    requires |hist| == COLOR_ARRAY_SIZE && Step(bs, cut, hist, next)
    ensures cut.index < |bs| && cut.axis < 3 && bs[cut.index].numEntries > 1
    ensures next == bs[..cut.index] + [cut.first] + bs[cut.index + 1..] + [cut.second]
    ensures var w := bs[cut.index].width; var widest := [w.red, w.green, w.blue][cut.axis];
            forall i :: 0 <= i < |bs| && bs[i].numEntries > 1 ==>
              && bs[i].width.red <= widest && bs[i].width.green <= widest && bs[i].width.blue <= widest
              && (i < cut.index ==>
                    bs[i].width.red < widest && bs[i].width.green < widest && bs[i].width.blue < widest)
              && (i == cut.index && cut.axis > 0 ==> bs[i].width.red < widest)
              && (i == cut.index && cut.axis > 1 ==> bs[i].width.green < widest)
  {
    hide SplitOf;
    var w := bs[cut.index].width;
    assert [w.red, w.green, w.blue][cut.axis] == w.Of(cut.axis);
    forall i | 0 <= i < |bs| && bs[i].numEntries > 1
      ensures var x, widest := bs[i].width, w.Of(cut.axis);
              && x.red <= widest && x.green <= widest && x.blue <= widest
              && (i < cut.index ==> x.red < widest && x.green < widest && x.blue < widest)
              && (i == cut.index && cut.axis > 0 ==> x.red < widest)
              && (i == cut.index && cut.axis > 1 ==> x.green < widest)
    {
      assert bs[i].width.Of(0) == bs[i].width.red;
      assert bs[i].width.Of(1) == bs[i].width.green;
      assert bs[i].width.Of(2) == bs[i].width.blue;
    }
    assert bs[cut.index := cut.first] == bs[..cut.index] + [cut.first] + bs[cut.index + 1..];
  }

  // ----- a run

  lemma {:induction false} StagePool(start: seq<Box>, cuts: seq<Cut>, stages: seq<seq<Box>>, hist: seq<int>,
                                     end: seq<Box>, n: nat)
    requires |hist| == COLOR_ARRAY_SIZE && Run(start, cuts, stages, hist, end) && n <= |cuts|
    ensures Pool(stages[n]) == Pool(start)
  {
    hide Pool, SplitOf, Widest;
    if n == 0 {
    } else {
      StagePool(start, cuts, stages, hist, end, n - 1);
      var cut := cuts[n - 1];
      assert Step(stages[n - 1], cut, hist, stages[n]);
      IndexInRange(stages[n - 1], cut);
      SplitPool(stages[n - 1][cut.index], cut.first, cut.second, cut.axis, hist);
      PoolSplit(stages[n - 1], cut.index, cut.first, cut.second);
    }
  }

  lemma IndexInRange(bs: seq<Box>, cut: Cut)
    requires Widest(bs, cut.index, cut.axis)
    ensures cut.index < |bs|
  {}

  lemma SplitPool(b: Box, first: Box, second: Box, axis: nat, hist: seq<int>)
    requires |hist| == COLOR_ARRAY_SIZE && SplitOf(b, first, second, axis, hist)
    ensures multiset(first.colours) + multiset(second.colours) == multiset(b.colours)
    ensures first.count + second.count == b.count
  {
    assert multiset(first.colours + second.colours) == multiset(first.colours) + multiset(second.colours);
  }

  /** Every step of a run splits one box of the stage before, whose colours all occur. */
  lemma RunStep(start: seq<Box>, cuts: seq<Cut>, stages: seq<seq<Box>>, hist: seq<int>, end: seq<Box>, k: nat)
    requires |hist| == COLOR_ARRAY_SIZE && Run(start, cuts, stages, hist, end) && k < |cuts|
    requires forall i, c :: 0 <= i < |start| && c in start[i].colours ==> hist[c] > 0
    ensures |stages| == |cuts| + 1 && stages[0] == start && stages[|cuts|] == end
    ensures Step(stages[k], cuts[k], hist, stages[k + 1]) && cuts[k].index < |stages[k]|
    ensures SplitOf(stages[k][cuts[k].index], cuts[k].first, cuts[k].second, cuts[k].axis, hist)
    ensures forall c :: c in stages[k][cuts[k].index].colours ==> hist[c] > 0
  {
    hide Pool, SplitOf;
    assert Step(stages[k], cuts[k], hist, stages[k + 1]);
    StagePool(start, cuts, stages, hist, end, k);
    forall c | c in stages[k][cuts[k].index].colours
      ensures hist[c] > 0
    {
      InPool(stages[k], c);
      InPool(start, c);
    }
  }
}
