/** The counts of the boxes, which are meant to be the numbers of their pixels, and when they
    are. */
module BoxCounts {
  import opened ColorLists
  import opened MedianCut

  /** The number of pixels that have one of the colours. */
  ghost function Pixels(s: seq<Colour>, hist: seq<int>): int
    requires |hist| == COLOR_ARRAY_SIZE
  {
    PrefixCount(s, hist, |s|)
  }

  lemma {:induction false} PixelsAppend(s: seq<Colour>, t: seq<Colour>, hist: seq<int>)
    requires |hist| == COLOR_ARRAY_SIZE
    ensures Pixels(s + t, hist) == Pixels(s, hist) + Pixels(t, hist)
  {
    if t == [] {
      assert s + t == s;
    } else {
      var n := |t| - 1;
      PixelsAppend(s, t[..n], hist);
      assert (s + t)[..|s| + n] == s + t[..n];
      PrefixOnly(s + t, hist, |s| + n);
      PrefixOnly(t, hist, n);
    }
  }

  /** The order of the colours does not matter. */
  lemma {:induction false} PixelsOfPermutation(s: seq<Colour>, t: seq<Colour>, hist: seq<int>)
    requires |hist| == COLOR_ARRAY_SIZE && multiset(s) == multiset(t)
    ensures Pixels(s, hist) == Pixels(t, hist)
  {
    if s == [] {
      assert |multiset(s)| == |multiset(t)|;
    } else {
      hide PrefixCount;
      var c := s[0];
      assert c in multiset(t);
      var k :| 0 <= k < |t| && t[k] == c;
      var x, y := t[..k], t[k + 1..];
      TakenOut(s, t, k);
      assert s == [c] + s[1..] && t == (x + [c]) + y;
      PixelsOfPermutation(s[1..], x + y, hist);
      PixelsAppend([c], s[1..], hist);
      PixelsAppend(x, y, hist);
      PixelsAppend(x, [c], hist);
      PixelsAppend(x + [c], y, hist);
    }
  }

  lemma TakenOut(s: seq<Colour>, t: seq<Colour>, k: nat)
    requires s != [] && k < |t| && t[k] == s[0] && multiset(s) == multiset(t)
    ensures multiset(s[1..]) == multiset(t[..k] + t[k + 1..])
  {
    assert s == [s[0]] + s[1..] && t == t[..k] + [s[0]] + t[k + 1..];
    calc {
      multiset(s[1..]);
      multiset(s) - multiset([s[0]]);
      multiset(t) - multiset([s[0]]);
      multiset(t[..k] + t[k + 1..]);
    }
  }

  // ----- one cut

  /** The count of a box is the number of pixels that have its colours. */
  ghost predicate RightCount(b: Box, hist: seq<int>)
    requires |hist| == COLOR_ARRAY_SIZE
  {
    b.count == Pixels(b.colours, hist)
  }

  /** The halves have as many pixels. */
  ghost predicate Even(first: Box, second: Box, hist: seq<int>)
    requires |hist| == COLOR_ARRAY_SIZE
  {
    Pixels(first.colours, hist) == Pixels(second.colours, hist)
  }

  /** The second half gets the count of the first, and the first half what is left. So both
      counts are right exactly if that of the box was, and the halves have as many pixels. */
  lemma HalvesSwapCounts(b: Box, first: Box, second: Box, axis: nat, hist: seq<int>)
    requires |hist| == COLOR_ARRAY_SIZE && SplitOf(b, first, second, axis, hist)
    ensures second.count == Pixels(first.colours, hist) && first.count == b.count - Pixels(first.colours, hist)
    ensures Pixels(b.colours, hist) == Pixels(first.colours, hist) + Pixels(second.colours, hist)
    ensures RightCount(first, hist) && RightCount(second, hist) <==>
            RightCount(b, hist) && Even(first, second, hist)
  {
    hide PrefixCount;
    PixelsOfPermutation(first.colours + second.colours, b.colours, hist);
    PixelsAppend(first.colours, second.colours, hist);
  }

  // ----- a run

  ghost predicate CountsRight(bs: seq<Box>, hist: seq<int>)
    requires |hist| == COLOR_ARRAY_SIZE
  {
    forall i :: 0 <= i < |bs| ==> RightCount(bs[i], hist)
  }

  /** The first `n` cuts are even. */
  ghost predicate EvenCuts(cuts: seq<Cut>, hist: seq<int>, n: nat)
    requires |hist| == COLOR_ARRAY_SIZE && n <= |cuts|
  {
    forall k :: 0 <= k < n ==> Even(cuts[k].first, cuts[k].second, hist)
  }

  lemma StepCounts(bs: seq<Box>, cut: Cut, hist: seq<int>, next: seq<Box>)
    requires |hist| == COLOR_ARRAY_SIZE && Step(bs, cut, hist, next)
    ensures CountsRight(next, hist) <==> CountsRight(bs, hist) && Even(cut.first, cut.second, hist)
  {
    hide RightCount, Even, SplitOf;
    HalvesSwapCounts(bs[cut.index], cut.first, cut.second, cut.axis, hist);
    var i, n := cut.index, |bs|;
    assert next[i] == cut.first && next[n] == cut.second;
    assert forall k :: 0 <= k < n && k != i ==> next[k] == bs[k];
    if CountsRight(next, hist) {
      assert RightCount(next[i], hist) && RightCount(next[n], hist);
      assert forall k :: 0 <= k < n && k != i ==> RightCount(next[k], hist);
    }
  }

  /** After any number of cuts, all counts are right exactly if they were at the start and every
      cut so far was even: a count that is wrong once makes a count wrong for ever. */
  lemma {:induction false} RunCounts(start: seq<Box>, cuts: seq<Cut>, stages: seq<seq<Box>>, hist: seq<int>,
                                     end: seq<Box>, n: nat)
    requires |hist| == COLOR_ARRAY_SIZE && Run(start, cuts, stages, hist, end) && n <= |cuts|
    ensures CountsRight(stages[n], hist) <==> CountsRight(start, hist) && EvenCuts(cuts, hist, n)
  {
    hide Step, CountsRight, Even;
    if n == 0 {
      assert EvenCuts(cuts, hist, 0);
    } else {
      RunCounts(start, cuts, stages, hist, end, n - 1);
      assert Step(stages[n - 1], cuts[n - 1], hist, stages[n]);
      StepCounts(stages[n - 1], cuts[n - 1], hist, stages[n]);
      assert EvenCuts(cuts, hist, n) <==>
             EvenCuts(cuts, hist, n - 1) && Even(cuts[n - 1].first, cuts[n - 1].second, hist);
    }
  }

  // ----- a wrong count

  /** Black in one pixel and a shade of blue in three: whatever the axis, and however equal
      colours are sorted, the halves of their box get wrong counts. */
  lemma CountOfTheOtherHalf(hist: seq<int>, first: Box, second: Box, axis: nat)
    requires |hist| == COLOR_ARRAY_SIZE && hist[0] == 1 && hist[1] == 3
    requires SplitOf(Whole([0, 1], 4), first, second, axis, hist)
    ensures !RightCount(first, hist) && !RightCount(second, hist)
  {
    var f, s := first.colours, second.colours;
    HalvesSwapCounts(Whole([0, 1], 4), first, second, axis, hist);
    assert |multiset(f + s)| == |multiset([0, 1])|;
    assert f == [f[0]] && f[0] in multiset(f + s) && f[0] in multiset([0, 1]);
    OnePixelCount([0], hist);
    OnePixelCount([1], hist);
    PixelsAppend([0], [1], hist);
    assert [0] + [1] == [0, 1];
  }

  lemma OnePixelCount(s: seq<Colour>, hist: seq<int>)
    requires |hist| == COLOR_ARRAY_SIZE && |s| == 1
    ensures Pixels(s, hist) == hist[s[0]]
  {
    assert PrefixCount(s, hist, 1) == PrefixCount(s, hist, 0) + hist[s[0]];
  }

  /** The pixels of a list of all colours that occur are all pixels. */
  lemma {:induction false} AllPixels(chain: seq<Colour>, hist: seq<int>, colours: multiset<Colour>)
    requires |hist| == COLOR_ARRAY_SIZE && Ascending(chain)
    requires forall c :: c in colours ==> c in chain
    requires forall c :: c in chain ==> hist[c] == colours[c]
    ensures Pixels(chain, hist) == |colours|
  {
    if chain == [] {
      assert colours == multiset{};
    } else {
      var n := |chain| - 1;
      var front, last := chain[..n], chain[n];
      PrefixOnly(chain, hist, n);
      assert Pixels(chain, hist) == Pixels(front, hist) + hist[last];
      hide PrefixCount, Pixels;
      var others := colours[last := 0];
      assert |colours| == |others| + colours[last];
      assert forall k :: 0 <= k < n ==> chain[k] < last;
      assert chain == front + [last];
      hide Ascending;
      AllPixels(front, hist, others);
    }
  }
}
