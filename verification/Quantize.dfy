/** Quantising an image: the sampled colours, the colour map and the mapped pixels. */
module Quantize {
  import opened Arithmetic
  import opened BoxCounts
  import opened CutLaws
  import opened ColorLists
  import opened Common
  import opened MedianCut

  datatype RGB = RGB(red: nat, green: nat, blue: nat) {
    function Of(axis: nat): nat
    {
      if axis == 0 then red else if axis == 1 then green else blue
    }
  }

  /** The image as the three read-only buffers of the caller. */
  datatype Image = Image(red: seq<byte>, green: seq<byte>, blue: seq<byte>) {
    ghost predicate Valid() {
      |red| == |green| == |blue| > 0
    }

    function Sampled(i: nat): Colour
      requires i < |red| && i < |green| && i < |blue|
    {
      IndexOf(red[i], green[i], blue[i])
    }

    function At(i: nat, axis: nat): byte
      requires i < |red| && i < |green| && i < |blue|
    {
      if axis == 0 then red[i] else if axis == 1 then green[i] else blue[i]
    }
  }

  /** The sampled colours of the first `n` pixels. */
  ghost function Samples(image: Image, n: nat): (s: seq<Colour>)
    requires image.Valid() && n <= |image.red|
    ensures |s| == n
  {
    seq(n, i requires 0 <= i < n => image.Sampled(i))
  }

  // ----- sampling

  /** How many of the first `n` pixels have each sampled colour. */
  ghost predicate Histogram(image: Image, hist: seq<int>, n: nat)
    requires image.Valid() && n <= |image.red|
  {
    && |hist| == COLOR_ARRAY_SIZE
    && forall c: Colour :: hist[c] == multiset(Samples(image, n))[c]
  }

  /** Counts how many pixels have each sampled colour. */
  method Sample(image: Image) returns (hist: array<int>)
    requires image.Valid()
    ensures fresh(hist) && hist.Length == COLOR_ARRAY_SIZE && Histogram(image, hist[..], |image.red|)
  {
    hide IndexOf;
    hist := new int[COLOR_ARRAY_SIZE](_ => 0);
    assert Samples(image, 0) == [];
    for i := 0 to |image.red|
      invariant Histogram(image, hist[..], i)
    {
      var index := image.Sampled(i);
      assert Samples(image, i + 1) == Samples(image, i) + [index];
      hist[index] := hist[index] + 1;
    }
  }

  ghost predicate Chained(hist: seq<int>, chain: seq<Colour>)
  {
    |hist| == COLOR_ARRAY_SIZE && forall c: Colour :: c in chain <==> hist[c] > 0
  }

  /** Chains the colours that occur. */
  method ChainColours(hist: array<int>, pnext: array<int>) returns (chain: seq<Colour>)
    requires hist.Length == pnext.Length == COLOR_ARRAY_SIZE && hist != pnext && exists c: Colour :: hist[c] > 0
    modifies pnext
    ensures chain != [] && Ascending(chain) && Chained(hist[..], chain) && Chain(pnext[..], chain)
  {
    hide Ascending, ChainedTo, Chained, LinkedUpTo, Chain;
    var i := FirstColour(hist);
    ghost var counts := hist[..];
    var entry := i;
    chain := [i];
    ChainStart(pnext[..], counts, i);
    i := i + 1;
    while i < COLOR_ARRAY_SIZE
      invariant 0 < i <= COLOR_ARRAY_SIZE && chain != [] && ChainedTo(counts, chain, i) && entry == chain[|chain| - 1]
      invariant LinkedUpTo(pnext[..], chain)
      modifies pnext
    {
      ChainedMore(counts, chain, i);
      ChainAscends(counts, chain, i);
      if hist[i] > 0 {
        chain := LinkNext(pnext, chain, entry, i);
        entry := i;
      }
      i := i + 1;
    }
    ChainAscends(counts, chain, i);
    EndChain(pnext, chain, entry);
  }

  /** The first colour that occurs. */
  method FirstColour(hist: array<int>) returns (i: nat)
    requires hist.Length == COLOR_ARRAY_SIZE && exists c: Colour :: hist[c] > 0
    ensures i < COLOR_ARRAY_SIZE && hist[i] > 0 && ChainedTo(hist[..], [], i)
  {
    i := 0;
    while hist[i] <= 0
      invariant i < COLOR_ARRAY_SIZE
      invariant forall c: Colour :: c < i ==> hist[c] <= 0
      decreases COLOR_ARRAY_SIZE - i
    {
      i := i + 1;
    }
  }

  lemma ChainStart(pnext: seq<int>, hist: seq<int>, i: Colour)
    requires |pnext| == |hist| == COLOR_ARRAY_SIZE && ChainedTo(hist, [], i) && hist[i] > 0
    ensures ChainedTo(hist, [i], i + 1) && LinkedUpTo(pnext, [i])
  {
    ChainedMore(hist, [], i);
    assert [] + [i] == [i];
  }

  lemma ChainAscends(hist: seq<int>, chain: seq<Colour>, i: nat)
    requires ChainedTo(hist, chain, i)
    ensures Ascending(chain) && (i == COLOR_ARRAY_SIZE ==> Chained(hist, chain))
  {}

  /** The links lead along a list, wherever its last one leads. */
  ghost predicate LinkedUpTo(pnext: seq<int>, chain: seq<Colour>)
  {
    && |pnext| == COLOR_ARRAY_SIZE
    && forall k :: 0 <= k < |chain| - 1 ==> pnext[chain[k]] == chain[k + 1]
  }

  method LinkNext(pnext: array<int>, chain: seq<Colour>, entry: Colour, i: Colour) returns (longer: seq<Colour>)
    requires LinkedUpTo(pnext[..], chain) && Ascending(chain) && chain != [] && entry == chain[|chain| - 1]
    modifies pnext
    ensures longer == chain + [i] && LinkedUpTo(pnext[..], longer)
  {
    ghost var was := pnext[..];
    pnext[entry] := i;
    longer := chain + [i];
    assert forall k :: 0 <= k < |chain| - 1 ==> pnext[chain[k]] == was[chain[k]];
  }

  method EndChain(pnext: array<int>, ghost chain: seq<Colour>, entry: Colour)
    requires LinkedUpTo(pnext[..], chain) && Ascending(chain) && chain != [] && entry == chain[|chain| - 1]
    modifies pnext
    ensures Chain(pnext[..], chain)
  {
    ghost var was := pnext[..];
    pnext[entry] := NULL;
    assert forall k :: 0 <= k < |chain| - 1 ==> pnext[chain[k]] == was[chain[k]];
  }

  /** The chain has the colours before `i` that occur, in ascending order. */
  ghost predicate ChainedTo(hist: seq<int>, chain: seq<Colour>, i: nat)
  {
    && |hist| == COLOR_ARRAY_SIZE && Ascending(chain)
    && forall c: Colour :: c in chain <==> c < i && hist[c] > 0
  }

  lemma ChainedMore(hist: seq<int>, chain: seq<Colour>, i: nat)
    requires ChainedTo(hist, chain, i) && i < COLOR_ARRAY_SIZE
    ensures ChainedTo(hist, if hist[i] > 0 then chain + [i] else chain, i + 1)
  {
    assert forall k :: 0 <= k < |chain| ==> chain[k] in chain;
  }

  ghost function Members(s: seq<Colour>): set<Colour>
  {
    set c | c in s
  }

  /** A chain in ascending order is as long as the set of colours in it. */
  lemma {:induction false} AscendingSize(s: seq<Colour>)
    requires Ascending(s)
    ensures |Members(s)| == |s|
  {
    if s == [] {
    } else {
      var n := |s| - 1;
      AscendingSize(s[..n]);
      assert forall k :: 0 <= k < n ==> s[k] < s[n];
      assert s[n] !in Members(s[..n]);
      hide Ascending;
      MembersAppend(s[..n], s[n]);
      assert s == s[..n] + [s[n]];
    }
  }

  lemma MembersAppend(s: seq<Colour>, c: Colour)
    ensures Members(s + [c]) == Members(s) + {c}
  {}

  // ----- the colour map

  function ChannelSum(s: seq<Colour>, axis: nat): nat
    requires axis < 3
  {
    if s == [] then 0 else ChannelSum(s[..|s| - 1], axis) + Channel(s[|s| - 1], axis)
  }

  /** The stored average of some colours, scaled to eight bits. */
  function Average(s: seq<Colour>): RGB
  {
    if s == [] then RGB(0, 0, 0) else
      RGB(ToByte(8 * ChannelSum(s, 0) / |s|), ToByte(8 * ChannelSum(s, 1) / |s|), ToByte(8 * ChannelSum(s, 2) / |s|))
  }

  lemma {:induction false} SumBounds(s: seq<Colour>, axis: nat, lo: nat, hi: nat)
    requires axis < 3 && forall c :: c in s ==> lo <= 8 * Channel(c, axis) <= hi
    ensures |s| * lo <= 8 * ChannelSum(s, axis) <= |s| * hi
  {
    hide Channel;
    if s == [] {
    } else {
      var n := |s| - 1;
      SumBounds(s[..n], axis, lo, hi);
      assert s[n] in s;
      OneMore(n, lo);
      OneMore(n, hi);
    }
  }

  lemma QuotientBounds(total: nat, n: nat, lo: nat, hi: nat)
    requires n > 0 && n * lo <= total <= n * hi
    ensures lo <= total / n <= hi
  {
    var q: nat := total / n;
    Division(total, n);
    if q < lo {
      RowFits(q, lo, n);
    } else if q > hi {
      RowFits(hi, q, n);
    }
  }

  lemma MeanBounds(s: seq<Colour>, axis: nat, lo: nat, hi: nat)
    requires axis < 3 && s != [] && forall c :: c in s ==> lo <= 8 * Channel(c, axis) <= hi
    ensures lo <= 8 * ChannelSum(s, axis) / |s| <= hi
  {
    hide Channel, ChannelSum;
    SumBounds(s, axis, lo, hi);
    QuotientBounds(8 * ChannelSum(s, axis), |s|, lo, hi);
  }

  /** The average of a box lies in the box, and never wraps around. */
  lemma AverageInBox(b: Box, axis: nat)
    requires Good(b) && axis < 3
    ensures b.min.Of(axis) <= Average(b.colours).Of(axis) <= b.min.Of(axis) + b.width.Of(axis)
  {
    hide Channel, ChannelSum, Triple.Of, Bounded;
    forall c | c in b.colours
      ensures b.min.Of(axis) <= 8 * Channel(c, axis) <= b.min.Of(axis) + b.width.Of(axis)
    {
      BoundedAlong(b, c, axis);
    }
    MeanBounds(b.colours, axis, b.min.Of(axis), b.min.Of(axis) + b.width.Of(axis));
  }

  /** The average of one colour is the colour. */
  lemma AverageOfOne(c: Colour, axis: nat)
    requires axis < 3
    ensures Average([c]).Of(axis) == 8 * Channel(c, axis)
  {
    hide Channel;
    assert [c][..0] == [];
    assert forall j :: 0 <= j < 3 ==> ChannelSum([c], j) == Channel(c, j);
  }

  /** Every colour of the first `n` boxes is noted to be in one of them that has it. */
  ghost predicate Noted(bs: seq<Box>, newIndex: seq<nat>, n: nat)
    requires n <= |bs| && |newIndex| == COLOR_ARRAY_SIZE
  {
    forall k, c :: 0 <= k < n && c in bs[k].colours ==> newIndex[c] < n && c in bs[newIndex[c]].colours
  }

  /** Walks along the list of a box, sums up its colours and notes that they are in it. */
  method SumColours(pnext: array<int>, head: Colour, i: nat, newIndex: array<nat>, ghost colours: seq<Colour>)
    returns (red: nat, green: nat, blue: nat)
    requires newIndex.Length == COLOR_ARRAY_SIZE && newIndex as object != pnext
    requires Chain(pnext[..], colours) && colours != [] && head == colours[0]
    modifies newIndex
    ensures red == ChannelSum(colours, 0) && green == ChannelSum(colours, 1) && blue == ChannelSum(colours, 2)
    ensures forall c: Colour :: newIndex[c] == if c in colours then i else old(newIndex[c])
  {
    hide Channel;
    red, green, blue := 0, 0, 0;
    var entry: int := head;
    ghost var k := 0;
    while entry != NULL
      invariant k <= |colours| && if k < |colours| then entry == colours[k] else entry == NULL
      invariant red == ChannelSum(colours[..k], 0)
      invariant green == ChannelSum(colours[..k], 1)
      invariant blue == ChannelSum(colours[..k], 2)
      invariant forall c: Colour :: newIndex[c] == if c in colours[..k] then i else old(newIndex[c])
      decreases |colours| - k
    {
      var c: Colour := entry;
      assert colours[..k + 1] == colours[..k] + [c] && colours[..k + 1][..k] == colours[..k];
      Next(pnext[..], colours, k);
      newIndex[c] := i;
      red := red + Channel(c, 0);
      green := green + Channel(c, 1);
      blue := blue + Channel(c, 2);
      entry := pnext[entry];
      k := k + 1;
    }
    assert colours[..|colours|] == colours;
  }

  /** Averages the colours of each box into its map entry, and notes the box of each colour. */
  method FillMap(boxes: array<Box>, size: nat, pnext: array<int>, newIndex: array<nat>, outputMap: array<RGB>)
    requires size <= boxes.Length && size <= outputMap.Length && newIndex.Length == COLOR_ARRAY_SIZE
    requires newIndex as object != pnext
    requires forall i :: 0 <= i < size ==> Good(boxes[i])
    requires Lists(pnext[..], boxes[..size])
    modifies newIndex, outputMap
    ensures forall i :: 0 <= i < size ==> outputMap[i] == Average(boxes[i].colours)
    ensures forall i :: size <= i < outputMap.Length ==> outputMap[i] == old(outputMap[i])
    ensures Noted(boxes[..size], newIndex[..], size)
  {
    hide Average, Good, Chain;
    for i := 0 to size
      invariant forall k :: 0 <= k < i ==> outputMap[k] == Average(boxes[k].colours)
      invariant forall k :: size <= k < outputMap.Length ==> outputMap[k] == old(outputMap[k])
      invariant Noted(boxes[..size], newIndex[..], i)
    {
      assert boxes[..size][i] == boxes[i];
      FillEntry(boxes[..size], i, pnext, newIndex, outputMap);
    }
  }

  method FillEntry(bs: seq<Box>, i: nat, pnext: array<int>, newIndex: array<nat>, outputMap: array<RGB>)
    requires i < |bs| <= outputMap.Length && newIndex.Length == COLOR_ARRAY_SIZE && newIndex as object != pnext
    requires Good(bs[i]) && Noted(bs, newIndex[..], i) && Chain(pnext[..], bs[i].colours)
    modifies newIndex, outputMap
    ensures outputMap[i] == Average(bs[i].colours)
    ensures forall k :: 0 <= k < outputMap.Length && k != i ==> outputMap[k] == old(outputMap[k])
    ensures Noted(bs, newIndex[..], i + 1)
  {
    hide ChannelSum, Bounded, Chain;
    var j := bs[i].numEntries;
    if j > 0 {
      var red, green, blue := SumColours(pnext, bs[i].colours[0], i, newIndex, bs[i].colours);
      outputMap[i] := RGB(ToByte(8 * red / j), ToByte(8 * green / j), ToByte(8 * blue / j));
    }
  }

  /** Writes the map index of each pixel. */
  method MapPixels(image: Image, newIndex: array<nat>, output: array<nat>)
    requires image.Valid() && newIndex.Length == COLOR_ARRAY_SIZE && output.Length >= |image.red|
    requires newIndex != output
    modifies output
    ensures forall i :: 0 <= i < |image.red| ==> output[i] == newIndex[image.Sampled(i)]
  {
    for i := 0 to |image.red|
      invariant forall k :: 0 <= k < i ==> output[k] == newIndex[image.Sampled(k)]
    {
      output[i] := newIndex[image.Sampled(i)];
    }
  }

  // ----- the whole quantisation

  /** The different sampled colours of an image. */
  ghost function Distinct(image: Image): set<Colour>
    requires image.Valid()
  {
    Members(Samples(image, |image.red|))
  }

  /** How far the map entry of a pixel may be from the pixel. */
  lemma PixelError(image: Image, i: nat, b: Box, axis: nat)
    requires image.Valid() && i < |image.red| && Good(b) && image.Sampled(i) in b.colours && axis < 3
    ensures var out, pixel := Average(b.colours).Of(axis), image.At(i, axis);
            && -(b.width.Of(axis) + 7) <= out - pixel <= b.width.Of(axis) + 7
            && (b.numEntries == 1 ==> out == pixel - pixel % 8)
  {
    hide Channel, IndexOf, Average, Triple.Of, RGB.Of;
    var c, x := image.Sampled(i), image.At(i, axis);
    assert Channel(c, axis) == x / 8;
    assert Bounded(b, c);
    AverageInBox(b, axis);
    if b.numEntries == 1 {
      assert b.colours == [c];
      AverageOfOne(c, axis);
    }
  }

  lemma WholeIsPartition(colours: seq<Colour>, pixels: nat)
    requires colours != []
    ensures Partition([Whole(colours, pixels)], colours)
  {
    hide Channel;
    assert Pool([Whole(colours, pixels)][..0]) == multiset{};
  }

  lemma WholeIsList(pnext: seq<int>, colours: seq<Colour>, pixels: nat)
    requires Chain(pnext, colours)
    ensures Lists(pnext, [Whole(colours, pixels)])
  {}

  /** The one box at the start has the right count. So the counts at the end are right exactly
      if every cut was even. */
  lemma FinalCounts(image: Image, hist: seq<int>, chain: seq<Colour>, cuts: seq<Cut>, stages: seq<seq<Box>>,
                    bs: seq<Box>)
    requires image.Valid() && Histogram(image, hist, |image.red|) && Ascending(chain) && Chained(hist, chain)
    requires Run([Whole(chain, |image.red|)], cuts, stages, hist, bs)
    ensures |stages| > 0 && stages[0] == [Whole(chain, |image.red|)]
    ensures CountsRight(bs, hist) <==> EvenCuts(cuts, hist, |cuts|)
  {
    hide IndexOf, Samples, Step, EvenCuts;
    var all: multiset<Colour> := multiset(Samples(image, |image.red|));
    forall c: Colour
      ensures c in all <==> c in chain
    {
      assert hist[c] == all[c];
    }
    AllPixels(chain, hist, all);
    RunCounts([Whole(chain, |image.red|)], cuts, stages, hist, bs, |cuts|);
  }

  /** An image of one black and three blue pixels. */
  const FOUR_PIXELS := Image([0, 0, 0, 0], [0, 0, 0, 0], [0, 8, 8, 8])

  lemma FourPixels(hist: seq<int>)
    requires Histogram(FOUR_PIXELS, hist, 4)
    ensures |hist| == COLOR_ARRAY_SIZE && hist[0] == 1 && hist[1] == 3
  {
    var s := Samples(FOUR_PIXELS, 4);
    FourSamples();
    hide Samples;
    OneAndThree(s);
    var black: Colour, blue: Colour := 0, 1;
    var all: multiset<Colour> := multiset(s);
    assert hist[black] == all[black] && hist[blue] == all[blue];
  }

  lemma FourSamples()
    ensures FOUR_PIXELS.Valid() && |FOUR_PIXELS.red| == 4
    ensures var s := Samples(FOUR_PIXELS, 4); s[0] == 0 && s[1] == s[2] == s[3] == 1
  {
    hide IndexOf;
    BlackAndBlue();
  }

  lemma BlackAndBlue()
    ensures IndexOf(0, 0, 0) == 0 && IndexOf(0, 0, 8) == 1
  {
    hide Channel;
  }

  lemma OneAndThree(s: seq<Colour>)
    requires |s| == 4 && s[0] == 0 && s[1] == s[2] == s[3] == 1
    ensures multiset(s)[0] == 1 && multiset(s)[1] == 3
  {
    assert s == [s[0]] + [s[1]] + [s[2]] + [s[3]];
  }

  /** However it is cut into two boxes, the counts come out wrong. */
  lemma WrongCounts(hist: seq<int>, cuts: seq<Cut>, stages: seq<seq<Box>>, bs: seq<Box>)
    requires Histogram(FOUR_PIXELS, hist, 4) && Run([Whole([0, 1], 4)], cuts, stages, hist, bs) && |bs| == 2
    ensures !CountsRight(bs, hist)
  {
    hide Histogram, Samples, SplitOf, RightCount;
    FourPixels(hist);
    StageSize([Whole([0, 1], 4)], cuts, stages, hist, bs, |cuts|);
    assert Step(stages[0], cuts[0], hist, stages[1]);
    CountOfTheOtherHalf(hist, cuts[0].first, cuts[0].second, cuts[0].axis);
    assert bs[0] == cuts[0].first;
  }

  lemma SomeColour(image: Image, hist: seq<int>)
    requires image.Valid() && Histogram(image, hist, |image.red|)
    ensures exists c: Colour :: hist[c] > 0
  {
    hide IndexOf;
    var s := Samples(image, |image.red|);
    assert s[0] in multiset(s);
    assert hist[s[0]] > 0;
  }

  lemma ChainIsDistinct(image: Image, hist: seq<int>, chain: seq<Colour>)
    requires image.Valid() && Histogram(image, hist, |image.red|) && Ascending(chain) && Chained(hist, chain)
    ensures Distinct(image) == Members(chain) && |Distinct(image)| == |chain|
  {
    hide IndexOf, Samples;
    var s := Samples(image, |image.red|);
    forall c: Colour
      ensures c in s <==> c in chain
    {
      assert c in s <==> c in multiset(s);
    }
    AscendingSize(chain);
  }

  /** Each pixel is mapped to an entry whose box has its sampled colour. */
  ghost predicate InItsBox(image: Image, bs: seq<Box>, output: seq<nat>)
  {
    && image.Valid() && |output| == |image.red|
    && forall i :: 0 <= i < |output| ==> output[i] < |bs| && image.Sampled(i) in bs[output[i]].colours
  }

  /** Each pixel is off by no more than the width of its box and the bits that sampling drops. */
  ghost predicate WithinWidths(image: Image, bs: seq<Box>, output: seq<nat>, outputMap: seq<RGB>)
    requires InItsBox(image, bs, output) && |bs| <= |outputMap|
  {
    forall i, axis :: 0 <= i < |output| && 0 <= axis < 3 ==>
      var width := bs[output[i]].width.Of(axis);
      -(width + 7) <= outputMap[output[i]].Of(axis) - image.At(i, axis) <= width + 7
  }

  /** Each pixel comes out as it went in, with the low three bits of each channel cleared. */
  ghost predicate LowBitsCleared(image: Image, bs: seq<Box>, output: seq<nat>, outputMap: seq<RGB>)
    requires InItsBox(image, bs, output) && |bs| <= |outputMap|
  {
    forall i, axis :: 0 <= i < |output| && 0 <= axis < 3 ==>
      outputMap[output[i]].Of(axis) == image.At(i, axis) - image.At(i, axis) % 8
  }

  /** The boxes have no colour in common, and every colour of the image is in one. */
  ghost predicate Divides(bs: seq<Box>, colours: set<Colour>)
  {
    && (forall i :: 0 <= i < |bs| ==> Good(bs[i]))
    && (forall c :: c in colours <==> exists i :: 0 <= i < |bs| && c in bs[i].colours)
    && (forall i, k, c :: 0 <= i < |bs| && 0 <= k < |bs| && c in bs[i].colours && c in bs[k].colours ==> i == k)
  }

  lemma PartitionDivides(bs: seq<Box>, all: seq<Colour>)
    requires Partition(bs, all) && Ascending(all)
    ensures Divides(bs, Members(all))
  {
    hide Good, Ascending, Pool;
    forall c: Colour
      ensures c in all <==> exists i :: 0 <= i < |bs| && c in bs[i].colours
    {
      InPool(bs, c);
      assert c in all <==> c in multiset(all);
    }
    forall i, k, c | 0 <= i < |bs| && 0 <= k < |bs| && c in bs[i].colours && c in bs[k].colours
      ensures i == k
    {
      Disjoint(bs, all, i, k, c);
    }
  }

  lemma PixelsInBoxes(image: Image, bs: seq<Box>, newIndex: seq<nat>, output: seq<nat>)
    requires image.Valid() && Divides(bs, Distinct(image)) && |newIndex| == COLOR_ARRAY_SIZE
    requires Noted(bs, newIndex, |bs|) && |output| == |image.red|
    requires forall i :: 0 <= i < |output| ==> output[i] == newIndex[image.Sampled(i)]
    ensures InItsBox(image, bs, output)
  {
    hide IndexOf, Good;
    var s := Samples(image, |image.red|);
    forall i | 0 <= i < |output|
      ensures output[i] < |bs| && image.Sampled(i) in bs[output[i]].colours
    {
      assert s[i] in Distinct(image);
    }
  }

  lemma PixelErrors(image: Image, bs: seq<Box>, output: seq<nat>, outputMap: seq<RGB>)
    requires InItsBox(image, bs, output) && |bs| <= |outputMap|
    requires forall i :: 0 <= i < |bs| ==> Good(bs[i])
    requires forall i :: 0 <= i < |bs| ==> outputMap[i] == Average(bs[i].colours)
    ensures WithinWidths(image, bs, output, outputMap)
    ensures (forall i :: 0 <= i < |bs| ==> bs[i].numEntries <= 1) ==> LowBitsCleared(image, bs, output, outputMap)
  {
    hide IndexOf, Average, Triple.Of, RGB.Of, Bounded;
    forall i, axis | 0 <= i < |output| && 0 <= axis < 3
      ensures var width, out, x := bs[output[i]].width.Of(axis), outputMap[output[i]].Of(axis), image.At(i, axis);
              -(width + 7) <= out - x <= width + 7 && (bs[output[i]].numEntries <= 1 ==> out == x - x % 8)
    {
      PixelError(image, i, bs[output[i]], axis);
    }
  }

  /** Quantises an image into a map of at most `colorMapSize` colours: into as many as asked
      for, or as many as there are. */
  method QuantizeBuffer(image: Image, colorMapSize: nat, output: array<nat>, outputMap: array<RGB>)
    returns (newSize: nat, ghost bs: seq<Box>, ghost hist: seq<int>, ghost cuts: seq<Cut>, ghost stages: seq<seq<Box>>)
    requires image.Valid() && 0 < colorMapSize <= 256
    requires output.Length == |image.red| && outputMap.Length >= colorMapSize
    modifies output, outputMap
    ensures newSize == |bs| == if |Distinct(image)| < colorMapSize then |Distinct(image)| else colorMapSize
    ensures Distinct(image) == set i | 0 <= i < |image.red| :: IndexOf(image.red[i], image.green[i], image.blue[i])
    ensures Divides(bs, Distinct(image))
    ensures TotalCount(bs) == |image.red|
    ensures Histogram(image, hist, |image.red|) && |stages| > 0 && Run(stages[0], cuts, stages, hist, bs)
    ensures exists chain ::
              && Ascending(chain) && Members(chain) == Distinct(image)
              && stages[0] == [Box(Triple(0, 0, 0), Triple(255, 255, 255), |chain|, |image.red|, chain)]
    ensures |stages| == |cuts| + 1 && forall k :: 0 <= k < |cuts| ==>
              cuts[k].index < |stages[k]| && CutInHalf(stages[k][cuts[k].index], cuts[k], hist)
    ensures CountsRight(bs, hist) <==> EvenCuts(cuts, hist, |cuts|)
    ensures InItsBox(image, bs, output[..])
    ensures forall i :: 0 <= i < |image.red| ==>
              && output[i] < newSize
              && Near(outputMap[output[i]].red, image.red[i], bs[output[i]].width.red)
              && Near(outputMap[output[i]].green, image.green[i], bs[output[i]].width.green)
              && Near(outputMap[output[i]].blue, image.blue[i], bs[output[i]].width.blue)
              && (|Distinct(image)| <= colorMapSize ==>
                    && outputMap[output[i]].red == image.red[i] - image.red[i] % 8
                    && outputMap[output[i]].green == image.green[i] - image.green[i] % 8
                    && outputMap[output[i]].blue == image.blue[i] - image.blue[i] % 8)
    ensures forall i :: 0 <= i < newSize ==> outputMap[i] == Average(bs[i].colours)
    ensures forall i :: newSize <= i < colorMapSize ==> outputMap[i] == RGB(0, 0, 0)
  {
    hide *;
    ImageSizes(image);
    newSize, bs, hist, cuts, stages := Quantise(image, colorMapSize, output, outputMap);
    ghost var chain :| && Ascending(chain) && Members(chain) == Distinct(image)
                       && stages[0] == [Whole(chain, |image.red|)];
    FirstBox(chain, |image.red|);
    DistinctColours(image);
    CutsInHalf(image, hist, chain, cuts, stages, bs);
    forall i | 0 <= i < |image.red|
      ensures output[i] < newSize
      ensures Near(outputMap[output[i]].red, image.red[i], bs[output[i]].width.red)
      ensures Near(outputMap[output[i]].green, image.green[i], bs[output[i]].width.green)
      ensures Near(outputMap[output[i]].blue, image.blue[i], bs[output[i]].width.blue)
      ensures |Distinct(image)| <= colorMapSize ==>
                && outputMap[output[i]].red == image.red[i] - image.red[i] % 8
                && outputMap[output[i]].green == image.green[i] - image.green[i] % 8
                && outputMap[output[i]].blue == image.blue[i] - image.blue[i] % 8
    {
      PixelFields(image, bs, output[..], outputMap[..], i);
      assert output[..][i] == output[i] && outputMap[..][output[i]] == outputMap[output[i]];
    }
  }

  /** The number in the histogram is that of the pixels with the colour. */
  lemma HistogramLaw(image: Image, n: nat, c: Colour)
    requires image.Valid() && n <= |image.red|
    ensures multiset(Samples(image, n))[c]
            == |set i | 0 <= i < n && IndexOf(image.red[i], image.green[i], image.blue[i]) == c|
  {
    hide IndexOf;
    var s := Samples(image, n);
    OccurrencesCount(s, c);
    assert forall i :: 0 <= i < n ==> s[i] == IndexOf(image.red[i], image.green[i], image.blue[i]);
    assert (set i | 0 <= i < |s| && s[i] == c)
        == set i | 0 <= i < n && IndexOf(image.red[i], image.green[i], image.blue[i]) == c;
  }

  lemma {:induction false} OccurrencesCount(s: seq<Colour>, c: Colour)
    ensures multiset(s)[c] == |set i | 0 <= i < |s| && s[i] == c|
  {
    var places := set i | 0 <= i < |s| && s[i] == c;
    if s == [] {
      assert places == {};
    } else {
      var n := |s| - 1;
      var before := set i | 0 <= i < |s[..n]| && s[..n][i] == c;
      OccurrencesCount(s[..n], c);
      assert s == s[..n] + [s[n]];
      assert places == if s[n] == c then before + {n} else before;
    }
  }

  /** A map entry is the average of its colours, rounded down to a whole number. */
  lemma AverageLaw(s: seq<Colour>) returns (reds: seq<nat>, greens: seq<nat>, blues: seq<nat>)
    requires s != []
    ensures |reds| == |greens| == |blues| == |s| + 1 && reds[0] == greens[0] == blues[0] == 0
    ensures forall k :: 0 <= k < |s| ==>
              && reds[k + 1] == reds[k] + s[k] / 1024
              && greens[k + 1] == greens[k] + s[k] / 32 % 32
              && blues[k + 1] == blues[k] + s[k] % 32
    ensures |s| * Average(s).red <= 8 * reds[|s|] < |s| * Average(s).red + |s|
    ensures |s| * Average(s).green <= 8 * greens[|s|] < |s| * Average(s).green + |s|
    ensures |s| * Average(s).blue <= 8 * blues[|s|] < |s| * Average(s).blue + |s|
  {
    reds := seq(|s| + 1, k requires 0 <= k <= |s| => ChannelSum(s[..k], 0));
    greens := seq(|s| + 1, k requires 0 <= k <= |s| => ChannelSum(s[..k], 1));
    blues := seq(|s| + 1, k requires 0 <= k <= |s| => ChannelSum(s[..k], 2));
    assert s[..|s|] == s;
    forall k | 0 <= k < |s|
      ensures reds[k + 1] == reds[k] + s[k] / 1024
      ensures greens[k + 1] == greens[k] + s[k] / 32 % 32
      ensures blues[k + 1] == blues[k] + s[k] % 32
    {
      assert s[..k + 1][..k] == s[..k];
    }
    AverageOf(s);
    hide ChannelSum, Average;
    Division(8 * reds[|s|], |s|);
    Division(8 * greens[|s|], |s|);
    Division(8 * blues[|s|], |s|);
  }

  lemma AverageOf(s: seq<Colour>)
    requires s != []
    ensures Average(s).red == 8 * ChannelSum(s, 0) / |s|
    ensures Average(s).green == 8 * ChannelSum(s, 1) / |s|
    ensures Average(s).blue == 8 * ChannelSum(s, 2) / |s|
  {
    MeanBounds(s, 0, 0, 248);
    MeanBounds(s, 1, 0, 248);
    MeanBounds(s, 2, 0, 248);
  }

  /** A cut takes the longest start of the sorted colours that has at most half of the count of the
      box, but at least one colour and not all of them. */
  ghost predicate CutInHalf(b: Box, cut: Cut, hist: seq<int>)
    requires |hist| == COLOR_ARRAY_SIZE
  {
    var s, n := cut.first.colours + cut.second.colours, |cut.first.colours|;
    && 0 < n < |s| && multiset(s) == multiset(b.colours)
    && exists sums: seq<int> ::
         && |sums| == |s| + 1 && sums[0] == 0 && (forall k :: 0 <= k < |s| ==> sums[k + 1] == sums[k] + hist[s[k]])
         && (forall k :: 1 < k <= n ==> 2 * sums[k] <= b.count)
         && (n + 1 < |s| ==> 2 * sums[n + 1] > b.count)
  }

  predicate Near(x: int, y: int, width: int) {
    -(width + 7) <= x - y <= width + 7
  }

  lemma ImageSizes(image: Image)
    requires image.Valid()
    ensures |image.red| == |image.green| == |image.blue|
  {}

  lemma FirstBox(chain: seq<Colour>, pixels: nat)
    ensures Whole(chain, pixels) == Box(Triple(0, 0, 0), Triple(255, 255, 255), |chain|, pixels, chain)
  {}

  lemma CutsInHalf(image: Image, hist: seq<int>, chain: seq<Colour>, cuts: seq<Cut>, stages: seq<seq<Box>>,
                   bs: seq<Box>)
    requires image.Valid() && Histogram(image, hist, |image.red|) && Members(chain) == Distinct(image)
    requires Run([Whole(chain, |image.red|)], cuts, stages, hist, bs)
    ensures |hist| == COLOR_ARRAY_SIZE
    ensures |stages| == |cuts| + 1 && forall k :: 0 <= k < |cuts| ==>
              cuts[k].index < |stages[k]| && CutInHalf(stages[k][cuts[k].index], cuts[k], hist)
  {
    hide Step, SplitOf, CutInHalf, IndexOf, Samples;
    forall c | c in chain
      ensures hist[c] > 0
    {
      assert c in Members(chain);
      assert c in multiset(Samples(image, |image.red|));
    }
    forall k | 0 <= k < |cuts|
      ensures cuts[k].index < |stages[k]| && CutInHalf(stages[k][cuts[k].index], cuts[k], hist)
    {
      RunStep([Whole(chain, |image.red|)], cuts, stages, hist, bs, k);
      OneCutInHalf(stages[k][cuts[k].index], cuts[k], hist);
    }
  }

  lemma OneCutInHalf(b: Box, cut: Cut, hist: seq<int>)
    requires |hist| == COLOR_ARRAY_SIZE && SplitOf(b, cut.first, cut.second, cut.axis, hist)
    requires forall c :: c in b.colours ==> hist[c] > 0
    ensures CutInHalf(b, cut, hist)
  {
    hide SplitOf;
    var sums := MedianLaw(b, cut.first, cut.second, cut.axis, hist);
  }

  lemma DistinctColours(image: Image)
    requires image.Valid()
    ensures Distinct(image) == set i | 0 <= i < |image.red| :: IndexOf(image.red[i], image.green[i], image.blue[i])
  {
    hide IndexOf;
    var s := Samples(image, |image.red|);
    var sampled: set<Colour> :=
      set i | 0 <= i < |image.red| :: IndexOf(image.red[i], image.green[i], image.blue[i]);
    forall c: Colour | c in sampled
      ensures c in Distinct(image)
    {
      var i :| 0 <= i < |image.red| && c == IndexOf(image.red[i], image.green[i], image.blue[i]);
      assert s[i] == c;
    }
    forall c: Colour | c in Distinct(image)
      ensures c in sampled
    {
      var i :| 0 <= i < |s| && s[i] == c;
      assert c == IndexOf(image.red[i], image.green[i], image.blue[i]);
    }
  }

  /** Each pixel's error and outcome, channel by channel. */
  lemma PixelFields(image: Image, bs: seq<Box>, output: seq<nat>, outputMap: seq<RGB>, i: nat)
    requires InItsBox(image, bs, output) && |bs| <= |outputMap| && i < |image.red|
    requires WithinWidths(image, bs, output, outputMap)
    ensures |output| == |image.red| == |image.green| == |image.blue| && output[i] < |bs|
    ensures Near(outputMap[output[i]].red, image.red[i], bs[output[i]].width.red)
    ensures Near(outputMap[output[i]].green, image.green[i], bs[output[i]].width.green)
    ensures Near(outputMap[output[i]].blue, image.blue[i], bs[output[i]].width.blue)
    ensures LowBitsCleared(image, bs, output, outputMap) ==>
              && outputMap[output[i]].red == image.red[i] - image.red[i] % 8
              && outputMap[output[i]].green == image.green[i] - image.green[i] % 8
              && outputMap[output[i]].blue == image.blue[i] - image.blue[i] % 8
  {
    var m, w := outputMap[output[i]], bs[output[i]].width;
    assert m.Of(0) == m.red && m.Of(1) == m.green && m.Of(2) == m.blue;
    assert w.Of(0) == w.red && w.Of(1) == w.green && w.Of(2) == w.blue;
    assert image.At(i, 0) == image.red[i] && image.At(i, 1) == image.green[i] && image.At(i, 2) == image.blue[i];
  }

  /** The same, by predicates on the boxes. */
  method Quantise(image: Image, colorMapSize: nat, output: array<nat>, outputMap: array<RGB>)
    returns (newSize: nat, ghost bs: seq<Box>, ghost hist: seq<int>, ghost cuts: seq<Cut>, ghost stages: seq<seq<Box>>)
    requires image.Valid() && 0 < colorMapSize <= 256
    requires output.Length == |image.red| && outputMap.Length >= colorMapSize
    modifies output, outputMap
    ensures newSize == |bs| == if |Distinct(image)| < colorMapSize then |Distinct(image)| else colorMapSize
    ensures Divides(bs, Distinct(image))
    ensures TotalCount(bs) == |image.red|
    ensures Histogram(image, hist, |image.red|) && |stages| > 0 && Run(stages[0], cuts, stages, hist, bs)
    ensures exists chain ::
              Ascending(chain) && Members(chain) == Distinct(image) && stages[0] == [Whole(chain, |image.red|)]
    ensures CountsRight(bs, hist) <==> EvenCuts(cuts, hist, |cuts|)
    ensures InItsBox(image, bs, output[..])
    ensures WithinWidths(image, bs, output[..], outputMap[..])
    ensures |Distinct(image)| <= colorMapSize ==> LowBitsCleared(image, bs, output[..], outputMap[..])
    ensures forall i :: 0 <= i < newSize ==> outputMap[i] == Average(bs[i].colours)
    ensures forall i :: newSize <= i < colorMapSize ==> outputMap[i] == RGB(0, 0, 0)
  {
    hide IndexOf, Samples, Members, Histogram, Chained, Ascending, Distinct, Good, Pool, TotalCount, Partition;
    hide Average, Noted, Divides, InItsBox, WithinWidths, LowBitsCleared, Image.Valid, Run, Chain, Lists;
    hide CountsRight, EvenCuts;
    var counts := Sample(image);
    hist := counts[..];
    SomeColour(image, hist);
    var pnext := new int[COLOR_ARRAY_SIZE];
    var chain := ChainColours(counts, pnext);
    ChainIsDistinct(image, hist, chain);
    var boxes := new Box[256](_ => Whole([], 0));
    boxes[0] := Whole(chain, |image.red|);
    assert boxes[..1] == [Whole(chain, |image.red|)];
    WholeIsPartition(chain, |image.red|);
    WholeIsList(pnext[..], chain, |image.red|);
    newSize, cuts, stages := SubdivColorMap(boxes, colorMapSize, counts[..], pnext, chain);
    FinalCounts(image, hist, chain, cuts, stages, boxes[..newSize]);
    bs := boxes[..newSize];
    PartitionDivides(bs, chain);
    AllGood(boxes, newSize, chain);
    SizesOf(bs, chain);
    ClearRest(outputMap, newSize, colorMapSize);
    var newIndex := new nat[COLOR_ARRAY_SIZE](_ => 0);
    FillMap(boxes, newSize, pnext, newIndex, outputMap);
    MapPixels(image, newIndex, output);
    PixelsInBoxes(image, bs, newIndex[..], output[..]);
    PixelErrors(image, bs, output[..], outputMap[..]);
  }

  /** The four pixels, quantised to two colours: the counts of the boxes are not the numbers of
      their pixels. */
  method QuantizeFourPixels() returns (newSize: nat, ghost bs: seq<Box>, ghost hist: seq<int>)
    ensures newSize == |bs| == 2 && Histogram(FOUR_PIXELS, hist, 4) && Divides(bs, Distinct(FOUR_PIXELS))
    ensures !CountsRight(bs, hist)
  {
    hide *;
    FourSamples();
    FourColours();
    var output, outputMap := new nat[4], new RGB[2](_ => RGB(0, 0, 0));
    ghost var cuts, stages;
    newSize, bs, hist, cuts, stages := QuantizeBuffer(FOUR_PIXELS, 2, output, outputMap);
    ghost var chain :| && Ascending(chain) && Members(chain) == Distinct(FOUR_PIXELS)
                       && stages[0] == [Box(Triple(0, 0, 0), Triple(255, 255, 255), |chain|, 4, chain)];
    FirstBox(chain, 4);
    ChainOfTwo(chain);
    WrongCounts(hist, cuts, stages, bs);
  }

  lemma FourColours()
    ensures Distinct(FOUR_PIXELS) == {0, 1} && |Distinct(FOUR_PIXELS)| == 2
  {
    hide Samples;
    FourSamples();
    var s := Samples(FOUR_PIXELS, 4);
    assert s == [s[0]] + [s[1]] + [s[2]] + [s[3]];
    assert Distinct(FOUR_PIXELS) == {0, 1};
  }

  lemma ChainOfTwo(chain: seq<Colour>)
    requires Ascending(chain) && Members(chain) == {0, 1}
    ensures chain == [0, 1]
  {
    AscendingSize(chain);
    assert chain[0] in Members(chain) && chain[1] in Members(chain);
  }

  lemma AllGood(boxes: array<Box>, size: nat, all: seq<Colour>)
    requires size <= boxes.Length && Partition(boxes[..size], all)
    ensures forall i :: 0 <= i < size ==> Good(boxes[i])
    ensures forall i :: 0 <= i < size ==> boxes[..size][i] == boxes[i]
  {
    hide Good, Pool;
    forall i | 0 <= i < size
      ensures Good(boxes[i])
    {
      assert Good(boxes[..size][i]);
    }
  }

  method ClearRest(outputMap: array<RGB>, newSize: nat, colorMapSize: nat)
    requires newSize <= colorMapSize <= outputMap.Length
    modifies outputMap
    ensures forall i :: newSize <= i < colorMapSize ==> outputMap[i] == RGB(0, 0, 0)
  {
    for i := newSize to colorMapSize
      invariant forall k :: newSize <= k < i ==> outputMap[k] == RGB(0, 0, 0)
    {
      outputMap[i] := RGB(0, 0, 0);
    }
  }
}
