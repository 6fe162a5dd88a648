/** Median-cut quantisation: the colours of an image, cut to five bits a channel, are divided
    into boxes, and each box becomes one entry of the colour map. */
module MedianCut {
  import opened ColorLists
  import opened Common

  function Channel(c: Colour, axis: nat): (x: nat)
    requires axis < 3
    ensures x < 32
  {
    if axis == 0 then c / 1024 else if axis == 1 then c / 32 % 32 else c % 32
  }

  function IndexOf(red: byte, green: byte, blue: byte): (c: Colour)
    ensures Channel(c, 0) == red / 8 && Channel(c, 1) == green / 8 && Channel(c, 2) == blue / 8
  {
    Pack(red / 8, green / 8, blue / 8)
  }

  /** The index of a sampled colour, as a number. */
  lemma IndexIs(red: byte, green: byte, blue: byte)
    ensures var r: nat, g: nat, b: nat := red / 8, green / 8, blue / 8;
            IndexOf(red, green, blue) == 1024 * r + 32 * g + b
  {
    hide Channel;
  }

  function Pack(r: nat, g: nat, b: nat): (c: Colour)
    requires r < 32 && g < 32 && b < 32
    ensures Channel(c, 0) == r && Channel(c, 1) == g && Channel(c, 2) == b
  {
    var c := 1024 * r + 32 * g + b;
    assert c / 32 == 32 * r + g;
    assert (32 * r + g) % 32 == g;
    c
  }

  /** A stored byte keeps the low eight bits. */
  function ToByte(x: int): nat
  {
    x % 256
  }

  /** One value for each of red, green and blue. */
  datatype Triple = Triple(red: nat, green: nat, blue: nat) {
    function Of(axis: nat): nat
    {
      if axis == 0 then red else if axis == 1 then green else blue
    }

    function With(axis: nat, x: nat): (t: Triple)
      requires axis < 3
      ensures t.Of(axis) == x
      ensures forall j :: 0 <= j < 3 && j != axis ==> t.Of(j) == Of(j)
    {
      if axis == 0 then this.(red := x) else if axis == 1 then this.(green := x) else this.(blue := x)
    }
  }

  /** An entry of the map under construction: the colours it takes in, and bounds for each
      channel. */
  datatype Box = Box(min: Triple, width: Triple, numEntries: nat, count: int, colours: seq<Colour>)

  /** The colour lies between the bounds once it is scaled back to eight bits. */
  predicate Bounded(b: Box, c: Colour)
  {
    forall j :: 0 <= j < 3 ==> b.min.Of(j) <= 8 * Channel(c, j) <= b.min.Of(j) + b.width.Of(j)
  }

  predicate Good(b: Box)
  {
    && (forall j :: 0 <= j < 3 ==> b.min.Of(j) + b.width.Of(j) <= 255)
    && b.numEntries == |b.colours| > 0
    && (forall c :: c in b.colours ==> Bounded(b, c))
  }

  /** The first box takes in every colour. */
  function Whole(colours: seq<Colour>, pixels: nat): Box
  {
    Box(Triple(0, 0, 0), Triple(255, 255, 255), |colours|, pixels, colours)
  }

  // ----- sums over boxes

  ghost function Pool(bs: seq<Box>): multiset<Colour>
  {
    if bs == [] then multiset{} else Pool(bs[..|bs| - 1]) + multiset(bs[|bs| - 1].colours)
  }

  ghost function TotalCount(bs: seq<Box>): int
  {
    if bs == [] then 0 else TotalCount(bs[..|bs| - 1]) + bs[|bs| - 1].count
  }

  /** The boxes hold the colours `all`, each as often as it is there. */
  ghost predicate Partition(bs: seq<Box>, all: seq<Colour>)
  {
    && (forall i :: 0 <= i < |bs| ==> Good(bs[i]))
    && Pool(bs) == multiset(all)
  }

  lemma {:induction false} PoolUpdate(bs: seq<Box>, i: nat, b: Box)
    requires i < |bs|
    ensures Pool(bs[i := b]) + multiset(bs[i].colours) == Pool(bs) + multiset(b.colours)
    ensures TotalCount(bs[i := b]) + bs[i].count == TotalCount(bs) + b.count
  {
    var n := |bs| - 1;
    if i < n {
      var front, last := bs[..n], multiset(bs[n].colours);
      PoolUpdate(front, i, b);
      assert bs[i := b][..n] == front[i := b];
      calc {
        Pool(bs[i := b]) + multiset(bs[i].colours);
        (Pool(front[i := b]) + multiset(front[i].colours)) + last;
        (Pool(front) + multiset(b.colours)) + last;
        Pool(bs) + multiset(b.colours);
      }
    } else {
      assert bs[i := b][..n] == bs[..n];
    }
  }

  /** Replacing a box by its two halves keeps the pool and the total. */
  lemma PoolSplit(bs: seq<Box>, i: nat, first: Box, second: Box)
    requires i < |bs|
    requires multiset(first.colours) + multiset(second.colours) == multiset(bs[i].colours)
    requires first.count + second.count == bs[i].count
    ensures Pool(bs[i := first] + [second]) == Pool(bs)
    ensures TotalCount(bs[i := first] + [second]) == TotalCount(bs)
  {
    var bs' := bs[i := first] + [second];
    PoolUpdate(bs, i, first);
    assert bs'[..|bs|] == bs[i := first];
    calc {
      Pool(bs');
      Pool(bs[i := first]) + multiset(second.colours);
      Pool(bs) + multiset(first.colours) - multiset(bs[i].colours) + multiset(second.colours);
      Pool(bs);
    }
  }

  lemma {:induction false} InPool(bs: seq<Box>, c: Colour)
    ensures c in Pool(bs) <==> exists i :: 0 <= i < |bs| && c in bs[i].colours
  {
    if bs == [] {
    } else {
      InPool(bs[..|bs| - 1], c);
      assert c in multiset(bs[|bs| - 1].colours) <==> c in bs[|bs| - 1].colours;
    }
  }

  /** How often two boxes hold a colour, the pool holds it. */
  lemma {:induction false} PoolOfTwo(bs: seq<Box>, i: nat, k: nat, c: Colour)
    requires i < k < |bs|
    ensures Pool(bs)[c] >= multiset(bs[i].colours)[c] + multiset(bs[k].colours)[c]
  {
    var n := |bs| - 1;
    assert Pool(bs)[c] == Pool(bs[..n])[c] + multiset(bs[n].colours)[c];
    hide Pool;
    if k < n {
      PoolOfTwo(bs[..n], i, k, c);
    } else {
      PoolOfOne(bs[..n], i, c);
    }
  }

  lemma {:induction false} PoolOfOne(bs: seq<Box>, i: nat, c: Colour)
    requires i < |bs|
    ensures Pool(bs)[c] >= multiset(bs[i].colours)[c]
  {
    if i == |bs| - 1 {
    } else {
      PoolOfOne(bs[..|bs| - 1], i, c);
    }
  }

  /** If no colour is there twice, no two boxes share one. */
  lemma Disjoint(bs: seq<Box>, all: seq<Colour>, i: nat, k: nat, c: Colour)
    requires Partition(bs, all) && Ascending(all) && i < |bs| && k < |bs|
    requires c in bs[i].colours && c in bs[k].colours
    ensures i == k
  {
    if i != k {
      assert multiset(bs[i].colours)[c] > 0 && multiset(bs[k].colours)[c] > 0;
      PoolOfTwo(bs, if i < k then i else k, if i < k then k else i, c);
      AscendingOnce(all, c);
    }
  }

  predicate Ascending(s: seq<Colour>)
  {
    forall i, k :: 0 <= i < k < |s| ==> s[i] < s[k]
  }

  lemma {:induction false} AscendingOnce(s: seq<Colour>, c: Colour)
    requires Ascending(s)
    ensures multiset(s)[c] <= 1
  {
    if s == [] {
    } else {
      var n := |s| - 1;
      AscendingOnce(s[..n], c);
      assert s == s[..n] + [s[n]];
      if c == s[n] {
        assert c !in s[..n];
      }
    }
  }

  /** No box is empty, so there are no more boxes than colours; and if there are as many, each
      box holds just one. */
  lemma {:induction false} PoolSize(bs: seq<Box>)
    requires forall i :: 0 <= i < |bs| ==> |bs[i].colours| > 0
    ensures |bs| <= |Pool(bs)|
    ensures |bs| == |Pool(bs)| <==> forall i :: 0 <= i < |bs| ==> |bs[i].colours| == 1
  {
    if bs == [] {
    } else {
      var n := |bs| - 1;
      assert forall i :: 0 <= i < n ==> bs[..n][i] == bs[i];
      PoolSize(bs[..n]);
      assert |Pool(bs)| == |Pool(bs[..n])| + |bs[n].colours|;
      hide Pool;
    }
  }

  // ----- one split

  predicate SortedAlong(s: seq<Colour>, axis: nat)
    requires axis < 3
  {
    forall i, k :: 0 <= i < k < |s| ==> Channel(s[i], axis) <= Channel(s[k], axis)
  }

  /** The library's sort, of which callers only use that it sorts. */
  method Sort(s: seq<Colour>, axis: nat) returns (r: seq<Colour>)
    requires axis < 3
    ensures multiset(r) == multiset(s) && |r| == |s| && SortedAlong(r, axis)
  {
    hide Channel, Put;
    r := [];
    for n := 0 to |s|
      invariant multiset(r) == multiset(s[..n]) && |r| == n && SortedAlong(r, axis)
    {
      var k := n;
      while k > 0 && Channel(r[k - 1], axis) > Channel(s[n], axis)
        invariant k <= n
        invariant k < n ==> Channel(r[k], axis) > Channel(s[n], axis)
      {
        k := k - 1;
      }
      PutSorted(r, k, s[n], axis);
      PutSame(r, k, s[n]);
      assert s[..n + 1] == s[..n] + [s[n]];
      r := Put(r, k, s[n]);
    }
    assert s[..|s|] == s;
  }

  function Put(r: seq<Colour>, k: nat, c: Colour): (r': seq<Colour>)
    requires k <= |r|
    ensures |r'| == |r| + 1
    ensures forall i :: 0 <= i < |r'| ==> r'[i] == if i < k then r[i] else if i == k then c else r[i - 1]
  {
    r[..k] + [c] + r[k..]
  }

  lemma PutSorted(r: seq<Colour>, k: nat, c: Colour, axis: nat)
    requires axis < 3 && k <= |r| && SortedAlong(r, axis)
    requires k > 0 ==> Channel(r[k - 1], axis) <= Channel(c, axis)
    requires k < |r| ==> Channel(r[k], axis) > Channel(c, axis)
    ensures SortedAlong(Put(r, k, c), axis)
  {
    hide Channel, Put;
    var r' := Put(r, k, c);
    forall i, m | 0 <= i < m < |r'|
      ensures Channel(r'[i], axis) <= Channel(r'[m], axis)
    {
      assert r'[i] == if i < k then r[i] else if i == k then c else r[i - 1];
      assert r'[m] == if m < k then r[m] else if m == k then c else r[m - 1];
      assert i < k <= m ==> Channel(r[i], axis) <= Channel(r[k - 1], axis);
      assert i <= k < m ==> Channel(r[k], axis) <= Channel(r[m - 1], axis);
    }
  }

  lemma PutSame(r: seq<Colour>, k: nat, c: Colour)
    requires k <= |r|
    ensures multiset(Put(r, k, c)) == multiset(r) + multiset([c])
  {
    assert multiset(r[..k]) + multiset(r[k..]) == multiset(r) by {
      assert r == r[..k] + r[k..];
    }
  }

  ghost function PrefixCount(s: seq<Colour>, hist: seq<int>, n: nat): int
    requires n <= |s| && |hist| == COLOR_ARRAY_SIZE
  {
    if n == 0 then 0 else PrefixCount(s, hist, n - 1) + hist[s[n - 1]]
  }

  /** Half of a count, rounded towards zero. */
  function Half(count: int): int
  {
    if count >= 0 then count / 2 else -(-count / 2)
  }

  /** The first `n` colours are as many as have no more than half of the count between them,
      except that each half gets at least one colour. */
  ghost predicate MedianAt(s: seq<Colour>, hist: seq<int>, boxCount: int, n: nat)
    requires |hist| == COLOR_ARRAY_SIZE
  {
    && 1 <= n < |s|
    && (forall k :: 1 < k <= n ==> PrefixCount(s, hist, k) <= Half(boxCount))
    && (n + 1 < |s| ==> PrefixCount(s, hist, n + 1) > Half(boxCount))
  }

  /** Walks along the sorted list to the median; `entry` is the last colour of the first half. */
  method MedianOf(pnext: array<int>, head: Colour, hist: seq<int>, boxCount: int, ghost s: seq<Colour>)
    returns (entry: Colour, numEntries: nat, count: int)
    requires Chain(pnext[..], s) && |s| > 1 && head == s[0] && |hist| == COLOR_ARRAY_SIZE
    ensures MedianAt(s, hist, boxCount, numEntries) && count == PrefixCount(s, hist, numEntries)
    ensures entry == s[numEntries - 1]
  {
    hide Half;
    entry, numEntries, count := head, 1, hist[head];
    Next(pnext[..], s, 0);
    var sum := Half(boxCount) - hist[entry];
    sum := sum - hist[pnext[entry]];
    Next(pnext[..], s, 1);
    while sum >= 0 && pnext[entry] != NULL && pnext[pnext[entry]] != NULL
      invariant 1 <= numEntries < |s| && count == PrefixCount(s, hist, numEntries)
      invariant entry == s[numEntries - 1] && pnext[entry] == s[numEntries]
      invariant pnext[pnext[entry]] == Link(s, numEntries)
      invariant sum == Half(boxCount) - PrefixCount(s, hist, numEntries + 1)
      invariant forall n :: 1 < n <= numEntries ==> PrefixCount(s, hist, n) <= Half(boxCount)
      decreases |s| - numEntries
    {
      entry := pnext[entry];
      numEntries := numEntries + 1;
      count := count + hist[entry];
      Next(pnext[..], s, numEntries);
      sum := sum - hist[pnext[entry]];
    }
  }

  /** Where the links lead from place `i` of a list. */
  lemma Next(pnext: seq<int>, s: seq<Colour>, i: nat)
    requires Chain(pnext, s) && i < |s|
    ensures pnext[s[i]] == Link(s, i)
  {}

  /** The halves of a box at the median along an axis, in the order of the channel. The counts
      go to the other half each, and the bounds are narrowed to the colours at the cut. */
  ghost predicate SplitOf(b: Box, first: Box, second: Box, axis: nat, hist: seq<int>)
    requires |hist| == COLOR_ARRAY_SIZE
  {
    var s := first.colours + second.colours;
    && axis < 3 && multiset(s) == multiset(b.colours) && SortedAlong(s, axis)
    && 0 < first.numEntries == |first.colours| && 0 < second.numEntries == |second.colours|
    && MedianAt(s, hist, b.count, first.numEntries)
    && first.count + second.count == b.count && second.count == PrefixCount(first.colours, hist, |first.colours|)
    && (forall j :: 0 <= j < 3 && j != axis ==>
          && first.min.Of(j) == second.min.Of(j) == b.min.Of(j)
          && first.width.Of(j) == second.width.Of(j) == b.width.Of(j))
    && first.min.Of(axis) == b.min.Of(axis)
    && first.min.Of(axis) + first.width.Of(axis) == 8 * Channel(s[|first.colours| - 1], axis)
    && second.min.Of(axis) == 8 * Channel(s[|first.colours|], axis)
    && second.min.Of(axis) + second.width.Of(axis) == b.min.Of(axis) + b.width.Of(axis)
  }

  /** Sorts the list of a box along an axis. */
  method SortList(pnext: array<int>, b: Box, axis: nat) returns (s: seq<Colour>)
    requires Chain(pnext[..], b.colours) && b.numEntries == |b.colours| > 1 && axis < 3
    modifies pnext
    ensures Chain(pnext[..], s) && multiset(s) == multiset(b.colours) && |s| == |b.colours|
    ensures SortedAlong(s, axis)
    ensures forall c: Colour :: c !in b.colours ==> pnext[c] == old(pnext[c])
  {
    hide Channel, SortedAlong;
    var gathered := Gather(pnext, b.colours[0], b.numEntries, b.colours);
    s := Sort(gathered, axis);
    forall i, k | 0 <= i < k < |b.colours|
      ensures b.colours[i] != b.colours[k]
    {
      ChainOnce(pnext[..], b.colours, i, k);
    }
    OnceInAnyOrder(b.colours, s);
    SameColours(s, b.colours);
    Relink(pnext, s);
  }

  lemma SameColours(s: seq<Colour>, t: seq<Colour>)
    requires multiset(s) == multiset(t)
    ensures |s| == |t| && forall c: Colour :: c in s <==> c in t
  {
    assert |multiset(s)| == |multiset(t)|;
    forall c: Colour
      ensures c in s <==> c in t
    {
      assert c in s <==> c in multiset(s);
      assert c in t <==> c in multiset(t);
    }
  }

  /** Splits a box in two along an axis; the stored bytes never wrap around. The links of its
      list are changed so that each half has a list of its own, and no other links are. */
  method Split(b: Box, hist: seq<int>, axis: nat, pnext: array<int>) returns (first: Box, second: Box)
    requires Good(b) && b.numEntries > 1 && axis < 3 && |hist| == COLOR_ARRAY_SIZE
    requires Chain(pnext[..], b.colours)
    modifies pnext
    ensures Good(first) && Good(second) && SplitOf(b, first, second, axis, hist)
    ensures multiset(first.colours) + multiset(second.colours) == multiset(b.colours)
    ensures first.count + second.count == b.count
    ensures first.min.Of(axis) + first.width.Of(axis) <= second.min.Of(axis)
    ensures Chain(pnext[..], first.colours) && Chain(pnext[..], second.colours)
    ensures forall c: Colour :: c !in b.colours ==> pnext[c] == old(pnext[c])
  {
    hide Channel, PrefixCount, Good, Bounded, SortedAlong, Half, Chain, MedianAt, Triple.Of, Triple.With;
    SortedSize(b, b.colours);
    var s := SortList(pnext, b, axis);
    SameColours(s, b.colours);
    var entry, n, count := MedianOf(pnext, s[0], hist, b.count, s);
    AtMedian(pnext[..], s, hist, b.count, n);
    var maxColor, minColor := 8 * Channel(entry, axis), 8 * Channel(pnext[entry], axis);
    var middle := CutAfter(pnext, entry, s, n);
    second := Box(b.min.With(axis, ToByte(minColor)),
                  b.width.With(axis, ToByte(b.min.Of(axis) + b.width.Of(axis) - minColor)),
                  b.numEntries - n, count, s[n..]);
    first := Box(b.min, b.width.With(axis, ToByte(maxColor - b.min.Of(axis))), n, b.count - count, s[..n]);
    PrefixOnly(s, hist, n);
    assert first.colours + second.colours == s;
    SplitBounds(b, s, n, axis);
    HalfIsGood(b, first, axis);
    HalfIsGood(b, second, axis);
  }

  /** Narrowing a box along an axis to the bounds of some of its colours. */
  lemma HalfIsGood(b: Box, half: Box, axis: nat)
    requires Good(b) && axis < 3 && half.numEntries == |half.colours| > 0
    requires forall j :: 0 <= j < 3 && j != axis ==>
               half.min.Of(j) == b.min.Of(j) && half.width.Of(j) == b.width.Of(j)
    requires half.min.Of(axis) + half.width.Of(axis) <= b.min.Of(axis) + b.width.Of(axis)
    requires forall c :: c in half.colours ==>
               && Bounded(b, c)
               && half.min.Of(axis) <= 8 * Channel(c, axis) <= half.min.Of(axis) + half.width.Of(axis)
    ensures Good(half)
  {
    hide Channel, Triple.Of;
  }

  lemma AtMedian(pnext: seq<int>, s: seq<Colour>, hist: seq<int>, boxCount: int, n: nat)
    requires |hist| == COLOR_ARRAY_SIZE && MedianAt(s, hist, boxCount, n) && Chain(pnext, s)
    ensures 0 < n < |s| && |pnext| == COLOR_ARRAY_SIZE && pnext[s[n - 1]] == s[n]
  {
    Next(pnext, s, n - 1);
  }

  lemma SortedSize(b: Box, s: seq<Colour>)
    requires Good(b) && multiset(s) == multiset(b.colours)
    ensures |s| == b.numEntries
  {
    assert |multiset(s)| == |multiset(b.colours)|;
  }

  lemma SplitBounds(b: Box, s: seq<Colour>, n: nat, axis: nat)
    requires Good(b) && axis < 3 && 0 < n < |s| && SortedAlong(s, axis) && multiset(s) == multiset(b.colours)
    ensures multiset(s[..n]) + multiset(s[n..]) == multiset(s)
    ensures var maxColor, minColor := 8 * Channel(s[n - 1], axis), 8 * Channel(s[n], axis);
            var top := b.min.Of(axis) + b.width.Of(axis);
            && b.min.Of(axis) <= maxColor <= minColor <= top <= 255
            && (forall c :: c in s[..n] ==> Bounded(b, c) && b.min.Of(axis) <= 8 * Channel(c, axis) <= maxColor)
            && (forall c :: c in s[n..] ==> Bounded(b, c) && minColor <= 8 * Channel(c, axis) <= top)
  {
    hide Channel, Bounded, Triple.Of;
    var top := b.min.Of(axis) + b.width.Of(axis);
    forall k | 0 <= k < |s|
      ensures Bounded(b, s[k]) && b.min.Of(axis) <= 8 * Channel(s[k], axis) <= top
    {
      assert s[k] in multiset(s);
      BoundedAlong(b, s[k], axis);
    }
    forall c | c in s[..n]
      ensures Bounded(b, c) && b.min.Of(axis) <= 8 * Channel(c, axis) <= 8 * Channel(s[n - 1], axis)
    {
      var k :| 0 <= k < n && s[k] == c;
      assert k == n - 1 || Channel(s[k], axis) <= Channel(s[n - 1], axis);
    }
    forall c | c in s[n..]
      ensures Bounded(b, c) && 8 * Channel(s[n], axis) <= 8 * Channel(c, axis) <= top
    {
      var k :| n <= k < |s| && s[k] == c;
      assert k == n || Channel(s[n], axis) <= Channel(s[k], axis);
    }
    assert s == s[..n] + s[n..];
  }

  lemma BoundedAlong(b: Box, c: Colour, axis: nat)
    requires Good(b) && Bounded(b, c) && axis < 3
    ensures b.min.Of(axis) <= 8 * Channel(c, axis) <= b.min.Of(axis) + b.width.Of(axis) <= 255
  {}

  lemma {:induction false} PrefixOnly(s: seq<Colour>, hist: seq<int>, n: nat)
    requires n <= |s| && |hist| == COLOR_ARRAY_SIZE
    ensures PrefixCount(s[..n], hist, n) == PrefixCount(s, hist, n)
  {
    PrefixUpTo(s, hist, n, n);
  }

  lemma {:induction false} PrefixUpTo(s: seq<Colour>, hist: seq<int>, n: nat, k: nat)
    requires k <= n <= |s| && |hist| == COLOR_ARRAY_SIZE
    ensures PrefixCount(s[..n], hist, k) == PrefixCount(s, hist, k)
  {
    if k == 0 {
    } else {
      PrefixUpTo(s, hist, n, k - 1);
    }
  }

  // ----- subdividing

  /** The first box and axis of the greatest width among the boxes that can be split. */
  method Candidate(boxes: array<Box>, size: nat) returns (found: bool, index: nat, axis: nat)
    requires size <= boxes.Length
    ensures !found ==> forall i :: 0 <= i < size ==> boxes[i].numEntries <= 1
    ensures found ==> Widest(boxes[..size], index, axis)
  {
    var maxSize: int := -1;
    index, axis := 0, 0;
    for i := 0 to size
      invariant WidestSoFar(boxes[..size], i, 0, maxSize, index, axis)
    {
      for j := 0 to 3
        invariant WidestSoFar(boxes[..size], i, j, maxSize, index, axis)
      {
        if boxes[i].width.Of(j) > maxSize && boxes[i].numEntries > 1 {
          maxSize, index, axis := boxes[i].width.Of(j), i, j;
        }
      }
    }
    found := maxSize != -1;
    if !found {
      forall i | 0 <= i < size
        ensures boxes[i].numEntries <= 1
      {
        assert boxes[..size][i].width.Of(0) >= 0;
      }
    }
  }

  /** The box can be split, and no axis of a box that can be is wider, nor any before it as wide. */
  ghost predicate Widest(bs: seq<Box>, index: nat, axis: nat)
  {
    && index < |bs| && axis < 3 && bs[index].numEntries > 1
    && forall i, j :: 0 <= i < |bs| && 0 <= j < 3 && bs[i].numEntries > 1 ==>
         if i < index || (i == index && j < axis) then bs[i].width.Of(j) < bs[index].width.Of(axis)
         else bs[i].width.Of(j) <= bs[index].width.Of(axis)
  }

  /** The candidate is right for the boxes before `i`, and for the axes before `j` of box `i`. */
  ghost predicate WidestSoFar(bs: seq<Box>, i: nat, j: nat, maxSize: int, index: nat, axis: nat)
  {
    && (maxSize >= 0 ==> index < |bs| && axis < 3 && bs[index].numEntries > 1 && maxSize == bs[index].width.Of(axis))
    && (forall k, t :: 0 <= k < |bs| && 0 <= t < 3 && (k < i || (k == i && t < j)) && bs[k].numEntries > 1 ==>
          if k < index || (k == index && t < axis) then bs[k].width.Of(t) < maxSize else bs[k].width.Of(t) <= maxSize)
    && -1 <= maxSize && (maxSize == -1 ==> index == axis == 0)
    && (index < i || (index == i && axis < j) || maxSize == -1)
  }

  /** One step of the subdivision. */
  datatype Cut = Cut(index: nat, axis: nat, first: Box, second: Box)

  ghost function Apply(bs: seq<Box>, cut: Cut): seq<Box>
    requires cut.index < |bs|
  {
    bs[cut.index := cut.first] + [cut.second]
  }

  /** A run of steps leads from `start` to `end`: each splits the widest box at its median. */
  ghost predicate Run(start: seq<Box>, cuts: seq<Cut>, stages: seq<seq<Box>>, hist: seq<int>, end: seq<Box>)
    requires |hist| == COLOR_ARRAY_SIZE
  {
    && |stages| == |cuts| + 1 && stages[0] == start && stages[|cuts|] == end
    && forall k :: 0 <= k < |cuts| ==> Step(stages[k], cuts[k], hist, stages[k + 1])
  }

  ghost predicate Step(bs: seq<Box>, cut: Cut, hist: seq<int>, next: seq<Box>)
    requires |hist| == COLOR_ARRAY_SIZE
  {
    && Widest(bs, cut.index, cut.axis)
    && SplitOf(bs[cut.index], cut.first, cut.second, cut.axis, hist)
    && next == Apply(bs, cut)
  }

  /** Every box has a list of its own in the array. */
  ghost predicate Lists(pnext: seq<int>, bs: seq<Box>)
  {
    forall i :: 0 <= i < |bs| ==> Chain(pnext, bs[i].colours)
  }

  /** Relinking the list of one box into two leaves the lists of all others as they are. */
  lemma ListsSplit(was: seq<int>, pnext: seq<int>, bs: seq<Box>, all: seq<Colour>, index: nat, first: Box, second: Box)
    requires Lists(was, bs) && Partition(bs, all) && Ascending(all) && index < |bs| && |pnext| == |was|
    requires Chain(pnext, first.colours) && Chain(pnext, second.colours)
    requires |was| == COLOR_ARRAY_SIZE && forall c: Colour :: c !in bs[index].colours ==> pnext[c] == was[c]
    ensures Lists(pnext, bs[index := first] + [second])
  {
    hide Chain, Pool, Good, Ascending;
    forall i | 0 <= i < |bs| && i != index
      ensures Chain(pnext, bs[i].colours)
    {
      forall k | 0 <= k < |bs[i].colours|
        ensures bs[i].colours[k] !in bs[index].colours
      {
        if bs[i].colours[k] in bs[index].colours {
          Disjoint(bs, all, i, index, bs[i].colours[k]);
        }
      }
      ChainStays(was, pnext, bs[i].colours);
    }
  }

  /** Splits boxes until there are as many as asked for or each has one colour. */
  method SubdivColorMap(boxes: array<Box>, colorMapSize: nat, hist: seq<int>, pnext: array<int>, ghost all: seq<Colour>)
    returns (size: nat, ghost cuts: seq<Cut>, ghost stages: seq<seq<Box>>)
    requires boxes.Length == 256 && 0 < colorMapSize <= 256 && |hist| == pnext.Length == COLOR_ARRAY_SIZE
    requires Partition(boxes[..1], all) && Ascending(all) && Lists(pnext[..], boxes[..1])
    modifies boxes, pnext
    ensures size == Min(colorMapSize, |all|) && size > 0
    ensures Partition(boxes[..size], all) && Lists(pnext[..], boxes[..size])
    ensures TotalCount(boxes[..size]) == old(boxes[0].count)
    ensures Run(old(boxes[..1]), cuts, stages, hist, boxes[..size])
  {
    hide Good, Pool, SplitOf, Widest, Ascending, Partition, Run, Step, Chain, Lists;
    size := 1;
    ghost var start := boxes[..1];
    cuts, stages := [], [start];
    assert start == [boxes[0]];
    SizesOf(start, all);
    RunOfNothing(start, hist);
    while colorMapSize > size
      invariant 1 <= size <= Min(colorMapSize, |all|)
      invariant Partition(boxes[..size], all) && Lists(pnext[..], boxes[..size])
      invariant TotalCount(boxes[..size]) == old(boxes[0].count)
      invariant Run(start, cuts, stages, hist, boxes[..size])
    {
      ghost var bs := boxes[..size];
      assert forall i :: 0 <= i < size ==> boxes[i] == bs[i];
      var found, index, axis := Candidate(boxes, size);
      SizesOf(bs, all);
      if !found {
        return;
      }
      ghost var cut;
      cut := SplitAt(boxes, size, index, axis, hist, pnext, all);
      size := size + 1;
      RunOn(start, cuts, stages, hist, bs, cut, boxes[..size]);
      SizesOf(boxes[..size], all);
      cuts, stages := cuts + [cut], stages + [boxes[..size]];
    }
  }

  /** Splits the box at `index`; the second half becomes a new box. */
  method SplitAt(boxes: array<Box>, size: nat, index: nat, axis: nat, hist: seq<int>, pnext: array<int>,
                 ghost all: seq<Colour>) returns (ghost cut: Cut)
    requires size < boxes.Length && |hist| == pnext.Length == COLOR_ARRAY_SIZE
    requires Partition(boxes[..size], all) && Ascending(all) && Lists(pnext[..], boxes[..size])
    requires Widest(boxes[..size], index, axis)
    modifies boxes, pnext
    ensures Step(old(boxes[..size]), cut, hist, boxes[..size + 1])
    ensures Partition(boxes[..size + 1], all) && Lists(pnext[..], boxes[..size + 1])
    ensures TotalCount(boxes[..size + 1]) == TotalCount(old(boxes[..size]))
  {
    hide Good, Pool, TotalCount, SplitOf, Ascending, Chain;
    ghost var bs, was := boxes[..size], pnext[..];
    assert bs[index] == boxes[index] && Good(bs[index]) && Chain(was, bs[index].colours);
    var first, second := Split(boxes[index], hist, axis, pnext);
    PoolSplit(bs, index, first, second);
    ListsSplit(was, pnext[..], bs, all, index, first, second);
    boxes[size] := second;
    boxes[index] := first;
    assert boxes[..size + 1] == bs[index := first] + [second];
    cut := Cut(index, axis, first, second);
  }

  /** Each cut adds a box. */
  lemma {:induction false} StageSize(start: seq<Box>, cuts: seq<Cut>, stages: seq<seq<Box>>, hist: seq<int>,
                                     end: seq<Box>, n: nat)
    requires |hist| == COLOR_ARRAY_SIZE && Run(start, cuts, stages, hist, end) && n <= |cuts|
    ensures |stages[n]| == |start| + n
  {
    hide SplitOf;
    if n == 0 {
      assert stages[0] == start;
    } else {
      StageSize(start, cuts, stages, hist, end, n - 1);
      assert Step(stages[n - 1], cuts[n - 1], hist, stages[n]);
    }
  }

  lemma RunOfNothing(start: seq<Box>, hist: seq<int>)
    requires |hist| == COLOR_ARRAY_SIZE
    ensures Run(start, [], [start], hist, start)
  {}

  /** One more step makes a longer run. */
  lemma RunOn(start: seq<Box>, cuts: seq<Cut>, stages: seq<seq<Box>>, hist: seq<int>, bs: seq<Box>, cut: Cut,
              next: seq<Box>)
    requires |hist| == COLOR_ARRAY_SIZE && Run(start, cuts, stages, hist, bs) && Step(bs, cut, hist, next)
    ensures Run(start, cuts + [cut], stages + [next], hist, next)
  {
    hide Step;
    var cuts', stages' := cuts + [cut], stages + [next];
    forall k | 0 <= k < |cuts'|
      ensures Step(stages'[k], cuts'[k], hist, stages'[k + 1])
    {
      if k < |cuts| {
        assert Step(stages[k], cuts[k], hist, stages[k + 1]);
      }
    }
  }

  lemma SizesOf(bs: seq<Box>, all: seq<Colour>)
    requires Partition(bs, all)
    ensures |bs| <= |all|
    ensures |bs| == |all| <==> forall i :: 0 <= i < |bs| ==> bs[i].numEntries <= 1
  {
    PoolSize(bs);
    assert |multiset(all)| == |all|;
    assert forall i :: 0 <= i < |bs| ==> Good(bs[i]);
  }
}
