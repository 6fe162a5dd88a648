/** Ordered trees as depth sequences: the objects in pre-order, each with its distance from
    the root. The depths alone determine every parent, sibling and child. */
module OdlShape {

  type Depths = seq<nat>

  /** One root; every other object lies at most one level below the one before it. */
  predicate IsTree(d: Depths)
  {
    && |d| > 0 && d[0] == 0
    && (forall i :: 0 < i < |d| ==> 0 < d[i] <= d[i - 1] + 1)
  }

  /** The first position from `j` on that is no deeper than `x`, or the end. */
  function Forward(d: Depths, x: int, j: nat): (k: nat)
    requires j <= |d|
    ensures j <= k <= |d|
    ensures forall t :: j <= t < k ==> d[t] > x
    ensures k < |d| ==> d[k] <= x
    decreases |d| - j
  {
    if j == |d| || d[j] <= x then j else Forward(d, x, j + 1)
  }

  /** The last position before `j` that is no deeper than `x`, or -1. */
  function Backward(d: Depths, x: int, j: nat): (k: int)
    requires j <= |d|
    ensures -1 <= k < j
    ensures forall t :: k < t < j ==> d[t] > x
    ensures k >= 0 ==> d[k] <= x
  {
    if j == 0 then -1 else if d[j - 1] <= x then j - 1 else Backward(d, x, j - 1)
  }

  /** Where the subtree of position `i` ends. */
  function End(d: Depths, i: nat): nat
    requires i < |d|
  {
    Forward(d, d[i], i + 1)
  }

  // Positions of the relatives; -1 stands for none.

  function Parent(d: Depths, i: nat): int
    requires i < |d|
  {
    var x: int := d[i];
    Backward(d, x - 1, i)
  }

  function LeftSibling(d: Depths, i: nat): int
    requires i < |d|
  {
    var k := Backward(d, d[i], i);
    if k >= 0 && d[k] == d[i] then k else -1
  }

  function RightSibling(d: Depths, i: nat): int
    requires i < |d|
  {
    var k := End(d, i);
    if k < |d| && d[k] == d[i] then k else -1
  }

  function FirstChild(d: Depths, i: nat): int
    requires i < |d|
  {
    if i + 1 < |d| && d[i + 1] > d[i] then i + 1 else -1
  }

  function LastChild(d: Depths, i: nat): int
    requires i < |d|
  {
    var k := Backward(d, d[i] + 1, End(d, i));
    if k > i then k else -1
  }

  lemma ParentDepth(d: Depths, i: nat)
    requires IsTree(d) && i < |d|
    ensures -1 <= Parent(d, i) < i
    ensures d[i] == if Parent(d, i) < 0 then 0 else d[Parent(d, i)] + 1
  {
    var k := Parent(d, i);
    if 0 <= k < i - 1 {
      assert d[k + 1] <= d[k] + 1;
    }
  }

  // ----- a subtree put into a tree

  /** The depths of a subtree whose root comes to lie at depth `b`. */
  function Lowered(e: Depths, b: nat): (r: Depths)
    ensures |r| == |e|
    ensures forall k :: 0 <= k < |e| ==> r[k] == e[k] + b
  {
    seq(|e|, k requires 0 <= k < |e| => e[k] + b)
  }

  function Insert(d: Depths, p: nat, e: Depths, b: nat): (r: Depths)
    requires p <= |d|
    ensures |r| == |d| + |e|
  {
    d[..p] + Lowered(e, b) + d[p..]
  }

  lemma At(d: Depths, p: nat, e: Depths, b: nat, t: nat)
    requires p <= |d| && t < |d| + |e|
    ensures Insert(d, p, e, b)[t] ==
            if t < p then d[t] else if t < p + |e| then e[t - p] + b else d[t - |e|]
  {}

  /** The position of the old position `i`. */
  function Moved(p: nat, m: nat, i: int): int
  {
    if i < p then i else i + m
  }

  lemma ForwardUnique(d: Depths, x: int, j: nat, k: nat)
    requires j <= k <= |d|
    requires forall t :: j <= t < k ==> d[t] > x
    requires k < |d| ==> d[k] <= x
    ensures Forward(d, x, j) == k
  {}

  lemma BackwardUnique(d: Depths, x: int, j: nat, k: int)
    requires -1 <= k < j <= |d|
    requires forall t :: k < t < j ==> d[t] > x
    requires k >= 0 ==> d[k] <= x
    ensures Backward(d, x, j) == k
  {}

  /** Looking forward from an old position. */
  lemma ForwardOver(d: Depths, p: nat, e: Depths, b: nat, x: int, j: nat)
    requires IsTree(e) && p <= |d| && j <= |d|
    ensures var k := Forward(d, x, j);
            var j' := if j <= p then j else j + |e|;
            Forward(Insert(d, p, e, b), x, j')
            == if j <= p <= k && b <= x then p else if k < p then k else k + |e|
  {
    hide Insert, Lowered, Forward, Backward;
    var d' := Insert(d, p, e, b);
    var k := Forward(d, x, j);
    var j' := if j <= p then j else j + |e|;
    var k' := if j <= p <= k && b <= x then p else if k < p then k else k + |e|;
    forall t | j' <= t < k'
      ensures d'[t] > x
    {
      At(d, p, e, b, t);
    }
    if k' < |d'| {
      At(d, p, e, b, k');
    }
    ForwardUnique(d', x, j', k');
  }

  /** Looking forward from inside the inserted subtree. */
  lemma ForwardInside(d: Depths, p: nat, e: Depths, b: nat, x: int, j: nat)
    requires p <= |d| && j <= |e|
    ensures var k := Forward(e, x - b, j);
            Forward(Insert(d, p, e, b), x, p + j) == if k < |e| then p + k else Forward(d, x, p) + |e|
  {
    hide Insert, Lowered, Forward, Backward;
    var d' := Insert(d, p, e, b);
    var k := Forward(e, x - b, j);
    var k' := if k < |e| then p + k else Forward(d, x, p) + |e|;
    forall t | p + j <= t < k'
      ensures d'[t] > x
    {
      At(d, p, e, b, t);
    }
    if k' < |d'| {
      At(d, p, e, b, k');
    }
    ForwardUnique(d', x, p + j, k');
  }

  /** Looking back from an old position. */
  lemma BackwardOver(d: Depths, p: nat, e: Depths, b: nat, x: int, j: nat)
    requires p <= |d| && j <= |d|
    ensures Backward(Insert(d, p, e, b), x, j) == Backward(d, x, j) || j > p
    ensures j >= p ==>
              var k := Backward(d, x, j);
              var l := Backward(e, x - b, |e|);
              Backward(Insert(d, p, e, b), x, j + |e|) == if k >= p then k + |e| else if l >= 0 then p + l else k
  {
    hide Insert, Lowered, Forward, Backward;
    var d' := Insert(d, p, e, b);
    var k := Backward(d, x, j);
    if j <= p {
      forall t | k < t < j
        ensures d'[t] > x
      {
        At(d, p, e, b, t);
      }
      if k >= 0 {
        At(d, p, e, b, k);
      }
      BackwardUnique(d', x, j, k);
    }
    if j >= p {
      var l := Backward(e, x - b, |e|);
      var k' := if k >= p then k + |e| else if l >= 0 then p + l else k;
      forall t | k' < t < j + |e|
        ensures d'[t] > x
      {
        At(d, p, e, b, t);
      }
      if k' >= 0 {
        At(d, p, e, b, k');
      }
      BackwardUnique(d', x, j + |e|, k');
    }
  }

  /** Looking back from inside the inserted subtree. */
  lemma BackwardInside(d: Depths, p: nat, e: Depths, b: nat, x: int, j: nat)
    requires p <= |d| && j <= |e|
    ensures var l := Backward(e, x - b, j);
            Backward(Insert(d, p, e, b), x, p + j) == if l >= 0 then p + l else Backward(d, x, p)
  {
    hide Insert, Lowered, Forward, Backward;
    var d' := Insert(d, p, e, b);
    var l := Backward(e, x - b, j);
    var k' := if l >= 0 then p + l else Backward(d, x, p);
    forall t | k' < t < p + j
      ensures d'[t] > x
    {
      At(d, p, e, b, t);
    }
    if k' >= 0 {
      At(d, p, e, b, k');
    }
    BackwardUnique(d', x, p + j, k');
  }

  // ----- the relatives after a paste

  /** Depth `b` fits at position `p`: below something before it, and not above what follows. */
  predicate Slot(d: Depths, p: nat, b: nat)
  {
    && IsTree(d)
    && 0 < p <= |d| && 0 < b <= d[p - 1] + 1
    && (p < |d| ==> d[p] <= b)
  }

  /** The parent and the siblings that an object put into a slot gets. */
  function SlotParent(d: Depths, p: nat, b: nat): int
    requires p <= |d|
  {
    var x: int := b;
    Backward(d, x - 1, p)
  }

  function SlotLeft(d: Depths, p: nat, b: nat): int
    requires p <= |d|
  {
    var k := Backward(d, b, p);
    if k >= 0 && d[k] == b then k else -1
  }

  function SlotRight(d: Depths, p: nat, b: nat): int
    requires p <= |d|
  {
    if p < |d| && d[p] == b then p else -1
  }

  lemma InsertIsTree(d: Depths, p: nat, e: Depths, b: nat)
    requires Slot(d, p, b) && IsTree(e)
    ensures IsTree(Insert(d, p, e, b))
  {
    var d' := Insert(d, p, e, b);
    At(d, p, e, b, 0);
    forall i | 0 < i < |d'|
      ensures 0 < d'[i] <= d'[i - 1] + 1
    {
      At(d, p, e, b, i);
      At(d, p, e, b, i - 1);
    }
  }

  lemma SlotParentDepth(d: Depths, p: nat, b: nat)
    requires Slot(d, p, b)
    ensures 0 <= SlotParent(d, p, b) < p && d[SlotParent(d, p, b)] == b - 1
  {
    var q := SlotParent(d, p, b);
    if 0 <= q < p - 1 {
      assert d[q + 1] <= d[q] + 1;
    }
  }

  lemma OldParent(d: Depths, p: nat, e: Depths, b: nat, i: nat)
    requires Slot(d, p, b) && IsTree(e) && i < |d|
    ensures Parent(Insert(d, p, e, b), Moved(p, |e|, i)) == Moved(p, |e|, Parent(d, i))
  {
    hide Insert, Lowered, Forward, Backward;
    var x: int := d[i];
    At(d, p, e, b, Moved(p, |e|, i));
    BackwardOver(d, p, e, b, x - 1, i);
  }

  lemma OldLeft(d: Depths, p: nat, e: Depths, b: nat, i: nat)
    requires Slot(d, p, b) && IsTree(e) && i < |d|
    ensures LeftSibling(Insert(d, p, e, b), Moved(p, |e|, i))
            == if i == SlotRight(d, p, b) then p else Moved(p, |e|, LeftSibling(d, i))
  {
    hide Insert, Lowered, Forward, Backward;
    var k := Backward(d, d[i], i);
    At(d, p, e, b, Moved(p, |e|, i));
    BackwardOver(d, p, e, b, d[i], i);
    if k >= 0 {
      At(d, p, e, b, Moved(p, |e|, k));
    }
    At(d, p, e, b, p);
    if i >= p && k < p {
      LastRootOf(e, d[i] - b);
    }
  }

  /** Within a subtree, only its root is no deeper than its root. */
  lemma LastRootOf(e: Depths, x: int)
    requires IsTree(e) && x <= 0
    ensures Backward(e, x, |e|) == if x < 0 then -1 else 0
  {
    BackwardUnique(e, x, |e|, if x < 0 then -1 else 0);
  }

  lemma OldRight(d: Depths, p: nat, e: Depths, b: nat, i: nat)
    requires Slot(d, p, b) && IsTree(e) && i < |d|
    ensures RightSibling(Insert(d, p, e, b), Moved(p, |e|, i))
            == if i == SlotLeft(d, p, b) then p else Moved(p, |e|, RightSibling(d, i))
  {
    hide Insert, Lowered, Forward, Backward;
    var k := End(d, i);
    At(d, p, e, b, Moved(p, |e|, i));
    ForwardOver(d, p, e, b, d[i], i + 1);
    At(d, p, e, b, p);
    if k < |d| {
      At(d, p, e, b, Moved(p, |e|, k));
    }
    if i < p && k >= p && d[i] == b {
      BackwardUnique(d, b, p, i);
    }
  }

  lemma OldFirst(d: Depths, p: nat, e: Depths, b: nat, i: nat)
    requires Slot(d, p, b) && IsTree(e) && i < |d|
    ensures FirstChild(Insert(d, p, e, b), Moved(p, |e|, i))
            == if i == SlotParent(d, p, b) && SlotLeft(d, p, b) == -1 then p else Moved(p, |e|, FirstChild(d, i))
  {
    hide Insert, Lowered, Forward, Backward;
    At(d, p, e, b, Moved(p, |e|, i));
    if Moved(p, |e|, i) + 1 < |d| + |e| {
      At(d, p, e, b, Moved(p, |e|, i) + 1);
    }
  }

  lemma OldLast(d: Depths, p: nat, e: Depths, b: nat, i: nat)
    requires Slot(d, p, b) && IsTree(e) && i < |d|
    ensures LastChild(Insert(d, p, e, b), Moved(p, |e|, i))
            == if i == SlotParent(d, p, b) && SlotRight(d, p, b) == -1 then p else Moved(p, |e|, LastChild(d, i))
  {
    hide Insert, Lowered, Forward, Backward;
    SlotParentDepth(d, p, b);
    if i >= p {
      LastAfter(d, p, e, b, i);
    } else if End(d, i) < p || d[i] >= b {
      LastBefore(d, p, e, b, i);
    } else {
      LastAbove(d, p, e, b, i);
    }
  }

  lemma LastAfter(d: Depths, p: nat, e: Depths, b: nat, i: nat)
    requires Slot(d, p, b) && IsTree(e) && p <= i < |d|
    ensures LastChild(Insert(d, p, e, b), i + |e|) == Moved(p, |e|, LastChild(d, i))
  {
    hide Insert, Lowered, Forward, Backward;
    At(d, p, e, b, i + |e|);
    ForwardOver(d, p, e, b, d[i], i + 1);
    BackwardOver(d, p, e, b, d[i] + 1, End(d, i));
  }

  lemma LastBefore(d: Depths, p: nat, e: Depths, b: nat, i: nat)
    requires Slot(d, p, b) && IsTree(e) && i < p && (End(d, i) < p || d[i] >= b)
    ensures LastChild(Insert(d, p, e, b), i) == LastChild(d, i)
    ensures i != SlotParent(d, p, b)
  {
    hide Insert, Lowered, Forward, Backward;
    At(d, p, e, b, i);
    ForwardOver(d, p, e, b, d[i], i + 1);
    BackwardOver(d, p, e, b, d[i] + 1, if End(d, i) < p then End(d, i) else p);
  }

  /** The last child of an object that has the slot in its subtree. */
  lemma LastAbove(d: Depths, p: nat, e: Depths, b: nat, i: nat)
    requires Slot(d, p, b) && IsTree(e) && i < p <= End(d, i) && d[i] < b
    ensures LastChild(Insert(d, p, e, b), i)
            == if i == SlotParent(d, p, b) && SlotRight(d, p, b) == -1 then p else Moved(p, |e|, LastChild(d, i))
  {
    hide Insert, Lowered, Forward, Backward;
    At(d, p, e, b, i);
    ForwardOver(d, p, e, b, d[i], i + 1);
    BackwardOver(d, p, e, b, d[i] + 1, End(d, i));
    LastRootOf(e, d[i] + 1 - b);
    SlotParentDepth(d, p, b);
    if d[i] == b - 1 {
      BackwardUnique(d, d[i], p, i);
      assert i == SlotParent(d, p, b);
    }
  }

  // ----- the relatives inside the pasted subtree

  /** A relative of a pasted object that lies in the subtree too. */
  function Within(p: nat, k: int): int
  {
    if k < 0 then -1 else p + k
  }

  lemma NewRoot(d: Depths, p: nat, e: Depths, b: nat)
    requires Slot(d, p, b) && IsTree(e)
    ensures var d' := Insert(d, p, e, b);
            && d'[p] == b
            && Parent(d', p) == SlotParent(d, p, b)
            && LeftSibling(d', p) == SlotLeft(d, p, b)
            && RightSibling(d', p) == Moved(p, |e|, SlotRight(d, p, b))
            && FirstChild(d', p) == Within(p, FirstChild(e, 0))
            && LastChild(d', p) == Within(p, LastChild(e, 0))
            && End(d', p) == p + |e|
  {
    hide Insert, Lowered, Forward, Backward;
    hide Parent, LeftSibling, LastChild, SlotParent, SlotLeft;
    NewRootBefore(d, p, e, b);
    NewEnd(d, p, e, b, 0);
    NewLast(d, p, e, b, 0);
    if p + 1 < |d| + |e| {
      At(d, p, e, b, p + 1);
    }
    if p < |d| {
      At(d, p, e, b, p + |e|);
    }
  }

  lemma NewRootBefore(d: Depths, p: nat, e: Depths, b: nat)
    requires Slot(d, p, b) && IsTree(e)
    ensures var d' := Insert(d, p, e, b);
            && d'[p] == b
            && Parent(d', p) == SlotParent(d, p, b)
            && LeftSibling(d', p) == SlotLeft(d, p, b)
  {
    hide Insert, Lowered, Forward, Backward;
    var x: int := b;
    At(d, p, e, b, p);
    BackwardOver(d, p, e, b, x - 1, p);
    BackwardOver(d, p, e, b, x, p);
    if SlotLeft(d, p, b) >= 0 {
      At(d, p, e, b, SlotLeft(d, p, b));
    }
  }

  lemma NewEnd(d: Depths, p: nat, e: Depths, b: nat, k: nat)
    requires Slot(d, p, b) && IsTree(e) && k < |e|
    ensures End(Insert(d, p, e, b), p + k) == p + End(e, k)
    ensures k == 0 ==> End(e, k) == |e|
  {
    hide Insert, Lowered, Forward, Backward;
    At(d, p, e, b, p + k);
    ForwardInside(d, p, e, b, e[k] + b, k + 1);
    ForwardUnique(d, e[k] + b, p, p);
    assert e[k] + b - b == e[k];
    if k == 0 {
      ForwardUnique(e, 0, 1, |e|);
    }
  }

  lemma NewLast(d: Depths, p: nat, e: Depths, b: nat, k: nat)
    requires Slot(d, p, b) && IsTree(e) && k < |e|
    ensures LastChild(Insert(d, p, e, b), p + k) == Within(p, LastChild(e, k))
  {
    hide Insert, Lowered, Forward, Backward;
    At(d, p, e, b, p + k);
    NewEnd(d, p, e, b, k);
    BackwardInside(d, p, e, b, e[k] + b + 1, End(e, k));
    assert e[k] + b + 1 - b == e[k] + 1;
  }

  lemma NewBelow(d: Depths, p: nat, e: Depths, b: nat, k: nat)
    requires Slot(d, p, b) && IsTree(e) && 0 < k < |e|
    ensures var d' := Insert(d, p, e, b);
            && d'[p + k] == e[k] + b
            && Parent(d', p + k) == Within(p, Parent(e, k))
            && LeftSibling(d', p + k) == Within(p, LeftSibling(e, k))
            && RightSibling(d', p + k) == Within(p, RightSibling(e, k))
            && FirstChild(d', p + k) == Within(p, FirstChild(e, k))
            && LastChild(d', p + k) == Within(p, LastChild(e, k))
  {
    hide Insert, Lowered, Forward, Backward;
    var x: int := e[k];
    At(d, p, e, b, p + k);
    BackwardInside(d, p, e, b, x + b - 1, k);
    BackwardInside(d, p, e, b, x + b, k);
    assert x + b - 1 - b == x - 1 && x + b - b == x;
    NewEnd(d, p, e, b, k);
    NewLast(d, p, e, b, k);
    var l, r := Backward(e, x, k), End(e, k);
    if l >= 0 {
      At(d, p, e, b, p + l);
    }
    if p + r < |d| + |e| {
      At(d, p, e, b, p + r);
    }
    if p + k + 1 < |d| + |e| {
      At(d, p, e, b, p + k + 1);
    }
  }

  // ----- the three slots that the paste operations use

  lemma LastChildSlot(d: Depths, q: nat)
    requires IsTree(d) && q < |d|
    ensures var p, b := End(d, q), d[q] + 1;
            Slot(d, p, b) && SlotParent(d, p, b) == q
            && SlotLeft(d, p, b) == LastChild(d, q) && SlotRight(d, p, b) == -1
  {
    hide Forward, Backward;
    var p := End(d, q);
    BackwardUnique(d, d[q], p, q);
  }

  lemma BeforeSlot(d: Depths, o: nat)
    requires IsTree(d) && 0 < o < |d|
    ensures Slot(d, o, d[o]) && SlotParent(d, o, d[o]) == Parent(d, o)
            && SlotLeft(d, o, d[o]) == LeftSibling(d, o) && SlotRight(d, o, d[o]) == o
  {}

  lemma AfterSlot(d: Depths, o: nat)
    requires IsTree(d) && 0 < o < |d|
    ensures var p := End(d, o);
            Slot(d, p, d[o]) && SlotParent(d, p, d[o]) == Parent(d, o)
            && SlotLeft(d, p, d[o]) == o && SlotRight(d, p, d[o]) == RightSibling(d, o)
  {
    hide Forward, Backward;
    var p := End(d, o);
    var x: int := d[o];
    BackwardUnique(d, x, p, o);
    BackwardUnique(d, x - 1, p, Parent(d, o));
  }

  // ----- a subtree taken out of a tree

  function Without(d: Depths, o: nat): Depths
    requires o < |d|
  {
    d[..o] + d[End(d, o)..]
  }

  /** The depths below position `o`, counted from there. */
  function Subtree(d: Depths, o: nat): (e: Depths)
    requires o < |d|
    ensures |e| == End(d, o) - o
    ensures forall k :: 0 <= k < |e| ==> e[k] == d[o + k] - d[o]
  {
    seq(End(d, o) - o, k requires 0 <= k < End(d, o) - o => d[o + k] - d[o])
  }

  /** Taking a subtree out leaves two trees and a slot that it fits in again. */
  lemma Split(d: Depths, o: nat)
    requires IsTree(d) && 0 < o < |d|
    ensures Slot(Without(d, o), o, d[o]) && IsTree(Subtree(d, o))
    ensures Insert(Without(d, o), o, Subtree(d, o), d[o]) == d
  {
    hide Forward, Backward, Insert;
    var r, hi := Without(d, o), End(d, o);
    assert forall i :: 0 <= i < o ==> r[i] == d[i];
    assert forall i :: o <= i < |r| ==> r[i] == d[i - o + hi];
    assert hi < |d| ==> d[hi] <= d[o] <= d[o - 1] + 1;
    PutBack(d, o);
  }

  lemma PutBack(d: Depths, o: nat)
    requires o < |d|
    ensures o <= |Without(d, o)| && Insert(Without(d, o), o, Subtree(d, o), d[o]) == d
  {
    hide Forward, Subtree;
    var r, e := Without(d, o), Subtree(d, o);
    assert Lowered(e, d[o]) == d[o..End(d, o)];
    assert r[..o] == d[..o] && r[o..] == d[End(d, o)..];
  }

  /** How a slot and its neighbours see each other. */
  lemma SlotNeighbours(d: Depths, p: nat, b: nat)
    requires Slot(d, p, b)
    ensures var a, l, r := SlotParent(d, p, b), SlotLeft(d, p, b), SlotRight(d, p, b);
            && 0 <= a < p && -1 <= l < p && l != a && (r == -1 || r == p < |d|)
            && (r >= 0 ==> LeftSibling(d, r) == l)
            && (l >= 0 ==> RightSibling(d, l) == r)
            && (l == -1 ==> FirstChild(d, a) == r)
            && (r == -1 ==> LastChild(d, a) == l)
  {
    hide Forward, Backward;
    var a, l, r := SlotParent(d, p, b), SlotLeft(d, p, b), SlotRight(d, p, b);
    SlotParentDepth(d, p, b);
    assert a + 1 < p ==> d[a + 1] <= d[a] + 1;
    if l >= 0 {
      ForwardUnique(d, d[l], l + 1, p);
    }
    if r == -1 {
      ForwardUnique(d, d[a], a + 1, p);
    }
  }

  /** Taking a subtree out undoes putting it in. */
  lemma CutUndoesPaste(d: Depths, p: nat, e: Depths, b: nat)
    requires Slot(d, p, b) && IsTree(e)
    ensures Without(Insert(d, p, e, b), p) == d && Subtree(Insert(d, p, e, b), p) == e
  {
    hide Forward, Backward;
    NewRoot(d, p, e, b);
  }

  // ----- what a traversal visits

  /** How far a search goes. */
  datatype Scope = RecursiveDown | ToEnd | ChildrenOnly | SiblingsOnly | ThisObject

  /** Where the traversal goes from position `i`. It does not look at levels before it steps
      to a child or to a right sibling, but only on the way up. */
  function NextPosition(d: Depths, i: nat, rootLevel: nat): int
    requires i < |d|
  {
    if i + 1 < |d| && (d[i + 1] >= d[i] || d[i + 1] > rootLevel) then i + 1 else -1
  }

  /** The position that a search comes to after position `i`, and the scope it goes on with. */
  function Next(d: Depths, i: nat, rootLevel: nat, scope: Scope): (k: int)
    requires i < |d|
    ensures k == -1 || i < k < |d|
  {
    match scope
    case ThisObject => -1
    case ChildrenOnly => FirstChild(d, i)
    case SiblingsOnly => RightSibling(d, i)
    case RecursiveDown => NextPosition(d, i, rootLevel)
    case ToEnd => NextPosition(d, i, 0)
  }

  function Rest(scope: Scope): Scope
  {
    if scope == ChildrenOnly then SiblingsOnly else scope
  }

  /** The positions that a search comes to from position `i` on. */
  function Visit(d: Depths, i: int, rootLevel: nat, scope: Scope): (v: seq<nat>)
    requires -1 <= i < |d|
    ensures forall k :: 0 <= k < |v| ==> v[k] < |d|
    decreases if i < 0 then 0 else |d| - i
  {
    if i < 0 then [] else [i] + Visit(d, Next(d, i, rootLevel, scope), rootLevel, Rest(scope))
  }

  /** The positions from `lo` to `hi - 1`. */
  function Range(lo: nat, hi: nat): seq<nat>
    requires lo <= hi
  {
    seq(hi - lo, k requires 0 <= k < hi - lo => lo + k)
  }

  /** A search to the end visits the start and everything after it once, in order. */
  lemma {:induction false} VisitToEnd(d: Depths, i: nat, rootLevel: nat)
    requires IsTree(d) && i < |d|
    ensures Visit(d, i, rootLevel, ToEnd) == Range(i, |d|)
    decreases |d| - i
  {
    if i + 1 == |d| {
    } else {
      VisitToEnd(d, i + 1, rootLevel);
    }
  }

  /** Where a search down from position `s` stops. From a childless object it goes on to the
      right sibling. */
  function VisitEnd(d: Depths, s: nat): (k: nat)
    requires s < |d|
    ensures s < k <= |d|
    decreases |d| - s
  {
    if s + 1 < |d| && d[s + 1] == d[s] then VisitEnd(d, s + 1) else End(d, s)
  }

  /** The step at position `i` of a search down from position `s`. */
  lemma {:induction false} StepDown(d: Depths, s: nat, i: nat)
    requires IsTree(d) && s <= i < |d| && i < VisitEnd(d, s)
    ensures NextPosition(d, i, d[s]) == if i + 1 < VisitEnd(d, s) then i + 1 else -1
    decreases i - s
  {
    if s + 1 == |d| || d[s + 1] != d[s] || i == s {
    } else {
      StepDown(d, s + 1, i);
    }
  }

  /** A search down visits each position of a stretch once, in order. */
  lemma {:induction false} VisitDown(d: Depths, s: nat, i: nat)
    requires IsTree(d) && s <= i < |d| && i < VisitEnd(d, s)
    ensures Visit(d, i, d[s], RecursiveDown) == Range(i, VisitEnd(d, s))
    decreases |d| - i
  {
    hide VisitEnd;
    StepDown(d, s, i);
    if i + 1 == VisitEnd(d, s) {
    } else {
      VisitDown(d, s, i + 1);
    }
  }

  /** A search down from the root visits the whole tree in order. */
  lemma VisitTree(d: Depths)
    requires IsTree(d)
    ensures Visit(d, 0, d[0], RecursiveDown) == Range(0, |d|)
  {
    ForwardUnique(d, 0, 1, |d|);
    VisitDown(d, 0, 0);
  }

  /** A search down stays in the subtree of its start exactly if the start has a child or has
      no right sibling. */
  lemma {:induction false} VisitsSubtreeOnly(d: Depths, s: nat)
    requires IsTree(d) && s < |d|
    ensures End(d, s) <= VisitEnd(d, s)
    ensures VisitEnd(d, s) == End(d, s) <==> FirstChild(d, s) != -1 || RightSibling(d, s) == -1
    decreases |d| - s
  {
    if s + 1 == |d| || d[s + 1] != d[s] {
    } else {
      VisitsSubtreeOnly(d, s + 1);
    }
  }

  /** A root with two childless children: the search down from the first one visits the second. */
  lemma SiblingVisited()
    ensures IsTree([0, 1, 1]) && End([0, 1, 1], 1) == 2 && Visit([0, 1, 1], 1, 1, RecursiveDown) == [1, 2]
  {
    var d: Depths := [0, 1, 1];
    assert End(d, 1) == 2 && End(d, 2) == 3;
    assert VisitEnd(d, 1) == VisitEnd(d, 2) == 3;
    VisitDown(d, 1, 1);
    assert Range(1, 3) == [1, 2];
  }

  /** The siblings that a search comes to are those after its start, in order. */
  lemma {:induction false} VisitSiblings(d: Depths, i: nat, rootLevel: nat)
    requires IsTree(d) && i < |d|
    ensures var v := Visit(d, i, rootLevel, SiblingsOnly);
            && (forall k :: 0 < k < |v| ==> v[k - 1] < v[k])
            && (forall j :: j in v <==> i <= j < |d| && Parent(d, j) == Parent(d, i))
    decreases |d| - i
  {
    hide Forward, Backward;
    var v, k, x: int := Visit(d, i, rootLevel, SiblingsOnly), End(d, i), d[i];
    forall j | i < j < |d|
      ensures Parent(d, j) == Parent(d, i) <==>
              RightSibling(d, i) != -1 && k <= j && Parent(d, j) == Parent(d, k)
    {
      SiblingParent(d, i, j);
    }
    if RightSibling(d, i) != -1 {
      VisitSiblings(d, k, rootLevel);
      assert v == [i] + Visit(d, k, rootLevel, SiblingsOnly);
    } else {
      LastSibling(d, i, rootLevel);
    }
  }

  lemma LastSibling(d: Depths, i: nat, rootLevel: nat)
    requires IsTree(d) && i < |d| && RightSibling(d, i) == -1
    ensures Visit(d, i, rootLevel, SiblingsOnly) == [i]
  {
    hide Forward, Backward;
    assert Next(d, i, rootLevel, SiblingsOnly) == -1;
  }

  lemma SiblingParent(d: Depths, i: nat, j: nat)
    requires IsTree(d) && i < j < |d|
    ensures Parent(d, j) == Parent(d, i) <==>
            RightSibling(d, i) != -1 && End(d, i) <= j && Parent(d, j) == Parent(d, End(d, i))
  {
    hide Forward, Backward;
    var k, x: int := End(d, i), d[i];
    ParentDepth(d, i);
    ParentDepth(d, j);
    if j < k {
      assert d[j] > d[i];
    } else if RightSibling(d, i) != -1 {
      BackwardUnique(d, x - 1, k, Parent(d, i));
    } else {
      assert d[k] < d[i];
    }
  }

  /** A search of the children visits the start and then its children, in order. */
  lemma VisitChildren(d: Depths, i: nat, rootLevel: nat)
    requires IsTree(d) && i < |d|
    ensures var v := Visit(d, i, rootLevel, ChildrenOnly);
            && v[0] == i
            && (forall k :: 0 < k < |v| ==> v[k - 1] < v[k])
            && (forall j :: j in v[1..] <==> 0 <= j < |d| && Parent(d, j) == i)
  {
    hide Forward, Backward;
    var v, c, x: int := Visit(d, i, rootLevel, ChildrenOnly), FirstChild(d, i), d[i];
    if c != -1 {
      VisitSiblings(d, c, rootLevel);
      BackwardUnique(d, x, c, i);
      assert v[1..] == Visit(d, c, rootLevel, SiblingsOnly);
    } else {
      assert v[1..] == [];
      forall j | i < j < |d|
        ensures Parent(d, j) != i
      {
        ParentDepth(d, j);
        assert d[i + 1] <= d[i];
      }
    }
  }

  /** A search of one object visits it alone. */
  lemma VisitThis(d: Depths, i: nat, rootLevel: nat)
    requires i < |d|
    ensures Visit(d, i, rootLevel, ThisObject) == [i]
  {}

  /** Where a search down ends: at the first object after the start that is no deeper than the start
      and less deep than the object before it. */
  lemma {:induction false} VisitEndAt(d: Depths, s: nat)
    requires s < |d|
    ensures var k := VisitEnd(d, s);
            && s < k <= |d| && (k < |d| ==> d[k] <= d[s] && d[k] < d[k - 1])
            && forall j :: s < j < k ==> d[j] > d[s] || d[j] >= d[j - 1]
    decreases |d| - s
  {
    if s + 1 < |d| && d[s + 1] == d[s] {
      VisitEndAt(d, s + 1);
    } else {
      assert End(d, s) > s + 1 ==> d[End(d, s) - 1] > d[s];
    }
  }

  /** What the relatives of an object are, in depths. */
  lemma Relatives(d: Depths, i: nat)
    requires IsTree(d) && i < |d|
    ensures if i == 0 then Parent(d, i) == -1
            else
              && 0 <= Parent(d, i) < i && d[Parent(d, i)] + 1 == d[i]
              && forall t :: Parent(d, i) < t < i ==> d[t] >= d[i]
    ensures i < End(d, i) <= |d| && (End(d, i) < |d| ==> d[End(d, i)] <= d[i])
    ensures forall t :: i < t < End(d, i) ==> d[t] > d[i]
  {
    hide Forward, Backward;
    ParentDepth(d, i);
  }

  lemma LeftIs(d: Depths, i: nat, k: nat)
    requires i < |d| && k < i
    ensures LeftSibling(d, i) == k <==> d[k] == d[i] && forall t :: k < t < i ==> d[t] > d[i]
    ensures LeftSibling(d, i) == -1 || 0 <= LeftSibling(d, i) < i
  {
    hide Backward;
    if d[k] == d[i] && forall t :: k < t < i ==> d[t] > d[i] {
      BackwardUnique(d, d[i], i, k);
    }
  }

  lemma RightIs(d: Depths, i: nat, k: nat)
    requires i < k < |d|
    ensures RightSibling(d, i) == k <==> d[k] == d[i] && forall t :: i < t < k ==> d[t] > d[i]
    ensures RightSibling(d, i) == -1 || i < RightSibling(d, i) < |d|
  {
    hide Forward;
    if d[k] == d[i] && forall t :: i < t < k ==> d[t] > d[i] {
      ForwardUnique(d, d[i], i + 1, k);
    }
  }

  /** The first and the last child are the first and the last object of which it is the parent. */
  lemma Children(d: Depths, i: nat)
    requires IsTree(d) && i < |d|
    ensures if FirstChild(d, i) == -1 then LastChild(d, i) == -1 && forall j :: 0 <= j < |d| ==> Parent(d, j) != i
            else
              && 0 <= FirstChild(d, i) < |d| && Parent(d, FirstChild(d, i)) == i
              && 0 <= LastChild(d, i) < |d| && Parent(d, LastChild(d, i)) == i
              && forall j :: 0 <= j < |d| && Parent(d, j) == i ==> FirstChild(d, i) <= j <= LastChild(d, i)
  {
    hide Forward, Backward;
    forall j | 0 <= j < |d|
      ensures Parent(d, j) == i <==> i < j < End(d, i) && d[j] == d[i] + 1
    {
      ChildDepth(d, i, j);
    }
    var k := LastChild(d, i);
    if FirstChild(d, i) == -1 {
      ForwardUnique(d, d[i], i + 1, i + 1);
    } else {
      assert d[i + 1] == d[i] + 1;
      assert End(d, i) > i + 1;
    }
  }

  lemma ChildDepth(d: Depths, i: nat, j: nat)
    requires IsTree(d) && i < |d| && j < |d|
    ensures Parent(d, j) == i <==> i < j < End(d, i) && d[j] == d[i] + 1
  {
    ParentDepth(d, j);
    if i < j < End(d, i) && d[j] == d[i] + 1 {
      BackwardUnique(d, d[j] - 1, j, i);
    }
  }
}
