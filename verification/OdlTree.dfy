/** The tree of ODL objects: linked objects that keep their level, and the operations that
    paste, cut and traverse them. The ghost parameters name the tree that the objects form:
    its objects in pre-order and their depths. */
module OdlTree {
  import opened OdlShape

  datatype Keyword = Keyword(name: string, value: string)

  class ObjDesc {
    var level: nat
    var parent: ObjDesc?
    var leftSibling: ObjDesc?
    var rightSibling: ObjDesc?
    var firstChild: ObjDesc?
    var lastChild: ObjDesc?
    var keywords: seq<Keyword>

    constructor ()
      ensures parent == leftSibling == rightSibling == firstChild == lastChild == null
      ensures level == 0 && keywords == []
    {
      level, keywords := 0, [];
      parent, leftSibling, rightSibling, firstChild, lastChild := null, null, null, null, null;
    }
  }

  function ObjAt(objs: seq<ObjDesc>, k: int): ObjDesc?
  {
    if 0 <= k < |objs| then objs[k] else null
  }

  /** The five links of an object. */
  datatype Links = Links(parent: ObjDesc?, left: ObjDesc?, right: ObjDesc?, first: ObjDesc?, last: ObjDesc?)

  ghost function LinksOf(o: ObjDesc): Links
    reads o`parent, o`leftSibling, o`rightSibling, o`firstChild, o`lastChild
  {
    Links(o.parent, o.leftSibling, o.rightSibling, o.firstChild, o.lastChild)
  }

  /** The links that the object at position `i` is to have. */
  ghost function Kin(objs: seq<ObjDesc>, d: Depths, i: nat): Links
    requires i < |objs| == |d|
  {
    Links(ObjAt(objs, Parent(d, i)), ObjAt(objs, LeftSibling(d, i)), ObjAt(objs, RightSibling(d, i)),
          ObjAt(objs, FirstChild(d, i)), ObjAt(objs, LastChild(d, i)))
  }

  /** The object at position `i` is linked to its relatives. */
  ghost predicate LinkedAt(objs: seq<ObjDesc>, d: Depths, i: nat)
    requires i < |objs| == |d|
    reads objs`parent, objs`leftSibling, objs`rightSibling, objs`firstChild, objs`lastChild
  {
    LinksOf(objs[i]) == Kin(objs, d, i)
  }

  ghost predicate Distinct(objs: seq<ObjDesc>)
  {
    forall i, j :: 0 <= i < j < |objs| ==> objs[i] != objs[j]
  }

  ghost predicate Linked(objs: seq<ObjDesc>, d: Depths)
    reads objs`parent, objs`leftSibling, objs`rightSibling, objs`firstChild, objs`lastChild
  {
    && |objs| == |d| && IsTree(d) && Distinct(objs)
    && forall i {:trigger LinkedAt(objs, d, i)} :: 0 <= i < |objs| ==> LinkedAt(objs, d, i)
  }

  /** The levels are right at all positions but those from `lo` to `hi - 1`. */
  ghost predicate LevelsBut(objs: seq<ObjDesc>, d: Depths, lo: nat, hi: nat)
    requires |objs| == |d|
    reads objs`level
  {
    forall i :: 0 <= i < |objs| && !(lo <= i < hi) ==> objs[i].level == d[i]
  }

  ghost predicate Levels(objs: seq<ObjDesc>, d: Depths)
    requires |objs| == |d|
    reads objs`level
  {
    LevelsBut(objs, d, 0, 0)
  }

  // ----- levels and traversal

  /** Counts the parents of an object. */
  method GetObjDescLevel(start: ObjDesc?, ghost objs: seq<ObjDesc>, ghost d: Depths, ghost i: nat)
    returns (level: nat)
    requires start != null ==> Linked(objs, d) && i < |objs| && start == objs[i]
    ensures level == if start == null then 0 else d[i]
  {
    level := 0;
    if start != null {
      assert LinkedAt(objs, d, i);
      var obj := start.parent;
      ghost var a := Parent(d, i);
      ParentDepth(d, i);
      while obj != null
        invariant -1 <= a < |objs| && obj == ObjAt(objs, a)
        invariant level + (if a < 0 then 0 else d[a] + 1) == d[i]
        decreases a
      {
        assert LinkedAt(objs, d, a);
        ParentDepth(d, a);
        a := Parent(d, a);
        obj := obj.parent;
        level := level + 1;
      }
    }
  }

  /** The stackless step of the traversal. It reads the levels of the objects above the
      current one, and no others. */
  method TraverseTree(curr: ObjDesc?, rootLevel: nat, ghost objs: seq<ObjDesc>, ghost d: Depths, ghost i: nat)
    returns (next: ObjDesc?)
    requires curr != null ==>
               Linked(objs, d) && i < |objs| && curr == objs[i] && LevelsBut(objs, d, i, |d|)
    ensures next == if curr == null then null else ObjAt(objs, NextPosition(d, i, rootLevel))
  {
    hide Forward, Backward;
    next := null;
    if curr != null {
      assert LinkedAt(objs, d, i);
      EndHere(d, i, i);
      if curr.firstChild != null {
        next := curr.firstChild;
      } else if curr.rightSibling != null {
        next := curr.rightSibling;
      } else {
        next := Climb(curr, rootLevel, objs, d, i);
      }
    }
  }

  /** Position `a` is an ancestor of `i`, and what follows `i` lies below it or beside it. */
  ghost predicate Above(d: Depths, a: int, i: nat)
    requires i < |d|
  {
    && -1 <= a < i
    && (a >= 0 ==> forall t :: a < t <= i ==> d[t] > d[a])
    && (i + 1 < |d| ==> a >= 0 && d[i + 1] <= d[a])
  }

  /** Moves up the parents to find one with a right sibling. */
  method Climb(curr: ObjDesc, rootLevel: nat, ghost objs: seq<ObjDesc>, ghost d: Depths, ghost i: nat)
    returns (next: ObjDesc?)
    requires Linked(objs, d) && i < |objs| && curr == objs[i] && LevelsBut(objs, d, i, |d|)
    requires i + 1 < |d| ==> d[i + 1] < d[i]
    ensures next == ObjAt(objs, NextPosition(d, i, rootLevel))
  {
    hide Forward, Backward, Parent, LeftSibling, RightSibling, FirstChild, LastChild, Above, NextPosition;
    assert LinkedAt(objs, d, i);
    var obj := curr.parent;
    ghost var a := Parent(d, i);
    ClimbFrom(d, i);
    while obj != null
      invariant -1 <= a < |objs| && obj == ObjAt(objs, a) && Above(d, a, i)
      decreases a
    {
      assert LinkedAt(objs, d, a);
      ClimbOn(d, a, i, rootLevel);
      if obj.level <= rootLevel {
        return null;
      } else if obj.rightSibling != null {
        return obj.rightSibling;
      }
      a := Parent(d, a);
      obj := obj.parent;
    }
    ClimbOut(d, i, rootLevel);
    return null;
  }

  lemma ClimbFrom(d: Depths, i: nat)
    requires IsTree(d) && i < |d| && (i + 1 < |d| ==> d[i + 1] < d[i])
    ensures -1 <= Parent(d, i) < i && Above(d, Parent(d, i), i)
  {
    hide Forward, Backward;
    ParentDepth(d, i);
  }

  /** What the level and the right sibling of an ancestor tell. */
  lemma ClimbOn(d: Depths, a: nat, i: nat, rootLevel: nat)
    requires IsTree(d) && i < |d| && Above(d, a, i)
    ensures -1 <= RightSibling(d, a) < |d| && a < i
    ensures d[a] <= rootLevel ==> NextPosition(d, i, rootLevel) == -1
    ensures d[a] > rootLevel && RightSibling(d, a) != -1 ==> NextPosition(d, i, rootLevel) == RightSibling(d, a)
    ensures RightSibling(d, a) == -1 ==> -1 <= Parent(d, a) < a && Above(d, Parent(d, a), i)
  {
    hide Forward, Backward;
    EndHere(d, a, i);
    ParentDepth(d, a);
  }

  lemma ClimbOut(d: Depths, i: nat, rootLevel: nat)
    requires i < |d| && Above(d, -1, i)
    ensures NextPosition(d, i, rootLevel) == -1
  {}

  /** The subtree of an ancestor of `i` that what follows `i` is not below ends after `i`. */
  lemma EndHere(d: Depths, a: nat, i: nat)
    requires IsTree(d) && a <= i < |d|
    requires forall t :: a < t <= i ==> d[t] > d[a]
    ensures i + 1 == |d| || d[i + 1] <= d[a] ==> End(d, a) == i + 1
  {
    if i + 1 == |d| || d[i + 1] <= d[a] {
      ForwardUnique(d, d[a], a + 1, i + 1);
    }
  }

  /** The next object of a search, and the scope of the rest of the search. */
  method NextObjDesc(curr: ObjDesc?, rootLevel: nat, scope: Scope,
                     ghost objs: seq<ObjDesc>, ghost d: Depths, ghost i: nat)
    returns (next: ObjDesc?, scope': Scope)
    requires curr != null ==>
               Linked(objs, d) && i < |objs| && curr == objs[i] && LevelsBut(objs, d, i, |d|)
    ensures scope' == if curr == null then scope else Rest(scope)
    ensures next == if curr == null then null else ObjAt(objs, Next(d, i, rootLevel, scope))
  {
    next, scope' := null, scope;
    if curr != null {
      assert LinkedAt(objs, d, i);
      match scope
      case ThisObject => next := null;
      case ChildrenOnly => next := curr.firstChild; scope' := SiblingsOnly;
      case SiblingsOnly => next := curr.rightSibling;
      case RecursiveDown => next := TraverseTree(curr, rootLevel, objs, d, i);
      case ToEnd => next := TraverseTree(curr, 0, objs, d, i);
    }
  }

  /** One object's level, from its parent's. */
  method SetLevel(obj: ObjDesc, ghost objs: seq<ObjDesc>, ghost d: Depths, ghost i: nat, ghost hi: nat)
    requires Linked(objs, d) && i < |objs| && obj == objs[i] && LevelsBut(objs, d, i, hi)
    modifies obj`level
    ensures Linked(objs, d) && LevelsBut(objs, d, i + 1, hi) && obj.level == d[i]
  {
    hide Forward, Backward, LeftSibling, RightSibling, FirstChild, LastChild;
    assert LinkedAt(objs, d, i);
    ParentDepth(d, i);
    obj.level := if obj.parent == null then 0 else 1 + obj.parent.level;
  }

  /** Sets the levels of an object and all objects below it, whatever they were, by the very
      traversal that reads levels: it only reads those that are right already. */
  method AdjustObjDescLevel(start: ObjDesc?, ghost objs: seq<ObjDesc>, ghost d: Depths, ghost p: nat)
    requires start != null ==>
               Linked(objs, d) && p < |objs| && start == objs[p] && LevelsBut(objs, d, p, End(d, p))
    modifies objs`level
    ensures start != null ==> Linked(objs, d) && Levels(objs, d)
  {
    hide *;
    if start == null {
      return;
    }
    LinkedSizes(objs, d);
    ObjAtPosition(objs, p);
    var obj: ObjDesc?, scope := start, RecursiveDown;
    ghost var i := p;
    while obj != null
      invariant scope == RecursiveDown && Linked(objs, d)
      invariant obj != null ==> p <= i < |objs| && obj == objs[i] && LevelsBut(objs, d, i, End(d, p))
      invariant obj != null && i > p ==> start.level == d[p]
      invariant obj == null ==> Levels(objs, d)
      decreases if obj == null then 0 else |objs| - i
    {
      SetLevel(obj, objs, d, i, End(d, p));
      AdjustStep(objs, d, p, i);
      obj, scope := NextObjDesc(obj, start.level, scope, objs, d, i);
      i := i + 1;
    }
  }

  /** Where the adjustment goes on after position `i`, and that it is complete if it stops. */
  lemma AdjustStep(objs: seq<ObjDesc>, d: Depths, p: nat, i: nat)
    requires p <= i < |objs| == |d| && LevelsBut(objs, d, i + 1, End(d, p))
    ensures LevelsBut(objs, d, i, |d|)
    ensures objs[p].level == d[p]
    ensures Rest(RecursiveDown) == RecursiveDown
    ensures var k := Next(d, i, d[p], RecursiveDown);
            if k < 0 then ObjAt(objs, k) == null && Levels(objs, d) else k == i + 1 && ObjAt(objs, k) == objs[k]
  {
    hide Forward;
  }

  lemma LinkedSizes(objs: seq<ObjDesc>, d: Depths)
    requires Linked(objs, d)
    ensures |objs| == |d| && IsTree(d)
  {}

  lemma ObjAtPosition(objs: seq<ObjDesc>, i: int)
    requires -1 <= i < |objs|
    ensures ObjAt(objs, i) == if i < 0 then null else objs[i]
  {}

  // ----- pasting

  /** The objects after a subtree has been put in at position `p`. */
  function InsertObjs(objs: seq<ObjDesc>, p: nat, sub: seq<ObjDesc>): (r: seq<ObjDesc>)
    requires p <= |objs|
    ensures |r| == |objs| + |sub|
  {
    objs[..p] + sub + objs[p..]
  }

  lemma ObjsAt(objs: seq<ObjDesc>, p: nat, sub: seq<ObjDesc>, k: int)
    requires p <= |objs| && sub != []
    ensures 0 <= k < |objs| + |sub| ==>
              InsertObjs(objs, p, sub)[k] ==
              if k < p then objs[k] else if k < p + |sub| then sub[k - p] else objs[k - |sub|]
    ensures -1 <= k < |objs| ==> ObjAt(InsertObjs(objs, p, sub), Moved(p, |sub|, k)) == ObjAt(objs, k)
    ensures -1 <= k < |sub| ==> ObjAt(InsertObjs(objs, p, sub), Within(p, k)) == ObjAt(sub, k)
    ensures ObjAt(InsertObjs(objs, p, sub), p) == sub[0]
  {}

  /** The links of an object of the tree after the paste: those next to the slot point to the
      new object. */
  ghost function Relinked(links: Links, d: Depths, p: nat, b: nat, pasted: ObjDesc, i: nat): Links
    requires p <= |d|
  {
    Links(
      links.parent,
      if i == SlotRight(d, p, b) then pasted else links.left,
      if i == SlotLeft(d, p, b) then pasted else links.right,
      if i == SlotParent(d, p, b) && SlotLeft(d, p, b) == -1 then pasted else links.first,
      if i == SlotParent(d, p, b) && SlotRight(d, p, b) == -1 then pasted else links.last)
  }

  lemma KinOfOld(objs: seq<ObjDesc>, d: Depths, sub: seq<ObjDesc>, e: Depths, p: nat, b: nat, i: nat)
    requires |objs| == |d| && |sub| == |e| && Slot(d, p, b) && IsTree(e) && i < |d|
    ensures Kin(InsertObjs(objs, p, sub), Insert(d, p, e, b), Moved(p, |e|, i))
            == Relinked(Kin(objs, d, i), d, p, b, sub[0], i)
  {
    hide InsertObjs, Insert, Parent, LeftSibling, RightSibling, FirstChild, LastChild, ObjAt;
    hide SlotParent, SlotLeft, SlotRight;
    OldParent(d, p, e, b, i);
    OldLeft(d, p, e, b, i);
    OldRight(d, p, e, b, i);
    OldFirst(d, p, e, b, i);
    OldLast(d, p, e, b, i);
    Ranges(d, i);
    ObjsAt(objs, p, sub, Parent(d, i));
    ObjsAt(objs, p, sub, LeftSibling(d, i));
    ObjsAt(objs, p, sub, RightSibling(d, i));
    ObjsAt(objs, p, sub, FirstChild(d, i));
    ObjsAt(objs, p, sub, LastChild(d, i));
  }

  lemma Ranges(d: Depths, i: nat)
    requires i < |d|
    ensures -1 <= Parent(d, i) < |d| && -1 <= LeftSibling(d, i) < |d| && -1 <= RightSibling(d, i) < |d|
    ensures -1 <= FirstChild(d, i) < |d| && -1 <= LastChild(d, i) < |d|
  {}

  lemma KinOfNew(objs: seq<ObjDesc>, d: Depths, sub: seq<ObjDesc>, e: Depths, p: nat, b: nat, k: nat)
    requires |objs| == |d| && |sub| == |e| && Slot(d, p, b) && IsTree(e) && k < |e|
    ensures Kin(InsertObjs(objs, p, sub), Insert(d, p, e, b), p + k)
            == if k > 0 then Kin(sub, e, k) else
                 Kin(sub, e, 0).(parent := ObjAt(objs, SlotParent(d, p, b)),
                                 left := ObjAt(objs, SlotLeft(d, p, b)),
                                 right := ObjAt(objs, SlotRight(d, p, b)))
  {
    hide InsertObjs, Insert, Parent, LeftSibling, RightSibling, FirstChild, LastChild, ObjAt;
    Ranges(e, k);
    ObjsAt(objs, p, sub, FirstChild(e, k));
    ObjsAt(objs, p, sub, LastChild(e, k));
    if k > 0 {
      NewBelow(d, p, e, b, k);
      ObjsAt(objs, p, sub, Parent(e, k));
      ObjsAt(objs, p, sub, LeftSibling(e, k));
      ObjsAt(objs, p, sub, RightSibling(e, k));
    } else {
      NewRoot(d, p, e, b);
      OldPlace(d, p, b);
      ObjsAt(objs, p, sub, SlotParent(d, p, b));
      ObjsAt(objs, p, sub, SlotLeft(d, p, b));
      ObjsAt(objs, p, sub, SlotRight(d, p, b));
    }
  }

  lemma OldPlace(d: Depths, p: nat, b: nat)
    requires p <= |d|
    ensures -1 <= SlotParent(d, p, b) < p && -1 <= SlotLeft(d, p, b) < p
    ensures Moved(p, 0, SlotParent(d, p, b)) == SlotParent(d, p, b)
    ensures -1 <= SlotRight(d, p, b) < |d|
    ensures forall m :: Moved(p, m, SlotParent(d, p, b)) == SlotParent(d, p, b)
    ensures forall m :: Moved(p, m, SlotLeft(d, p, b)) == SlotLeft(d, p, b)
  {}

  ghost predicate Apart(objs: seq<ObjDesc>, sub: seq<ObjDesc>)
  {
    forall i, k :: 0 <= i < |objs| && 0 <= k < |sub| ==> objs[i] != sub[k]
  }

  /** A tree with right levels, and a tree apart from it whose levels do not matter. */
  ghost predicate Pasteable(objs: seq<ObjDesc>, d: Depths, sub: seq<ObjDesc>, e: Depths)
    reads objs, sub
  {
    Linked(objs, d) && Levels(objs, d) && Linked(sub, e) && Apart(objs, sub)
  }

  /** The links around the slot are set. */
  ghost predicate Spliced(objs: seq<ObjDesc>, d: Depths, sub: seq<ObjDesc>, e: Depths, p: nat, b: nat)
    requires |objs| == |d| && |sub| == |e| > 0 && Slot(d, p, b)
    reads objs, sub
  {
    && (forall i {:trigger Kin(objs, d, i)} :: 0 <= i < |objs| ==>
          LinksOf(objs[i]) == Relinked(Kin(objs, d, i), d, p, b, sub[0], i))
    && (forall k {:trigger Kin(sub, e, k)} :: 0 < k < |sub| ==> LinksOf(sub[k]) == Kin(sub, e, k))
    && LinksOf(sub[0]) == Kin(sub, e, 0).(parent := ObjAt(objs, SlotParent(d, p, b)),
                                          left := ObjAt(objs, SlotLeft(d, p, b)),
                                          right := ObjAt(objs, SlotRight(d, p, b)))
  }

  lemma SplicedIsLinked(objs: seq<ObjDesc>, d: Depths, sub: seq<ObjDesc>, e: Depths, p: nat, b: nat)
    requires |objs| == |d| && |sub| == |e| > 0 && Slot(d, p, b) && IsTree(e)
    requires Distinct(objs) && Distinct(sub) && Apart(objs, sub)
    requires Spliced(objs, d, sub, e, p, b)
    ensures Linked(InsertObjs(objs, p, sub), Insert(d, p, e, b))
  {
    hide Kin, Relinked, Insert, LinksOf;
    var objs', d' := InsertObjs(objs, p, sub), Insert(d, p, e, b);
    InsertIsTree(d, p, e, b);
    forall t | 0 <= t < |objs'|
      ensures LinkedAt(objs', d', t)
    {
      ObjsAt(objs, p, sub, t);
      if p <= t < p + |sub| {
        KinOfNew(objs, d, sub, e, p, b, t - p);
      } else {
        KinOfOld(objs, d, sub, e, p, b, if t < p then t else t - |sub|);
      }
    }
  }

  /** Adjusting the levels below the new object completes a paste. */
  method FinishPaste(newObj: ObjDesc, ghost objs: seq<ObjDesc>, ghost d: Depths,
                     ghost sub: seq<ObjDesc>, ghost e: Depths, ghost p: nat, ghost b: nat)
    requires |objs| == |d| && |sub| == |e| > 0 && Slot(d, p, b) && IsTree(e) && newObj == sub[0]
    requires Distinct(objs) && Distinct(sub) && Apart(objs, sub)
    requires Spliced(objs, d, sub, e, p, b) && Levels(objs, d)
    modifies objs`level, sub`level
    ensures Linked(InsertObjs(objs, p, sub), Insert(d, p, e, b))
    ensures Levels(InsertObjs(objs, p, sub), Insert(d, p, e, b))
    ensures newObj.level == b && Levels(objs, d)
  {
    hide Forward, Backward, Spliced;
    ghost var objs', d' := InsertObjs(objs, p, sub), Insert(d, p, e, b);
    SplicedIsLinked(objs, d, sub, e, p, b);
    NewRoot(d, p, e, b);
    forall t | 0 <= t < |objs'| && !(p <= t < p + |sub|)
      ensures objs'[t].level == d'[t]
    {
      ObjsAt(objs, p, sub, t);
      At(d, p, e, b, t);
    }
    InsertedFrom(objs, p, sub);
    AdjustObjDescLevel(newObj, objs', d', p);
    LevelsOfParts(objs, d, sub, e, p, b);
  }

  lemma LevelsOfParts(objs: seq<ObjDesc>, d: Depths, sub: seq<ObjDesc>, e: Depths, p: nat, b: nat)
    requires |objs| == |d| && |sub| == |e| > 0 && Slot(d, p, b) && IsTree(e)
    requires Levels(InsertObjs(objs, p, sub), Insert(d, p, e, b))
    ensures Levels(objs, d) && sub[0].level == b
  {
    hide Insert;
    var objs', d' := InsertObjs(objs, p, sub), Insert(d, p, e, b);
    forall i | 0 <= i < |objs|
      ensures objs[i].level == d[i]
    {
      At(d, p, e, b, Moved(p, |e|, i));
      assert objs'[Moved(p, |e|, i)] == objs[i];
    }
    At(d, p, e, b, p);
    assert objs'[p] == sub[0];
  }

  lemma InsertedFrom(objs: seq<ObjDesc>, p: nat, sub: seq<ObjDesc>)
    requires p <= |objs|
    ensures forall x :: x in InsertObjs(objs, p, sub) ==> x in objs || x in sub
  {}

  /** Adds an object, with all below it, as the last child of another. */
  method PasteObjDesc(newObj: ObjDesc?, parentObj: ObjDesc?,
                      ghost objs: seq<ObjDesc>, ghost d: Depths, ghost q: nat,
                      ghost sub: seq<ObjDesc>, ghost e: Depths) returns (r: ObjDesc?)
    requires newObj != null && parentObj != null ==>
               Pasteable(objs, d, sub, e) && newObj == sub[0] && q < |objs| && parentObj == objs[q]
    modifies objs`rightSibling, objs`firstChild, objs`lastChild, objs`level
    modifies sub`parent, sub`leftSibling, sub`rightSibling, sub`level
    ensures r == newObj
    ensures newObj != null && parentObj != null ==>
              var p, b := End(d, q), d[q] + 1;
              && Linked(InsertObjs(objs, p, sub), Insert(d, p, e, b))
              && Levels(InsertObjs(objs, p, sub), Insert(d, p, e, b))
    ensures newObj != null && parentObj != null ==>
              && newObj.parent == parentObj && newObj.leftSibling == old(parentObj.lastChild)
              && newObj.rightSibling == null && parentObj.lastChild == newObj
              && (old(parentObj.firstChild) == null ==> parentObj.firstChild == newObj)
              && (old(parentObj.firstChild) != null ==> parentObj.firstChild == old(parentObj.firstChild))
              && (newObj.leftSibling != null ==> newObj.leftSibling.rightSibling == newObj)
              && newObj.level == parentObj.level + 1
    ensures newObj == null || parentObj == null ==> forall o :: o in objs + sub ==> unchanged(o)
    ensures forall o :: o in objs + sub ==> o.keywords == old(o.keywords)
  {
    if newObj != null && parentObj != null {
      hide Forward, Backward, Insert, InsertObjs, Spliced;
      LastChildSlot(d, q);
      LinkLast(newObj, parentObj, objs, d, q, sub, e);
      FinishPaste(newObj, objs, d, sub, e, End(d, q), d[q] + 1);
    }
    return newObj;
  }

  method LinkLast(newObj: ObjDesc, parentObj: ObjDesc,
                  ghost objs: seq<ObjDesc>, ghost d: Depths, ghost q: nat,
                  ghost sub: seq<ObjDesc>, ghost e: Depths)
    requires Linked(objs, d) && Linked(sub, e) && Apart(objs, sub)
    requires newObj == sub[0] && q < |objs| && parentObj == objs[q]
    requires Slot(d, End(d, q), d[q] + 1)
    modifies objs`rightSibling, objs`firstChild, objs`lastChild
    modifies sub`parent, sub`leftSibling, sub`rightSibling
    ensures Spliced(objs, d, sub, e, End(d, q), d[q] + 1)
    ensures newObj.parent == parentObj && newObj.leftSibling == old(parentObj.lastChild) && newObj.rightSibling == null
    ensures parentObj.lastChild == newObj
    ensures parentObj.firstChild == if old(parentObj.firstChild) == null then newObj else old(parentObj.firstChild)
    ensures newObj.leftSibling != null ==> newObj.leftSibling.rightSibling == newObj
  {
    hide Forward, Backward, Parent, LeftSibling, RightSibling, FirstChild, LastChild;
    hide SlotParent, SlotLeft, SlotRight;
    ghost var p, b, l := End(d, q), d[q] + 1, LastChild(d, q);
    LastChildSlot(d, q);
    ChildEnds(d, q);
    Ranges(d, q);
    assert LinkedAt(objs, d, q);
    newObj.leftSibling := parentObj.lastChild;
    newObj.rightSibling := null;
    newObj.parent := parentObj;
    if parentObj.firstChild == null {
      parentObj.firstChild := newObj;
    }
    if parentObj.lastChild != null {
      parentObj.lastChild.rightSibling := newObj;
    }
    parentObj.lastChild := newObj;
    forall i | 0 <= i < |objs|
      ensures LinksOf(objs[i]) == Relinked(Kin(objs, d, i), d, p, b, sub[0], i)
    {
      assert old(LinkedAt(objs, d, i));
      assert i != q ==> objs[i] != objs[q];
      assert l >= 0 && i != l ==> objs[i] != objs[l];
    }
    forall k | 0 < k < |sub|
      ensures LinksOf(sub[k]) == Kin(sub, e, k)
    {
      assert old(LinkedAt(sub, e, k));
    }
    assert old(LinkedAt(sub, e, 0));
  }

  lemma ChildEnds(d: Depths, q: nat)
    requires IsTree(d) && q < |d|
    ensures FirstChild(d, q) == -1 <==> LastChild(d, q) == -1
    ensures LastChild(d, q) != q
  {
    if FirstChild(d, q) == -1 {
      ForwardUnique(d, d[q], q + 1, q + 1);
      BackwardUnique(d, d[q] + 1, q + 1, q);
    } else {
      assert d[q + 1] == d[q] + 1;
      assert End(d, q) > q + 1;
    }
  }

  /** Adds an object, with all below it, as the left sibling of another. */
  method PasteObjDescBefore(newObj: ObjDesc?, oldObj: ObjDesc?,
                ghost objs: seq<ObjDesc>, ghost d: Depths, ghost o: nat,
                ghost sub: seq<ObjDesc>, ghost e: Depths) returns (r: ObjDesc?)
    requires newObj != null && oldObj != null ==>
               Pasteable(objs, d, sub, e) && newObj == sub[0] && 0 < o < |objs| && oldObj == objs[o]
    modifies objs`leftSibling, objs`rightSibling, objs`firstChild, objs`level
    modifies sub`parent, sub`leftSibling, sub`rightSibling, sub`level
    ensures r == newObj
    ensures newObj != null && oldObj != null ==>
              && Linked(InsertObjs(objs, o, sub), Insert(d, o, e, d[o]))
              && Levels(InsertObjs(objs, o, sub), Insert(d, o, e, d[o]))
    ensures newObj != null && oldObj != null ==>
              && newObj.parent == old(oldObj.parent) && oldObj.parent == old(oldObj.parent)
              && newObj.leftSibling == old(oldObj.leftSibling) && newObj.rightSibling == oldObj
              && oldObj.leftSibling == newObj && newObj.level == oldObj.level
              && (if newObj.leftSibling == null then newObj.parent != null && newObj.parent.firstChild == newObj
                  else newObj.leftSibling.rightSibling == newObj)
    ensures newObj == null || oldObj == null ==> forall o :: o in objs + sub ==> unchanged(o)
    ensures forall o :: o in objs + sub ==> o.keywords == old(o.keywords)
  {
    if newObj != null && oldObj != null {
      hide Forward, Backward, Insert, InsertObjs, Spliced;
      BeforeSlot(d, o);
      LinkBefore(newObj, oldObj, objs, d, o, sub, e);
      FinishPaste(newObj, objs, d, sub, e, o, d[o]);
    }
    return newObj;
  }

  method LinkBefore(newObj: ObjDesc, oldObj: ObjDesc,
                ghost objs: seq<ObjDesc>, ghost d: Depths, ghost o: nat,
                ghost sub: seq<ObjDesc>, ghost e: Depths)
    requires Linked(objs, d) && Linked(sub, e) && Apart(objs, sub)
    requires newObj == sub[0] && 0 < o < |objs| && oldObj == objs[o]
    requires Slot(d, o, d[o])
    modifies objs`leftSibling, objs`rightSibling, objs`firstChild
    modifies sub`parent, sub`leftSibling, sub`rightSibling
    ensures Spliced(objs, d, sub, e, o, d[o])
    ensures newObj.parent == old(oldObj.parent) && oldObj.parent == old(oldObj.parent)
    ensures newObj.leftSibling == old(oldObj.leftSibling) && newObj.rightSibling == oldObj
    ensures oldObj.leftSibling == newObj
    ensures if newObj.leftSibling == null then newObj.parent != null && newObj.parent.firstChild == newObj
            else newObj.leftSibling.rightSibling == newObj
  {
    hide Forward, Backward, Parent, LeftSibling, RightSibling, FirstChild, LastChild;
    hide SlotParent, SlotLeft, SlotRight, Kin, Slot;
    KinFields(objs, d, o);
    ghost var p, b, a, s := o, d[o], Parent(d, o), LeftSibling(d, o);
    BeforeSlot(d, o);
    HasParent(d, o);
    Ranges(d, o);
    assert LinkedAt(objs, d, o) && LinkedAt(sub, e, 0);
    assert newObj != objs[o] && newObj != objs[a] && (s >= 0 ==> newObj != objs[s]);
    newObj.leftSibling := oldObj.leftSibling;
    newObj.rightSibling := oldObj;
    newObj.parent := oldObj.parent;
    if oldObj.leftSibling == null {
      oldObj.parent.firstChild := newObj;
    } else {
      oldObj.leftSibling.rightSibling := newObj;
    }
    oldObj.leftSibling := newObj;
    forall i | 0 <= i < |objs|
      ensures LinksOf(objs[i]) == Relinked(Kin(objs, d, i), d, p, b, sub[0], i)
    {
      assert old(LinkedAt(objs, d, i));
      assert i != o ==> objs[i] != objs[o];
      assert i != a ==> objs[i] != objs[a];
      assert s >= 0 && i != s ==> objs[i] != objs[s];
    }
    forall k | 0 < k < |sub|
      ensures LinksOf(sub[k]) == Kin(sub, e, k)
    {
      assert old(LinkedAt(sub, e, k));
    }
    assert old(LinkedAt(sub, e, 0));
  }

  /** Adds an object, with all below it, as the right sibling of another. */
  method PasteObjDescAfter(newObj: ObjDesc?, oldObj: ObjDesc?,
                ghost objs: seq<ObjDesc>, ghost d: Depths, ghost o: nat,
                ghost sub: seq<ObjDesc>, ghost e: Depths) returns (r: ObjDesc?)
    requires newObj != null && oldObj != null ==>
               Pasteable(objs, d, sub, e) && newObj == sub[0] && 0 < o < |objs| && oldObj == objs[o]
    modifies objs`leftSibling, objs`rightSibling, objs`lastChild, objs`level
    modifies sub`parent, sub`leftSibling, sub`rightSibling, sub`level
    ensures r == newObj
    ensures newObj != null && oldObj != null ==>
              && Linked(InsertObjs(objs, End(d, o), sub), Insert(d, End(d, o), e, d[o]))
              && Levels(InsertObjs(objs, End(d, o), sub), Insert(d, End(d, o), e, d[o]))
    ensures newObj != null && oldObj != null ==>
              && newObj.parent == old(oldObj.parent) && oldObj.parent == old(oldObj.parent)
              && newObj.rightSibling == old(oldObj.rightSibling) && newObj.leftSibling == oldObj
              && oldObj.rightSibling == newObj && newObj.level == oldObj.level
              && (if newObj.rightSibling == null then newObj.parent != null && newObj.parent.lastChild == newObj
                  else newObj.rightSibling.leftSibling == newObj)
    ensures newObj == null || oldObj == null ==> forall o :: o in objs + sub ==> unchanged(o)
    ensures forall o :: o in objs + sub ==> o.keywords == old(o.keywords)
  {
    if newObj != null && oldObj != null {
      hide Forward, Backward, Insert, InsertObjs, Spliced;
      AfterSlot(d, o);
      LinkAfter(newObj, oldObj, objs, d, o, sub, e);
      FinishPaste(newObj, objs, d, sub, e, End(d, o), d[o]);
    }
    return newObj;
  }

  method LinkAfter(newObj: ObjDesc, oldObj: ObjDesc,
                ghost objs: seq<ObjDesc>, ghost d: Depths, ghost o: nat,
                ghost sub: seq<ObjDesc>, ghost e: Depths)
    requires Linked(objs, d) && Linked(sub, e) && Apart(objs, sub)
    requires newObj == sub[0] && 0 < o < |objs| && oldObj == objs[o]
    requires Slot(d, End(d, o), d[o])
    modifies objs`leftSibling, objs`rightSibling, objs`lastChild
    modifies sub`parent, sub`leftSibling, sub`rightSibling
    ensures Spliced(objs, d, sub, e, End(d, o), d[o])
    ensures newObj.parent == old(oldObj.parent) && oldObj.parent == old(oldObj.parent)
    ensures newObj.rightSibling == old(oldObj.rightSibling) && newObj.leftSibling == oldObj
    ensures oldObj.rightSibling == newObj
    ensures if newObj.rightSibling == null then newObj.parent != null && newObj.parent.lastChild == newObj
            else newObj.rightSibling.leftSibling == newObj
  {
    hide Forward, Backward, Parent, LeftSibling, RightSibling, FirstChild, LastChild;
    hide SlotParent, SlotLeft, SlotRight, Kin, Slot;
    KinFields(objs, d, o);
    ghost var p, b, a, s := End(d, o), d[o], Parent(d, o), RightSibling(d, o);
    AfterSlot(d, o);
    HasParent(d, o);
    Ranges(d, o);
    assert LinkedAt(objs, d, o);
    newObj.rightSibling := oldObj.rightSibling;
    newObj.leftSibling := oldObj;
    newObj.parent := oldObj.parent;
    if oldObj.rightSibling == null {
      oldObj.parent.lastChild := newObj;
    } else {
      oldObj.rightSibling.leftSibling := newObj;
    }
    oldObj.rightSibling := newObj;
    forall i | 0 <= i < |objs|
      ensures LinksOf(objs[i]) == Relinked(Kin(objs, d, i), d, p, b, sub[0], i)
    {
      assert old(LinkedAt(objs, d, i));
      assert i != o ==> objs[i] != objs[o];
      assert i != a ==> objs[i] != objs[a];
      assert s >= 0 && i != s ==> objs[i] != objs[s];
    }
    forall k | 0 < k < |sub|
      ensures LinksOf(sub[k]) == Kin(sub, e, k)
    {
      assert old(LinkedAt(sub, e, k));
    }
    assert old(LinkedAt(sub, e, 0));
  }

  lemma KinFields(objs: seq<ObjDesc>, d: Depths, o: nat)
    requires o < |objs| == |d|
    ensures Kin(objs, d, o).parent == ObjAt(objs, Parent(d, o))
    ensures Kin(objs, d, o).left == ObjAt(objs, LeftSibling(d, o))
    ensures Kin(objs, d, o).right == ObjAt(objs, RightSibling(d, o))
  {}

  lemma HasParent(d: Depths, o: nat)
    requires IsTree(d) && 0 < o < |d|
    ensures 0 <= Parent(d, o) < o
    ensures LeftSibling(d, o) < o && LeftSibling(d, o) != Parent(d, o)
    ensures RightSibling(d, o) == -1 || RightSibling(d, o) > o
  {
    ParentDepth(d, o);
  }

  // ----- cutting

  /** The objects that stay when the subtree of position `o` goes, and those that go. */
  function Staying(objs: seq<ObjDesc>, d: Depths, o: nat): seq<ObjDesc>
    requires o < |objs| == |d|
  {
    objs[..o] + objs[End(d, o)..]
  }

  function Going(objs: seq<ObjDesc>, d: Depths, o: nat): seq<ObjDesc>
    requires o < |objs| == |d|
  {
    objs[o..End(d, o)]
  }

  /** Takes an object, with all below it, out of its tree. Levels stay as they are. */
  method CutObjDesc(start: ObjDesc?, ghost objs: seq<ObjDesc>, ghost d: Depths, ghost o: nat) returns (r: ObjDesc?)
    requires start != null ==> Linked(objs, d) && 0 < o < |objs| && start == objs[o]
    modifies objs`parent, objs`leftSibling, objs`rightSibling, objs`firstChild, objs`lastChild
    ensures r == start
    ensures start != null ==> Linked(Staying(objs, d, o), Without(d, o)) && Linked(Going(objs, d, o), Subtree(d, o))
    ensures start != null ==>
              && start.parent == start.leftSibling == start.rightSibling == null
              && (if old(start.rightSibling) != null
                  then old(start.rightSibling).leftSibling == old(start.leftSibling)
                  else old(start.parent) != null && old(start.parent).lastChild == old(start.leftSibling))
              && (if old(start.leftSibling) != null
                  then old(start.leftSibling).rightSibling == old(start.rightSibling)
                  else old(start.parent) != null && old(start.parent).firstChild == old(start.rightSibling))
    ensures forall o :: o in objs ==> o.keywords == old(o.keywords)
  {
    if start != null {
      hide *;
      SplitObjs(objs, d, o);
      Unlink(start, Staying(objs, d, o), Without(d, o), Going(objs, d, o), Subtree(d, o), o, d[o]);
    }
    return start;
  }

  lemma SplitObjs(objs: seq<ObjDesc>, d: Depths, o: nat)
    requires |objs| == |d| && IsTree(d) && 0 < o < |d|
    ensures var rest, sub := Staying(objs, d, o), Going(objs, d, o);
            && |rest| == |Without(d, o)| && |sub| == |Subtree(d, o)| > 0 && sub[0] == objs[o]
            && InsertObjs(rest, o, sub) == objs
            && (forall x :: x in rest || x in sub ==> x in objs)
    ensures Slot(Without(d, o), o, d[o]) && IsTree(Subtree(d, o))
    ensures Insert(Without(d, o), o, Subtree(d, o), d[o]) == d
  {
    hide Forward, Insert;
    Split(d, o);
  }

  lemma DistinctParts(objs: seq<ObjDesc>, p: nat, sub: seq<ObjDesc>)
    requires p <= |objs| && sub != [] && Distinct(InsertObjs(objs, p, sub))
    ensures Distinct(objs) && Distinct(sub) && Apart(objs, sub)
  {
    var all := InsertObjs(objs, p, sub);
    assert forall i :: 0 <= i < |objs| ==> objs[i] == all[Moved(p, |sub|, i)];
    assert forall k :: 0 <= k < |sub| ==> sub[k] == all[p + k];
  }

  /** In a tree that has a subtree in it, the links around the subtree are set. */
  lemma LinkedIsSpliced(objs: seq<ObjDesc>, d: Depths, sub: seq<ObjDesc>, e: Depths, p: nat, b: nat)
    requires |objs| == |d| && |sub| == |e| > 0 && Slot(d, p, b) && IsTree(e)
    requires Linked(InsertObjs(objs, p, sub), Insert(d, p, e, b))
    ensures Spliced(objs, d, sub, e, p, b)
  {
    hide Kin, Relinked, Insert, LinksOf;
    var objs', d' := InsertObjs(objs, p, sub), Insert(d, p, e, b);
    forall i | 0 <= i < |objs|
      ensures LinksOf(objs[i]) == Relinked(Kin(objs, d, i), d, p, b, sub[0], i)
    {
      var t := Moved(p, |sub|, i);
      assert LinkedAt(objs', d', t);
      ObjsAt(objs, p, sub, t);
      KinOfOld(objs, d, sub, e, p, b, i);
    }
    forall k | 0 <= k < |sub|
      ensures k > 0 ==> LinksOf(sub[k]) == Kin(sub, e, k)
      ensures k == 0 ==> LinksOf(sub[0]) == Kin(sub, e, 0).(parent := ObjAt(objs, SlotParent(d, p, b)),
                                                            left := ObjAt(objs, SlotLeft(d, p, b)),
                                                            right := ObjAt(objs, SlotRight(d, p, b)))
    {
      assert LinkedAt(objs', d', p + k);
      ObjsAt(objs, p, sub, p + k);
      KinOfNew(objs, d, sub, e, p, b, k);
    }
  }

  /** Sets the links around a subtree as if it had never been there. */
  method Unlink(start: ObjDesc, ghost objs: seq<ObjDesc>, ghost d: Depths,
                ghost sub: seq<ObjDesc>, ghost e: Depths, ghost p: nat, ghost b: nat)
    requires |objs| == |d| && |sub| == |e| > 0 && Slot(d, p, b) && IsTree(e) && start == sub[0]
    requires Linked(InsertObjs(objs, p, sub), Insert(d, p, e, b))
    modifies objs`leftSibling, objs`rightSibling, objs`firstChild, objs`lastChild
    modifies sub`parent, sub`leftSibling, sub`rightSibling
    ensures Linked(objs, d) && Linked(sub, e)
    ensures start.parent == start.leftSibling == start.rightSibling == null
    ensures if old(start.rightSibling) != null then old(start.rightSibling).leftSibling == old(start.leftSibling)
            else old(start.parent) != null && old(start.parent).lastChild == old(start.leftSibling)
    ensures if old(start.leftSibling) != null then old(start.leftSibling).rightSibling == old(start.rightSibling)
            else old(start.parent) != null && old(start.parent).firstChild == old(start.rightSibling)
  {
    hide Forward, Backward, Parent, LeftSibling, RightSibling, FirstChild, LastChild;
    hide SlotParent, SlotLeft, SlotRight, Insert, InsertObjs;
    ghost var a, l, r := SlotParent(d, p, b), SlotLeft(d, p, b), SlotRight(d, p, b);
    SlotNeighbours(d, p, b);
    LinkedIsSpliced(objs, d, sub, e, p, b);
    DistinctParts(objs, p, sub);
    RootLinks(e);
    assert objs[a] != start && (l >= 0 ==> objs[l] != start) && (r >= 0 ==> objs[r] != start);
    if start.rightSibling == null {
      start.parent.lastChild := start.leftSibling;
    } else {
      start.rightSibling.leftSibling := start.leftSibling;
    }
    if start.leftSibling == null {
      start.parent.firstChild := start.rightSibling;
    } else {
      start.leftSibling.rightSibling := start.rightSibling;
    }
    start.parent := null;
    start.leftSibling := null;
    start.rightSibling := null;
    forall i | 0 <= i < |objs|
      ensures LinkedAt(objs, d, i)
    {
      assert old(LinksOf(objs[i])) == Relinked(Kin(objs, d, i), d, p, b, sub[0], i);
      assert i != a ==> objs[i] != objs[a];
      assert l >= 0 && i != l ==> objs[i] != objs[l];
      assert r >= 0 && i != r ==> objs[i] != objs[r];
    }
    forall k | 0 <= k < |sub|
      ensures LinkedAt(sub, e, k)
    {
      assert k > 0 ==> old(LinksOf(sub[k])) == Kin(sub, e, k);
    }
  }

  lemma RootLinks(e: Depths)
    requires IsTree(e)
    ensures Parent(e, 0) == -1 && LeftSibling(e, 0) == -1 && RightSibling(e, 0) == -1
  {
    ForwardUnique(e, 0, 1, |e|);
  }
}
