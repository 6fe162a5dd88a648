/** The search for the p-th matching keyword among the objects that a scope takes in. */
module OdlSearch {
  import opened Common
  import opened OdlShape
  import opened OdlTree

  /** A keyword of an object, by its index in the object's list. */
  datatype Found = Found(holder: ObjDesc, index: nat)

  /** What a keyword must look like: a pattern for its name and one for its value, each of
      which may be left out, and the comparison of a pattern with a text. */
  datatype Query = Query(name: Option<string>, value: Option<string>, like: (string, string) -> bool) {
    predicate Accepts(kwd: Keyword)
    {
      && (name.Some? ==> like(name.value, kwd.name))
      && (value.Some? ==> like(value.value, kwd.value))
    }
  }

  /** The matching keywords among the first `n` of an object, in order. */
  ghost function HitsIn(obj: ObjDesc, n: nat, query: Query): seq<Found>
    requires n <= |obj.keywords|
    reads obj`keywords
  {
    if n == 0 then [] else
      HitsIn(obj, n - 1, query) + (if query.Accepts(obj.keywords[n - 1]) then [Found(obj, n - 1)] else [])
  }

  /** The matching keywords of the objects at the positions `v`, in order. */
  ghost function Hits(objs: seq<ObjDesc>, v: seq<nat>, query: Query): seq<Found>
    requires forall k :: 0 <= k < |v| ==> v[k] < |objs|
    reads objs`keywords
  {
    if v == [] then [] else
      HitsIn(objs[v[0]], |objs[v[0]].keywords|, query) + Hits(objs, v[1..], query)
  }

  /** The result for the `position`-th match; position 0 asks for the first one, too. */
  function Pick(hits: seq<Found>, position: nat): Option<Found>
  {
    var p := if position == 0 then 0 else position - 1;
    if p < |hits| then Some(hits[p]) else None
  }

  /** After `n` matches without the right one, the search counts on. */
  predicate Counted(current: nat, n: nat, position: nat)
  {
    if position == 0 then n == 0 && current == 0 else current == n < position
  }

  /** Looks through the keywords of one object. */
  method FindInObject(obj: ObjDesc, query: Query, position: nat, current: nat, ghost before: seq<Found>)
    returns (foundKwd: Option<Found>, current': nat)
    requires Counted(current, |before|, position)
    ensures var hits := before + HitsIn(obj, |obj.keywords|, query);
            if foundKwd.Some? then forall rest :: Pick(hits + rest, position) == foundKwd
            else Counted(current', |hits|, position)
  {
    foundKwd, current' := None, current;
    var k := 0;
    while k < |obj.keywords|
      invariant k <= |obj.keywords|
      invariant Counted(current', |before + HitsIn(obj, k, query)|, position)
    {
      var found := query.Accepts(obj.keywords[k]);
      if found && position > 0 {
        current' := current' + 1;
        found := current' == position;
      }
      if found {
        HitsPrefix(obj, k + 1, query);
        return Some(Found(obj, k)), current';
      }
      k := k + 1;
    }
  }

  lemma {:induction false} HitsPrefix(obj: ObjDesc, n: nat, query: Query)
    requires n <= |obj.keywords|
    ensures HitsIn(obj, n, query) <= HitsIn(obj, |obj.keywords|, query)
    decreases |obj.keywords| - n
  {
    if n == |obj.keywords| {
    } else {
      HitsPrefix(obj, n + 1, query);
    }
  }

  /** Finds the `position`-th keyword that the query accepts in the scope of an object. */
  method FindKwd(start: ObjDesc?, query: Query, position: nat, searchScope: Scope,
                 ghost objs: seq<ObjDesc>, ghost d: Depths, ghost s: nat)
    returns (foundKwd: Option<Found>)
    requires start != null ==> Linked(objs, d) && Levels(objs, d) && s < |objs| && start == objs[s]
    ensures start == null ==> foundKwd == None
    ensures start != null ==>
              var v := Visit(d, s, d[s], searchScope);
              exists spots: seq<(nat, nat)> ::
                && (forall i, j :: 0 <= i < j < |spots| ==>
                      spots[i].0 < spots[j].0 || (spots[i].0 == spots[j].0 && spots[i].1 < spots[j].1))
                && (forall x: (nat, nat) :: x in spots <==>
                      && x.0 < |v| && x.1 < |objs[v[x.0]].keywords|
                      && (query.name.Some? ==> query.like(query.name.value, objs[v[x.0]].keywords[x.1].name))
                      && (query.value.Some? ==> query.like(query.value.value, objs[v[x.0]].keywords[x.1].value)))
                && var p := if position == 0 then 0 else position - 1;
                if p >= |spots| then foundKwd == None
                else spots[p].0 < |v| && foundKwd == Some(Found(objs[v[spots[p].0]], spots[p].1))
  {
    hide *;
    foundKwd := FindHit(start, query, position, searchScope, objs, d, s);
    if start != null {
      LinkedSizes(objs, d);
      HitsAreSpots(objs, Visit(d, s, d[s], searchScope), query, position);
    }
  }

  /** The same, by the matches in a list. */
  method FindHit(start: ObjDesc?, query: Query, position: nat, searchScope: Scope,
                 ghost objs: seq<ObjDesc>, ghost d: Depths, ghost s: nat)
    returns (foundKwd: Option<Found>)
    requires start != null ==> Linked(objs, d) && Levels(objs, d) && s < |objs| && start == objs[s]
    ensures foundKwd == if start == null then None else
                          Pick(Hits(objs, Visit(d, s, d[s], searchScope), query), position)
  {
    hide *;
    foundKwd := None;
    if start == null {
      return;
    }
    LinkedSizes(objs, d);
    LevelsBefore(objs, d);
    var obj: ObjDesc?, scope, current := start, searchScope, 0;
    ghost var i: int, before := s, [];
    ghost var all := Hits(objs, Visit(d, s, d[s], searchScope), query);
    NoneYet(objs, s, all, position);
    while obj != null
      invariant -1 <= i < |objs| && obj == ObjAt(objs, i)
      invariant Counted(current, |before|, position)
      invariant foundKwd == None
      invariant all == before + Hits(objs, Visit(d, i, d[s], scope), query)
      decreases if i < 0 then 0 else |objs| - i
    {
      ObjAtPosition(objs, i);
      ghost var next := Next(d, i, d[s], scope);
      VisitHits(objs, d, i, d[s], scope, query);
      foundKwd, current := FindInObject(obj, query, position, current, before);
      ghost var here := HitsIn(obj, |obj.keywords|, query);
      assert all == (before + here) + Hits(objs, Visit(d, next, d[s], Rest(scope)), query);
      if foundKwd.Some? {
        return;
      }
      obj, scope := NextObjDesc(obj, start.level, scope, objs, d, i);
      before, i := before + here, next;
    }
    ObjAtPosition(objs, i);
    NoMore(objs, d, i, d[s], scope, query, before, current, position);
  }

  lemma LevelsBefore(objs: seq<ObjDesc>, d: Depths)
    requires |objs| == |d| && Levels(objs, d)
    ensures forall i: nat :: i < |d| ==> objs[i].level == d[i] && LevelsBut(objs, d, i, |d|)
  {}

  lemma NoneYet(objs: seq<ObjDesc>, s: nat, all: seq<Found>, position: nat)
    requires s < |objs|
    ensures Counted(0, 0, position) && all == [] + all && ObjAt(objs, s) == objs[s]
  {}

  lemma NoMore(objs: seq<ObjDesc>, d: Depths, i: int, rootLevel: nat, scope: Scope, query: Query,
               before: seq<Found>, current: nat, position: nat)
    requires i == -1 && |objs| == |d| && Counted(current, |before|, position)
    ensures Pick(before + Hits(objs, Visit(d, i, rootLevel, scope), query), position) == None
  {
    assert before + [] == before;
  }

  lemma VisitHits(objs: seq<ObjDesc>, d: Depths, i: nat, rootLevel: nat, scope: Scope, query: Query)
    requires i < |objs| == |d|
    ensures Hits(objs, Visit(d, i, rootLevel, scope), query)
            == HitsIn(objs[i], |objs[i].keywords|, query)
               + Hits(objs, Visit(d, Next(d, i, rootLevel, scope), rootLevel, Rest(scope)), query)
  {
    var v, next := Visit(d, i, rootLevel, scope), Next(d, i, rootLevel, scope);
    assert v[1..] == Visit(d, next, rootLevel, Rest(scope));
  }

  // ----- the matches, spelled out

  /** The places of the first `n` matching keywords of the object visited at `t`. */
  ghost function SpotsIn(obj: ObjDesc, n: nat, query: Query, t: nat): seq<(nat, nat)>
    requires n <= |obj.keywords|
    reads obj`keywords
  {
    if n == 0 then [] else
      SpotsIn(obj, n - 1, query, t) + (if query.Accepts(obj.keywords[n - 1]) then [(t, n - 1)] else [])
  }

  /** The places of all matching keywords; the objects are visited from `t` on. */
  ghost function Spots(objs: seq<ObjDesc>, v: seq<nat>, query: Query, t: nat): seq<(nat, nat)>
    requires forall k :: 0 <= k < |v| ==> v[k] < |objs|
    reads objs`keywords
  {
    if v == [] then [] else
      SpotsIn(objs[v[0]], |objs[v[0]].keywords|, query, t) + Spots(objs, v[1..], query, t + 1)
  }

  ghost predicate InOrder(spots: seq<(nat, nat)>) {
    forall i, j :: 0 <= i < j < |spots| ==>
      spots[i].0 < spots[j].0 || (spots[i].0 == spots[j].0 && spots[i].1 < spots[j].1)
  }

  lemma {:induction false} SpotInObject(obj: ObjDesc, n: nat, query: Query, t: nat, x: (nat, nat))
    requires n <= |obj.keywords|
    ensures x in SpotsIn(obj, n, query, t) <==> x.0 == t && x.1 < n && query.Accepts(obj.keywords[x.1])
  {
    hide Query.Accepts;
    if n == 0 {
    } else {
      SpotInObject(obj, n - 1, query, t, x);
    }
  }

  lemma {:induction false} ObjectInOrder(obj: ObjDesc, n: nat, query: Query, t: nat)
    requires n <= |obj.keywords|
    ensures var spots, hits := SpotsIn(obj, n, query, t), HitsIn(obj, n, query);
            && InOrder(spots) && |spots| == |hits|
            && forall i :: 0 <= i < |spots| ==>
                 spots[i].0 == t && spots[i].1 < n && hits[i] == Found(obj, spots[i].1)
  {
    hide Query.Accepts;
    if n == 0 {
    } else {
      ObjectInOrder(obj, n - 1, query, t);
    }
  }

  lemma {:induction false} SpotInAll(objs: seq<ObjDesc>, v: seq<nat>, query: Query, t: nat, x: (nat, nat))
    requires forall k :: 0 <= k < |v| ==> v[k] < |objs|
    ensures x in Spots(objs, v, query, t) <==>
            && t <= x.0 < t + |v| && x.1 < |objs[v[x.0 - t]].keywords|
            && query.Accepts(objs[v[x.0 - t]].keywords[x.1])
  {
    hide Query.Accepts, SpotsIn;
    if v == [] {
    } else {
      SpotInObject(objs[v[0]], |objs[v[0]].keywords|, query, t, x);
      SpotInAll(objs, v[1..], query, t + 1, x);
    }
  }

  lemma {:induction false} AllInOrder(objs: seq<ObjDesc>, v: seq<nat>, query: Query, t: nat)
    requires forall k :: 0 <= k < |v| ==> v[k] < |objs|
    ensures var spots, hits := Spots(objs, v, query, t), Hits(objs, v, query);
            && InOrder(spots) && |spots| == |hits|
            && forall i :: 0 <= i < |spots| ==>
                 t <= spots[i].0 < t + |v| && hits[i] == Found(objs[v[spots[i].0 - t]], spots[i].1)
  {
    hide SpotsIn, HitsIn;
    if v == [] {
    } else {
      ObjectInOrder(objs[v[0]], |objs[v[0]].keywords|, query, t);
      AllInOrder(objs, v[1..], query, t + 1);
    }
  }

  lemma HitsAt(objs: seq<ObjDesc>, v: seq<nat>, query: Query, position: nat) returns (spots: seq<(nat, nat)>)
    requires forall k :: 0 <= k < |v| ==> v[k] < |objs|
    ensures forall i, j :: 0 <= i < j < |spots| ==>
              spots[i].0 < spots[j].0 || (spots[i].0 == spots[j].0 && spots[i].1 < spots[j].1)
    ensures forall x: (nat, nat) :: x in spots <==>
              && x.0 < |v| && x.1 < |objs[v[x.0]].keywords|
              && (query.name.Some? ==> query.like(query.name.value, objs[v[x.0]].keywords[x.1].name))
              && (query.value.Some? ==> query.like(query.value.value, objs[v[x.0]].keywords[x.1].value))
    ensures var p, r := if position == 0 then 0 else position - 1, Pick(Hits(objs, v, query), position);
            if p >= |spots| then r == None
            else spots[p].0 < |v| && r == Some(Found(objs[v[spots[p].0]], spots[p].1))
  {
    hide Hits, Spots;
    AllInOrder(objs, v, query, 0);
    spots := Spots(objs, v, query, 0);
    forall x: (nat, nat)
      ensures x in spots <==>
              && x.0 < |v| && x.1 < |objs[v[x.0]].keywords|
              && (query.name.Some? ==> query.like(query.name.value, objs[v[x.0]].keywords[x.1].name))
              && (query.value.Some? ==> query.like(query.value.value, objs[v[x.0]].keywords[x.1].value))
    {
      SpotInAll(objs, v, query, 0, x);
    }
  }

  /** The matching keywords of the objects that are visited, in order of visit and of the object's
      list, and the one of them that is the result. */
  lemma HitsAreSpots(objs: seq<ObjDesc>, v: seq<nat>, query: Query, position: nat)
    requires forall k :: 0 <= k < |v| ==> v[k] < |objs|
    ensures exists spots: seq<(nat, nat)> ::
              && (forall i, j :: 0 <= i < j < |spots| ==>
                    spots[i].0 < spots[j].0 || (spots[i].0 == spots[j].0 && spots[i].1 < spots[j].1))
              && (forall x: (nat, nat) :: x in spots <==>
                    && x.0 < |v| && x.1 < |objs[v[x.0]].keywords|
                    && (query.name.Some? ==> query.like(query.name.value, objs[v[x.0]].keywords[x.1].name))
                    && (query.value.Some? ==> query.like(query.value.value, objs[v[x.0]].keywords[x.1].value)))
              && var p, r := if position == 0 then 0 else position - 1, Pick(Hits(objs, v, query), position);
              if p >= |spots| then r == None
              else spots[p].0 < |v| && r == Some(Found(objs[v[spots[p].0]], spots[p].1))
  {
    hide *;
    var spots := HitsAt(objs, v, query, position);
  }
}
