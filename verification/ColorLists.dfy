/** The array of sampled colours, and the linked lists of colours that run through it. */
module ColorLists {

  const COLOR_ARRAY_SIZE := 32768

  /** A colour of five bits a channel, by its index in the array. */
  type Colour = c: nat | c < 32768

  /** The link of the last colour of a list. */
  const NULL: int := -1

  function Link(s: seq<Colour>, i: nat): int
    requires i < |s|
  {
    if i + 1 < |s| then s[i + 1] else NULL
  }

  /** The links lead along the colours of `s`, and end there. */
  ghost predicate Chain(pnext: seq<int>, s: seq<Colour>)
  {
    && |pnext| == COLOR_ARRAY_SIZE
    && forall i :: 0 <= i < |s| ==> pnext[s[i]] == Link(s, i)
  }

  ghost predicate Once(s: seq<Colour>)
  {
    forall i, k :: 0 <= i < k < |s| ==> s[i] != s[k]
  }

  /** No colour is twice in a list that ends: what follows it would have to be twice, too. */
  lemma {:induction false} ChainOnce(pnext: seq<int>, s: seq<Colour>, i: nat, k: nat)
    requires Chain(pnext, s) && i < k < |s|
    ensures s[i] != s[k]
    decreases |s| - k
  {
    assert pnext[s[i]] == Link(s, i) && pnext[s[k]] == Link(s, k);
    if k + 1 == |s| {
    } else {
      ChainOnce(pnext, s, i + 1, k + 1);
    }
  }

  /** A list in any other order has no colour twice, either. */
  lemma OnceInAnyOrder(s: seq<Colour>, t: seq<Colour>)
    requires Once(s) && multiset(s) == multiset(t)
    ensures Once(t)
  {
    forall i, k | 0 <= i < k < |t|
      ensures t[i] != t[k]
    {
      assert t == t[..k] + t[k..] && t[..k][i] == t[i] && t[k..][0] == t[k];
      OnceCount(s, t[i]);
      assert t[i] in multiset(t[..k]) && t[k] in multiset(t[k..]);
    }
  }

  lemma {:induction false} OnceCount(s: seq<Colour>, c: Colour)
    requires Once(s)
    ensures multiset(s)[c] <= 1
  {
    if s == [] {
    } else {
      var n := |s| - 1;
      OnceCount(s[..n], c);
      assert s == s[..n] + [s[n]];
      assert c == s[n] ==> c !in s[..n];
    }
  }

  /** Puts the colours of a list into an array. */
  method Gather(pnext: array<int>, head: int, numEntries: nat, ghost s: seq<Colour>) returns (sorted: seq<Colour>)
    requires Chain(pnext[..], s) && |s| == numEntries > 0 && head == s[0]
    ensures sorted == s
  {
    sorted := [];
    var j, entry: int := 0, head;
    while j < numEntries && entry != NULL
      invariant j <= numEntries && sorted == s[..j]
      invariant if j < numEntries then entry == s[j] else entry == NULL
      decreases numEntries - j
    {
      assert pnext[..][s[j]] == pnext[s[j]];
      assert s[..j + 1] == s[..j] + [s[j]];
      sorted := sorted + [entry];
      entry := pnext[entry];
      j := j + 1;
    }
    assert s[..numEntries] == s;
  }

  /** Links the colours of an array into a list. */
  method Relink(pnext: array<int>, s: seq<Colour>)
    requires pnext.Length == COLOR_ARRAY_SIZE && s != [] && Once(s)
    modifies pnext
    ensures Chain(pnext[..], s)
    ensures forall c: Colour :: c !in s ==> pnext[c] == old(pnext[c])
  {
    for j := 0 to |s| - 1
      invariant forall i :: 0 <= i < j ==> pnext[s[i]] == s[i + 1]
      invariant forall c: Colour :: c !in s ==> pnext[c] == old(pnext[c])
    {
      pnext[s[j]] := s[j + 1];
    }
    pnext[s[|s| - 1]] := NULL;
  }

  /** Ends a list after its first `n` colours; the others are a list of their own. */
  method CutAfter(pnext: array<int>, entry: Colour, ghost s: seq<Colour>, ghost n: nat) returns (second: int)
    requires Chain(pnext[..], s) && 0 < n < |s| && entry == s[n - 1]
    modifies pnext
    ensures Chain(pnext[..], s[..n]) && Chain(pnext[..], s[n..]) && second == s[n]
    ensures forall c: Colour :: c !in s ==> pnext[c] == old(pnext[c])
  {
    assert pnext[..][s[n - 1]] == s[n];
    forall i | 0 <= i < |s| && i != n - 1
      ensures s[i] != s[n - 1]
    {
      ChainOnce(pnext[..], s, if i < n - 1 then i else n - 1, if i < n - 1 then n - 1 else i);
    }
    forall i | 0 <= i < |s|
      ensures pnext[s[i]] == Link(s, i)
    {
      assert pnext[..][s[i]] == pnext[s[i]];
    }
    second := pnext[entry];
    pnext[entry] := NULL;
  }

  /** Links that change elsewhere do not touch a list. */
  lemma ChainStays(was: seq<int>, pnext: seq<int>, s: seq<Colour>)
    requires Chain(was, s) && |pnext| == |was|
    requires forall i :: 0 <= i < |s| ==> pnext[s[i]] == was[s[i]]
    ensures Chain(pnext, s)
  {}
}
