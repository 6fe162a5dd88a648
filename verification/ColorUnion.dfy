/** The union of two colour maps, and the translation of an image to it. */
module ColorUnion {
  import opened Common
  import opened Bits

  datatype Color = Color(red: nat, green: nat, blue: nat)

  const BLACK := Color(0, 0, 0)

  // ----- sizes of maps

  /** The smallest number of bits, from 1 to 8, that can hold `n` values; 9 if there is none. */
  method BitSize(n: nat) returns (i: nat)
    ensures 1 <= i <= 9
    ensures i <= 8 ==> n <= Pow2(i)
    ensures i > 1 ==> Pow2(i - 1) < n
  {
    i := 1;
    while i <= 8 && Pow2(i) < n
      invariant 1 <= i <= 9 && (i > 1 ==> Pow2(i - 1) < n)
    {
      i := i + 1;
    }
  }

  /** A map has 2, 4, and so on up to 512 entries. */
  predicate MapSize(n: nat) {
    exists i :: 1 <= i <= 9 && n == Pow2(i)
  }

  /** Makes a map of zeroes if the size is allowed. */
  method MakeMapObject(colorCount: nat) returns (colors: Option<array<Color>>)
    ensures colors.Some? <==> MapSize(colorCount)
    ensures colors.Some? ==>
              fresh(colors.value) && colors.value.Length == colorCount
              && forall p :: 0 <= p < colorCount ==> colors.value[p] == BLACK
  {
    var bits := BitSize(colorCount);
    if colorCount != Pow2(bits) {
      BitSizeIsOnly(colorCount, bits);
      return None;
    }
    var a := new Color[colorCount](_ => BLACK);
    return Some(a);
  }

  lemma BitSizeIsOnly(n: nat, bits: nat)
    requires 1 <= bits <= 9 && (bits <= 8 ==> n <= Pow2(bits)) && (bits > 1 ==> Pow2(bits - 1) < n)
    requires n != Pow2(bits)
    ensures !MapSize(n)
  {
    forall i | 1 <= i <= 9
      ensures n != Pow2(i)
    {
      if i < bits {
        Pow2Monotone(i, bits - 1);
      } else if i > bits {
        Pow2Monotone(bits, i);
      }
    }
  }

  // ----- what the union is made of

  /** A colour with red or green in it; the search for the last colour of map 1 looks for these. */
  predicate Reddish(c: Color) {
    c.red != 0 || c.green != 0
  }

  /** The slot after the last colour of a map with red or green in it. */
  function Backed(map1: seq<Color>, n: nat): (k: nat)
    requires n <= |map1|
    ensures k <= n
    ensures forall j :: k <= j < n ==> !Reddish(map1[j])
    ensures k > 0 ==> Reddish(map1[k - 1])
  {
    if n > 0 && !Reddish(map1[n - 1]) then Backed(map1, n - 1) else n
  }

  /** Backing up would pass the start of map 1 exactly if no colour in it has red or green, as in a
      map fresh from MakeMapObject. */
  lemma BacksUpPastStart(map1: seq<Color>, n: nat)
    requires n <= |map1|
    ensures Backed(map1, n) == 0 <==> forall j :: 0 <= j < n ==> map1[j].red == 0 && map1[j].green == 0
  {}

  /** The first index of a colour in a map, or the size of the map. */
  function FirstIndex(m: seq<Color>, c: Color): (j: nat)
    ensures j <= |m| && (j < |m| ==> m[j] == c)
    ensures c !in m[..j] && (j < |m| <==> c in m)
  {
    if m == [] || m[0] == c then 0 else
      var j := FirstIndex(m[1..], c) + 1;
      assert m[..j] == [m[0]] + m[1..][..j - 1];
      j
  }

  /** The colours among the first `n` of map 2 that map 1 does not have. */
  function NewColors(map1: seq<Color>, map2: seq<Color>, n: nat): (r: seq<Color>)
    requires n <= |map2|
    ensures |r| <= n
    ensures forall c :: c in r ==> c !in map1
  {
    if n == 0 then [] else
      NewColors(map1, map2, n - 1) + (if map2[n - 1] in map1 then [] else [map2[n - 1]])
  }

  function Zeros(n: nat): seq<Color> {
    seq(n, _ => BLACK)
  }

  /** Where the colour `i` of map 2 goes. */
  function Target(map1: seq<Color>, map2: seq<Color>, i: nat): nat
    requires i < |map2|
  {
    if map2[i] in map1 then FirstIndex(map1, map2[i]) else Backed(map1, |map1|) + |NewColors(map1, map2, i)|
  }

  /** How many slots the union uses. */
  function Slots(map1: seq<Color>, map2: seq<Color>): nat {
    Backed(map1, |map1|) + |NewColors(map1, map2, |map2|)|
  }

  /** The union with `size` entries. */
  function Union(map1: seq<Color>, map2: seq<Color>, size: nat): (r: seq<Color>)
    requires Slots(map1, map2) <= size
    ensures |r| == size
  {
    map1[..Backed(map1, |map1|)] + NewColors(map1, map2, |map2|) + Zeros(size - Slots(map1, map2))
  }

  // ----- making the union

  /** Backs up over the slots at the end of map 1 that have no red and no green. */
  method BackUp(map1: seq<Color>) returns (crntSlot: nat)
    requires Backed(map1, |map1|) > 0
    ensures crntSlot == Backed(map1, |map1|)
  {
    crntSlot := |map1|;
    while map1[crntSlot - 1].red == 0 && map1[crntSlot - 1].green == 0 && map1[crntSlot - 1].red == 0
      invariant 0 < crntSlot <= |map1| && Backed(map1, crntSlot) == Backed(map1, |map1|)
      decreases crntSlot
    {
      crntSlot := crntSlot - 1;
    }
  }

  /** Looks for a colour in map 1. */
  method Search(map1: seq<Color>, c: Color) returns (j: nat)
    ensures j == FirstIndex(map1, c)
  {
    j := 0;
    while j < |map1|
      invariant j <= |map1| && c !in map1[..j]
    {
      if map1[j] == c {
        break;
      }
      assert map1[..j + 1] == map1[..j] + [map1[j]];
      j := j + 1;
    }
  }

  /** What slots hold: the colours of `front`, those of `added`, and black from `rest` on. */
  ghost predicate Laid(colors: seq<Color>, front: seq<Color>, added: seq<Color>, rest: nat) {
    var n := |front| + |added|;
    && n <= |colors| && colors[..|front|] == front && colors[|front|..n] == added
    && forall p :: rest <= p < |colors| && n <= p ==> colors[p] == BLACK
  }

  lemma LaidMore(colors: seq<Color>, front: seq<Color>, added: seq<Color>, rest: nat, c: Color)
    requires Laid(colors, front, added, rest) && |front| + |added| < |colors|
    ensures Laid(colors[|front| + |added| := c], front, added + [c], rest)
  {
    var n := |front| + |added|;
    var colors' := colors[n := c];
    assert colors'[..|front|] == colors[..|front|];
    assert colors'[|front|..n + 1] == colors[|front|..n] + [c];
  }

  /** What the slots hold after `n` colours of map 2. */
  ghost predicate Copied(colors: seq<Color>, map1: seq<Color>, map2: seq<Color>, n: nat)
    requires n <= |map2|
  {
    |map1| <= |colors| && Laid(colors, map1[..Backed(map1, |map1|)], NewColors(map1, map2, n), |map1|)
  }

  /** Adds the colours of map 2 that are not in map 1, and notes where each colour is. It stops
      after 257 slots. */
  method CopyNew(colors: array<Color>, map1: seq<Color>, map2: seq<Color>, trans: array<nat>, start: nat)
    returns (crntSlot: nat)
    requires start == Backed(map1, |map1|) && |map1| <= 256
    requires colors.Length >= |map1| + |map2| && trans.Length >= |map2| && Copied(colors[..], map1, map2, 0)
    modifies colors, trans
    ensures crntSlot > 256 <==> Slots(map1, map2) > 256
    ensures crntSlot <= 256 ==>
              && crntSlot == Slots(map1, map2) && Copied(colors[..], map1, map2, |map2|)
              && forall i :: 0 <= i < |map2| ==> trans[i] == Target(map1, map2, i) < 256
  {
    hide Copied, NewColors, FirstIndex, Backed;
    NoNewYet(map1, map2);
    crntSlot := start;
    var i := 0;
    while i < |map2| && crntSlot <= 256
      invariant i <= |map2| && crntSlot == start + |NewColors(map1, map2, i)| <= 257
      invariant Copied(colors[..], map1, map2, i)
      invariant forall t :: 0 <= t < i ==> trans[t] == Target(map1, map2, t) % 256
      invariant crntSlot <= 256 ==> forall t :: 0 <= t < i ==> Target(map1, map2, t) < 256
    {
      CopiedStep(colors[..], map1, map2, i);
      var j := Search(map1, map2[i]);
      if j < |map1| {
        trans[i] := j % 256;
      } else {
        colors[crntSlot] := map2[i];
        trans[i] := crntSlot % 256;
        crntSlot := crntSlot + 1;
      }
      i := i + 1;
    }
    NewGrows(map1, map2, i);
  }

  lemma NoNewYet(map1: seq<Color>, map2: seq<Color>)
    ensures NewColors(map1, map2, 0) == []
  {}

  lemma CopiedStep(colors: seq<Color>, map1: seq<Color>, map2: seq<Color>, i: nat)
    requires i < |map2| && |colors| >= |map1| + |map2| && Copied(colors, map1, map2, i)
    ensures var slot := Backed(map1, |map1|) + |NewColors(map1, map2, i)|;
            && slot < |colors|
            && (if map2[i] in map1 then
                  NewColors(map1, map2, i + 1) == NewColors(map1, map2, i) && Copied(colors, map1, map2, i + 1)
                else
                  |NewColors(map1, map2, i + 1)| == |NewColors(map1, map2, i)| + 1
                  && Copied(colors[slot := map2[i]], map1, map2, i + 1))
  {
    hide Backed, Laid;
    if map2[i] !in map1 {
      LaidMore(colors, map1[..Backed(map1, |map1|)], NewColors(map1, map2, i), |map1|, map2[i]);
    }
  }

  lemma {:induction false} NewGrows(map1: seq<Color>, map2: seq<Color>, i: nat)
    requires i <= |map2|
    ensures NewColors(map1, map2, i) <= NewColors(map1, map2, |map2|)
    decreases |map2| - i
  {
    if i == |map2| {
    } else {
      NewGrows(map1, map2, i + 1);
    }
  }

  /** Makes the union of two maps, and notes where each colour of map 2 is in it. */
  method UnionColorMap(map1: seq<Color>, map2: seq<Color>, trans: array<nat>)
    returns (union: Option<seq<Color>>, bitsPerPixel: nat)
    requires MapSize(|map1|) && MapSize(|map2|) && Backed(map1, |map1|) > 0 && trans.Length >= |map2|
    modifies trans
    ensures union.None? <==> Max(|map1|, |map2|) > 256 || Slots(map1, map2) > 256
    ensures union.Some? ==>
              && 1 <= bitsPerPixel <= 8 && Slots(map1, map2) <= Pow2(bitsPerPixel) <= 2 * Max(|map1|, |map2|)
              && (bitsPerPixel > 1 ==> Pow2(bitsPerPixel - 1) < Slots(map1, map2))
              && union.value == Union(map1, map2, Pow2(bitsPerPixel))
              && forall i :: 0 <= i < |map2| ==> trans[i] == Target(map1, map2, i) < 256
  {
    hide Backed, NewColors, FirstIndex, Copied, Union, Pow2, MapSize;
    bitsPerPixel := 0;
    Doubled(Max(|map1|, |map2|));
    var made := MakeMapObject(Max(|map1|, |map2|) * 2);
    if made.None? {
      return None, 0;
    }
    var colors := made.value;
    for i := 0 to |map1|
      invariant forall p :: 0 <= p < colors.Length ==> colors[p] == if p < i then map1[p] else BLACK
    {
      colors[i] := map1[i];
    }
    var crntSlot := BackUp(map1);
    CopiedStart(colors[..], map1, map2);
    crntSlot := CopyNew(colors, map1, map2, trans, crntSlot);
    if crntSlot > 256 {
      return None, 0;
    }
    bitsPerPixel := BitSize(crntSlot);
    RoundedFits(crntSlot, bitsPerPixel, Max(|map1|, |map2|) * 2);
    var roundUpTo := Pow2(bitsPerPixel);
    if roundUpTo != colors.Length {
      ghost var was := colors[..];
      for j := crntSlot to roundUpTo
        invariant forall p :: 0 <= p < colors.Length ==>
                    colors[p] == if crntSlot <= p < j then BLACK else was[p]
        modifies colors
      {
        colors[j] := BLACK;
      }
      UnionZeroed(was, colors[..], map1, map2, roundUpTo);
    } else {
      UnionWhole(colors[..], map1, map2);
    }
    union := Some(colors[..roundUpTo]);
  }

  /** The table for the result can be made unless a map has more than 256 entries. */
  lemma Doubled(m: nat)
    requires MapSize(m)
    ensures 2 <= m <= 512 && (MapSize(m * 2) <==> m <= 256)
  {
    var i :| 1 <= i <= 9 && m == Pow2(i);
    SmallPowers();
    Pow2Monotone(1, i);
    Pow2Monotone(i, 9);
    if i < 9 {
      Pow2Monotone(i, 8);
      assert m * 2 == Pow2(i + 1);
    } else {
      forall k | 1 <= k <= 9
        ensures m * 2 != Pow2(k)
      {
        Pow2Monotone(k, 9);
      }
    }
  }

  lemma RoundedFits(slots: nat, bits: nat, size: nat)
    requires slots <= 256 && slots <= size && MapSize(size)
    requires 1 <= bits <= 9 && (bits <= 8 ==> slots <= Pow2(bits)) && (bits > 1 ==> Pow2(bits - 1) < slots)
    ensures bits <= 8 && slots <= Pow2(bits) <= size
    ensures Pow2(bits) == size ==> size == 2 || size < 2 * slots
  {
    var i :| 1 <= i <= 9 && size == Pow2(i);
    SmallPowers();
    if bits > i {
      Pow2Monotone(i, bits - 1);
    } else {
      Pow2Monotone(bits, i);
    }
  }

  lemma CopiedStart(colors: seq<Color>, map1: seq<Color>, map2: seq<Color>)
    requires |map1| <= |colors|
    requires forall p :: 0 <= p < |colors| ==> colors[p] == if p < |map1| then map1[p] else BLACK
    ensures Copied(colors, map1, map2, 0)
  {
    assert colors[..Backed(map1, |map1|)] == map1[..Backed(map1, |map1|)];
  }

  /** The slots after the last one used are zero now. */
  lemma UnionZeroed(was: seq<Color>, colors: seq<Color>, map1: seq<Color>, map2: seq<Color>, size: nat)
    requires Copied(was, map1, map2, |map2|) && Slots(map1, map2) <= size <= |colors| == |was|
    requires forall p :: 0 <= p < |colors| ==>
               colors[p] == if Slots(map1, map2) <= p < size then BLACK else was[p]
    ensures colors[..size] == Union(map1, map2, size)
  {
    hide Backed, NewColors;
    var k, n := Backed(map1, |map1|), Slots(map1, map2);
    assert colors[..k] == was[..k] && colors[k..n] == was[k..n];
    assert colors[..size] == colors[..k] + colors[k..n] + colors[n..size];
    assert colors[n..size] == Zeros(size - n);
  }

  /** With more slots used than map 1 has, the rest has always been zero. */
  lemma UnionWhole(colors: seq<Color>, map1: seq<Color>, map2: seq<Color>)
    requires Copied(colors, map1, map2, |map2|) && |map1| <= Slots(map1, map2) <= |colors|
    ensures colors[..|colors|] == Union(map1, map2, |colors|)
  {
    UnionZeroed(colors, colors, map1, map2, |colors|);
  }

  // ----- the union, spelled out

  lemma SizesOfMaps(n: nat)
    ensures MapSize(n) <==> n in {2, 4, 8, 16, 32, 64, 128, 256, 512}
  {
    SmallPowers();
    if MapSize(n) {
      var i :| 1 <= i <= 9 && n == Pow2(i);
      assert i == 1 || i == 2 || i == 3 || i == 4 || i == 5 || i == 6 || i == 7 || i == 8 || i == 9;
    }
  }

  /** New colours are counted with their repetitions, and come in the order of map 2. */
  lemma {:induction false} NewCounted(map1: seq<Color>, map2: seq<Color>, n: nat)
    requires n <= |map2|
    ensures |NewColors(map1, map2, n)| == |set j | 0 <= j < n && map2[j] !in map1|
  {
    var new' := set j | 0 <= j < n && map2[j] !in map1;
    if n == 0 {
      assert new' == {};
    } else {
      var before := set j | 0 <= j < n - 1 && map2[j] !in map1;
      NewCounted(map1, map2, n - 1);
      assert new' == if map2[n - 1] in map1 then before else before + {n - 1};
    }
  }

  /** With `k` the slot after the last colour of map 1 with red or green: the union has map 1 up to
      `k`, then those colours of map 2 that map 1 does not have, then black. A colour of map 2 goes
      to its first slot in map 1, or to its place among the new ones. */
  lemma UnionLaw(map1: seq<Color>, map2: seq<Color>, size: nat) returns (k: nat)
    requires Slots(map1, map2) <= size
    ensures k <= |map1| && (k > 0 ==> map1[k - 1].red != 0 || map1[k - 1].green != 0)
    ensures forall j :: k <= j < |map1| ==> map1[j].red == 0 && map1[j].green == 0
    ensures var u, slots := Union(map1, map2, size), k + |set j | 0 <= j < |map2| && map2[j] !in map1|;
            && slots == Slots(map1, map2) && |u| == size && u[..k] == map1[..k]
            && (forall p :: slots <= p < size ==> u[p] == Color(0, 0, 0))
            && forall i :: 0 <= i < |map2| ==>
                 var t := Target(map1, map2, i);
                 if map2[i] in map1 then
                   t < |map1| && map1[t] == map2[i] && forall j :: 0 <= j < t ==> map1[j] != map2[i]
                 else
                   t == k + |set j | 0 <= j < i && map2[j] !in map1| && t < slots && u[t] == map2[i]
  {
    hide FirstIndex, NewColors, Union, Target, Slots;
    k := Backed(map1, |map1|);
    hide Backed;
    NewCounted(map1, map2, |map2|);
    UnionParts(map1, map2, size);
    var u := Union(map1, map2, size);
    forall i | 0 <= i < |map2|
      ensures var t := Target(map1, map2, i);
              if map2[i] in map1 then
                t < |map1| && map1[t] == map2[i] && forall j :: 0 <= j < t ==> map1[j] != map2[i]
              else
                t == k + |set j | 0 <= j < i && map2[j] !in map1| && t < Slots(map1, map2) && u[t] == map2[i]
    {
      TargetLaw(map1, map2, size, i);
    }
  }

  lemma UnionParts(map1: seq<Color>, map2: seq<Color>, size: nat)
    requires Slots(map1, map2) <= size
    ensures var u, k := Union(map1, map2, size), Backed(map1, |map1|);
            && Slots(map1, map2) == k + |NewColors(map1, map2, |map2|)| && |u| == size && u[..k] == map1[..k]
            && forall p :: Slots(map1, map2) <= p < size ==> u[p] == Color(0, 0, 0)
  {
    hide Backed, NewColors;
  }

  lemma TargetLaw(map1: seq<Color>, map2: seq<Color>, size: nat, i: nat)
    requires Slots(map1, map2) <= size && i < |map2|
    ensures var t, u := Target(map1, map2, i), Union(map1, map2, size);
            if map2[i] in map1 then
              t < |map1| && map1[t] == map2[i] && forall j :: 0 <= j < t ==> map1[j] != map2[i]
            else
              && t == Backed(map1, |map1|) + |set j | 0 <= j < i && map2[j] !in map1|
              && t < Slots(map1, map2) && u[t] == map2[i]
  {
    hide Backed, FirstIndex, NewColors, Union;
    if map2[i] in map1 {
      FirstIndexIs(map1, map2[i]);
    } else {
      NewCounted(map1, map2, i);
      NewTranslated(map1, map2, size, i);
      NewWithin(map1, map2, i);
    }
  }

  lemma FirstIndexIs(m: seq<Color>, c: Color)
    ensures forall j :: 0 <= j < FirstIndex(m, c) ==> m[j] != c
  {
    var t := FirstIndex(m, c);
    assert forall j :: 0 <= j < t ==> m[..t][j] == m[j];
  }

  lemma NewWithin(map1: seq<Color>, map2: seq<Color>, i: nat)
    requires i < |map2| && map2[i] !in map1
    ensures |NewColors(map1, map2, i)| < |NewColors(map1, map2, |map2|)|
  {
    assert |NewColors(map1, map2, i + 1)| == |NewColors(map1, map2, i)| + 1;
    NewGrows(map1, map2, i + 1);
  }

  // ----- what the union means

  /** A colour of map 2 is where its translation says. */
  ghost predicate Translated(map1: seq<Color>, map2: seq<Color>, union: seq<Color>, i: nat)
    requires i < |map2|
  {
    Target(map1, map2, i) < |union| && union[Target(map1, map2, i)] == map2[i]
  }

  /** A new colour always gets a slot of its own. */
  lemma NewTranslated(map1: seq<Color>, map2: seq<Color>, size: nat, i: nat)
    requires Slots(map1, map2) <= size && i < |map2| && map2[i] !in map1
    ensures Translated(map1, map2, Union(map1, map2, size), i)
  {
    hide Backed, FirstIndex;
    var s, n := NewColors(map1, map2, i), NewColors(map1, map2, |map2|);
    assert NewColors(map1, map2, i + 1) == s + [map2[i]];
    NewGrows(map1, map2, i + 1);
    assert n[|s|] == map2[i];
  }

  /** An old colour is found again exactly if backing up did not give up its slot, or if it is
      black and a zeroed slot of the union stands for it. */
  lemma OldTranslated(map1: seq<Color>, map2: seq<Color>, size: nat, i: nat)
    requires Slots(map1, map2) <= size && i < |map2| && map2[i] in map1
    ensures Translated(map1, map2, Union(map1, map2, size), i) <==> Kept(map1, map2, size, i)
  {
    hide Backed, NewColors;
    var j, k, u := FirstIndex(map1, map2[i]), Backed(map1, |map1|), Union(map1, map2, size);
    var n := NewColors(map1, map2, |map2|);
    if k <= j < Slots(map1, map2) {
      assert u[j] == n[j - k] && n[j - k] in n;
    } else if Slots(map1, map2) <= j < size {
      assert u[j] == BLACK;
    }
  }

  /** The slot of the colour in map 1, if it is there, survives. */
  ghost predicate Kept(map1: seq<Color>, map2: seq<Color>, size: nat, i: nat)
    requires i < |map2|
  {
    var j := FirstIndex(map1, map2[i]);
    map2[i] in map1 ==> j < Backed(map1, |map1|) || (Slots(map1, map2) <= j < size && map2[i] == BLACK)
  }

  /** The union keeps the meaning of map 2 exactly if no colour that map 1 had was given up. */
  lemma UnionMeaning(map1: seq<Color>, map2: seq<Color>, size: nat)
    requires Slots(map1, map2) <= size
    ensures (forall i :: 0 <= i < |map2| ==> Translated(map1, map2, Union(map1, map2, size), i)) <==>
            (forall i :: 0 <= i < |map2| ==> Kept(map1, map2, size, i))
  {
    hide Translated, Kept, Union;
    forall i | 0 <= i < |map2|
      ensures Translated(map1, map2, Union(map1, map2, size), i) <==> Kept(map1, map2, size, i)
    {
      ColourMeaning(map1, map2, size, i);
    }
  }

  lemma ColourMeaning(map1: seq<Color>, map2: seq<Color>, size: nat, i: nat)
    requires Slots(map1, map2) <= size && i < |map2|
    ensures Translated(map1, map2, Union(map1, map2, size), i) <==> Kept(map1, map2, size, i)
  {
    hide Translated, Kept, Union;
    if map2[i] in map1 {
      OldTranslated(map1, map2, size, i);
    } else {
      NewTranslated(map1, map2, size, i);
      NotHeld(map1, map2, size, i);
    }
  }

  lemma NotHeld(map1: seq<Color>, map2: seq<Color>, size: nat, i: nat)
    requires i < |map2| && map2[i] !in map1
    ensures Kept(map1, map2, size, i)
  {}

  /** If the last colour of map 1 has red or green in it, the union starts with map 1, and every
      colour of map 2 is where its translation says. */
  lemma UnionPreserves(map1: seq<Color>, map2: seq<Color>, size: nat)
    requires Slots(map1, map2) <= size
    requires map1 != [] && (map1[|map1| - 1].red != 0 || map1[|map1| - 1].green != 0)
    ensures map1 <= Union(map1, map2, size)
    ensures forall i :: 0 <= i < |map2| ==> Translated(map1, map2, Union(map1, map2, size), i)
  {
    assert Backed(map1, |map1|) == |map1| && map1[..|map1|] == map1;
    UnionMeaning(map1, map2, size);
  }

  /** Nothing of map 1 is given up, or only black whose slots no new colour takes and that stay
      within the union. */
  ghost predicate KeepsMap1(map1: seq<Color>, map2: seq<Color>, size: nat) {
    var k := Backed(map1, |map1|);
    k == |map1| || (NewColors(map1, map2, |map2|) == [] && |map1| <= size
                    && forall p :: k <= p < |map1| ==> map1[p] == BLACK)
  }

  /** The union starts with map 1 exactly if nothing was given up, or only black that is not
      taken by a new colour and stays within the union. */
  lemma UnionKeepsMap1(map1: seq<Color>, map2: seq<Color>, size: nat)
    requires Slots(map1, map2) <= size
    ensures map1 <= Union(map1, map2, size) <==> KeepsMap1(map1, map2, size)
  {
    hide Backed, NewColors;
    var k, added, u := Backed(map1, |map1|), NewColors(map1, map2, |map2|), Union(map1, map2, size);
    if k < |map1| {
      if added != [] {
        assert u[k] == added[0] && added[0] in added;
      } else if |map1| <= size {
        assert forall p :: k <= p < |map1| ==> u[p] == BLACK;
        if map1 <= u {
          assert forall p :: k <= p < |map1| ==> map1[p] == u[p];
        }
      }
    } else {
      assert map1[..k] == map1;
    }
  }

  /** A shade of blue at the end of map 1 is lost, though map 2 refers to it. */
  lemma BlueIsLost()
    ensures var map1, map2 := [Color(1, 0, 0), Color(0, 0, 7)], [Color(0, 0, 7), Color(2, 0, 0)];
            Slots(map1, map2) == 2 && !Translated(map1, map2, Union(map1, map2, 2), 0)
  {
    var map1, map2 := [Color(1, 0, 0), Color(0, 0, 7)], [Color(0, 0, 7), Color(2, 0, 0)];
    assert Backed(map1, 2) == Backed(map1, 1) == 1;
    assert NewColors(map1, map2, 1) == [];
    assert NewColors(map1, map2, 2) == [Color(2, 0, 0)];
    assert map1[0] != map2[0] && FirstIndex(map1, map2[0]) == 1;
    OldTranslated(map1, map2, 2, 0);
  }

  // ----- the raster

  /** Translates the pixels of an image. */
  method ApplyTranslation(raster: array<nat>, translation: array<nat>)
    requires raster != translation
    requires forall i :: 0 <= i < raster.Length ==> raster[i] < translation.Length
    modifies raster
    ensures forall i :: 0 <= i < raster.Length ==>
              old(raster[i]) < translation.Length && raster[i] == translation[old(raster[i])]
  {
    for i := 0 to raster.Length
      invariant forall k :: 0 <= k < raster.Length ==>
                  raster[k] == if k < i then translation[old(raster[k])] else old(raster[k])
    {
      raster[i] := translation[raster[i]];
    }
  }

  /** Merges the colours of a second image into the map of the first. A pixel looks as it did
      exactly if the colour it had was kept, and the first image keeps its map under the condition
      of UnionKeepsMap1. If map 1 ends in red or green, everything looks as it did. */
  method MergeImage(map1: seq<Color>, map2: seq<Color>, raster: array<nat>) returns (union: Option<seq<Color>>)
    requires MapSize(|map1|) && MapSize(|map2|)
    requires exists j :: 0 <= j < |map1| && (map1[j].red != 0 || map1[j].green != 0)
    requires forall i :: 0 <= i < raster.Length ==> raster[i] < |map2|
    modifies raster
    ensures union.None? ==> forall i :: 0 <= i < raster.Length ==> raster[i] == old(raster[i])
    ensures union.Some? ==>
              && MapSize(|union.value|)
              && (map1 <= union.value <==> KeepsMap1(map1, map2, |union.value|))
              && forall i :: 0 <= i < raster.Length ==>
                   && old(raster[i]) < |map2|
                   && (raster[i] < |union.value| && union.value[raster[i]] == map2[old(raster[i])]
                       <==> Kept(map1, map2, |union.value|, old(raster[i])))
    ensures union.Some? && (map1[|map1| - 1].red != 0 || map1[|map1| - 1].green != 0) ==>
              && map1 <= union.value
              && forall i :: 0 <= i < raster.Length ==>
                   && old(raster[i]) < |map2| && raster[i] < |union.value|
                   && union.value[raster[i]] == map2[old(raster[i])]
  {
    hide Backed, NewColors, FirstIndex, Union, Pow2, Target, Kept, KeepsMap1;
    var trans := new nat[|map2|](_ => 0);
    BacksUpPastStart(map1, |map1|);
    var bits: nat;
    union, bits := UnionColorMap(map1, map2, trans);
    if union.Some? {
      UnionKeepsMap1(map1, map2, Pow2(bits));
      ApplyTranslation(raster, trans);
      forall i | 0 <= i < raster.Length
        ensures raster[i] < |union.value| && union.value[raster[i]] == map2[old(raster[i])]
                <==> Kept(map1, map2, |union.value|, old(raster[i]))
      {
        ColourMeaning(map1, map2, |union.value|, old(raster[i]));
      }
      if map1[|map1| - 1].red != 0 || map1[|map1| - 1].green != 0 {
        UnionPreserves(map1, map2, Pow2(bits));
        forall i | 0 <= i < raster.Length
          ensures raster[i] < |union.value| && union.value[raster[i]] == map2[old(raster[i])]
        {
          assert Translated(map1, map2, union.value, old(raster[i]));
        }
      }
    }
  }
}
