/** Data laid out by putting pieces one behind the other, and where each piece is then. */
module Nested {
  import opened Arithmetic
  import opened Common
  import opened IndexSpace

  /** `n` pieces, one behind the other. */
  function Concat(piece: nat -> seq<byte>, n: nat): seq<byte> {
    if n == 0 then [] else Concat(piece, n - 1) + piece(n - 1)
  }

  lemma {:induction false} ConcatSize(piece: nat -> seq<byte>, n: nat, m: nat)
    requires forall k: nat :: k < n ==> |piece(k)| == m
    ensures |Concat(piece, n)| == n * m
  {
    if n == 0 {
    } else {
      ConcatSize(piece, n - 1, m);
      OneMore(n - 1, m);
    }
  }

  lemma {:induction false} PieceAt(piece: nat -> seq<byte>, n: nat, m: nat, k: nat)
    requires k < n && forall k: nat :: k < n ==> |piece(k)| == m
    ensures Part(Concat(piece, n), k * m, m) == piece(k)
  {
    var front, last := Concat(piece, n - 1), piece(n - 1);
    assert Concat(piece, n) == front + last;
    ConcatSize(piece, n - 1, m);
    hide Concat, Part;
    if k == n - 1 {
      LastPart(front, last);
    } else {
      PieceAt(piece, n - 1, m, k);
      RowFits(k, n - 1, m);
      PartBefore(front, last, k * m, m);
    }
  }

  lemma {:induction false} SameConcat(piece: nat -> seq<byte>, other: nat -> seq<byte>, n: nat)
    requires forall k: nat :: k < n ==> piece(k) == other(k)
    ensures Concat(piece, n) == Concat(other, n)
  {
    if n == 0 {
    } else {
      SameConcat(piece, other, n - 1);
    }
  }

  // ----- three axes

  /** The bytes of a sample, by its coordinates in the order of the data. */
  type Cells = (nat, nat, nat) -> seq<byte>

  ghost predicate Sized(f: Cells, nbytes: nat) {
    forall a, b, c :: |f(a, b, c)| == nbytes
  }

  /** A line, a plane and all planes of samples. */
  function Line(f: Cells, n0: nat, b: nat, c: nat): seq<byte> {
    Concat((a: nat) => f(a, b, c), n0)
  }

  function Plane(f: Cells, n0: nat, n1: nat, c: nat): seq<byte> {
    Concat((b: nat) => Line(f, n0, b, c), n1)
  }

  function Planes(f: Cells, n0: nat, n1: nat, n2: nat): seq<byte> {
    Concat((c: nat) => Plane(f, n0, n1, c), n2)
  }

  lemma PlanesSize(f: Cells, n0: nat, n1: nat, n2: nat, nbytes: nat)
    requires Sized(f, nbytes)
    ensures forall b, c :: |Line(f, n0, b, c)| == n0 * nbytes
    ensures forall c :: |Plane(f, n0, n1, c)| == n1 * (n0 * nbytes)
    ensures |Planes(f, n0, n1, n2)| == n2 * (n1 * (n0 * nbytes))
  {
    forall b, c
      ensures |Line(f, n0, b, c)| == n0 * nbytes
    {
      ConcatSize((a: nat) => f(a, b, c), n0, nbytes);
    }
    forall c
      ensures |Plane(f, n0, n1, c)| == n1 * (n0 * nbytes)
    {
      ConcatSize((b: nat) => Line(f, n0, b, c), n1, n0 * nbytes);
    }
    ConcatSize((c: nat) => Plane(f, n0, n1, c), n2, n1 * (n0 * nbytes));
  }

  lemma PlaneOfAll(f: Cells, n0: nat, n1: nat, n2: nat, nbytes: nat, c: nat)
    requires Sized(f, nbytes) && c < n2
    ensures var plane := Plane(f, n0, n1, c); Part(Planes(f, n0, n1, n2), c * |plane|, |plane|) == plane
  {
    PlanesSize(f, n0, n1, n2, nbytes);
    hide Part;
    PieceAt((c: nat) => Plane(f, n0, n1, c), n2, n1 * (n0 * nbytes), c);
  }

  lemma LineAt(f: Cells, n0: nat, n1: nat, nbytes: nat, b: nat, c: nat)
    requires Sized(f, nbytes) && b < n1
    ensures var plane, line := Plane(f, n0, n1, c), Line(f, n0, b, c);
            b * |line| + |line| <= |plane| && Part(plane, b * |line|, |line|) == line
  {
    PlanesSize(f, n0, n1, 0, nbytes);
    hide Part;
    PieceAt((b: nat) => Line(f, n0, b, c), n1, n0 * nbytes, b);
    RowFits(b, n1, n0 * nbytes);
  }

  lemma SampleInLine(f: Cells, n0: nat, nbytes: nat, a: nat, b: nat, c: nat)
    requires Sized(f, nbytes) && a < n0
    ensures var line := Line(f, n0, b, c);
            a * nbytes + nbytes <= |line| && Part(line, a * nbytes, nbytes) == f(a, b, c)
  {
    PlanesSize(f, n0, 0, 0, nbytes);
    hide Part;
    PieceAt((a: nat) => f(a, b, c), n0, nbytes, a);
    RowFits(a, n0, nbytes);
  }

  /** The sample with coordinates a, b and c is the one with the index a + n0 * (b + c * n1). */
  lemma SampleAt(f: Cells, n0: nat, n1: nat, n2: nat, nbytes: nat, a: nat, b: nat, c: nat)
    requires Sized(f, nbytes) && a < n0 && b < n1 && c < n2
    ensures Part(Planes(f, n0, n1, n2), (a + n0 * (b + c * n1)) * nbytes, nbytes) == f(a, b, c)
  {
    hide Concat, Part, Line, Plane, Planes, Sized;
    PlanesSize(f, n0, n1, n2, nbytes);
    PlaneOfAll(f, n0, n1, n2, nbytes, c);
    LineAt(f, n0, n1, nbytes, b, c);
    SampleInLine(f, n0, nbytes, a, b, c);
    var plane, line := Plane(f, n0, n1, c), Line(f, n0, b, c);
    PartInParts(Planes(f, n0, n1, n2), c * |plane|, plane, b * |line|, line, a * nbytes, nbytes);
    SampleIndex(n0, n1, nbytes, a, b, c, |line|, |plane|);
  }

  lemma PartInParts(s: seq<byte>, at: nat, plane: seq<byte>, from: nat, line: seq<byte>, start: nat, n: nat)
    requires Part(s, at, |plane|) == plane && Part(plane, from, |line|) == line
    requires from + |line| <= |plane| && start + n <= |line|
    ensures Part(s, at + from + start, n) == Part(line, start, n)
  {
    hide Part;
    PartOfPart(s, at, |plane|, from, |line|);
    PartOfPart(s, at + from, |line|, start, n);
  }

  lemma SampleIndex(n0: nat, n1: nat, nbytes: nat, a: nat, b: nat, c: nat, line: nat, plane: nat)
    requires line == n0 * nbytes && plane == n1 * line
    ensures c * plane + b * line + a * nbytes == (a + n0 * (b + c * n1)) * nbytes
  {
    assert c * plane == n0 * (c * n1) * nbytes;
    assert b * line == n0 * b * nbytes;
  }

  // ----- data with the same samples

  lemma {:induction false} EqualParts(s: seq<byte>, t: seq<byte>, n: nat, m: nat)
    requires |s| == |t| == n * m && forall i :: 0 <= i < n ==> Part(s, i * m, m) == Part(t, i * m, m)
    ensures s == t
  {
    if n == 0 {
    } else {
      OneMore(n - 1, m);
      var k := (n - 1) * m;
      Ends(s, k, m);
      Ends(t, k, m);
      forall i | 0 <= i < n - 1
        ensures Part(s[..k], i * m, m) == Part(t[..k], i * m, m)
      {
        RowFits(i, n - 1, m);
        PartBefore(s[..k], s[k..], i * m, m);
        PartBefore(t[..k], t[k..], i * m, m);
      }
      EqualParts(s[..k], t[..k], n - 1, m);
    }
  }

  lemma Ends(s: seq<byte>, k: nat, m: nat)
    requires |s| == k + m
    ensures s == s[..k] + s[k..] && Part(s, k, m) == s[k..]
  {}

  lemma Total(n0: nat, n1: nat, n2: nat, nbytes: nat)
    ensures n2 * (n1 * (n0 * nbytes)) == n2 * (n1 * n0) * nbytes
  {
    assert n1 * (n0 * nbytes) == n1 * n0 * nbytes;
    Associate(n2, n1 * n0, nbytes);
  }

  /** Data whose samples are those of a field are the planes of the field. */
  lemma AllSamples(data: seq<byte>, f: Cells, n0: nat, n1: nat, n2: nat, nbytes: nat)
    requires Sized(f, nbytes) && n0 > 0 && n1 > 0 && n2 > 0 && |data| == n2 * (n1 * n0) * nbytes
    requires forall a, b, c :: 0 <= a < n0 && 0 <= b < n1 && 0 <= c < n2 ==>
               Part(data, (a + n0 * (b + c * n1)) * nbytes, nbytes) == f(a, b, c)
    ensures data == Planes(f, n0, n1, n2)
  {
    hide Part, Planes, Sized;
    var t, size := Planes(f, n0, n1, n2), Dims(n0, n1, n2);
    PlanesSize(f, n0, n1, n2, nbytes);
    Total(n0, n1, n2, nbytes);
    forall i | 0 <= i < n2 * (n1 * n0)
      ensures Part(data, i * nbytes, nbytes) == Part(t, i * nbytes, nbytes)
    {
      FlatParts(i, size);
      var a, b, c := i % n0, i / n0 % n1, i / (n0 * n1);
      SampleAt(f, n0, n1, n2, nbytes, a, b, c);
    }
    EqualParts(data, t, n2 * (n1 * n0), nbytes);
  }
}
