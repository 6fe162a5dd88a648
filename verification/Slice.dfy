/** Reading a strided slice of a cube of samples from a file. */
module Slice {
  import opened Arithmetic
  import opened Common
  import opened IndexSpace
  import opened Reorganise

  /** What a header says about a cube and the slice of it to be read, axis by axis in the order
      of the file. Slices count from 1; 0 stands for a value that is not set. */
  datatype Cube = Cube(size: Dims, lo: Dims, hi: Dims, skip: Dims, prefix: Dims, suffix: Dims,
                       corner: nat, dptr: nat, nbytes: nat) {

    /** The values for axis `i` when those that are not set are filled in. */
    function SetAxis(i: nat): Cube
      requires i < 3
    {
      var n := if size.Of(i) == 0 then 1 else size.Of(i);
      var top := if hi.Of(i) == 0 then n else hi.Of(i);
      this.(size := size.With(i, n), lo := lo.With(i, if lo.Of(i) == 0 then 1 else lo.Of(i)),
            hi := hi.With(i, Min(top, n)), skip := skip.With(i, if skip.Of(i) == 0 then 1 else skip.Of(i)))
    }

    /** An axis filled in, with limits that count from 0. */
    function PrepareAxis(i: nat): Cube
      requires i < 3
    {
      var c := SetAxis(i);
      c.(lo := c.lo.With(i, c.lo.Of(i) - 1), hi := c.hi.With(i, c.hi.Of(i) - 1))
    }

    function Normal(): Cube {
      SetAxis(0).SetAxis(1).SetAxis(2)
    }

    /** The slice lies in the cube. */
    predicate Valid() {
      && (forall i :: 0 <= i < 3 ==> 1 <= lo.Of(i) <= hi.Of(i) <= size.Of(i) && skip.Of(i) > 0)
      && nbytes > 0
    }

    /** The extent of the slice along an axis, and how many samples are read along it. */
    function Extent(i: nat): int {
      hi.Of(i) - lo.Of(i) + 1
    }

    function Count(i: nat): nat
      requires i < 3 && Valid()
    {
      (Extent(i) - 1) / skip.Of(i) + 1
    }

    function Counts(): (d: Dims)
      requires Valid()
      ensures d.Positive()
    {
      Dims(Count(0), Count(1), Count(2))
    }

    function LineBytes(): nat {
      size.d0 * nbytes + suffix.d0 + prefix.d0
    }

    function PlaneBytes(): nat {
      LineBytes() * size.d1 + size.d0 * (prefix.d1 + suffix.d1) + corner
    }

    /** Where the file has the sample at the given coordinates, counted from 0. */
    function Position(a: nat, b: nat, c: nat): nat {
      dptr + c * PlaneBytes() + LineBytes() * b + (prefix.d0 + a * nbytes)
    }

    /** The size of the buffer that the lines of a plane are read into, and where it has the
        sample `a` of its line `y`. */
    function BufferBytes(): int {
      LineBytes() * Extent(1)
    }

    function InBuffer(a: nat, y: nat): nat {
      prefix.d0 + a * nbytes + y * LineBytes()
    }

    /** The coordinate of the `n`-th sample that is read along an axis. */
    function Picked(n: nat, i: nat): int
      requires i < 3
    {
      lo.Of(i) - 1 + n * skip.Of(i)
    }

    /** The cube with limits that count from 0. */
    function FromZero(): Cube {
      this.(lo := lo.Less(), hi := hi.Less())
    }

    ghost predicate Holds(file: seq<byte>) {
      |file| >= dptr + size.d2 * PlaneBytes()
    }
  }

  // ----- the header

  /** Filling in what is not set changes nothing the second time. */
  lemma NormalTwice(c: Cube)
    ensures c.Normal().Normal() == c.Normal()
  {
    DimsEqual(c.Normal().size, c.Normal().Normal().size);
    DimsEqual(c.Normal().lo, c.Normal().Normal().lo);
    DimsEqual(c.Normal().hi, c.Normal().Normal().hi);
    DimsEqual(c.Normal().skip, c.Normal().Normal().skip);
  }

  lemma DimsEqual(a: Dims, b: Dims)
    ensures a.Of(0) == b.Of(0) && a.Of(1) == b.Of(1) && a.Of(2) == b.Of(2) ==> a == b
  {}

  // ----- what is read

  /** Samples that are read lie in the slice. */
  lemma PickedInside(c: Cube, n: nat, i: nat)
    requires c.Valid() && i < 3
    ensures n < c.Count(i) <==> n * c.skip.Of(i) < c.Extent(i)
    ensures n < c.Count(i) ==> c.lo.Of(i) - 1 <= c.Picked(n, i) < c.hi.Of(i) <= c.size.Of(i)
  {
    var m, s := c.Extent(i) - 1, c.skip.Of(i);
    Division(m, s);
    if n <= m / s {
      Grows(n, m / s, s);
    } else {
      Grows(m / s + 1, n, s);
    }
  }

  /** Where the file would have a sample if the prefix of the second axis came before the lines
      of each plane. */
  function AfterPrefix(c: Cube, a: nat, b: nat, z: nat): nat {
    c.dptr + z * c.PlaneBytes() + c.size.d0 * c.prefix.d1 + c.LineBytes() * b + (c.prefix.d0 + a * c.nbytes)
  }

  /** The code skips the prefix of the first axis, but that of the second only if there is
      none. */
  lemma PrefixOfSecondAxis(c: Cube, a: nat, b: nat, z: nat)
    requires c.Valid()
    ensures c.Position(a, b, z) == AfterPrefix(c, a, b, z) <==> c.prefix.d1 == 0
  {
    assert c.size.Of(0) == c.size.d0 >= 1;
    if c.prefix.d1 > 0 {
      MulPositive(c.size.d0, c.prefix.d1);
    }
  }

  /** A run of samples of one line lies in the file. */
  lemma RunFits(c: Cube, a: nat, b: nat, z: nat, n: nat)
    requires a + n <= c.size.d0 && b < c.size.d1 && z < c.size.d2
    ensures c.Position(a, b, z) + n * c.nbytes <= c.dptr + c.size.d2 * c.PlaneBytes()
  {
    var line, plane := c.LineBytes(), c.PlaneBytes();
    Grows(a + n, c.size.d0, c.nbytes);
    assert (a + n) * c.nbytes == a * c.nbytes + n * c.nbytes;
    RowFits(b, c.size.d1, line);
    assert line * b == b * line && line * c.size.d1 == c.size.d1 * line;
    hide Cube.LineBytes, Cube.PlaneBytes;
    RowFits(z, c.size.d2, plane);
    LinesFit(c);
  }

  lemma LinesFit(c: Cube)
    ensures c.LineBytes() * c.size.d1 <= c.PlaneBytes()
  {}

  /** Where the file has the `i`-th sample that is read. */
  function ElementAt(c: Cube, i: nat): (at: nat)
    requires c.Valid() && i < c.Counts().Total()
    ensures at + c.nbytes <= c.dptr + c.size.d2 * c.PlaneBytes()
  {
    var p := Xpos(i, BSQ, c.Counts());
    CposOfXpos(i, BSQ, c.Counts());
    PickedInside(c, p.x, 0);
    PickedInside(c, p.y, 1);
    PickedInside(c, p.z, 2);
    RunFits(c, c.Picked(p.x, 0), c.Picked(p.y, 1), c.Picked(p.z, 2), 1);
    c.Position(c.Picked(p.x, 0), c.Picked(p.y, 1), c.Picked(p.z, 2))
  }

  /** The first `n` samples that are read. */
  function Cut(c: Cube, file: seq<byte>, n: nat): (r: seq<byte>)
    requires c.Valid() && c.Holds(file) && n <= c.Counts().Total()
    ensures |r| == n * c.nbytes
  {
    if n == 0 then [] else
      OneMore(n - 1, c.nbytes);
      Cut(c, file, n - 1) + file[ElementAt(c, n - 1)..ElementAt(c, n - 1) + c.nbytes]
  }

  /** Every sample of the result is the sample of the cube at its place in the slice: from the
      lower limit on, in steps of the stride, on each axis. */
  lemma CutSample(c: Cube, file: seq<byte>, p: Pixel)
    requires c.Valid() && c.Holds(file) && p.x < c.Count(0) && p.y < c.Count(1) && p.z < c.Count(2)
    ensures 0 <= c.Picked(p.x, 0) < c.size.d0 && 0 <= c.Picked(p.y, 1) < c.size.d1 && 0 <= c.Picked(p.z, 2) < c.size.d2
    ensures var i := Cpos(p.x, p.y, p.z, BSQ, c.Counts());
            var at := c.Position(c.Picked(p.x, 0), c.Picked(p.y, 1), c.Picked(p.z, 2));
            && (i + 1) * c.nbytes <= c.Counts().Total() * c.nbytes && at + c.nbytes <= |file|
            && Sample(Cut(c, file, c.Counts().Total()), i, c.nbytes) == file[at..at + c.nbytes]
  {
    hide Cut, Cpos, Xpos, Sample, Cube.Position;
    XposOfCpos(p, BSQ, c.Counts());
    PickedInside(c, p.x, 0);
    PickedInside(c, p.y, 1);
    PickedInside(c, p.z, 2);
    var i := Cpos(p.x, p.y, p.z, BSQ, c.Counts());
    assert ElementAt(c, i) == c.Position(c.Picked(p.x, 0), c.Picked(p.y, 1), c.Picked(p.z, 2));
    CutAt(c, file, c.Counts().Total(), i);
  }

  /** A sample that is read is the one that follows the prefix of the second axis. */
  ghost predicate ReadBehindPrefix(c: Cube, file: seq<byte>, p: Pixel)
    requires c.Valid() && c.Holds(file) && InImage(p, BSQ, c.Counts())
  {
    var i, a, b, z := Cpos(p.x, p.y, p.z, BSQ, c.Counts()), c.Picked(p.x, 0), c.Picked(p.y, 1), c.Picked(p.z, 2);
    && a >= 0 && b >= 0 && z >= 0
    && Part(Cut(c, file, c.Counts().Total()), i * c.nbytes, c.nbytes) == Part(file, AfterPrefix(c, a, b, z), c.nbytes)
  }

  /** What is read are the samples behind the prefix of the second axis, for whatever file, exactly
      if there is no such prefix. */
  lemma PrefixIsRead(c: Cube)
    requires c.Valid()
    ensures (forall file, p | c.Holds(file) && InImage(p, BSQ, c.Counts()) :: ReadBehindPrefix(c, file, p)) <==>
            c.prefix.d1 == 0
  {
    hide Cube.Holds, Cube.Counts, ReadBehindPrefix;
    if c.prefix.d1 == 0 {
      forall file, p | c.Holds(file) && InImage(p, BSQ, c.Counts())
        ensures ReadBehindPrefix(c, file, p)
      {
        ReadWithoutPrefix(c, file, p);
      }
    } else {
      var file := MarkedFile(c);
      assert !ReadBehindPrefix(c, file, Pixel(0, 0, 0));
    }
  }

  lemma ReadWithoutPrefix(c: Cube, file: seq<byte>, p: Pixel)
    requires c.Valid() && c.Holds(file) && InImage(p, BSQ, c.Counts()) && c.prefix.d1 == 0
    ensures ReadBehindPrefix(c, file, p)
  {
    hide Cut, Cpos, Cube.Position, Cube.Holds, AfterPrefix;
    CutSample(c, file, p);
    SampleIsPart(Cut(c, file, c.Counts().Total()), Cpos(p.x, p.y, p.z, BSQ, c.Counts()), c.nbytes);
    PrefixOfSecondAxis(c, c.Picked(p.x, 0), c.Picked(p.y, 1), c.Picked(p.z, 2));
  }

  /** A file that has a one where the first sample is read, and zeroes elsewhere. */
  lemma MarkedFile(c: Cube) returns (file: seq<byte>)
    requires c.Valid() && c.prefix.d1 > 0
    ensures c.Holds(file) && InImage(Pixel(0, 0, 0), BSQ, c.Counts())
    ensures !ReadBehindPrefix(c, file, Pixel(0, 0, 0))
  {
    hide Cut, Cube.Position, AfterPrefix, Cube.PlaneBytes;
    var p := Pixel(0, 0, 0);
    PickedInside(c, 0, 0);
    PickedInside(c, 0, 1);
    PickedInside(c, 0, 2);
    var a, b, z := c.Picked(0, 0), c.Picked(0, 1), c.Picked(0, 2);
    var at, behind := c.Position(a, b, z), AfterPrefix(c, a, b, z);
    var size := c.dptr + c.size.d2 * c.PlaneBytes() + behind + c.nbytes;
    file := seq(size, k => if k == at then 1 else 0);
    CutSample(c, file, p);
    PrefixOfSecondAxis(c, a, b, z);
    var i := Cpos(0, 0, 0, BSQ, c.Counts());
    SampleIsPart(Cut(c, file, c.Counts().Total()), i, c.nbytes);
    assert file[at..at + c.nbytes][0] == 1;
    PrefixOrder(c, a, b, z);
    assert Part(file, behind, c.nbytes)[0] == 0;
  }

  lemma PrefixOrder(c: Cube, a: nat, b: nat, z: nat)
    ensures c.Position(a, b, z) <= AfterPrefix(c, a, b, z)
  {}

  /** The pixel of a file in the order of BIP with one byte before its sample, as a header with
      NBB describes it: what is read is that byte. */
  lemma PrefixByteRead(head: seq<byte>)
    ensures var unset, prefix := Dims(0, 0, 0), InOrder(Pixel(1, 0, 0), BIP);
            var c := Cube(Dims(1, 1, 1), unset, unset, unset, prefix, unset, 0, |head|, 1).Normal();
            var file := head + [7, 9];
            && c.Valid() && c.Holds(file) && c.Counts().Total() == 1
            && Cut(c, file, 1) == [7] && file[AfterPrefix(c, 0, 0, 0)] == 9
  {
    var unset, prefix := Dims(0, 0, 0), InOrder(Pixel(1, 0, 0), BIP);
    var c := Cube(Dims(1, 1, 1), unset, unset, unset, prefix, unset, 0, |head|, 1).Normal();
    var file := head + [7, 9];
    assert c.Count(0) == c.Count(1) == c.Count(2) == 1;
    assert Xpos(0, BSQ, c.Counts()) == Pixel(0, 0, 0);
    assert ElementAt(c, 0) == |head|;
    assert Cut(c, file, 0) == [];
  }

  lemma {:induction false} CutAt(c: Cube, file: seq<byte>, n: nat, i: nat)
    requires c.Valid() && c.Holds(file) && i < n <= c.Counts().Total()
    ensures (i + 1) * c.nbytes <= n * c.nbytes
    ensures Sample(Cut(c, file, n), i, c.nbytes) == file[ElementAt(c, i)..ElementAt(c, i) + c.nbytes]
  {
    hide ElementAt, Sample, Cube.Holds, Cube.Counts;
    Grows(i + 1, n, c.nbytes);
    HoldsElement(c, file, i);
    HoldsElement(c, file, n - 1);
    var front, last := Cut(c, file, n - 1), file[ElementAt(c, n - 1)..ElementAt(c, n - 1) + c.nbytes];
    assert Cut(c, file, n) == front + last;
    if i == n - 1 {
    } else {
      CutAt(c, file, n - 1, i);
    }
    hide Cut;
    SampleOfSum(front, last, c.nbytes, i);
  }

  lemma HoldsElement(c: Cube, file: seq<byte>, i: nat)
    requires c.Valid() && c.Holds(file) && i < c.Counts().Total()
    ensures ElementAt(c, i) + c.nbytes <= |file|
  {}

  /** A sample, line and band put in the order of the file. */
  function InOrder(p: Pixel, org: Org): Dims {
    match org
    case BSQ => Dims(p.x, p.y, p.z)
    case BIL => Dims(p.x, p.z, p.y)
    case BIP => Dims(p.z, p.x, p.y)
  }

  /** In every organisation, the sample, line and band of the result are those of the cube that
      the slice picks along the axis that each of them has in the file. */
  lemma CutOrganised(c: Cube, file: seq<byte>, org: Org, p: Pixel)
    requires c.Valid() && c.Holds(file) && InImage(p, org, c.Counts())
    ensures var q := InOrder(p, org);
            var a, b, z := c.Picked(q.d0, 0), c.Picked(q.d1, 1), c.Picked(q.d2, 2);
            && q.Of(OrderOf(org, 0)) == p.x && q.Of(OrderOf(org, 1)) == p.y && q.Of(OrderOf(org, 2)) == p.z
            && a >= 0 && b >= 0 && z >= 0
            && var i, at := Cpos(p.x, p.y, p.z, org, c.Counts()), c.Position(a, b, z);
            && (i + 1) * c.nbytes <= c.Counts().Total() * c.nbytes && at + c.nbytes <= |file|
            && Sample(Cut(c, file, c.Counts().Total()), i, c.nbytes) == file[at..at + c.nbytes]
  {
    hide Cut, Sample, Cube.Position, Cube.Count;
    var q := InOrder(p, org);
    CutSample(c, file, Pixel(q.d0, q.d1, q.d2));
  }

  // ----- the slice that is asked for

  /** The limits and the stride of a slice along one axis. */
  datatype Range = Range(lo: int, hi: int, skip: int)

  /** The slice along samples, lines or bands (0, 1, 2) if `u` is asked for: what `u` leaves open
      is as in the header, and what the header leaves open is the whole axis. */
  function RangeOf(h: Cube, u: Cube, org: Org, i: nat): Range
    requires i < 3
  {
    var j := OrderOf(org, i);
    var lo := if u.lo.Of(i) > 0 then u.lo.Of(i) else h.lo.Of(j);
    var hi := if u.hi.Of(i) > 0 then u.hi.Of(i) else h.hi.Of(j);
    var skip := if u.skip.Of(i) > 0 then u.skip.Of(i) else h.skip.Of(j);
    var n := if h.size.Of(j) == 0 then 1 else h.size.Of(j);
    Range(if lo == 0 then 1 else lo, if hi == 0 then n else Min(hi, n), if skip == 0 then 1 else skip)
  }

  /** The same, by the fields of the header. */
  lemma RangeLaw(h: Cube, u: Cube, org: Org, i: nat)
    requires i < 3
    ensures var of := (d: Dims) =>
              (match org
               case BSQ => [d.d0, d.d1, d.d2]
               case BIL => [d.d0, d.d2, d.d1]
               case BIP => [d.d1, d.d2, d.d0])[i];
            var asked := (d: Dims) => [d.d0, d.d1, d.d2][i];
            var r, n := RangeOf(h, u, org, i), if of(h.size) == 0 then 1 else of(h.size);
            && r.lo == (if asked(u.lo) > 0 then asked(u.lo) else if of(h.lo) > 0 then of(h.lo) else 1)
            && r.skip == (if asked(u.skip) > 0 then asked(u.skip) else if of(h.skip) > 0 then of(h.skip) else 1)
            && var hi := if asked(u.hi) > 0 then asked(u.hi) else if of(h.hi) > 0 then of(h.hi) else n;
            r.hi == if hi < n then hi else n
  {}

  /** The sample, line or band, counted from 0, that the `n`-th of the result is. */
  function Wanted(r: Range, n: nat): int {
    r.lo - 1 + n * r.skip
  }

  /** The limits and strides that are set have been taken over. */
  ghost predicate TakenOver(h: Cube, u: Cube, org: Org, c: Cube) {
    && c == h.(lo := c.lo, hi := c.hi, skip := c.skip)
    && forall i :: 0 <= i < 3 ==>
         var j := OrderOf(org, i);
         && c.lo.Of(j) == (if u.lo.Of(i) > 0 then u.lo.Of(i) else h.lo.Of(j))
         && c.hi.Of(j) == (if u.hi.Of(i) > 0 then u.hi.Of(i) else h.hi.Of(j))
         && c.skip.Of(j) == (if u.skip.Of(i) > 0 then u.skip.Of(i) else h.skip.Of(j))
  }

  /** What is asked for lies in the cube. */
  ghost predicate Askable(h: Cube, u: Cube, org: Org) {
    && h.nbytes > 0
    && forall i :: 0 <= i < 3 ==> RangeOf(h, u, org, i).lo <= RangeOf(h, u, org, i).hi
  }

  lemma TakenRange(h: Cube, u: Cube, org: Org, c: Cube, i: nat)
    requires TakenOver(h, u, org, c) && i < 3
    ensures var j, n := OrderOf(org, i), c.Normal();
            && RangeOf(h, u, org, i) == Range(n.lo.Of(j), n.hi.Of(j), n.skip.Of(j))
            && n.size == h.Normal().size && n.hi.Of(j) <= n.size.Of(j) && n.lo.Of(j) > 0 && n.skip.Of(j) > 0
  {
    DimsEqual(c.Normal().size, h.Normal().size);
  }

  lemma TakenValid(h: Cube, u: Cube, org: Org, c: Cube)
    requires TakenOver(h, u, org, c) && Askable(h, u, org)
    ensures c.Normal().Valid()
    ensures forall file :: h.Normal().Holds(file) <==> c.Normal().Holds(file)
  {
    hide Cube.Normal, RangeOf, TakenOver;
    forall j | 0 <= j < 3
      ensures var n := c.Normal(); 1 <= n.lo.Of(j) <= n.hi.Of(j) <= n.size.Of(j) && n.skip.Of(j) > 0
    {
      TakenRange(h, u, org, c, AxisAt(org, j));
    }
    SamePlace(h, u, org, c);
  }

  /** Whether samples, lines or bands are at a place of an order. */
  function AxisAt(org: Org, j: nat): (i: nat)
    requires j < 3
    ensures i < 3 && OrderOf(org, i) == j
  {
    if OrderOf(org, 0) == j then 0 else if OrderOf(org, 1) == j then 1 else 2
  }

  /** A slice does not move the samples in the file. */
  lemma SamePlace(h: Cube, u: Cube, org: Org, c: Cube)
    requires TakenOver(h, u, org, c)
    ensures c.Normal() == h.Normal().(lo := c.Normal().lo, hi := c.Normal().hi, skip := c.Normal().skip)
    ensures c.Normal().nbytes == h.nbytes
    ensures forall file :: h.Normal().Holds(file) <==> c.Normal().Holds(file)
    ensures forall a: nat, b: nat, z: nat :: h.Normal().Position(a, b, z) == c.Normal().Position(a, b, z)
  {
    TakenRange(h, u, org, c, 0);
  }

  /** The sample, line and band `p` of the result are there exactly if the slice reaches so far, and
      are those that the slice of the header `h` picks along samples, lines and bands. */
  ghost predicate ReadAsAsked(h: Cube, u: Cube, org: Org, c: Cube, file: seq<byte>, data: seq<byte>, p: Pixel)
    requires c.Valid()
  {
    var rx, ry, rz := RangeOf(h, u, org, 0), RangeOf(h, u, org, 1), RangeOf(h, u, org, 2);
    var x, y, z := Wanted(rx, p.x), Wanted(ry, p.y), Wanted(rz, p.z);
    && (InImage(p, org, c.Counts()) <==> x < rx.hi && y < ry.hi && z < rz.hi)
    && (InImage(p, org, c.Counts()) ==>
          && x >= 0 && y >= 0 && z >= 0
          && var q, i := InOrder(Pixel(x, y, z), org), Cpos(p.x, p.y, p.z, org, c.Counts());
          var at := h.Normal().Position(q.d0, q.d1, q.d2);
          && at + h.nbytes <= |file| && (i + 1) * h.nbytes <= |data|
          && Sample(data, i, h.nbytes) == file[at..at + h.nbytes])
  }

  lemma AskedIsRead(h: Cube, u: Cube, org: Org, c: Cube, file: seq<byte>, p: Pixel)
    requires TakenOver(h, u, org, c) && Askable(h, u, org) && h.Normal().Holds(file)
    ensures c.Normal().Valid() && c.Normal().Holds(file)
    ensures ReadAsAsked(h, u, org, c.Normal(), file, Cut(c.Normal(), file, c.Normal().Counts().Total()), p)
  {
    hide Cube.Normal, Cube.Position, Cube.Holds, Cube.Valid, Cube.Counts;
    hide Cut, Cpos, Sample, TakenOver, RangeOf, OrderOf;
    var n := c.Normal();
    TakenValid(h, u, org, c);
    SamePlace(h, u, org, c);
    AskedIsPicked(h, u, org, c, p);
    if InImage(p, org, n.Counts()) {
      CutOrganised(n, file, org, p);
    }
  }

  /** What is asked for along samples, lines and bands is what is picked along the axes. */
  lemma AskedIsPicked(h: Cube, u: Cube, org: Org, c: Cube, p: Pixel)
    requires TakenOver(h, u, org, c) && c.Normal().Valid()
    ensures var rx, ry, rz := RangeOf(h, u, org, 0), RangeOf(h, u, org, 1), RangeOf(h, u, org, 2);
            var x, y, z := Wanted(rx, p.x), Wanted(ry, p.y), Wanted(rz, p.z);
            && x >= 0 && y >= 0 && z >= 0
            && (InImage(p, org, c.Normal().Counts()) <==> x < rx.hi && y < ry.hi && z < rz.hi)
            && var n, q, w := c.Normal(), InOrder(p, org), InOrder(Pixel(x, y, z), org);
            w.d0 == n.Picked(q.d0, 0) && w.d1 == n.Picked(q.d1, 1) && w.d2 == n.Picked(q.d2, 2)
  {
    hide Cube.Normal, Cube.Valid, Cube.Count, TakenOver, RangeOf;
    AskedAlong(h, u, org, c, 0, p.x);
    AskedAlong(h, u, org, c, 1, p.y);
    AskedAlong(h, u, org, c, 2, p.z);
  }

  lemma AskedAlong(h: Cube, u: Cube, org: Org, c: Cube, i: nat, k: nat)
    requires TakenOver(h, u, org, c) && c.Normal().Valid() && i < 3
    ensures var j, r := OrderOf(org, i), RangeOf(h, u, org, i);
            && Wanted(r, k) == c.Normal().Picked(k, j) && Wanted(r, k) >= 0
            && (k < c.Normal().Count(j) <==> Wanted(r, k) < r.hi)
  {
    hide Cube.Normal, Cube.Valid, Cube.Count, TakenOver, RangeOf, OrderOf;
    TakenRange(h, u, org, c, i);
    PickedInside(c.Normal(), k, OrderOf(org, i));
  }

  // ----- the steps of the read

  /** Samples, lines and planes come one after the other. */
  lemma NextSample(c: Cube, a: nat, b: nat, z: nat)
    requires c.Valid() && a < c.Count(0) && b < c.Count(1) && z < c.Count(2)
    ensures var n, i := c.Counts(), Cpos(a, b, z, BSQ, c.Counts());
            && i < n.Total() && Cpos(a + 1, b, z, BSQ, n) == i + 1
            && 0 <= c.Picked(a, 0) && 0 <= c.Picked(b, 1) && 0 <= c.Picked(z, 2)
            && ElementAt(c, i) == c.Position(c.Picked(a, 0), c.Picked(b, 1), c.Picked(z, 2))
  {
    hide Xpos, Cube.Position;
    XposOfCpos(Pixel(a, b, z), BSQ, c.Counts());
    PickedInside(c, a, 0);
    PickedInside(c, b, 1);
    PickedInside(c, z, 2);
  }

  lemma NextLine(n: Dims, b: nat, z: nat)
    ensures Cpos(n.d0, b, z, BSQ, n) == Cpos(0, b + 1, z, BSQ, n)
    ensures Cpos(0, n.d1, z, BSQ, n) == Cpos(0, 0, z + 1, BSQ, n)
    ensures Cpos(0, 0, n.d2, BSQ, n) == n.Total() && Cpos(0, 0, 0, BSQ, n) == 0
  {
    assert n.d0 * (b + 1 + z * n.d1) == n.d0 + n.d0 * (b + z * n.d1);
    assert n.d1 + z * n.d1 == (z + 1) * n.d1;
    assert n.d0 * (n.d2 * n.d1) == n.d2 * (n.d1 * n.d0);
  }

  /** The first `a` samples of a line are there, after all earlier ones. */
  ghost predicate ReadUpTo(c: Cube, file: seq<byte>, data: seq<byte>, a: nat, b: nat, z: nat) {
    && c.Valid() && c.Holds(file) && Cpos(a, b, z, BSQ, c.Counts()) <= c.Counts().Total()
    && data == Cut(c, file, Cpos(a, b, z, BSQ, c.Counts()))
  }

  lemma ReadSample(c: Cube, file: seq<byte>, data: seq<byte>, a: nat, b: nat, z: nat, at: nat)
    requires ReadUpTo(c, file, data, a, b, z) && a < c.Count(0) && b < c.Count(1) && z < c.Count(2)
    requires 0 <= c.Picked(a, 0) && 0 <= c.Picked(b, 1) && 0 <= c.Picked(z, 2)
    requires at == c.Position(c.Picked(a, 0), c.Picked(b, 1), c.Picked(z, 2))
    ensures at + c.nbytes <= |file| && ReadUpTo(c, file, data + file[at..at + c.nbytes], a + 1, b, z)
  {
    hide ElementAt, Cube.Position;
    NextSample(c, a, b, z);
    HoldsElement(c, file, Cpos(a, b, z, BSQ, c.Counts()));
  }

  /** Copying a whole line at once, if no sample is skipped, is copying sample by sample. */
  lemma {:induction false} ReadBlock(c: Cube, file: seq<byte>, data: seq<byte>, n: nat, b: nat, z: nat, at: nat)
    requires ReadUpTo(c, file, data, 0, b, z) && n <= c.Count(0) && b < c.Count(1) && z < c.Count(2)
    requires c.skip.d0 == 1 && 0 <= c.Picked(b, 1) && 0 <= c.Picked(z, 2)
    requires at == c.Position(c.lo.d0 - 1, c.Picked(b, 1), c.Picked(z, 2)) && at + n * c.nbytes <= |file|
    ensures ReadUpTo(c, file, data + file[at..at + n * c.nbytes], n, b, z)
  {
    hide Cut, Cpos, ReadUpTo, Cube.Counts, Cube.Count, Cube.Position;
    UpToParts(c, file, data, b, z);
    if n == 0 {
      assert data + file[at..at + 0] == data;
    } else {
      OneMore(n - 1, c.nbytes);
      Grows(0, n - 1, c.nbytes);
      ReadBlock(c, file, data, n - 1, b, z, at);
      BlockPosition(c, n - 1, c.Picked(b, 1), c.Picked(z, 2));
      var mid := at + (n - 1) * c.nbytes;
      ReadSample(c, file, data + file[at..mid], n - 1, b, z, mid);
      assert file[at..mid] + file[mid..mid + c.nbytes] == file[at..at + n * c.nbytes];
      assert data + file[at..at + n * c.nbytes] == data + file[at..mid] + file[mid..mid + c.nbytes];
    }
  }

  lemma UpToParts(c: Cube, file: seq<byte>, data: seq<byte>, b: nat, z: nat)
    requires ReadUpTo(c, file, data, 0, b, z)
    ensures c.Valid() && c.Holds(file)
  {}

  lemma BlockPosition(c: Cube, n: nat, b: nat, z: nat)
    requires c.Valid() && c.skip.d0 == 1
    ensures c.Picked(n, 0) == c.lo.d0 - 1 + n
    ensures c.Position(c.lo.d0 - 1 + n, b, z) == c.Position(c.lo.d0 - 1, b, z) + n * c.nbytes
  {
    hide Cube.LineBytes, Cube.PlaneBytes;
    assert (c.lo.d0 - 1 + n) * c.nbytes == (c.lo.d0 - 1) * c.nbytes + n * c.nbytes;
  }

  /** The part of the plane buffer from which samples of a line are copied. */
  lemma BufferPart(c: Cube, offset: nat, a: nat, y: nat, z: nat, n: nat)
    requires c.Valid() && z < c.size.d2 && y < c.Extent(1) && a + n <= c.hi.d0
    requires offset == c.dptr + z * c.PlaneBytes() + c.LineBytes() * (c.lo.d1 - 1)
    ensures var plane, start := c.BufferBytes(), c.InBuffer(a, y);
            && offset + plane <= c.dptr + c.size.d2 * c.PlaneBytes()
            && start + n * c.nbytes <= plane
            && offset + start == c.Position(a, c.lo.d1 - 1 + y, z)
  {
    PlaneFits(c, z);
    LinePart(c, a, n);
    hide Cube.LineBytes, Cube.PlaneBytes;
    LinesOfPlane(c.LineBytes(), c.Extent(1), c.lo.d1 - 1, y);
  }

  lemma LinesOfPlane(d0: nat, m: nat, lo: nat, y: nat)
    requires y < m
    ensures y * d0 + d0 <= d0 * m && d0 * (lo + y) == d0 * lo + y * d0 && d0 * lo + d0 * m == d0 * (lo + m)
  {
    RowFits(y, m, d0);
  }

  lemma RunOfBuffer(file: seq<byte>, offset: nat, plane: nat, start: nat, n: nat)
    requires offset + plane <= |file| && start + n <= plane
    ensures file[offset..offset + plane][start..start + n] == file[offset + start..offset + start + n]
  {
    var l, r := file[offset..offset + plane][start..start + n], file[offset + start..offset + start + n];
    assert forall k :: 0 <= k < n ==> l[k] == r[k];
  }

  /** The buffer holds the lines of plane `z` from the first line of the slice on. */
  ghost predicate PlaneBuffer(c: Cube, file: seq<byte>, pData: seq<byte>, offset: nat, z: nat) {
    var size := c.BufferBytes();
    && c.Valid() && c.Holds(file) && z < c.size.d2
    && offset == c.dptr + z * c.PlaneBytes() + c.LineBytes() * (c.lo.d1 - 1)
    && offset <= offset + size <= |file| && pData == file[offset..offset + size]
  }

  lemma PlaneFits(c: Cube, z: nat)
    requires c.Valid() && z < c.size.d2
    ensures c.dptr + z * c.PlaneBytes() + c.LineBytes() * c.hi.d1 <= c.dptr + c.size.d2 * c.PlaneBytes()
  {
    LinesFit(c);
    hide Cube.LineBytes, Cube.PlaneBytes;
    RowFits(z, c.size.d2, c.PlaneBytes());
    assert c.hi.d1 == c.hi.Of(1) <= c.size.Of(1) == c.size.d1;
    Grows(c.hi.d1, c.size.d1, c.LineBytes());
  }

  lemma LinePart(c: Cube, a: nat, n: nat)
    requires c.Valid() && a + n <= c.hi.d0
    ensures c.prefix.d0 + a * c.nbytes + n * c.nbytes <= c.LineBytes()
  {
    assert c.hi.d0 == c.hi.Of(0) <= c.size.Of(0) == c.size.d0;
    Grows(a + n, c.size.d0, c.nbytes);
    assert (a + n) * c.nbytes == a * c.nbytes + n * c.nbytes;
  }

  /** Copies `n` samples of a line from sample `a` on, out of the plane buffer. */
  method ReadRun(h: Cube, d0: nat, pData: seq<byte>, a: nat, y: nat, n: nat,
                 ghost c: Cube, ghost file: seq<byte>, ghost offset: nat, ghost z: nat)
    returns (run: seq<byte>)
    requires PlaneBuffer(c, file, pData, offset, z) && h == c.FromZero() && d0 == c.LineBytes()
    requires y < c.Extent(1) && a + n <= c.hi.d0
    ensures var at := c.Position(a, c.lo.d1 - 1 + y, z);
            at + n * c.nbytes <= |file| && run == file[at..at + n * c.nbytes]
  {
    hide PlaneBuffer, Cube.LineBytes, Cube.PlaneBytes, Cube.Position, Cube.Valid, Cube.Holds, Cube.BufferBytes;
    BufferRun(c, file, pData, offset, a, y, z, n);
    var start := h.prefix.d0 + a * h.nbytes + y * d0;
    run := pData[start..start + n * h.nbytes];
  }

  lemma BufferRun(c: Cube, file: seq<byte>, pData: seq<byte>, offset: nat, a: nat, y: nat, z: nat, n: nat)
    requires PlaneBuffer(c, file, pData, offset, z) && y < c.Extent(1) && a + n <= c.hi.d0
    ensures var start, at := c.InBuffer(a, y), c.Position(a, c.lo.d1 - 1 + y, z);
            && start + n * c.nbytes <= |pData| && at + n * c.nbytes <= |file|
            && Part(pData, start, n * c.nbytes) == Part(file, at, n * c.nbytes)
  {
    hide Cube.LineBytes, Cube.PlaneBytes, Cube.Position, Cube.InBuffer, Cube.BufferBytes;
    BufferPart(c, offset, a, y, z, n);
    RunOfBuffer(file, offset, |pData|, c.InBuffer(a, y), n * c.nbytes);
  }

  /** Copies what is read of one line: all at once, or sample by sample. */
  method ReadLine(h: Cube, dim: Dims, d0: nat, pData: seq<byte>, y: nat, before: seq<byte>,
                  ghost c: Cube, ghost file: seq<byte>, ghost offset: nat, ghost b: nat, ghost z: nat)
    returns (data: seq<byte>)
    requires c.Valid() && c.Picked(z, 2) >= 0 && PlaneBuffer(c, file, pData, offset, c.Picked(z, 2))
    requires h == c.FromZero() && d0 == c.LineBytes() && dim.d0 == c.Extent(0) && dim.d1 == c.Extent(1)
    requires b < c.Count(1) && z < c.Count(2) && y == b * c.skip.d1 && ReadUpTo(c, file, before, 0, b, z)
    ensures ReadUpTo(c, file, data, c.Count(0), b, z)
  {
    hide PlaneBuffer, Cut, Cpos, ReadUpTo;
    hide Cube.Counts, Cube.Count, Cube.LineBytes, Cube.PlaneBytes, Cube.Position, Cube.Holds;
    data := before;
    PickedInside(c, b, 1);
    PickedInside(c, z, 2);
    ghost var row, plane := c.Picked(b, 1), c.Picked(z, 2);
    if h.skip.d0 == 1 {
      var run := ReadRun(h, d0, pData, h.lo.d0, y, dim.d0, c, file, offset, plane);
      CountOfAll(c);
      ReadBlock(c, file, before, dim.d0, b, z, c.Position(c.lo.d0 - 1, row, plane));
      data := data + run;
    } else {
      var x := 0;
      ghost var a := 0;
      while x < dim.d0
        invariant x == a * c.skip.d0 && a <= c.Count(0) && ReadUpTo(c, file, data, a, b, z)
        decreases c.Count(0) - a
      {
        PickedInside(c, a, 0);
        var run := ReadRun(h, d0, pData, h.lo.d0 + x, y, 1, c, file, offset, plane);
        ReadSample(c, file, data, a, b, z, c.Position(c.Picked(a, 0), row, plane));
        data := data + run;
        x, a := x + h.skip.d0, a + 1;
        OneMore(a - 1, c.skip.d0);
      }
      PickedInside(c, a, 0);
    }
  }

  lemma CountOfAll(c: Cube)
    requires c.Valid() && c.skip.d0 == 1
    ensures c.Count(0) == c.Extent(0)
  {}

  /** Copies what is read of one plane. */
  method ReadPlane(h: Cube, dim: Dims, d0: nat, pData: seq<byte>, before: seq<byte>,
                   ghost c: Cube, ghost file: seq<byte>, ghost offset: nat, ghost z: nat)
    returns (data: seq<byte>)
    requires c.Valid() && c.Picked(z, 2) >= 0 && PlaneBuffer(c, file, pData, offset, c.Picked(z, 2))
    requires h == c.FromZero() && d0 == c.LineBytes() && dim.d0 == c.Extent(0) && dim.d1 == c.Extent(1)
    requires z < c.Count(2) && ReadUpTo(c, file, before, 0, 0, z)
    ensures ReadUpTo(c, file, data, 0, 0, z + 1)
  {
    hide PlaneBuffer, Cut, Cpos, Cube.Count, Cube.LineBytes, Cube.PlaneBytes, Cube.Position, Cube.Holds;
    data := before;
    var y := 0;
    ghost var b := 0;
    while y < dim.d1
      invariant y == b * c.skip.d1 && b <= c.Count(1) && ReadUpTo(c, file, data, 0, b, z)
      decreases c.Count(1) - b
    {
      PickedInside(c, b, 1);
      data := ReadLine(h, dim, d0, pData, y, data, c, file, offset, b, z);
      NextLine(c.Counts(), b, z);
      y, b := y + h.skip.d1, b + 1;
      OneMore(b - 1, c.skip.d1);
    }
    PickedInside(c, b, 1);
    NextLine(c.Counts(), b, z);
  }

  lemma ReadStart(c: Cube, file: seq<byte>)
    requires c.Valid() && c.Holds(file)
    ensures ReadUpTo(c, file, [], 0, 0, 0)
  {
    NextLine(c.Counts(), 0, 0);
  }

  lemma ReadEnd(c: Cube, file: seq<byte>, data: seq<byte>)
    requires c.Valid() && ReadUpTo(c, file, data, 0, 0, c.Count(2))
    ensures c.Holds(file) && data == Cut(c, file, c.Counts().Total())
  {
    NextLine(c.Counts(), 0, 0);
  }

  lemma PlaneAt(c: Cube, file: seq<byte>, z: nat, offset: nat)
    requires c.Valid() && z < c.size.d2
    requires offset == c.dptr + z * c.PlaneBytes() + c.LineBytes() * (c.lo.d1 - 1)
    ensures 0 <= c.BufferBytes() && offset + c.BufferBytes() <= c.dptr + c.size.d2 * c.PlaneBytes()
    ensures c.Holds(file) ==>
              offset + c.BufferBytes() <= |file|
              && PlaneBuffer(c, file, file[offset..offset + c.BufferBytes()], offset, z)
  {
    hide Cube.LineBytes, Cube.PlaneBytes;
    BufferPart(c, offset, 0, 0, z, 0);
  }

  lemma ExtentParts(c: Cube, extent: Dims)
    requires forall i :: 0 <= i < 3 ==> extent.Of(i) == c.Extent(i)
    ensures extent.d0 == c.Extent(0) && extent.d1 == c.Extent(1) && extent.d2 == c.Extent(2)
  {
    assert extent.Of(0) == c.Extent(0) && extent.Of(1) == c.Extent(1) && extent.Of(2) == c.Extent(2);
  }

  lemma SameBytes(c: Cube)
    ensures c.FromZero().LineBytes() == c.LineBytes() && c.FromZero().PlaneBytes() == c.PlaneBytes()
  {}

  /** The cube with the first `i` axes filled in and counted from 0. */
  function Prepared(c: Cube, i: nat): Cube
    requires i <= 3
  {
    if i == 0 then c else Prepared(c, i - 1).PrepareAxis(i - 1)
  }

  /** Filling in an axis depends on that axis only. */
  lemma PreparedStep(c: Cube, i: nat)
    requires i < 3
    ensures var next := Prepared(c, i).PrepareAxis(i);
            && next == Prepared(c, i + 1)
            && next.hi.Of(i) - next.lo.Of(i) + 1 == c.Normal().Extent(i)
            && next.skip.Of(i) == c.Normal().skip.Of(i)
  {
    if i > 0 {
      assert Prepared(c, 1) == c.PrepareAxis(0);
    }
    if i > 1 {
      assert Prepared(c, 2) == c.PrepareAxis(0).PrepareAxis(1);
    }
  }

  lemma PreparedAll(c: Cube)
    ensures Prepared(c, 3) == c.Normal().FromZero()
  {
    assert Prepared(c, 1) == c.PrepareAxis(0);
    assert Prepared(c, 2) == c.PrepareAxis(0).PrepareAxis(1);
    var now, n := Prepared(c, 3), c.Normal();
    DimsEqual(now.size, n.size);
    DimsEqual(now.skip, n.skip);
    DimsEqual(now.lo, n.lo.Less());
    DimsEqual(now.hi, n.hi.Less());
  }

  /** The sizes of the first `i` axes multiplied. */
  function Product(c: Cube, i: nat): nat
    requires c.Valid() && i <= 3
  {
    if i == 0 then 1 else Product(c, i - 1) * c.Count(i - 1)
  }

  lemma NothingPrepared(c: Cube)
    requires c.Normal().Valid()
    ensures Prepared(c, 0) == c && Product(c.Normal(), 0) == 1
  {
    hide Cube.Normal;
  }

  lemma CountIsPositive(c: Cube, i: nat)
    requires c.Valid() && i < 3
    ensures c.Extent(i) > 0 && c.skip.Of(i) > 0 && c.Count(i) == (c.Extent(i) - 1) / c.skip.Of(i) + 1
    ensures Product(c, i + 1) == Product(c, i) * c.Count(i)
  {}

  lemma ProductOfAll(c: Cube)
    requires c.Valid()
    ensures Product(c, 3) == c.Counts().Total()
  {
    var n := c.Counts();
    assert Product(c, 1) == c.Count(0) && Product(c, 2) == Product(c, 1) * c.Count(1);
    assert n.d0 * n.d1 * n.d2 == n.d2 * (n.d1 * n.d0);
  }

  class IHeader {
    var org: Org
    var cube: Cube
    var dim: Dims

    constructor (org: Org, cube: Cube)
      ensures this.org == org && this.cube == cube
    {
      this.org, this.cube, this.dim := org, cube, Dims(0, 0, 0);
    }

    /** Takes over those limits of a slice that are set. The slice comes as samples, lines and
        bands, and is put in the order of the file. */
    method SetSlice(s: Option<Cube>)
      modifies this`cube
      ensures s.None? ==> cube == old(cube)
      ensures s.Some? ==> TakenOver(old(cube), s.value, org, cube)
    {
      if s.Some? {
        var u := s.value;
        for i := 0 to 3
          invariant cube == old(cube).(lo := cube.lo, hi := cube.hi, skip := cube.skip)
          invariant forall k :: 0 <= k < 3 ==>
                      var j := OrderOf(org, k);
                      && cube.lo.Of(j) == (if k < i && u.lo.Of(k) > 0 then u.lo.Of(k) else old(cube).lo.Of(j))
                      && cube.hi.Of(j) == (if k < i && u.hi.Of(k) > 0 then u.hi.Of(k) else old(cube).hi.Of(j))
                      && cube.skip.Of(j) == (if k < i && u.skip.Of(k) > 0 then u.skip.Of(k) else old(cube).skip.Of(j))
        {
          var j := OrderOf(org, i);
          if u.lo.Of(i) > 0 { cube := cube.(lo := cube.lo.With(j, u.lo.Of(i))); }
          if u.hi.Of(i) > 0 { cube := cube.(hi := cube.hi.With(j, u.hi.Of(i))); }
          if u.skip.Of(i) > 0 { cube := cube.(skip := cube.skip.With(j, u.skip.Of(i))); }
        }
      }
    }

    /** Fills in what is not set, lets the limits count from 0, and works out the sizes. */
    method Prepare() returns (dsize: nat)
      requires cube.Normal().Valid()
      modifies this`cube, this`dim
      ensures cube == old(cube).Normal().FromZero()
      ensures forall i :: 0 <= i < 3 ==> dim.Of(i) == old(cube).Normal().Extent(i)
      ensures dsize == old(cube).Normal().Counts().Total()
    {
      ghost var c := cube.Normal();
      hide Cube.Normal, Cube.PrepareAxis, Cube.Valid, Cube.Count, Product, Prepared, Dims.Of, Dims.With, Cube.Counts;
      dsize := 1;
      NothingPrepared(cube);
      for i := 0 to 3
        invariant cube == Prepared(old(cube), i)
        invariant forall k :: 0 <= k < i ==> dim.Of(k) == c.Extent(k)
        invariant dsize == Product(c, i)
      {
        PreparedStep(old(cube), i);
        CountIsPositive(c, i);
        cube := cube.PrepareAxis(i);
        dim := dim.With(i, cube.hi.Of(i) - cube.lo.Of(i) + 1);
        dsize := dsize * ((dim.Of(i) - 1) / cube.skip.Of(i) + 1);
      }
      PreparedAll(old(cube));
      ProductOfAll(c);
    }

    /** Lets the limits count from 1 again. */
    method Restore(ghost c: Cube)
      requires c.Valid() && cube == c.FromZero()
      modifies this`cube
      ensures cube == c
    {
      for i := 0 to 3
        invariant cube == c.(lo := cube.lo, hi := cube.hi)
        invariant forall k :: 0 <= k < 3 ==>
                    && cube.lo.Of(k) == (if k < i then c.lo.Of(k) else c.lo.Of(k) - 1)
                    && cube.hi.Of(k) == (if k < i then c.hi.Of(k) else c.hi.Of(k) - 1)
      {
        cube := cube.(lo := cube.lo.With(i, cube.lo.Of(i) + 1), hi := cube.hi.With(i, cube.hi.Of(i) + 1));
      }
      DimsEqual(cube.lo, c.lo);
      DimsEqual(cube.hi, c.hi);
    }

    /** Reads the slice. The header comes out with everything filled in, so that it reads the
        same data again. */
    method ReadQubeData(file: seq<byte>) returns (data: seq<byte>, dsize: nat)
      requires cube.Normal().Valid() && cube.Normal().Holds(file)
      modifies this`cube, this`dim
      ensures cube == old(cube).Normal() && cube.Normal() == cube
      ensures cube.Valid() && dsize == cube.Counts().Total()
      ensures forall i :: 0 <= i < 3 ==> dim.Of(i) == cube.Extent(i)
      ensures cube.Holds(file) && data == Cut(cube, file, dsize) && |data| == dsize * cube.nbytes
    {
      ghost var c := cube.Normal();
      NormalTwice(cube);
      hide Cube.Normal, PlaneBuffer, Cut, ReadUpTo, Cpos;
      hide Cube.Count, Cube.Counts, Cube.LineBytes, Cube.PlaneBytes, Cube.Holds;
      dsize := Prepare();
      var h := cube;
      var d0 := h.LineBytes();
      SameBytes(c);
      var extent := dim;
      ExtentParts(c, extent);
      data := [];
      ReadStart(c, file);
      var z := 0;
      ghost var n := 0;
      while z < extent.d2
        invariant z == n * c.skip.d2 && n <= c.Count(2) && cube == h && dim == extent
        invariant ReadUpTo(c, file, data, 0, 0, n)
        decreases c.Count(2) - n
      {
        PickedInside(c, n, 2);
        var offset := h.dptr + (z + h.lo.d2) * h.PlaneBytes() + d0 * h.lo.d1;
        var plane := d0 * extent.d1;
        PlaneAt(c, file, c.Picked(n, 2), offset);
        var pData := file[offset..offset + plane];
        data := ReadPlane(h, extent, d0, pData, data, c, file, offset, n);
        z, n := z + h.skip.d2, n + 1;
        OneMore(n - 1, c.skip.d2);
      }
      PickedInside(c, n, 2);
      ReadEnd(c, file, data);
      Restore(c);
    }

    /** Sets a slice and reads it: every sample of the result is the one that was asked for. */
    method ReadSlice(u: Cube, file: seq<byte>) returns (data: seq<byte>, dsize: nat)
      requires Askable(cube, u, org) && cube.Normal().Holds(file)
      modifies this`cube, this`dim
      ensures cube.Valid() && dsize == cube.Counts().Total() && |data| == dsize * cube.nbytes
      ensures cube.nbytes == old(cube).nbytes && org == old(org)
      ensures forall p :: ReadAsAsked(old(cube), u, org, cube, file, data, p)
      ensures forall i :: 0 <= i < 3 ==>
                var j := OrderOf(org, i);
                RangeOf(old(cube), u, org, i) == Range(cube.lo.Of(j), cube.hi.Of(j), cube.skip.Of(j))
    {
      hide *;
      SetSlice(Some(u));
      ghost var c := cube;
      TakenValid(old(cube), u, org, c);
      SamePlace(old(cube), u, org, c);
      data, dsize := ReadQubeData(file);
      forall p
        ensures ReadAsAsked(old(cube), u, org, cube, file, data, p)
      {
        AskedIsRead(old(cube), u, org, c, file, p);
      }
      forall i | 0 <= i < 3
        ensures var j := OrderOf(org, i);
                RangeOf(old(cube), u, org, i) == Range(cube.lo.Of(j), cube.hi.Of(j), cube.skip.Of(j))
      {
        TakenRange(old(cube), u, org, c, i);
      }
    }
  }
}
