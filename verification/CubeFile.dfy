/** A file of a cube, put together from its parts, and what the reader makes of it. */
module CubeFile {
  import opened Arithmetic
  import opened Common
  import opened IndexSpace
  import opened Layouts
  import opened Nested
  import opened Reorganise
  import opened Slice

  /** The parts of a file: what comes before the cube, the samples, what comes before and after the
      samples of a line, before and after the lines of a plane, and at the end of a plane. */
  datatype Parts = Parts(head: seq<byte>, sample: Cells, prefix: (nat, nat) -> seq<byte>,
                         suffix: (nat, nat) -> seq<byte>, before: nat -> seq<byte>, behind: nat -> seq<byte>,
                         corner: nat -> seq<byte>)

  function FileLine(p: Parts, n0: nat, b: nat, z: nat): seq<byte> {
    p.prefix(b, z) + Line(p.sample, n0, b, z) + p.suffix(b, z)
  }

  function FilePlane(p: Parts, n0: nat, n1: nat, z: nat): seq<byte> {
    p.before(z) + Concat((b: nat) => FileLine(p, n0, b, z), n1) + p.behind(z) + p.corner(z)
  }

  /** The whole file, of `n2` planes of `n1` lines of `n0` samples. */
  function File(p: Parts, n0: nat, n1: nat, n2: nat): seq<byte> {
    p.head + Concat((z: nat) => FilePlane(p, n0, n1, z), n2)
  }

  /** The parts have the sizes that the header gives: a prefix or suffix of the second axis has so
      many bytes for each sample of a line. */
  ghost predicate Described(p: Parts, c: Cube) {
    && |p.head| == c.dptr && Sized(p.sample, c.nbytes)
    && (forall b, z :: |p.prefix(b, z)| == c.prefix.d0 && |p.suffix(b, z)| == c.suffix.d0)
    && (forall z :: |p.before(z)| == c.size.d0 * c.prefix.d1 && |p.behind(z)| == c.size.d0 * c.suffix.d1)
    && forall z :: |p.corner(z)| == c.corner
  }

  lemma LineSize(p: Parts, c: Cube)
    requires Described(p, c)
    ensures forall b, z :: |FileLine(p, c.size.d0, b, z)| == c.LineBytes()
  {
    PlanesSize(p.sample, c.size.d0, 0, 0, c.nbytes);
    assert c.LineBytes() == c.prefix.d0 + c.size.d0 * c.nbytes + c.suffix.d0;
  }

  lemma LinesSize(p: Parts, c: Cube, z: nat)
    requires Described(p, c)
    ensures |Concat((b: nat) => FileLine(p, c.size.d0, b, z), c.size.d1)| == c.size.d1 * c.LineBytes()
  {
    LineSize(p, c);
    ConcatSize((b: nat) => FileLine(p, c.size.d0, b, z), c.size.d1, c.LineBytes());
  }

  lemma PlaneSize(p: Parts, c: Cube)
    requires Described(p, c)
    ensures forall z :: |FilePlane(p, c.size.d0, c.size.d1, z)| == c.PlaneBytes()
  {
    forall z
      ensures |FilePlane(p, c.size.d0, c.size.d1, z)| == c.PlaneBytes()
    {
      LinesSize(p, c, z);
      PlaneSum(c);
    }
  }

  lemma PlaneSum(c: Cube)
    ensures c.PlaneBytes()
            == c.size.d0 * c.prefix.d1 + c.size.d1 * c.LineBytes() + c.size.d0 * c.suffix.d1 + c.corner
  {
    assert c.size.d0 * (c.prefix.d1 + c.suffix.d1) == c.size.d0 * c.prefix.d1 + c.size.d0 * c.suffix.d1;
  }

  /** The file is as long as the header says. */
  lemma FileSize(p: Parts, c: Cube)
    requires Described(p, c)
    ensures |File(p, c.size.d0, c.size.d1, c.size.d2)| == c.dptr + c.size.d2 * c.PlaneBytes()
    ensures c.Holds(File(p, c.size.d0, c.size.d1, c.size.d2))
  {
    PlaneSize(p, c);
    ConcatSize((z: nat) => FilePlane(p, c.size.d0, c.size.d1, z), c.size.d2, c.PlaneBytes());
  }

  /** Where a sample is: past the prefix of the second axis of its plane. */
  lemma SampleInFile(p: Parts, c: Cube, a: nat, b: nat, z: nat)
    requires Described(p, c) && a < c.size.d0 && b < c.size.d1 && z < c.size.d2
    ensures Part(File(p, c.size.d0, c.size.d1, c.size.d2), AfterPrefix(c, a, b, z), c.nbytes) == p.sample(a, b, z)
  {
    hide Concat, Part, Line, FilePlane, FileLine, Sized, Cube.LineBytes, Cube.PlaneBytes;
    var n0, n1, n2 := c.size.d0, c.size.d1, c.size.d2;
    PlaneInFile(p, c, z);
    LineInPlane(p, c, b, z);
    SampleInFileLine(p, c, a, b, z);
    var plane, line := FilePlane(p, n0, n1, z), FileLine(p, n0, b, z);
    PartInParts(File(p, n0, n1, n2), c.dptr + z * |plane|, plane, n0 * c.prefix.d1 + b * |line|, line,
                c.prefix.d0 + a * c.nbytes, c.nbytes);
    assert c.LineBytes() * b == b * |line|;
  }

  lemma PlaneInFile(p: Parts, c: Cube, z: nat)
    requires Described(p, c) && z < c.size.d2
    ensures var plane := FilePlane(p, c.size.d0, c.size.d1, z);
            && |plane| == c.PlaneBytes()
            && Part(File(p, c.size.d0, c.size.d1, c.size.d2), c.dptr + z * |plane|, |plane|) == plane
  {
    hide Part, Concat, FilePlane, Cube.PlaneBytes;
    PlaneSize(p, c);
    PieceAt((z: nat) => FilePlane(p, c.size.d0, c.size.d1, z), c.size.d2, c.PlaneBytes(), z);
    PartBehind(p.head, Concat((z: nat) => FilePlane(p, c.size.d0, c.size.d1, z), c.size.d2), z * c.PlaneBytes(),
               c.PlaneBytes());
  }

  lemma LineInPlane(p: Parts, c: Cube, b: nat, z: nat)
    requires Described(p, c) && b < c.size.d1
    ensures var plane, line, at := FilePlane(p, c.size.d0, c.size.d1, z), FileLine(p, c.size.d0, b, z),
                                   c.size.d0 * c.prefix.d1;
            && |line| == c.LineBytes() && at + b * |line| + |line| <= |plane|
            && Part(plane, at + b * |line|, |line|) == line
  {
    hide Part, Concat, FileLine, Sized, Cube.LineBytes;
    LineSize(p, c);
    LinesSize(p, c, z);
    var lines := Concat((b: nat) => FileLine(p, c.size.d0, b, z), c.size.d1);
    PieceAt((b: nat) => FileLine(p, c.size.d0, b, z), c.size.d1, c.LineBytes(), b);
    RowFits(b, c.size.d1, c.LineBytes());
    var rest := p.behind(z) + p.corner(z);
    Regroup(p.before(z) + lines, p.behind(z), p.corner(z));
    Regroup(p.before(z), lines, rest);
    PartBehind(p.before(z), lines + rest, b * c.LineBytes(), c.LineBytes());
    PartBefore(lines, rest, b * c.LineBytes(), c.LineBytes());
  }

  lemma SampleInFileLine(p: Parts, c: Cube, a: nat, b: nat, z: nat)
    requires Described(p, c) && a < c.size.d0
    ensures var line, at := FileLine(p, c.size.d0, b, z), c.prefix.d0 + a * c.nbytes;
            at + c.nbytes <= |line| && Part(line, at, c.nbytes) == p.sample(a, b, z)
  {
    hide Part, Line, Concat;
    SampleInLine(p.sample, c.size.d0, c.nbytes, a, b, z);
    var samples := Line(p.sample, c.size.d0, b, z);
    Regroup(p.prefix(b, z), samples, p.suffix(b, z));
    PartBehind(p.prefix(b, z), samples + p.suffix(b, z), a * c.nbytes, c.nbytes);
    PartBefore(samples, p.suffix(b, z), a * c.nbytes, c.nbytes);
  }

  // ----- what is read

  function Chosen(lo: int, skip: int, n: nat): nat {
    if lo >= 1 && skip > 0 then lo - 1 + n * skip else 0
  }

  /** How many there are from `lo` to `hi` in steps of `skip`. */
  function Number(r: Range): nat {
    if r.lo <= r.hi && r.skip > 0 then (r.hi - r.lo) / r.skip + 1 else 0
  }

  /** The samples that a slice of an image has. */
  function Sliced(g: Cells, rx: Range, ry: Range, rz: Range): Cells {
    (x: nat, y: nat, z: nat) =>
      g(Chosen(rx.lo, rx.skip, x), Chosen(ry.lo, ry.skip, y), Chosen(rz.lo, rz.skip, z))
  }

  lemma SlicedSize(g: Cells, rx: Range, ry: Range, rz: Range, nbytes: nat)
    requires Sized(g, nbytes)
    ensures Sized(Sliced(g, rx, ry, rz), nbytes)
  {
    forall x: nat, y: nat, z: nat
      ensures |Sliced(g, rx, ry, rz)(x, y, z)| == nbytes
    {
      assert Sliced(g, rx, ry, rz)(x, y, z)
          == g(Chosen(rx.lo, rx.skip, x), Chosen(ry.lo, ry.skip, y), Chosen(rz.lo, rz.skip, z));
    }
  }

  /** The samples of the file are those of the image `g`, in the order of the organisation. */
  ghost predicate Shows(sample: Cells, g: Cells, org: Org) {
    match org
    case BSQ => forall x, y, z :: sample(x, y, z) == g(x, y, z)
    case BIL => forall x, y, z :: sample(x, z, y) == g(x, y, z)
    case BIP => forall x, y, z :: sample(z, x, y) == g(x, y, z)
  }

  /** The cube that was read has the ranges asked for along the axes of the file. */
  ghost predicate HasRanges(h: Cube, u: Cube, org: Org, c: Cube) {
    forall i :: 0 <= i < 3 ==>
      var j := OrderOf(org, i); RangeOf(h, u, org, i) == Range(c.lo.Of(j), c.hi.Of(j), c.skip.Of(j))
  }

  lemma CountsAsAsked(h: Cube, u: Cube, org: Org, c: Cube)
    requires c.Valid() && HasRanges(h, u, org, c)
    ensures var rx, ry, rz := RangeOf(h, u, org, 0), RangeOf(h, u, org, 1), RangeOf(h, u, org, 2);
            && c.Counts() == Extents(org, Number(rx), Number(ry), Number(rz))
            && Number(rx) > 0 && Number(ry) > 0 && Number(rz) > 0
            && 1 <= rx.lo <= rx.hi && 1 <= ry.lo <= ry.hi && 1 <= rz.lo <= rz.hi
            && rx.skip > 0 && ry.skip > 0 && rz.skip > 0
  {
    NumberAlong(h, u, org, c, 0);
    NumberAlong(h, u, org, c, 1);
    NumberAlong(h, u, org, c, 2);
  }

  lemma NumberAlong(h: Cube, u: Cube, org: Org, c: Cube, i: nat)
    requires c.Valid() && HasRanges(h, u, org, c) && i < 3
    ensures var r := RangeOf(h, u, org, i);
            Number(r) == c.Count(OrderOf(org, i)) > 0 && 1 <= r.lo <= r.hi && r.skip > 0
  {
    hide RangeOf;
    var j := OrderOf(org, i);
    assert RangeOf(h, u, org, i) == Range(c.lo.Of(j), c.hi.Of(j), c.skip.Of(j));
    Division(c.Extent(j) - 1, c.skip.Of(j));
  }

  lemma RangeInside(h: Cube, u: Cube, org: Org, i: nat)
    requires i < 3
    ensures RangeOf(h, u, org, i).hi <= h.Normal().size.Of(OrderOf(org, i))
  {}

  /** A range goes on below its end. */
  lemma NumberBelow(r: Range, k: nat)
    requires 1 <= r.lo <= r.hi && r.skip > 0 && k < Number(r)
    ensures Wanted(r, k) == Chosen(r.lo, r.skip, k) < r.hi
  {
    var m := r.hi - r.lo;
    Division(m, r.skip);
    Grows(k, m / r.skip, r.skip);
  }

  lemma PixelAsAsked(h: Cube, u: Cube, org: Org, c: Cube, g: Cells, p: Parts, data: seq<byte>, q: Pixel)
    requires c.Valid() && HasRanges(h, u, org, c) && h.nbytes == c.nbytes && |data| == c.Counts().Total() * c.nbytes
    requires Described(p, h.Normal()) && Shows(p.sample, g, org) && Sized(g, c.nbytes) && h.prefix.d1 == 0
    requires var n := h.Normal().size; ReadAsAsked(h, u, org, c, File(p, n.d0, n.d1, n.d2), data, q)
    requires var rx, ry, rz := RangeOf(h, u, org, 0), RangeOf(h, u, org, 1), RangeOf(h, u, org, 2);
             q.x < Number(rx) && q.y < Number(ry) && q.z < Number(rz)
    ensures var rx, ry, rz := RangeOf(h, u, org, 0), RangeOf(h, u, org, 1), RangeOf(h, u, org, 2);
            Part(data, Cpos(q.x, q.y, q.z, org, c.Counts()) * c.nbytes, c.nbytes)
            == Sliced(g, rx, ry, rz)(q.x, q.y, q.z)
  {
    hide RangeOf, Number, Cube.Normal, Cube.Counts, Cube.Position, Cube.Valid, Cpos, Sample, Part, File, Described;
    hide Wanted, Chosen;
    var rx, ry, rz := RangeOf(h, u, org, 0), RangeOf(h, u, org, 1), RangeOf(h, u, org, 2);
    CountsAsAsked(h, u, org, c);
    NumberBelow(rx, q.x);
    NumberBelow(ry, q.y);
    NumberBelow(rz, q.z);
    RangeInside(h, u, org, 0);
    RangeInside(h, u, org, 1);
    RangeInside(h, u, org, 2);
    var x, y, z := Wanted(rx, q.x), Wanted(ry, q.y), Wanted(rz, q.z);
    var w := InOrder(Pixel(x, y, z), org);
    var n := h.Normal();
    NormalParts(h);
    assert InImage(q, org, c.Counts());
    SampleIsPart(data, Cpos(q.x, q.y, q.z, org, c.Counts()), c.nbytes);
    SampleOfFile(p, n, w);
    assert p.sample(w.d0, w.d1, w.d2) == g(x, y, z);
  }

  lemma NormalParts(h: Cube)
    ensures h.Normal().nbytes == h.nbytes && h.Normal().prefix == h.prefix
  {}

  lemma SampleOfFile(p: Parts, n: Cube, w: Dims)
    requires Described(p, n) && n.prefix.d1 == 0 && w.d0 < n.size.d0 && w.d1 < n.size.d1 && w.d2 < n.size.d2
    ensures var file, at := File(p, n.size.d0, n.size.d1, n.size.d2), n.Position(w.d0, w.d1, w.d2);
            at + n.nbytes <= |file| ==> file[at..at + n.nbytes] == p.sample(w.d0, w.d1, w.d2)
  {
    hide File;
    SampleInFile(p, n, w.d0, w.d1, w.d2);
    assert AfterPrefix(n, w.d0, w.d1, w.d2) == n.Position(w.d0, w.d1, w.d2);
  }

  /** Reading a slice of the file of an image gives the data of the slice of the image, in the same
      organisation, whatever the other bytes of the file are, if there is no prefix of the second
      axis. */
  lemma SliceLaw(h: Cube, u: Cube, org: Org, c: Cube, g: Cells, p: Parts, data: seq<byte>)
    requires c.Valid() && HasRanges(h, u, org, c) && h.nbytes == c.nbytes && |data| == c.Counts().Total() * c.nbytes
    requires Described(p, h.Normal()) && Shows(p.sample, g, org) && Sized(g, c.nbytes) && h.prefix.d1 == 0
    requires var n := h.Normal().size;
             forall q :: ReadAsAsked(h, u, org, c, File(p, n.d0, n.d1, n.d2), data, q)
    ensures var rx, ry, rz := RangeOf(h, u, org, 0), RangeOf(h, u, org, 1), RangeOf(h, u, org, 2);
            data == Arranged(Sliced(g, rx, ry, rz), org, Number(rx), Number(ry), Number(rz))
  {
    hide ReadAsAsked, RangeOf, Arranged, Part, Cpos, Cube.Normal, Cube.Counts, Number, Extents;
    var rx, ry, rz := RangeOf(h, u, org, 0), RangeOf(h, u, org, 1), RangeOf(h, u, org, 2);
    CountsAsAsked(h, u, org, c);
    var nx, ny, nz := Number(rx), Number(ry), Number(rz);
    forall x, y, z | 0 <= x < nx && 0 <= y < ny && 0 <= z < nz
      ensures Part(data, Cpos(x, y, z, org, Extents(org, nx, ny, nz)) * c.nbytes, c.nbytes)
              == Sliced(g, rx, ry, rz)(x, y, z)
    {
      PixelAsAsked(h, u, org, c, g, p, data, Pixel(x, y, z));
    }
    SlicedSize(g, rx, ry, rz, c.nbytes);
    ArrangedFrom(data, Sliced(g, rx, ry, rz), org, nx, ny, nz, c.nbytes);
  }

  /** The two calls, on the file of an image. */
  method ReadImage(h: IHeader, u: Cube, file: seq<byte>, ghost g: Cells, ghost p: Parts)
    returns (data: seq<byte>, dsize: nat)
    requires Askable(h.cube, u, h.org) && h.cube.prefix.d1 == 0
    requires Described(p, h.cube.Normal()) && Shows(p.sample, g, h.org) && Sized(g, h.cube.nbytes)
    requires var n := h.cube.Normal().size; file == File(p, n.d0, n.d1, n.d2)
    modifies h`cube, h`dim
    ensures var rx, ry, rz := old(RangeOf(h.cube, u, h.org, 0)), old(RangeOf(h.cube, u, h.org, 1)),
                              old(RangeOf(h.cube, u, h.org, 2));
            data == Arranged(Sliced(g, rx, ry, rz), h.org, Number(rx), Number(ry), Number(rz))
  {
    hide *;
    ghost var was := h.cube;
    FileSize(p, h.cube.Normal());
    NormalParts(h.cube);
    data, dsize := h.ReadSlice(u, file);
    AskedRanges(was, u, h.org, h.cube);
    SliceLaw(was, u, h.org, h.cube, g, p, data);
  }

  lemma AskedRanges(h: Cube, u: Cube, org: Org, c: Cube)
    requires forall i :: 0 <= i < 3 ==>
               var j := OrderOf(org, i); RangeOf(h, u, org, i) == Range(c.lo.Of(j), c.hi.Of(j), c.skip.Of(j))
    ensures HasRanges(h, u, org, c)
  {}
}
