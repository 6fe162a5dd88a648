/** Positions of pixels in the three orders of the axes: band sequential, band interleaved by
    line, band interleaved by pixel. */
module IndexSpace {
  import opened Arithmetic

  datatype Org = BSQ | BIL | BIP

  /** Three numbers, one for each axis of an order; the first axis varies fastest. */
  datatype Dims = Dims(d0: nat, d1: nat, d2: nat) {
    function Of(j: nat): nat
    {
      if j == 0 then d0 else if j == 1 then d1 else d2
    }

    function With(j: nat, v: nat): (r: Dims)
      requires j < 3
      ensures r.Of(j) == v && forall k :: 0 <= k < 3 && k != j ==> r.Of(k) == Of(k)
    {
      if j == 0 then this.(d0 := v) else if j == 1 then this.(d1 := v) else this.(d2 := v)
    }

    /** One less on each axis. */
    function Less(): Dims {
      Dims(if d0 == 0 then 0 else d0 - 1, if d1 == 0 then 0 else d1 - 1, if d2 == 0 then 0 else d2 - 1)
    }

    predicate Positive() {
      d0 > 0 && d1 > 0 && d2 > 0
    }

    function Total(): nat {
      d2 * (d1 * d0)
    }
  }

  /** The place in an order at which samples, lines and bands (0, 1, 2) end up. */
  function OrderOf(org: Org, i: nat): (j: nat)
    requires i < 3
    ensures j < 3
  {
    match org
    case BSQ => i
    case BIL => if i == 0 then 0 else 3 - i
    case BIP => (i + 1) % 3
  }

  function Samples(size: Dims, org: Org): nat {
    size.Of(if org == BIP then 1 else 0)
  }

  function Lines(size: Dims, org: Org): nat {
    size.Of(if org == BSQ then 1 else 2)
  }

  function Bands(size: Dims, org: Org): nat {
    size.Of(if org == BIP then 0 else if org == BIL then 1 else 2)
  }

  /** The index of a pixel in an order. */
  function Cpos(x: nat, y: nat, z: nat, org: Org, size: Dims): nat
  {
    match org
    case BSQ => x + size.d0 * (y + z * size.d1)
    case BIP => z + size.d0 * (x + y * size.d1)
    case BIL => x + size.d0 * (z + y * size.d1)
  }

  datatype Pixel = Pixel(x: nat, y: nat, z: nat)

  /** The pixel at an index. */
  function Xpos(i: nat, org: Org, size: Dims): Pixel
    requires size.Positive()
  {
    MulPositive(size.d0, size.d1);
    var d := Dims(i % size.d0, i / size.d0 % size.d1, i / (size.d0 * size.d1));
    Pixel(d.Of(OrderOf(org, 0)), d.Of(OrderOf(org, 1)), d.Of(OrderOf(org, 2)))
  }

  predicate InImage(p: Pixel, org: Org, size: Dims)
  {
    p.x < Samples(size, org) && p.y < Lines(size, org) && p.z < Bands(size, org)
  }

  // ----- indices and coordinates

  /** Three coordinates make an index within the total, from which they can be got back. */
  lemma FlatIndex(a: nat, b: nat, c: nat, size: Dims)
    requires a < size.d0 && b < size.d1 && c < size.d2
    ensures var i := a + size.d0 * (b + c * size.d1);
            && i < size.Total()
            && size.d0 * size.d1 > 0
            && i % size.d0 == a && i / size.d0 % size.d1 == b && i / (size.d0 * size.d1) == c
  {
    var row := b + c * size.d1;
    var i := a + size.d0 * row;
    RowFits(c, size.d2, size.d1);
    RowFits(row, size.d2 * size.d1, size.d0);
    Associate(size.d2, size.d1, size.d0);
    assert size.d0 * row == row * size.d0;
    QuotientOf(row, size.d0, a);
    QuotientOf(c, size.d1, b);
    FlatTop(i, a, b, c, size.d0, size.d1);
  }

  /** The coordinates of an index in rows of `m` and planes of `n` rows. */
  predicate Coordinates(i: nat, a: int, b: int, c: int, m: nat, n: nat) {
    0 <= a < m && 0 <= b < n && c >= 0 && i == a + m * (b + c * n)
  }

  lemma FlatTop(i: nat, a: int, b: int, c: int, m: nat, n: nat)
    requires Coordinates(i, a, b, c, m, n)
    ensures m * n > 0 && i / (m * n) == c
  {
    RowFits(b, n, m);
    TopPart(a, b, c, m, n);
    QuotientOf(c, m * n, a + b * m);
  }

  lemma TopPart(a: nat, b: nat, c: nat, m: nat, n: nat)
    ensures a + m * (b + c * n) == c * (m * n) + (a + b * m)
  {}

  /** An index within the total is made of three coordinates. */
  lemma FlatParts(i: nat, size: Dims)
    requires size.Positive() && i < size.Total()
    ensures size.d0 * size.d1 > 0
    ensures var a, b, c := i % size.d0, i / size.d0 % size.d1, i / (size.d0 * size.d1);
            a < size.d0 && b < size.d1 && c < size.d2 && i == a + size.d0 * (b + c * size.d1)
  {
    hide Dims.Total;
    FlatSum(i, size.d0, size.d1);
    QuotientTwice(i, size.d0, size.d1);
    RowBelow(i, i / size.d0, size);
  }

  lemma QuotientTwice(i: nat, m: nat, n: nat)
    requires m > 0 && n > 0
    ensures m * n > 0 && i / (m * n) == i / m / n
  {
    hide Coordinates;
    FlatSum(i, m, n);
    FlatTop(i, i % m, i / m % n, i / m / n, m, n);
  }

  lemma FlatSum(i: nat, m: nat, n: nat)
    requires m > 0 && n > 0
    ensures Coordinates(i, i % m, i / m % n, i / m / n, m, n)
  {
    Division(i, m);
    RowParts(i / m, n);
    SameProduct(m, i / m, i / m % n + i / m / n * n);
  }

  lemma SameProduct(m: nat, a: int, b: int)
    requires a == b
    ensures m * a == m * b
  {}

  lemma RowParts(row: int, n: nat)
    requires n > 0 && row >= 0
    ensures row == row % n + row / n * n && row % n < n && row / n >= 0
  {
    Division(row, n);
  }

  lemma RowBelow(i: nat, row: nat, size: Dims)
    requires size.Positive() && i < size.Total() && row == i / size.d0
    ensures row / size.d1 < size.d2
  {
    Associate(size.d2, size.d1, size.d0);
    QuotientBelow(i, size.d2 * size.d1, size.d0);
    QuotientBelow(row, size.d2, size.d1);
  }

  // ----- the two directions

  /** Going from a pixel to its index and back gives the pixel. */
  lemma XposOfCpos(p: Pixel, org: Org, size: Dims)
    requires InImage(p, org, size)
    ensures size.Positive()
    ensures Cpos(p.x, p.y, p.z, org, size) < size.Total()
    ensures Xpos(Cpos(p.x, p.y, p.z, org, size), org, size) == p
  {
    match org
    case BSQ => FlatIndex(p.x, p.y, p.z, size);
    case BIL => FlatIndex(p.x, p.z, p.y, size);
    case BIP => FlatIndex(p.z, p.x, p.y, size);
  }

  /** Going from an index to its pixel and back gives the index. */
  lemma CposOfXpos(i: nat, org: Org, size: Dims)
    requires size.Positive() && i < size.Total()
    ensures var p := Xpos(i, org, size);
            InImage(p, org, size) && Cpos(p.x, p.y, p.z, org, size) == i
  {
    FlatParts(i, size);
  }
}
