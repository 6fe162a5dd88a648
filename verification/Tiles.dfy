/** An image put together from the tiles of a TIFF file, which the library hands out one by one. */
module Tiles {
  import opened Arithmetic
  import opened Common
  import opened IndexSpace

  /** The sizes of an image and of its tiles. Interleaved images have one plane, with all bands
      of a pixel side by side; separate ones have a plane for each band. */
  datatype Layout = Layout(width: nat, height: nat, bands: nat, bytesPerSample: nat,
                           tileWidth: nat, tileHeight: nat, interleaved: bool) {
    predicate Valid() {
      width > 0 && height > 0 && bands > 0 && bytesPerSample > 0 && tileWidth > 0 && tileHeight > 0
    }

    function Planes(): nat {
      if interleaved then 1 else bands
    }

    function PixelSize(): nat {
      if interleaved then bytesPerSample * bands else bytesPerSample
    }

    function RowStride(): nat {
      if interleaved then width * bytesPerSample * bands else width * bytesPerSample
    }

    function TileRowSize(): nat {
      tileWidth * PixelSize()
    }

    function TileSize(): nat {
      tileHeight * TileRowSize()
    }

    function DataSize(): nat {
      width * height * bands * bytesPerSample
    }
  }

  /** What the library returns for the tile at a pixel position of a plane. */
  type TileSource = (nat, nat, nat) -> Option<seq<byte>>

  ghost predicate TilesHaveSize(g: Layout, tiles: TileSource)
  {
    forall x, y, z :: tiles(x, y, z).Some? ==> |tiles(x, y, z).value| == g.TileSize()
  }

  lemma Sizes(g: Layout)
    requires g.Valid()
    ensures g.PixelSize() > 0 && g.RowStride() > 0 && g.TileRowSize() > 0
    ensures g.TileRowSize() / g.tileWidth == g.PixelSize()
    ensures g.RowStride() == g.width * g.PixelSize()
    ensures g.Planes() * g.height * g.RowStride() == g.DataSize()
  {
    MulPositive(g.bytesPerSample, g.bands);
    var w, h, b, s := g.width, g.height, g.bands, g.bytesPerSample;
    Products(w, h, b, s);
    MulPositive(w, g.PixelSize());
    MulPositive(g.tileWidth, g.PixelSize());
    ExactQuotient(g.tileWidth, g.PixelSize());
  }

  lemma Products(w: nat, h: nat, b: nat, s: nat)
    ensures w * s * b == w * (s * b)
    ensures 1 * h * (w * s * b) == w * h * b * s
    ensures b * h * (w * s) == w * h * b * s
  {
    var ws, wh := w * s, w * h;
    assert h * (ws * b) == (h * ws) * b;
    assert h * ws == wh * s;
    assert (wh * s) * b == (wh * b) * s;
  }

  lemma ExactQuotient(a: nat, b: nat)
    requires a > 0
    ensures a * b / a == b
  {
    QuotientOf(b, a, 0);
  }

  // ----- where a byte of the image is, and where it comes from

  /** A byte of the image by its plane, its row and its place in the row. */
  datatype Place = Place(plane: nat, row: nat, at: nat)

  ghost predicate PlaceIn(g: Layout, p: Place) {
    p.plane < g.Planes() && p.row < g.height && p.at < g.RowStride()
  }

  function PositionOf(g: Layout, p: Place): nat {
    (p.plane * g.height + p.row) * g.RowStride() + p.at
  }

  function PlaceOf(g: Layout, i: nat): Place
    requires g.height > 0 && g.RowStride() > 0
  {
    PlaceInRows(i, g.RowStride(), g.height)
  }

  function PlaceInRows(i: nat, stride: nat, height: nat): Place
    requires height > 0 && stride > 0
  {
    Place(i / stride / height, i / stride % height, i % stride)
  }

  lemma PlaceOfPosition(g: Layout, p: Place)
    requires g.Valid() && PlaceIn(g, p)
    ensures g.RowStride() > 0
    ensures PositionOf(g, p) < g.DataSize() && PlaceOf(g, PositionOf(g, p)) == p
  {
    Sizes(g);
    hide Layout.RowStride, Layout.DataSize, Layout.Planes;
    var r := p.plane * g.height + p.row;
    RowFits(p.plane, g.Planes(), g.height);
    RowFits(r, g.Planes() * g.height, g.RowStride());
    QuotientOf(r, g.RowStride(), p.at);
    QuotientOf(p.plane, g.height, p.row);
  }

  lemma PositionOfPlace(g: Layout, i: nat)
    requires g.Valid() && i < g.DataSize()
    ensures g.RowStride() > 0
    ensures PlaceIn(g, PlaceOf(g, i)) && PositionOf(g, PlaceOf(g, i)) == i
  {
    Sizes(g);
    hide Layout.RowStride, Layout.DataSize, Layout.Planes;
    var r := i / g.RowStride();
    assert i == r * g.RowStride() + i % g.RowStride();
    assert r == r / g.height * g.height + r % g.height;
    if r / g.height >= g.Planes() {
      Grows(g.Planes(), r / g.height, g.height);
      Grows(g.Planes() * g.height, r, g.RowStride());
    }
  }

  /** The tile that a place lies in, by its column, its row and its plane. */
  datatype TileIndex = TileIndex(column: nat, row: nat, plane: nat)

  function TileOf(g: Layout, p: Place): TileIndex
    requires g.TileRowSize() > 0 && g.tileHeight > 0
  {
    TileIndex(p.at / g.TileRowSize(), p.row / g.tileHeight, p.plane)
  }

  /** Where a place is in its tile. */
  function InTile(g: Layout, p: Place): nat
    requires g.TileRowSize() > 0 && g.tileHeight > 0
  {
    p.row % g.tileHeight * g.TileRowSize() + p.at % g.TileRowSize()
  }

  // ----- one row of a tile

  /** The part of row `r` of a plane from `a` on that is `n` bytes long. */
  ghost predicate InSegment(p: Place, z: nat, r: nat, a: nat, n: nat) {
    p.plane == z && p.row == r && a <= p.at < a + n
  }

  lemma SegmentPositions(g: Layout, z: nat, r: nat, a: nat, n: nat, i: nat)
    requires g.Valid() && z < g.Planes() && r < g.height && a + n <= g.RowStride() && i < g.DataSize()
    ensures g.RowStride() > 0
    ensures var start := PositionOf(g, Place(z, r, a));
            && start + n <= g.DataSize()
            && (start <= i < start + n <==> InSegment(PlaceOf(g, i), z, r, a, n))
            && (start <= i < start + n ==> PlaceOf(g, i).at - a == i - start)
  {
    Sizes(g);
    hide Layout.RowStride, Layout.DataSize, Layout.Planes, PlaceOf;
    var start := PositionOf(g, Place(z, r, a));
    PositionOfPlace(g, i);
    if n > 0 {
      PlaceOfPosition(g, Place(z, r, a + n - 1));
    } else if a < g.RowStride() {
      PlaceOfPosition(g, Place(z, r, a));
    } else {
      PlaceOfPosition(g, Place(z, r, a - 1));
    }
    if start <= i < start + n {
      PlaceOfPosition(g, Place(z, r, a + (i - start)));
    }
  }

  /** Copies a row of a tile to its place. */
  method CopyRow(g: Layout, data: array<byte>, destOffset: nat, row: seq<byte>,
                 ghost z: nat, ghost r: nat, ghost a: nat)
    requires g.Valid() && z < g.Planes() && r < g.height && a + |row| <= g.RowStride()
    requires data.Length == g.DataSize() && destOffset == PositionOf(g, Place(z, r, a))
    modifies data
    ensures g.RowStride() > 0
    ensures forall i :: 0 <= i < data.Length ==>
              data[i] == if InSegment(PlaceOf(g, i), z, r, a, |row|) then row[PlaceOf(g, i).at - a] else old(data[i])
  {
    hide PositionOf, PlaceOf, Layout.RowStride, Layout.DataSize, Layout.Planes;
    Sizes(g);
    PositionOfPlace(g, 0);
    SegmentPositions(g, z, r, a, |row|, 0);
    for k := 0 to |row|
      invariant forall i :: 0 <= i < data.Length ==>
                  data[i] == if destOffset <= i < destOffset + k then row[i - destOffset] else old(data[i])
    {
      data[destOffset + k] := row[k];
    }
    forall i | 0 <= i < data.Length
      ensures data[i] == if InSegment(PlaceOf(g, i), z, r, a, |row|) then row[PlaceOf(g, i).at - a] else old(data[i])
    {
      SegmentPositions(g, z, r, a, |row|, i);
    }
  }

  // ----- one tile

  /** The rows and the bytes of a row that a tile at an edge has in the image. */
  lemma TileExtent(g: Layout, t: TileIndex, p: Place)
    requires g.Valid() && PlaceIn(g, p)
    requires t.column * g.tileWidth < g.width && t.row * g.tileHeight < g.height
    ensures g.TileRowSize() > 0
    ensures var tileX, tileY := t.column * g.tileWidth, t.row * g.tileHeight;
            var actualWidth := Min(g.width, tileX + g.tileWidth) - tileX;
            var actualHeight := Min(g.height, tileY + g.tileHeight) - tileY;
            var a, n := t.column * g.TileRowSize(), actualWidth * g.PixelSize();
            && a + n <= g.RowStride() && n <= g.TileRowSize()
            && (TileOf(g, p) == t <==> p.plane == t.plane && tileY <= p.row < tileY + actualHeight && a <= p.at < a + n)
            && (TileOf(g, p) == t ==> InTile(g, p) == (p.row - tileY) * g.TileRowSize() + (p.at - a))
  {
    Sizes(g);
    hide Layout.RowStride, Layout.Planes, Layout.PixelSize;
    var tileX, tileY := t.column * g.tileWidth, t.row * g.tileHeight;
    EdgeColumns(t.column, g.tileWidth, g.width, g.PixelSize());
    InBlock(p.row, t.row, g.tileHeight);
    InBlock(p.at, t.column, g.TileRowSize());
  }

  /** The bytes of the columns of a tile that lie in the image. */
  lemma EdgeColumns(j: nat, tileWidth: nat, width: nat, pixel: nat)
    requires j * tileWidth < width
    ensures var n := (Min(width, j * tileWidth + tileWidth) - j * tileWidth) * pixel;
            var a, row, stride := j * (tileWidth * pixel), tileWidth * pixel, width * pixel;
            && n <= row && a + n <= stride
            && a + n == Min(stride, a + row)
  {
    var x := j * tileWidth;
    var w := Min(width, x + tileWidth) - x;
    assert j * (tileWidth * pixel) == x * pixel;
    assert x * pixel + w * pixel == (x + w) * pixel;
    Grows(w, tileWidth, pixel);
    Grows(x + w, width, pixel);
    assert x * pixel + tileWidth * pixel == (x + tileWidth) * pixel;
    Grows(x + w, x + tileWidth, pixel);
  }

  /** Being in the `j`-th block of length `n`. */
  lemma InBlock(i: nat, j: nat, n: nat)
    requires n > 0
    ensures i / n == j <==> j * n <= i < j * n + n
    ensures i / n == j ==> i % n == i - j * n
  {
    Division(i, n);
    if j * n <= i < j * n + n {
      QuotientOf(j, n, i - j * n);
    }
  }

  /** Copies the part of a tile that lies in the image. */
  method CopyTile(g: Layout, data: array<byte>, buffer: seq<byte>, tileX: nat, tileY: nat, tileZ: nat,
                  ghost t: TileIndex)
    requires g.Valid() && data.Length == g.DataSize() && |buffer| == g.TileSize()
    requires tileX == t.column * g.tileWidth < g.width && tileY == t.row * g.tileHeight < g.height
    requires tileZ == t.plane < g.Planes()
    modifies data
    ensures g.RowStride() > 0 && g.TileRowSize() > 0
    ensures forall i :: 0 <= i < data.Length && TileOf(g, PlaceOf(g, i)) == t ==>
              InTile(g, PlaceOf(g, i)) < |buffer| && data[i] == buffer[InTile(g, PlaceOf(g, i))]
    ensures forall i :: 0 <= i < data.Length && TileOf(g, PlaceOf(g, i)) != t ==> data[i] == old(data[i])
  {
    hide PositionOf, PlaceOf, TileOf, InTile;
    hide Layout.RowStride, Layout.DataSize, Layout.Planes, Layout.PixelSize;
    Sizes(g);
    assert g.TileRowSize() == g.tileWidth * g.PixelSize();
    hide Layout.TileRowSize, Layout.TileSize, Shown;
    ExactTile(t.column, g.tileWidth);
    var xTileIdx := tileX / g.tileWidth;
    var actualWidth := Min(g.width, tileX + g.tileWidth) - tileX;
    var actualHeight := Min(g.height, tileY + g.tileHeight) - tileY;
    var n := actualWidth * (g.TileRowSize() / g.tileWidth);
    ghost var a := t.column * g.TileRowSize();
    EdgeColumns(t.column, g.tileWidth, g.width, g.PixelSize());
    for i := 0 to actualHeight
      invariant forall k :: 0 <= k < data.Length ==>
                  data[k] == if InRows(PlaceOf(g, k), tileZ, tileY, i, a, n)
                             then Shown(g, buffer, tileY, a, PlaceOf(g, k)) else old(data[k])
    {
      CopyTileRow(g, data, buffer, xTileIdx, tileY, tileZ, i, n, a);
    }
    forall k | 0 <= k < data.Length
      ensures TileOf(g, PlaceOf(g, k)) == t ==>
                InTile(g, PlaceOf(g, k)) < |buffer| && data[k] == buffer[InTile(g, PlaceOf(g, k))]
      ensures TileOf(g, PlaceOf(g, k)) != t ==> data[k] == old(data[k])
    {
      PositionOfPlace(g, k);
      TileExtent(g, t, PlaceOf(g, k));
      InTileFits(g, PlaceOf(g, k));
      ShownAt(g, buffer, tileY, a, PlaceOf(g, k), InTile(g, PlaceOf(g, k)));
    }
  }

  lemma ShownAt(g: Layout, buffer: seq<byte>, y: nat, a: nat, p: Place, k: nat)
    ensures k < |buffer| && k == (p.row - y) * g.TileRowSize() + (p.at - a) ==> Shown(g, buffer, y, a, p) == buffer[k]
  {}

  /** Copies row `i` of a tile. */
  method CopyTileRow(g: Layout, data: array<byte>, buffer: seq<byte>, xTileIdx: nat, tileY: nat, tileZ: nat,
                     i: nat, n: nat, ghost a: nat)
    requires g.Valid() && data.Length == g.DataSize() && |buffer| == g.TileSize()
    requires a == xTileIdx * g.TileRowSize() && a + n <= g.RowStride() && n <= g.TileRowSize()
    requires i < g.tileHeight && tileY + i < g.height && tileZ < g.Planes()
    modifies data
    ensures g.RowStride() > 0
    ensures forall k :: 0 <= k < data.Length ==>
              data[k] == if InSegment(PlaceOf(g, k), tileZ, tileY + i, a, n)
                         then Shown(g, buffer, tileY, a, PlaceOf(g, k)) else old(data[k])
  {
    hide PositionOf, PlaceOf, Layout.RowStride, Layout.DataSize, Layout.Planes, Layout.PixelSize, Layout.TileRowSize;
    var srcOffset := i * g.TileRowSize();
    var destOffset := g.RowStride() * tileY + xTileIdx * g.TileRowSize() + i * g.RowStride()
                      + tileZ * g.height * g.RowStride();
    DestOffset(g, tileY, i, tileZ, a);
    RowFits(i, g.tileHeight, g.TileRowSize());
    CopyRow(g, data, destOffset, buffer[srcOffset..srcOffset + n], tileZ, tileY + i, a);
  }

  ghost predicate InRows(p: Place, z: nat, y: nat, rows: nat, a: nat, n: nat) {
    p.plane == z && y <= p.row < y + rows && a <= p.at < a + n
  }

  function ByteAt(buffer: seq<byte>, k: int): byte {
    if 0 <= k < |buffer| then buffer[k] else 0
  }

  /** The byte of a place in the image, in a tile that starts in row `y` at byte `a` of it. */
  function Shown(g: Layout, buffer: seq<byte>, y: nat, a: nat, p: Place): byte {
    ByteAt(buffer, (p.row - y) * g.TileRowSize() + (p.at - a))
  }

  lemma ExactTile(j: nat, n: nat)
    requires n > 0
    ensures j * n / n == j
  {
    QuotientOf(j, n, 0);
  }

  lemma DestOffset(g: Layout, tileY: nat, i: nat, z: nat, a: nat)
    ensures g.RowStride() * tileY + a + i * g.RowStride() + z * g.height * g.RowStride()
            == PositionOf(g, Place(z, tileY + i, a))
  {
    hide Layout.RowStride;
    var s := g.RowStride();
    assert (z * g.height + (tileY + i)) * s == z * g.height * s + tileY * s + i * s;
  }

  lemma InTileFits(g: Layout, p: Place)
    requires g.Valid()
    ensures g.TileRowSize() > 0 && InTile(g, p) < g.TileSize()
  {
    Sizes(g);
    hide Layout.TileRowSize;
    RowFits(p.row % g.tileHeight, g.tileHeight, g.TileRowSize());
  }

  // ----- all tiles

  /** The tile comes before the others in the order of the loops. */
  ghost predicate Before(t: TileIndex, row: nat, column: nat, plane: nat) {
    t.row < row || (t.row == row && (t.column < column || (t.column == column && t.plane < plane)))
  }

  /** Every byte of the image that lies in an earlier tile is the byte of its tile. */
  ghost predicate Filled(g: Layout, tiles: TileSource, data: seq<byte>, row: nat, column: nat, plane: nat)
  {
    && g.Valid() && g.RowStride() > 0 && g.TileRowSize() > 0 && |data| == g.DataSize()
    && forall i :: 0 <= i < |data| && Before(TileOf(g, PlaceOf(g, i)), row, column, plane) ==>
         FromTile(g, tiles, data, i)
  }

  ghost predicate FromTile(g: Layout, tiles: TileSource, data: seq<byte>, i: nat)
    requires g.Valid() && g.RowStride() > 0 && g.TileRowSize() > 0 && i < |data|
  {
    var p := PlaceOf(g, i);
    var t := TileOf(g, p);
    var tile := tiles(t.column * g.tileWidth, t.row * g.tileHeight, t.plane);
    tile.Some? && InTile(g, p) < |tile.value| && data[i] == tile.value[InTile(g, p)]
  }

  /** Reads all tiles into the image, or fails if one cannot be read. */
  method ReadTiles(g: Layout, tiles: TileSource) returns (image: Option<array<byte>>)
    requires g.Valid() && TilesHaveSize(g, tiles)
    ensures g.RowStride() > 0 && g.TileRowSize() > 0
    ensures image.Some? ==>
              && fresh(image.value) && image.value.Length == g.DataSize()
              && forall i :: 0 <= i < image.value.Length ==> FromTile(g, tiles, image.value[..], i)
    ensures image.None? <==> exists t: TileIndex :: TileIn(g, t) && TileRead(g, tiles, t).None?
  {
    hide PositionOf, PlaceOf, TileOf, InTile, Layout.RowStride, Layout.DataSize, Layout.Planes, Layout.PixelSize;
    Sizes(g);
    var data := new byte[g.DataSize()](_ => 0);
    var tileY := 0;
    ghost var row := 0;
    while tileY < g.height
      invariant tileY == row * g.tileHeight
      invariant Filled(g, tiles, data[..], row, 0, 0) && AllRead(g, tiles, row, 0, 0)
      decreases g.height - tileY
    {
      var tileX := 0;
      ghost var column := 0;
      while tileX < g.width
        invariant tileX == column * g.tileWidth
        invariant Filled(g, tiles, data[..], row, column, 0) && AllRead(g, tiles, row, column, 0)
        decreases g.width - tileX
      {
        for tileZ := 0 to g.Planes()
          invariant Filled(g, tiles, data[..], row, column, tileZ) && AllRead(g, tiles, row, column, tileZ)
        {
          ghost var t := TileIndex(column, row, tileZ);
          var buffer := tiles(tileX, tileY, tileZ);
          if buffer.None? {
            assert TileIn(g, t) && TileRead(g, tiles, t).None?;
            return None;
          }
          ghost var was := data[..];
          CopyTile(g, data, buffer.value, tileX, tileY, tileZ, t);
          FilledMore(g, tiles, was, data[..], t);
        }
        PlaneDone(g, tiles, data[..], row, column);
        tileX, column := tileX + g.tileWidth, column + 1;
      }
      RowDone(g, tiles, data[..], row, column);
      tileY, row := tileY + g.tileHeight, row + 1;
    }
    AllDone(g, tiles, data[..], row);
    return Some(data);
  }

  /** The tile has a part in the image. */
  ghost predicate TileIn(g: Layout, t: TileIndex) {
    t.column * g.tileWidth < g.width && t.row * g.tileHeight < g.height && t.plane < g.Planes()
  }

  ghost function TileRead(g: Layout, tiles: TileSource, t: TileIndex): Option<seq<byte>> {
    tiles(t.column * g.tileWidth, t.row * g.tileHeight, t.plane)
  }

  /** The earlier tiles could all be read. */
  ghost predicate AllRead(g: Layout, tiles: TileSource, row: nat, column: nat, plane: nat) {
    forall t :: TileIn(g, t) && Before(t, row, column, plane) ==> TileRead(g, tiles, t).Some?
  }

  lemma FilledMore(g: Layout, tiles: TileSource, was: seq<byte>, data: seq<byte>, t: TileIndex)
    requires Filled(g, tiles, was, t.row, t.column, t.plane) && |data| == |was|
    requires AllRead(g, tiles, t.row, t.column, t.plane) && TileRead(g, tiles, t).Some?
    requires forall i :: 0 <= i < |data| && TileOf(g, PlaceOf(g, i)) == t ==>
               InTile(g, PlaceOf(g, i)) < |TileRead(g, tiles, t).value|
               && data[i] == TileRead(g, tiles, t).value[InTile(g, PlaceOf(g, i))]
    requires forall i :: 0 <= i < |data| && TileOf(g, PlaceOf(g, i)) != t ==> data[i] == was[i]
    ensures Filled(g, tiles, data, t.row, t.column, t.plane + 1)
    ensures AllRead(g, tiles, t.row, t.column, t.plane + 1)
  {
    hide PlaceOf, TileOf, InTile, Layout.RowStride, Layout.DataSize, Layout.Planes, Layout.TileRowSize;
    forall i | 0 <= i < |data| && Before(TileOf(g, PlaceOf(g, i)), t.row, t.column, t.plane + 1)
      ensures FromTile(g, tiles, data, i)
    {
      if TileOf(g, PlaceOf(g, i)) != t {
        assert FromTile(g, tiles, was, i);
      }
    }
  }

  /** With all planes done, so is the column. */
  lemma PlaneDone(g: Layout, tiles: TileSource, data: seq<byte>, row: nat, column: nat)
    requires Filled(g, tiles, data, row, column, g.Planes()) && AllRead(g, tiles, row, column, g.Planes())
    ensures Filled(g, tiles, data, row, column + 1, 0) && AllRead(g, tiles, row, column + 1, 0)
  {
    hide PlaceOf, InTile, FromTile, Layout.RowStride, Layout.DataSize, Layout.Planes, Layout.TileRowSize;
    forall i | 0 <= i < |data| && Before(TileOf(g, PlaceOf(g, i)), row, column + 1, 0)
      ensures FromTile(g, tiles, data, i)
    {
      PositionOfPlace(g, i);
    }
  }

  /** With all columns done, so is the row. */
  lemma RowDone(g: Layout, tiles: TileSource, data: seq<byte>, row: nat, column: nat)
    requires Filled(g, tiles, data, row, column, 0) && AllRead(g, tiles, row, column, 0)
    requires column * g.tileWidth >= g.width
    ensures Filled(g, tiles, data, row + 1, 0, 0) && AllRead(g, tiles, row + 1, 0, 0)
  {
    hide PlaceOf, InTile, FromTile, Layout.RowStride, Layout.DataSize, Layout.Planes, Layout.TileRowSize;
    forall i | 0 <= i < |data| && Before(TileOf(g, PlaceOf(g, i)), row + 1, 0, 0)
      ensures FromTile(g, tiles, data, i)
    {
      ColumnBefore(g, i, column);
    }
    forall t | TileIn(g, t) && Before(t, row + 1, 0, 0)
      ensures TileRead(g, tiles, t).Some?
    {
      if t.column >= column {
        Grows(column, t.column, g.tileWidth);
      }
    }
  }

  /** Every byte of the image lies in a tile before the column at its edge. */
  lemma ColumnBefore(g: Layout, i: nat, column: nat)
    requires g.Valid() && i < g.DataSize() && column * g.tileWidth >= g.width
    ensures g.RowStride() > 0 && g.TileRowSize() > 0 && TileOf(g, PlaceOf(g, i)).column < column
  {
    Sizes(g);
    PositionOfPlace(g, i);
    hide PlaceOf, Layout.RowStride, Layout.DataSize, Layout.Planes, Layout.PixelSize;
    var p := PlaceOf(g, i);
    Grows(g.width, column * g.tileWidth, g.PixelSize());
    Associate(column, g.tileWidth, g.PixelSize());
    QuotientBelow(p.at, column, g.TileRowSize());
  }

  /** With all rows done, so is the image. */
  lemma AllDone(g: Layout, tiles: TileSource, data: seq<byte>, row: nat)
    requires Filled(g, tiles, data, row, 0, 0) && AllRead(g, tiles, row, 0, 0) && row * g.tileHeight >= g.height
    ensures forall i :: 0 <= i < |data| ==> FromTile(g, tiles, data, i)
    ensures forall t :: TileIn(g, t) ==> TileRead(g, tiles, t).Some?
  {
    hide PlaceOf, InTile, FromTile, Layout.RowStride, Layout.DataSize, Layout.Planes, Layout.TileRowSize;
    forall i | 0 <= i < |data|
      ensures FromTile(g, tiles, data, i)
    {
      PositionOfPlace(g, i);
      QuotientBelow(PlaceOf(g, i).row, row, g.tileHeight);
    }
    forall t | TileIn(g, t)
      ensures TileRead(g, tiles, t).Some?
    {
      if t.row >= row {
        Grows(row, t.row, g.tileHeight);
      }
    }
  }

  /** In pixels: a byte of a pixel comes from the same byte of the pixel at its place in the tile
      that has the pixel. */
  lemma PixelOfTile(g: Layout, x: nat, y: nat, z: nat, k: nat)
    requires g.Valid() && x < g.width && y < g.height && z < g.Planes() && k < g.PixelSize()
    ensures g.TileRowSize() > 0
    ensures var p := Place(z, y, x * g.PixelSize() + k);
            && PlaceIn(g, p)
            && PositionOf(g, p) == ((z * g.height + y) * g.width + x) * g.PixelSize() + k < g.DataSize()
            && TileOf(g, p) == TileIndex(x / g.tileWidth, y / g.tileHeight, z)
            && InTile(g, p) == ((y % g.tileHeight) * g.tileWidth + x % g.tileWidth) * g.PixelSize() + k
  {
    Sizes(g);
    hide Layout.RowStride, Layout.DataSize, Layout.Planes, Layout.PixelSize, PlaceOf;
    var p, size := Place(z, y, x * g.PixelSize() + k), g.PixelSize();
    RowFits(x, g.width, size);
    PlaceOfPosition(g, p);
    PixelInRow(z * g.height + y, g.width, x, size);
    PixelInRow(y % g.tileHeight, g.tileWidth, x % g.tileWidth, size);
    PixelBlock(x, g.tileWidth, size, k);
  }

  lemma PixelInRow(y: nat, width: nat, x: nat, size: nat)
    ensures y * (width * size) + x * size == (y * width + x) * size
  {}

  /** byte `k` of the `x`-th pixel of `size` bytes, in blocks of `width` pixels. */
  lemma PixelBlock(x: nat, width: nat, size: nat, k: nat)
    requires width > 0 && k < size
    ensures width * size > 0
    ensures (x * size + k) / (width * size) == x / width
    ensures (x * size + k) % (width * size) == x % width * size + k
  {
    var q, r := x / width, x % width;
    assert x == q * width + r;
    PixelInRow(q, width, r, size);
    RowFits(r, width, size);
    QuotientOf(q, width * size, r * size + k);
  }

  /** Pixel px, py of the tile in column cx and row cy. */
  lemma PlaceInTile(g: Layout, cx: nat, px: nat, cy: nat, py: nat, z: nat, k: nat) returns (p: Place)
    requires g.Valid() && px < g.tileWidth && py < g.tileHeight && z < g.Planes() && k < g.PixelSize()
    requires cx * g.tileWidth + px < g.width && cy * g.tileHeight + py < g.height
    ensures g.RowStride() > 0 && g.TileRowSize() > 0 && PlaceIn(g, p)
    ensures PositionOf(g, p)
            == ((z * g.height + (cy * g.tileHeight + py)) * g.width + (cx * g.tileWidth + px)) * g.PixelSize() + k
    ensures TileOf(g, p) == TileIndex(cx, cy, z) && InTile(g, p) == (py * g.tileWidth + px) * g.PixelSize() + k
  {
    hide Layout.RowStride, Layout.DataSize, Layout.Planes, Layout.PixelSize;
    Sizes(g);
    var x, y, size := cx * g.tileWidth + px, cy * g.tileHeight + py, g.PixelSize();
    p := Place(z, y, x * size + k);
    QuotientOf(cy, g.tileHeight, py);
    PixelOfBlock(cx, g.tileWidth, px, size, k);
    PixelInRow(py, g.tileWidth, px, size);
    PixelInRow(z * g.height + y, g.width, x, size);
    RowFits(x, g.width, size);
  }

  lemma PixelOfBlock(cx: nat, width: nat, px: nat, size: nat, k: nat)
    requires px < width && k < size
    ensures width * size > 0
    ensures ((cx * width + px) * size + k) / (width * size) == cx
    ensures ((cx * width + px) * size + k) % (width * size) == px * size + k
  {
    RowFits(px, width, size);
    QuotientOf(cx, width * size, px * size + k);
    assert (cx * width + px) * size == cx * (width * size) + px * size;
  }

  lemma ByteFromTile(g: Layout, tiles: TileSource, data: seq<byte>, p: Place)
    requires g.Valid() && g.RowStride() > 0 && g.TileRowSize() > 0 && |data| == g.DataSize() && PlaceIn(g, p)
    requires forall i :: 0 <= i < |data| ==> FromTile(g, tiles, data, i)
    ensures var t := TileOf(g, p);
            var tile := tiles(t.column * g.tileWidth, t.row * g.tileHeight, t.plane);
            tile.Some? && Part(data, PositionOf(g, p), 1) == Part(tile.value, InTile(g, p), 1) != []
  {
    hide PlaceOf, PositionOf, TileOf, InTile, Layout.RowStride, Layout.TileRowSize, Layout.DataSize;
    PlaceOfPosition(g, p);
    assert FromTile(g, tiles, data, PositionOf(g, p));
  }

  /** Every band of every pixel comes from the tile that covers the pixel, from its place there: here
      the data have the bands of a pixel side by side. */
  lemma TileLaw(g: Layout, tiles: TileSource, data: seq<byte>, cx: nat, px: nat, cy: nat, py: nat, z: nat, k: nat)
    requires g.Valid() && g.RowStride() > 0 && g.TileRowSize() > 0 && |data| == g.DataSize()
    requires forall i :: 0 <= i < |data| ==> FromTile(g, tiles, data, i)
    requires px < g.tileWidth && cx * g.tileWidth + px < g.width && py < g.tileHeight
    requires cy * g.tileHeight + py < g.height && z < g.bands && k < g.bytesPerSample
    requires g.interleaved
    ensures var n, x, y := g.bytesPerSample, cx * g.tileWidth + px, cy * g.tileHeight + py;
            var tile := tiles(cx * g.tileWidth, cy * g.tileHeight, 0);
            && tile.Some?
            && Part(data, ((y * g.width + x) * g.bands + z) * n + k, 1)
               == Part(tile.value, ((py * g.tileWidth + px) * g.bands + z) * n + k, 1) != []
  {
    hide *;
    Layers(g, z, k);
    PartOfPixel(g, tiles, data, cx, px, cy, py, 0, k + z * g.bytesPerSample);
    var x, y, tile := cx * g.tileWidth + px, cy * g.tileHeight + py, tiles(cx * g.tileWidth, cy * g.tileHeight, 0);
    assert 0 * g.height + y == y;
    SameByte(data, tile.value, y * g.width + x, py * g.tileWidth + px, g.PixelSize(), g.bands, g.bytesPerSample, z, k);
  }

  /** The same where one band comes after the other. */
  lemma TileLawOfBands(g: Layout, tiles: TileSource, data: seq<byte>, cx: nat, px: nat, cy: nat, py: nat, z: nat,
                       k: nat)
    requires g.Valid() && g.RowStride() > 0 && g.TileRowSize() > 0 && |data| == g.DataSize()
    requires forall i :: 0 <= i < |data| ==> FromTile(g, tiles, data, i)
    requires px < g.tileWidth && cx * g.tileWidth + px < g.width && py < g.tileHeight
    requires cy * g.tileHeight + py < g.height && z < g.bands && k < g.bytesPerSample
    requires !g.interleaved
    ensures var n, x, y := g.bytesPerSample, cx * g.tileWidth + px, cy * g.tileHeight + py;
            var tile := tiles(cx * g.tileWidth, cy * g.tileHeight, z);
            && tile.Some?
            && Part(data, ((z * g.height + y) * g.width + x) * n + k, 1)
               == Part(tile.value, (py * g.tileWidth + px) * n + k, 1) != []
  {
    hide *;
    Layers(g, z, k);
    PartOfPixel(g, tiles, data, cx, px, cy, py, z, k);
  }

  lemma PartOfPixel(g: Layout, tiles: TileSource, data: seq<byte>, cx: nat, px: nat, cy: nat, py: nat, z: nat, k: nat)
    requires g.Valid() && g.RowStride() > 0 && g.TileRowSize() > 0 && |data| == g.DataSize()
    requires forall i :: 0 <= i < |data| ==> FromTile(g, tiles, data, i)
    requires px < g.tileWidth && cx * g.tileWidth + px < g.width && py < g.tileHeight
    requires cy * g.tileHeight + py < g.height && z < g.Planes() && k < g.PixelSize()
    ensures var x, y := cx * g.tileWidth + px, cy * g.tileHeight + py;
            var tile := tiles(cx * g.tileWidth, cy * g.tileHeight, z);
            && tile.Some?
            && Part(data, ((z * g.height + y) * g.width + x) * g.PixelSize() + k, 1)
               == Part(tile.value, (py * g.tileWidth + px) * g.PixelSize() + k, 1) != []
  {
    hide *;
    var p := PlaceInTile(g, cx, px, cy, py, z, k);
    ByteFromTile(g, tiles, data, p);
  }

  lemma SameByte(data: seq<byte>, tile: seq<byte>, i: int, j: int, size: nat, bands: nat, n: nat, z: nat, k: nat)
    requires size == n * bands && Part(data, i * size + (k + z * n), 1) == Part(tile, j * size + (k + z * n), 1) != []
    ensures Part(data, (i * bands + z) * n + k, 1) == Part(tile, (j * bands + z) * n + k, 1) != []
  {
    hide Part;
    BandOfPixel(i, bands, n, z, k);
    BandOfPixel(j, bands, n, z, k);
  }

  lemma Layers(g: Layout, z: nat, k: nat)
    requires g.Valid() && z < g.bands && k < g.bytesPerSample
    ensures g.tileWidth > 0 && g.tileHeight > 0
    ensures if g.interleaved then g.Planes() == 1 && g.PixelSize() == g.bytesPerSample * g.bands
            else g.Planes() == g.bands && g.PixelSize() == g.bytesPerSample
    ensures g.interleaved ==> z * g.bytesPerSample + k < g.PixelSize()
  {
    RowFits(z, g.bands, g.bytesPerSample);
  }

  lemma BandOfPixel(i: int, bands: nat, n: nat, z: nat, k: nat)
    ensures i * (n * bands) + (k + z * n) == (i * bands + z) * n + k
  {
    assert i * (n * bands) == i * bands * n;
  }
}
