/** Terrarium terrain tiles from a DEM (scripts/generate-terrain-tiles.py):
    the per-sample RGB encoding, and the zoom/column/row loops that pick
    the tiles overlapping the DEM and clip each tile's pixel window. */
module TerrainTiles {
  import opened Wrappers
  import opened TileGrid

  const MIN_ZOOM: nat := 5
  const MAX_ZOOM: nat := 15

  // ---------------------------------------------------------------------
  // elevation_to_terrarium
  // ---------------------------------------------------------------------

  /** One float sample of the resampled DEM. */
  datatype Sample = NaN | PosInf | NegInf | Finite(value: real)

  /** One Terrarium pixel. */
  datatype Rgb = Rgb(r: int, g: int, b: int)

  /** `np.clip(x, lo, hi)`. */
  function Clip(x: real, lo: real, hi: real): real {
    if x < lo then lo else if x > hi then hi else x
  }

  /** numpy's float `x % 256`: the remainder takes the sign of 256. */
  function Mod256(x: real): (r: real)
    ensures 0.0 <= r < 256.0
  {
    x - 256.0 * (x / 256.0).Floor as real
  }

  /** numpy's float `x % 1`. */
  function Mod1(x: real): (r: real)
    ensures 0.0 <= r < 1.0
  {
    x - x.Floor as real
  }

  /** `nan_to_num` (NaN to 0, infinities to the largest finite floats),
      then `+ 32768` and the clip to [0, 65535]. */
  function Encoded(e: Sample): (enc: real)
    ensures 0.0 <= enc <= 65535.0
  {
    match e
    case NaN => Clip(0.0 + 32768.0, 0.0, 65535.0)
    case PosInf => 65535.0
    case NegInf => 0.0
    case Finite(v) => Clip(v + 32768.0, 0.0, 65535.0)
  }

  /** `elevation_to_terrarium` on one sample: the clipped value is split
      into a high byte, a low byte and a fraction byte. */
  function ElevationToTerrarium(e: Sample): (c: Rgb)
    ensures 0 <= c.r <= 255 && 0 <= c.g <= 255 && 0 <= c.b <= 255
  {
    var enc := Encoded(e);
    Rgb((enc / 256.0).Floor, Mod256(enc).Floor, (Mod1(enc) * 256.0).Floor)
  }

  /** The Terrarium decoding `R * 256 + G + B / 256 - 32768`. */
  function Decode(c: Rgb): real {
    c.r as real * 256.0 + c.g as real + c.b as real / 256.0 - 32768.0
  }

  /** Decoding gives back the clipped value rounded down to a 1/256 step. */
  lemma DecodeEncoded(e: Sample)
    ensures var d := Decode(ElevationToTerrarium(e));
            var v := Encoded(e) - 32768.0;
            d <= v < d + 1.0 / 256.0
  {
    var enc := Encoded(e);
    var c := ElevationToTerrarium(e);
    var f := enc.Floor;
    assert c.g == f - 256 * c.r;
    assert Mod1(enc) == enc - f as real;
    assert c.b as real <= (enc - f as real) * 256.0 < c.b as real + 1.0;
  }

  /** For an elevation in [-32768, 32767]: `d <= e < d + 1/256`. */
  lemma DecodeInRange(e: real)
    requires -32768.0 <= e <= 32767.0
    ensures var d := Decode(ElevationToTerrarium(Finite(e)));
            d <= e < d + 1.0 / 256.0
  {
    DecodeEncoded(Finite(e));
  }

  /** An integer elevation in range decodes exactly. */
  lemma DecodeInteger(e: int)
    requires -32768 <= e <= 32767
    ensures Decode(ElevationToTerrarium(Finite(e as real))) == e as real
  {
    var c := ElevationToTerrarium(Finite(e as real));
    var enc := (e + 32768) as real;
    assert Encoded(Finite(e as real)) == enc;
    assert Mod1(enc) == 0.0;
    assert c.b == 0;
    assert c.g == e + 32768 - 256 * c.r;
  }

  /** Out-of-range elevations, NaN and infinities decode as the clip bound
      or as 0. */
  lemma DecodeOutOfRange(e: Sample)
    ensures e.Finite? && e.value < -32768.0 ==> Decode(ElevationToTerrarium(e)) == -32768.0
    ensures e.Finite? && e.value > 32767.0 ==> Decode(ElevationToTerrarium(e)) == 32767.0
    ensures e.NaN? ==> Decode(ElevationToTerrarium(e)) == 0.0
    ensures e.PosInf? ==> Decode(ElevationToTerrarium(e)) == 32767.0
    ensures e.NegInf? ==> Decode(ElevationToTerrarium(e)) == -32768.0
  {
    if e.NaN? {
      assert ElevationToTerrarium(e) == Rgb(128, 0, 0);
    } else if e.PosInf? || (e.Finite? && e.value > 32767.0) {
      assert Encoded(e) == 65535.0;
      assert ElevationToTerrarium(e) == Rgb(255, 255, 0);
    } else if e.NegInf? || (e.Finite? && e.value < -32768.0) {
      assert Encoded(e) == 0.0;
      assert ElevationToTerrarium(e) == Rgb(0, 0, 0);
    }
  }

  // ---------------------------------------------------------------------
  // generate_tiles_for_dem
  // ---------------------------------------------------------------------

  /** The DEM's WGS84 bounds and its size in pixels. */
  datatype Dem = Dem(bounds: Bounds, width: nat, height: nat)

  /** The clamped `col_*` / `row_*` window of a tile. */
  datatype Window = Window(colStart: int, colEnd: int, rowStart: int, rowEnd: int)

  /** What the loop body does with one tile. */
  datatype Tile = Skipped | Written(window: Window) | Raised

  /** The test at line 146 negated: the boxes meet as closed intervals. */
  predicate Overlaps(t: Bounds, d: Bounds) {
    !(t.east < d.west || t.west > d.east || t.north < d.south || t.south > d.north)
  }

  predicate Inside(b: Bounds, lon: real, lat: real) {
    b.west <= lon <= b.east && b.south <= lat <= b.north
  }

  /** For well-ordered boxes, the test holds exactly when they share a point. */
  lemma OverlapsIff(t: Bounds, d: Bounds)
    requires t.west <= t.east && t.south <= t.north
    requires d.west <= d.east && d.south <= d.north
    ensures Overlaps(t, d) <==> exists lon, lat :: Inside(t, lon, lat) && Inside(d, lon, lat)
  {
    if Overlaps(t, d) {
      var lon := if t.west < d.west then d.west else t.west;
      var lat := if t.south < d.south then d.south else t.south;
      assert Inside(t, lon, lat) && Inside(d, lon, lat);
    }
  }

  /** Lines 151-160: the tile's pixel window in the DEM, clamped to it. */
  function ClipWindow(t: Bounds, dem: Dem): (w: Window)
    requires dem.bounds.east != dem.bounds.west && dem.bounds.north != dem.bounds.south
    ensures 0 <= w.colStart && w.colEnd <= dem.width && 0 <= w.rowStart && w.rowEnd <= dem.height
  {
    var d := dem.bounds;
    var colStart := Trunc((t.west - d.west) / (d.east - d.west) * dem.width as real);
    var colEnd := Trunc((t.east - d.west) / (d.east - d.west) * dem.width as real);
    var rowStart := Trunc((d.north - t.north) / (d.north - d.south) * dem.height as real);
    var rowEnd := Trunc((d.north - t.south) / (d.north - d.south) * dem.height as real);
    Window(if colStart < 0 then 0 else colStart, if colEnd > dem.width then dem.width else colEnd,
           if rowStart < 0 then 0 else rowStart, if rowEnd > dem.height then dem.height else rowEnd)
  }

  /** The body of the row loop for tile `(x, y)`: a tile that misses the
      DEM or whose window is empty is skipped; a DEM whose bounds have zero
      longitude or latitude extent (`east == west` or `north == south`)
      makes the window division raise. */
  function TileStep(dem: Dem, rowLat: (int, nat) -> real, z: nat, x: int, y: int): (r: Tile)
    ensures r.Raised? <==>
              Overlaps(TileBounds(x, y, z, rowLat), dem.bounds)
              && (dem.bounds.east == dem.bounds.west || dem.bounds.north == dem.bounds.south)
    ensures r.Written? ==>
              && Overlaps(TileBounds(x, y, z, rowLat), dem.bounds)
              && 0 <= r.window.colStart < r.window.colEnd <= dem.width
              && 0 <= r.window.rowStart < r.window.rowEnd <= dem.height
  {
    var t := TileBounds(x, y, z, rowLat);
    var d := dem.bounds;
    if !Overlaps(t, d) then Skipped
    else if d.east == d.west || d.north == d.south then Raised
    else
      var w := ClipWindow(t, dem);
      if w.colEnd <= w.colStart || w.rowEnd <= w.rowStart then Skipped else Written(w)
  }

  /** Tiles written in column `x` for rows `yLo .. yHi - 1`. */
  function ColumnCount(dem: Dem, rowLat: (int, nat) -> real, z: nat, x: int, yLo: int, yHi: int): Result<nat>
    decreases yHi - yLo
  {
    if yHi <= yLo then Ok(0)
    else
      match ColumnCount(dem, rowLat, z, x, yLo, yHi - 1)
      case Err => Err
      case Ok(c) =>
        match TileStep(dem, rowLat, z, x, yHi - 1)
        case Raised => Err
        case Written(_) => Ok(c + 1)
        case Skipped => Ok(c)
  }

  /** Tiles written in columns `xLo .. xHi - 1`, rows `yLo .. yHi - 1`. */
  function ZoomCount(dem: Dem, rowLat: (int, nat) -> real, z: nat, xLo: int, xHi: int, yLo: int, yHi: int): Result<nat>
    decreases xHi - xLo
  {
    if xHi <= xLo then Ok(0)
    else
      match ZoomCount(dem, rowLat, z, xLo, xHi - 1, yLo, yHi)
      case Err => Err
      case Ok(c) =>
        match ColumnCount(dem, rowLat, z, xHi - 1, yLo, yHi)
        case Err => Err
        case Ok(k) => Ok(c + k)
  }

  /** The tile range of one zoom: columns of the west and east edges, rows
      of the north and south edges (`latToTileY` stands for
      `lat_to_tile_y`, which the model leaves uninterpreted). */
  function ZoomTiles(dem: Dem, rowLat: (int, nat) -> real, latToTileY: (real, nat) -> int, z: nat): Result<nat> {
    ZoomCount(dem, rowLat, z,
              LonToTileX(dem.bounds.west, z), LonToTileX(dem.bounds.east, z) + 1,
              latToTileY(dem.bounds.north, z), latToTileY(dem.bounds.south, z) + 1)
  }

  /** The sum of the zoom counts for zooms `lo .. hi - 1`. */
  function Total(dem: Dem, rowLat: (int, nat) -> real, latToTileY: (real, nat) -> int, lo: nat, hi: nat): Result<nat>
    decreases hi - lo
  {
    if hi <= lo then Ok(0)
    else
      match Total(dem, rowLat, latToTileY, lo, hi - 1)
      case Err => Err
      case Ok(t) =>
        match ZoomTiles(dem, rowLat, latToTileY, hi - 1)
        case Err => Err
        case Ok(k) => Ok(t + k)
  }

  /** One more zoom added to the total. */
  lemma TotalNext(dem: Dem, rowLat: (int, nat) -> real, latToTileY: (real, nat) -> int, lo: nat, hi: nat, t: nat, k: nat)
    requires lo <= hi && Total(dem, rowLat, latToTileY, lo, hi) == Ok(t)
    requires ZoomTiles(dem, rowLat, latToTileY, hi) == Ok(k)
    ensures Total(dem, rowLat, latToTileY, lo, hi + 1) == Ok(t + k)
  {
  }

  /** A zoom that raises makes every longer total raise. */
  lemma TotalRaises(dem: Dem, rowLat: (int, nat) -> real, latToTileY: (real, nat) -> int, lo: nat, hi: nat, end: nat, t: nat)
    requires lo <= hi < end && Total(dem, rowLat, latToTileY, lo, hi) == Ok(t)
    requires ZoomTiles(dem, rowLat, latToTileY, hi).Err?
    ensures Total(dem, rowLat, latToTileY, lo, end).Err?
  {
    assert Total(dem, rowLat, latToTileY, lo, hi + 1).Err?;
    TotalErrSticky(dem, rowLat, latToTileY, lo, hi + 1, end);
  }

  /** Once a column raises, the rows after it do not matter. */
  lemma {:induction false} ColumnErrSticky(dem: Dem, rowLat: (int, nat) -> real, z: nat, x: int, yLo: int, yMid: int, yHi: int)
    requires yLo < yMid <= yHi && ColumnCount(dem, rowLat, z, x, yLo, yMid).Err?
    ensures ColumnCount(dem, rowLat, z, x, yLo, yHi).Err?
    decreases yHi - yMid
  {
    if yHi > yMid {
      ColumnErrSticky(dem, rowLat, z, x, yLo, yMid, yHi - 1);
    }
  }

  /** Once a column raises, the zoom raises. */
  lemma {:induction false} ZoomErrSticky(dem: Dem, rowLat: (int, nat) -> real, z: nat, xLo: int, xMid: int, xHi: int, yLo: int, yHi: int)
    requires xLo < xMid <= xHi && ZoomCount(dem, rowLat, z, xLo, xMid, yLo, yHi).Err?
    ensures ZoomCount(dem, rowLat, z, xLo, xHi, yLo, yHi).Err?
    decreases xHi - xMid
  {
    if xHi > xMid {
      ZoomErrSticky(dem, rowLat, z, xLo, xMid, xHi - 1, yLo, yHi);
    }
  }

  /** Once a zoom raises, the DEM raises. */
  lemma {:induction false} TotalErrSticky(dem: Dem, rowLat: (int, nat) -> real, latToTileY: (real, nat) -> int, lo: nat, mid: nat, hi: nat)
    requires lo < mid <= hi && Total(dem, rowLat, latToTileY, lo, mid).Err?
    ensures Total(dem, rowLat, latToTileY, lo, hi).Err?
    decreases hi - mid
  {
    if hi > mid {
      TotalErrSticky(dem, rowLat, latToTileY, lo, mid, hi - 1);
    }
  }

  /** The row loop at lines 141-187 for one column. */
  method ScanColumn(dem: Dem, rowLat: (int, nat) -> real, z: nat, x: int, yMin: int, yMax: int, before: nat)
    returns (r: Result<nat>)
    ensures r.Ok? <==> ColumnCount(dem, rowLat, z, x, yMin, yMax + 1).Ok?
    ensures r.Ok? ==> r.value == before + ColumnCount(dem, rowLat, z, x, yMin, yMax + 1).value
  {
    var zoomTiles := before;
    var y := yMin;
    while y <= yMax
      invariant y == yMin || yMin <= y <= yMax + 1
      invariant ColumnCount(dem, rowLat, z, x, yMin, y) == Ok(zoomTiles - before)
      invariant zoomTiles >= before
      decreases yMax + 1 - y
    {
      var t := TileBounds(x, y, z, rowLat);
      var d := dem.bounds;
      ghost var step := TileStep(dem, rowLat, z, x, y);
      if t.east < d.west || t.west > d.east || t.north < d.south || t.south > d.north {
        assert step == Skipped;
        y := y + 1;
        continue;
      }
      if d.east == d.west || d.north == d.south {
        assert step == Raised;
        ColumnErrSticky(dem, rowLat, z, x, yMin, y + 1, yMax + 1);
        return Err;
      }
      var w := ClipWindow(t, dem);
      if w.colEnd <= w.colStart || w.rowEnd <= w.rowStart {
        assert step == Skipped;
        y := y + 1;
        continue;
      }
      assert step == Written(w);
      zoomTiles := zoomTiles + 1;
      y := y + 1;
    }
    return Ok(zoomTiles);
  }

  /** The column loop at lines 140-187 for one zoom. */
  method GenerateZoom(dem: Dem, rowLat: (int, nat) -> real, latToTileY: (real, nat) -> int, z: nat)
    returns (r: Result<nat>)
    ensures r == ZoomTiles(dem, rowLat, latToTileY, z)
  {
    var xMin := LonToTileX(dem.bounds.west, z);
    var xMax := LonToTileX(dem.bounds.east, z);
    var yMin := latToTileY(dem.bounds.north, z);
    var yMax := latToTileY(dem.bounds.south, z);
    var zoomTiles: nat := 0;
    var x := xMin;
    while x <= xMax
      invariant x == xMin || xMin <= x <= xMax + 1
      invariant ZoomCount(dem, rowLat, z, xMin, x, yMin, yMax + 1) == Ok(zoomTiles)
      decreases xMax + 1 - x
    {
      var column := ScanColumn(dem, rowLat, z, x, yMin, yMax, zoomTiles);
      if column.Err? {
        ZoomErrSticky(dem, rowLat, z, xMin, x + 1, xMax + 1, yMin, yMax + 1);
        return Err;
      }
      zoomTiles := column.value;
      x := x + 1;
    }
    return Ok(zoomTiles);
  }

  /** The zoom loop at lines 131-194. */
  method GenerateTilesForDem(dem: Dem, rowLat: (int, nat) -> real, latToTileY: (real, nat) -> int)
    returns (r: Result<nat>)
    ensures r == Total(dem, rowLat, latToTileY, MIN_ZOOM, MAX_ZOOM + 1)
  {
    var totalTiles: nat := 0;
    for zoom := MIN_ZOOM to MAX_ZOOM + 1
      invariant Total(dem, rowLat, latToTileY, MIN_ZOOM, zoom) == Ok(totalTiles)
    {
      var zoomTiles := GenerateZoom(dem, rowLat, latToTileY, zoom);
      if zoomTiles.Err? {
        TotalRaises(dem, rowLat, latToTileY, MIN_ZOOM, zoom, MAX_ZOOM + 1, totalTiles);
        return Err;
      }
      TotalNext(dem, rowLat, latToTileY, MIN_ZOOM, zoom, totalTiles, zoomTiles.value);
      if zoomTiles.value > 0 {
        totalTiles := totalTiles + zoomTiles.value;
      }
    }
    return Ok(totalTiles);
  }

  /** A column writes at most one tile per row. */
  lemma {:induction false} ColumnBound(dem: Dem, rowLat: (int, nat) -> real, z: nat, x: int, yLo: int, yHi: int)
    ensures ColumnCount(dem, rowLat, z, x, yLo, yHi).Ok? ==>
              ColumnCount(dem, rowLat, z, x, yLo, yHi).value <= if yHi <= yLo then 0 else yHi - yLo
    decreases yHi - yLo
  {
    if yHi > yLo {
      ColumnBound(dem, rowLat, z, x, yLo, yHi - 1);
    }
  }

  /** A zoom writes at most one tile per `(x, y)` of its range. */
  lemma {:induction false} ZoomBound(dem: Dem, rowLat: (int, nat) -> real, z: nat, xLo: int, xHi: int, yLo: int, yHi: int)
    ensures var rows := if yHi <= yLo then 0 else yHi - yLo;
            var cols := if xHi <= xLo then 0 else xHi - xLo;
            ZoomCount(dem, rowLat, z, xLo, xHi, yLo, yHi).Ok? ==>
              ZoomCount(dem, rowLat, z, xLo, xHi, yLo, yHi).value <= cols * rows
    decreases xHi - xLo
  {
    if xHi > xLo {
      var rows := if yHi <= yLo then 0 else yHi - yLo;
      ZoomBound(dem, rowLat, z, xLo, xHi - 1, yLo, yHi);
      ColumnBound(dem, rowLat, z, xHi - 1, yLo, yHi);
      var cols := xHi - 1 - xLo;
      assert cols >= 0;
      assert (cols + 1) * rows == cols * rows + rows;
    }
  }

  /** A DEM whose bounds have non-zero longitude and latitude extent
      (`east != west` and `north != south`) never makes a column raise. */
  lemma {:induction false} ColumnNoRaise(dem: Dem, rowLat: (int, nat) -> real, z: nat, x: int, yLo: int, yHi: int)
    requires dem.bounds.east != dem.bounds.west && dem.bounds.north != dem.bounds.south
    ensures ColumnCount(dem, rowLat, z, x, yLo, yHi).Ok?
    decreases yHi - yLo
  {
    if yHi > yLo {
      ColumnNoRaise(dem, rowLat, z, x, yLo, yHi - 1);
    }
  }

  /** ... nor a zoom ... */
  lemma {:induction false} ZoomNoRaise(dem: Dem, rowLat: (int, nat) -> real, z: nat, xLo: int, xHi: int, yLo: int, yHi: int)
    requires dem.bounds.east != dem.bounds.west && dem.bounds.north != dem.bounds.south
    ensures ZoomCount(dem, rowLat, z, xLo, xHi, yLo, yHi).Ok?
    decreases xHi - xLo
  {
    if xHi > xLo {
      ZoomNoRaise(dem, rowLat, z, xLo, xHi - 1, yLo, yHi);
      ColumnNoRaise(dem, rowLat, z, xHi - 1, yLo, yHi);
    }
  }

  /** ... nor the whole DEM. */
  lemma {:induction false} TotalNoRaise(dem: Dem, rowLat: (int, nat) -> real, latToTileY: (real, nat) -> int, lo: nat, hi: nat)
    requires dem.bounds.east != dem.bounds.west && dem.bounds.north != dem.bounds.south
    ensures Total(dem, rowLat, latToTileY, lo, hi).Ok?
    decreases hi - lo
  {
    if hi > lo {
      TotalNoRaise(dem, rowLat, latToTileY, lo, hi - 1);
      ZoomNoRaise(dem, rowLat, hi - 1,
                  LonToTileX(dem.bounds.west, hi - 1), LonToTileX(dem.bounds.east, hi - 1) + 1,
                  latToTileY(dem.bounds.north, hi - 1), latToTileY(dem.bounds.south, hi - 1) + 1);
    }
  }
}
