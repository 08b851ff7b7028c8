/** Quantized-mesh tile enumeration (scripts/generate-terrain-quantized-mesh.py):
    the generator object, the WGS84 bounds of its dataset, and the TMS tile
    loops that count the tiles written. */
module QuantizedMesh {
  import opened Wrappers
  import opened TileGrid

  /** The default `max_zoom` of `generate`. */
  const DEFAULT_MAX_ZOOM: int := 14

  /** GDAL's six-coefficient affine geotransform. */
  datatype GeoTransform = GeoTransform(originX: real, pixelWidth: real, rowRotation: real,
                                       originY: real, columnRotation: real, pixelHeight: real)

  /** What the generator reads from an opened GDAL dataset. */
  datatype Dataset = Dataset(geoTransform: GeoTransform, projection: string, width: nat, height: nat)

  // ---------------------------------------------------------------------
  // TMS row flip
  // ---------------------------------------------------------------------

  /** `n - 1 - y`: an XYZ row to a TMS row and back. */
  function Flip(y: int, n: int): int {
    n - 1 - y
  }

  lemma FlipInvolution(y: int, n: nat)
    ensures Flip(Flip(y, n), n) == y
    ensures 0 <= y < n <==> 0 <= Flip(y, n) < n
    ensures forall w :: y <= w ==> Flip(w, n) <= Flip(y, n)
  {
  }

  // ---------------------------------------------------------------------
  // _get_bounds_wgs84
  // ---------------------------------------------------------------------

  /** The four raster corners the source lists, in its order. */
  function Corners(ds: Dataset): (c: seq<(real, real)>)
    ensures |c| == 4
  {
    var gt := ds.geoTransform;
    var right := gt.originX + ds.width as real * gt.pixelWidth;
    var bottom := gt.originY + ds.height as real * gt.pixelHeight;
    [(gt.originX, gt.originY), (right, gt.originY), (gt.originX, bottom), (right, bottom)]
  }

  /** Every point through `transform` (`TransformPoint` in the dataset's
      projection; `None` where it raises). */
  function TransformAll(proj: string, pts: seq<(real, real)>, transform: (string, real, real) -> Option<(real, real)>)
    : (r: Option<seq<(real, real)>>)
    ensures r.Some? <==> forall i :: 0 <= i < |pts| ==> transform(proj, pts[i].0, pts[i].1).Some?
    ensures r.Some? ==> |r.value| == |pts|
    ensures r.Some? ==> forall i :: 0 <= i < |pts| ==> r.value[i] == transform(proj, pts[i].0, pts[i].1).value
  {
    if pts == [] then Some([])
    else
      var init := pts[..|pts| - 1];
      assert forall i :: 0 <= i < |init| ==> init[i] == pts[i];
      match TransformAll(proj, init, transform)
      case None => None
      case Some(done) =>
        var last := pts[|pts| - 1];
        match transform(proj, last.0, last.1)
        case None => None
        case Some(p) => Some(done + [p])
  }

  /** `min(xs)`. */
  function MinOf(xs: seq<real>): (m: real)
    requires |xs| > 0
    ensures forall i :: 0 <= i < |xs| ==> m <= xs[i]
    ensures exists i :: 0 <= i < |xs| && xs[i] == m
  {
    if |xs| == 1 then xs[0]
    else
      var rest := MinOf(xs[1..]);
      assert forall i :: 1 <= i < |xs| ==> xs[i] == xs[1..][i - 1];
      if xs[0] <= rest then xs[0] else rest
  }

  /** `max(xs)`. */
  function MaxOf(xs: seq<real>): (m: real)
    requires |xs| > 0
    ensures forall i :: 0 <= i < |xs| ==> xs[i] <= m
    ensures exists i :: 0 <= i < |xs| && xs[i] == m
  {
    if |xs| == 1 then xs[0]
    else
      var rest := MaxOf(xs[1..]);
      assert forall i :: 1 <= i < |xs| ==> xs[i] == xs[1..][i - 1];
      if xs[0] >= rest then xs[0] else rest
  }

  /** `(min lons, min lats, max lons, max lats)` of some points: a box,
      west of east and south of north, holding every point. */
  function BoxOf(pts: seq<(real, real)>): (b: Bounds)
    requires |pts| > 0
    ensures b.west <= b.east && b.south <= b.north
    ensures forall i :: 0 <= i < |pts| ==> b.west <= pts[i].0 <= b.east && b.south <= pts[i].1 <= b.north
  {
    var lons := seq(|pts|, i requires 0 <= i < |pts| => pts[i].0);
    var lats := seq(|pts|, i requires 0 <= i < |pts| => pts[i].1);
    assert forall i :: 0 <= i < |pts| ==> lons[i] == pts[i].0 && lats[i] == pts[i].1;
    Bounds(MinOf(lons), MinOf(lats), MaxOf(lons), MaxOf(lats))
  }

  /** The box of the transformed corners; `None` when there is no dataset
      (the attribute access raises) or a corner does not transform. */
  function WgsBounds(ds: Option<Dataset>, transform: (string, real, real) -> Option<(real, real)>): (r: Option<Bounds>)
    ensures r.Some? <==> ds.Some? && TransformAll(ds.value.projection, Corners(ds.value), transform).Some?
  {
    if ds.None? then None
    else
      match TransformAll(ds.value.projection, Corners(ds.value), transform)
      case None => None
      case Some(pts) => Some(BoxOf(pts))
  }

  // ---------------------------------------------------------------------
  // _generate_zoom_level
  // ---------------------------------------------------------------------

  /** What `_generate_tile` decides for a tile, given the dataset and the
      bounds it computes: true when heights were read, encoded and
      written, false when anything failed (reading, encoding and writing
      are foreign code). */
  type Emit = (Option<Dataset>, nat, int, int, Bounds) -> bool

  /** `_generate_tile(zoom, x, y_tms)`: as the source does, the TMS row is
      passed to `_tile_to_deg`, which reads it as an XYZ row. */
  predicate Emits(emit: Emit, ds: Option<Dataset>, rowLat: (int, nat) -> real, z: nat, x: int, yTms: int) {
    emit(ds, z, x, yTms, TileBounds(x, yTms, z, rowLat))
  }

  /** Tiles written in column `x` for TMS rows `yLo .. yHi - 1`. */
  function ColumnCount(emit: Emit, ds: Option<Dataset>, rowLat: (int, nat) -> real, z: nat, x: int, yLo: int, yHi: int): nat
    decreases yHi - yLo
  {
    if yHi <= yLo then 0
    else ColumnCount(emit, ds, rowLat, z, x, yLo, yHi - 1) + if Emits(emit, ds, rowLat, z, x, yHi - 1) then 1 else 0
  }

  /** Tiles written in columns `xLo .. xHi - 1`. */
  function ZoomCount(emit: Emit, ds: Option<Dataset>, rowLat: (int, nat) -> real, z: nat, xLo: int, xHi: int, yLo: int, yHi: int): nat
    decreases xHi - xLo
  {
    if xHi <= xLo then 0
    else ZoomCount(emit, ds, rowLat, z, xLo, xHi - 1, yLo, yHi) + ColumnCount(emit, ds, rowLat, z, xHi - 1, yLo, yHi)
  }

  /** The loop ranges of one zoom, as written: `y_min` from the south
      corner, `y_max` from the north one (`latToRow` stands for the `y` of
      `_deg_to_tile`, which the model leaves uninterpreted), then the
      flip to TMS rows. */
  datatype Range = Range(xMin: int, xMax: int, yMinTms: int, yMaxTms: int)

  function ZoomRange(bounds: Bounds, latToRow: (real, nat) -> int, z: nat): Range {
    var yMin := latToRow(bounds.south, z);
    var yMax := latToRow(bounds.north, z);
    Range(LonToTileX(bounds.west, z), LonToTileX(bounds.east, z), Flip(yMax, Pow2(z)), Flip(yMin, Pow2(z)))
  }

  function ZoomTiles(emit: Emit, ds: Option<Dataset>, rowLat: (int, nat) -> real, latToRow: (real, nat) -> int,
                     bounds: Bounds, z: nat): nat
  {
    var rg := ZoomRange(bounds, latToRow, z);
    ZoomCount(emit, ds, rowLat, z, rg.xMin, rg.xMax + 1, rg.yMinTms, rg.yMaxTms + 1)
  }

  /** The sum of the zoom counts for zooms `0 .. hi - 1`. */
  function Total(emit: Emit, ds: Option<Dataset>, rowLat: (int, nat) -> real, latToRow: (real, nat) -> int,
                 bounds: Bounds, hi: nat): nat
  {
    if hi == 0 then 0 else Total(emit, ds, rowLat, latToRow, bounds, hi - 1) + ZoomTiles(emit, ds, rowLat, latToRow, bounds, hi - 1)
  }

  /** The `(x, y_tms)` pairs of a range for which a tile was written. */
  function Successes(emit: Emit, ds: Option<Dataset>, rowLat: (int, nat) -> real, z: nat, xLo: int, xHi: int, yLo: int, yHi: int)
    : set<(int, int)>
  {
    set x, y | xLo <= x < xHi && yLo <= y < yHi && Emits(emit, ds, rowLat, z, x, y) :: (x, y)
  }

  /** The pairs of column `x` for which a tile was written. */
  function ColumnSuccesses(emit: Emit, ds: Option<Dataset>, rowLat: (int, nat) -> real, z: nat, x: int, yLo: int, yHi: int)
    : set<(int, int)>
  {
    set y | yLo <= y < yHi && Emits(emit, ds, rowLat, z, x, y) :: (x, y)
  }

  /** The last row of a column range adds its pair, if written, to the
      pairs of the rows before it. */
  lemma ColumnSplit(emit: Emit, ds: Option<Dataset>, rowLat: (int, nat) -> real, z: nat, x: int, yLo: int, yHi: int)
    requires yLo < yHi
    ensures var prev := ColumnSuccesses(emit, ds, rowLat, z, x, yLo, yHi - 1);
            && ColumnSuccesses(emit, ds, rowLat, z, x, yLo, yHi)
               == prev + (if Emits(emit, ds, rowLat, z, x, yHi - 1) then {(x, yHi - 1)} else {})
            && (x, yHi - 1) !in prev
  {
    var s := ColumnSuccesses(emit, ds, rowLat, z, x, yLo, yHi);
    var prev := ColumnSuccesses(emit, ds, rowLat, z, x, yLo, yHi - 1);
    var top: set<(int, int)> := if Emits(emit, ds, rowLat, z, x, yHi - 1) then {(x, yHi - 1)} else {};
    forall p | p in s ensures p in prev + top {
      var y :| yLo <= y < yHi && Emits(emit, ds, rowLat, z, x, y) && p == (x, y);
      if y < yHi - 1 {
        assert p in prev;
      }
    }
  }

  /** The column count is the number of rows written in that column. */
  lemma {:induction false} ColumnCountsSuccesses(emit: Emit, ds: Option<Dataset>, rowLat: (int, nat) -> real, z: nat, x: int, yLo: int, yHi: int)
    ensures ColumnCount(emit, ds, rowLat, z, x, yLo, yHi) == |ColumnSuccesses(emit, ds, rowLat, z, x, yLo, yHi)|
    decreases yHi - yLo
  {
    var s := ColumnSuccesses(emit, ds, rowLat, z, x, yLo, yHi);
    if yHi <= yLo {
      assert s == {} by {
        forall p | p in s ensures false {
        }
      }
    } else {
      ColumnCountsSuccesses(emit, ds, rowLat, z, x, yLo, yHi - 1);
      ColumnSplit(emit, ds, rowLat, z, x, yLo, yHi);
    }
  }

  /** The zoom count is the number of `(x, y_tms)` pairs written. */
  lemma {:induction false} ZoomCountsSuccesses(emit: Emit, ds: Option<Dataset>, rowLat: (int, nat) -> real, z: nat, xLo: int, xHi: int, yLo: int, yHi: int)
    ensures ZoomCount(emit, ds, rowLat, z, xLo, xHi, yLo, yHi) == |Successes(emit, ds, rowLat, z, xLo, xHi, yLo, yHi)|
    decreases xHi - xLo
  {
    var s := Successes(emit, ds, rowLat, z, xLo, xHi, yLo, yHi);
    if xHi <= xLo {
      assert s == {} by {
        forall p | p in s ensures false {
        }
      }
    } else {
      ZoomCountsSuccesses(emit, ds, rowLat, z, xLo, xHi - 1, yLo, yHi);
      ColumnCountsSuccesses(emit, ds, rowLat, z, xHi - 1, yLo, yHi);
      var prev := Successes(emit, ds, rowLat, z, xLo, xHi - 1, yLo, yHi);
      var column := ColumnSuccesses(emit, ds, rowLat, z, xHi - 1, yLo, yHi);
      assert s == prev + column by {
        forall p | p in s ensures p in prev + column {
          var x, y :| xLo <= x < xHi && yLo <= y < yHi && Emits(emit, ds, rowLat, z, x, y) && p == (x, y);
          if x < xHi - 1 {
            assert p in prev;
          } else {
            assert p in column;
          }
        }
      }
      assert prev * column == {} by {
        forall p | p in prev * column ensures false {
        }
      }
    }
  }

  /** A column writes at most one tile per row of its range. */
  lemma {:induction false} ColumnBound(emit: Emit, ds: Option<Dataset>, rowLat: (int, nat) -> real, z: nat, x: int, yLo: int, yHi: int)
    ensures ColumnCount(emit, ds, rowLat, z, x, yLo, yHi) <= if yHi <= yLo then 0 else yHi - yLo
    decreases yHi - yLo
  {
    if yHi > yLo {
      ColumnBound(emit, ds, rowLat, z, x, yLo, yHi - 1);
    }
  }

  /** A zoom writes at most one tile per iteration of its two loops. */
  lemma {:induction false} ZoomBound(emit: Emit, ds: Option<Dataset>, rowLat: (int, nat) -> real, z: nat, xLo: int, xHi: int, yLo: int, yHi: int)
    ensures var rows := if yHi <= yLo then 0 else yHi - yLo;
            var cols := if xHi <= xLo then 0 else xHi - xLo;
            ZoomCount(emit, ds, rowLat, z, xLo, xHi, yLo, yHi) <= cols * rows
    decreases xHi - xLo
  {
    if xHi > xLo {
      var rows := if yHi <= yLo then 0 else yHi - yLo;
      ZoomBound(emit, ds, rowLat, z, xLo, xHi - 1, yLo, yHi);
      ColumnBound(emit, ds, rowLat, z, xHi - 1, yLo, yHi);
      var cols := xHi - 1 - xLo;
      assert (cols + 1) * rows == cols * rows + rows;
    }
  }

  /** As written, the y range is taken from the south and north rows in
      the order that makes it run at most once: when the north corner's
      row is not below the south corner's, `y_max_tms <= y_min_tms`, and
      each column writes at most one tile. */
  lemma RowRangeAtMostOnce(bounds: Bounds, latToRow: (real, nat) -> int, z: nat)
    requires latToRow(bounds.north, z) <= latToRow(bounds.south, z)
    ensures var rg := ZoomRange(bounds, latToRow, z);
            rg.yMaxTms <= rg.yMinTms
            && rg.yMinTms == Pow2(z) - 1 - latToRow(bounds.north, z)
            && rg.yMaxTms == Pow2(z) - 1 - latToRow(bounds.south, z)
  {
  }

  /** Hence a zoom writes at most one tile per column. */
  lemma ZoomAtMostOnePerColumn(emit: Emit, ds: Option<Dataset>, rowLat: (int, nat) -> real, latToRow: (real, nat) -> int,
                               bounds: Bounds, z: nat)
    requires latToRow(bounds.north, z) <= latToRow(bounds.south, z)
    ensures var rg := ZoomRange(bounds, latToRow, z);
            ZoomTiles(emit, ds, rowLat, latToRow, bounds, z) <= if rg.xMax < rg.xMin then 0 else rg.xMax + 1 - rg.xMin
  {
    var rg := ZoomRange(bounds, latToRow, z);
    RowRangeAtMostOnce(bounds, latToRow, z);
    ZoomBound(emit, ds, rowLat, z, rg.xMin, rg.xMax + 1, rg.yMinTms, rg.yMaxTms + 1);
  }

  // ---------------------------------------------------------------------
  // TerrainTileGenerator
  // ---------------------------------------------------------------------

  class TerrainTileGenerator {
    var inputTif: string
    var outputDir: string
    var name: string
    var dataset: Option<Dataset>

    constructor (inputTif: string, outputDir: string, name: string)
      ensures this.inputTif == inputTif && this.outputDir == outputDir && this.name == name
      ensures dataset == None
    {
      this.inputTif := inputTif;
      this.outputDir := outputDir;
      this.name := name;
      dataset := None;
    }

    /** `_get_bounds_wgs84`: the corner loop and the min/max. */
    method GetBoundsWgs84(transform: (string, real, real) -> Option<(real, real)>) returns (r: Option<Bounds>)
      ensures r == WgsBounds(dataset, transform)
    {
      if dataset.None? {
        return None;
      }
      var ds := dataset.value;
      var corners := Corners(ds);
      var lons: seq<real> := [];
      var lats: seq<real> := [];
      for i := 0 to 4
        invariant |lons| == i && |lats| == i
        invariant TransformAll(ds.projection, corners[..i], transform).Some?
        invariant forall k :: 0 <= k < i ==>
                    (lons[k], lats[k]) == TransformAll(ds.projection, corners[..i], transform).value[k]
      {
        assert corners[..i + 1][..i] == corners[..i];
        var p := transform(ds.projection, corners[i].0, corners[i].1);
        if p.None? {
          assert TransformAll(ds.projection, corners[..i + 1], transform).None?;
          assert corners[..4] == corners;
          assert !TransformAll(ds.projection, corners, transform).Some?;
          return None;
        }
        lons := lons + [p.value.0];
        lats := lats + [p.value.1];
      }
      assert corners[..4] == corners;
      var pts := TransformAll(ds.projection, corners, transform).value;
      assert lons == seq(|pts|, i requires 0 <= i < |pts| => pts[i].0);
      assert lats == seq(|pts|, i requires 0 <= i < |pts| => pts[i].1);
      return Some(Bounds(MinOf(lons), MinOf(lats), MaxOf(lons), MaxOf(lats)));
    }

    /** `_generate_zoom_level`: the TMS flip and the two tile loops. */
    method GenerateZoomLevel(zoom: nat, bounds: Bounds, latToRow: (real, nat) -> int, rowLat: (int, nat) -> real, emit: Emit)
      returns (tileCount: nat)
      ensures tileCount == ZoomTiles(emit, dataset, rowLat, latToRow, bounds, zoom)
    {
      var xMin, yMin := LonToTileX(bounds.west, zoom), latToRow(bounds.south, zoom);
      var xMax, yMax := LonToTileX(bounds.east, zoom), latToRow(bounds.north, zoom);
      var numTiles := Pow2(zoom);
      var yMinTms := numTiles - 1 - yMax;
      var yMaxTms := numTiles - 1 - yMin;
      tileCount := 0;
      var x := xMin;
      while x <= xMax
        invariant x == xMin || xMin <= x <= xMax + 1
        invariant tileCount == ZoomCount(emit, dataset, rowLat, zoom, xMin, x, yMinTms, yMaxTms + 1)
        decreases xMax + 1 - x
      {
        ghost var before := tileCount;
        var yTms := yMinTms;
        while yTms <= yMaxTms
          invariant yTms == yMinTms || yMinTms <= yTms <= yMaxTms + 1
          invariant tileCount == before + ColumnCount(emit, dataset, rowLat, zoom, x, yMinTms, yTms)
          decreases yMaxTms + 1 - yTms
        {
          if emit(dataset, zoom, x, yTms, TileBounds(x, yTms, zoom, rowLat)) {
            tileCount := tileCount + 1;
          }
          yTms := yTms + 1;
        }
        x := x + 1;
      }
    }

    /** `generate(max_zoom)`: opens the dataset into the `dataset` field,
        computes its bounds, and sums the zoom counts for zooms
        `0 .. max_zoom`; false when the dataset does not open or its bounds
        cannot be computed. `open` stands for `gdal.Open`. */
    method Generate(open: string -> Option<Dataset>,
                    transform: (string, real, real) -> Option<(real, real)>,
                    latToRow: (real, nat) -> int, rowLat: (int, nat) -> real, emit: Emit,
                    maxZoom: int := DEFAULT_MAX_ZOOM)
      returns (ok: bool, totalTiles: nat)
      modifies this
      ensures dataset == open(inputTif)
      ensures inputTif == old(inputTif) && outputDir == old(outputDir) && name == old(name)
      ensures ok <==> WgsBounds(dataset, transform).Some?
      ensures ok ==> totalTiles == Total(emit, dataset, rowLat, latToRow, WgsBounds(dataset, transform).value,
                                         if maxZoom < 0 then 0 else maxZoom + 1)
    {
      dataset := open(inputTif);
      totalTiles := 0;
      if dataset.None? {
        return false, 0;
      }
      var bounds := GetBoundsWgs84(transform);
      if bounds.None? {
        return false, 0;
      }
      var zooms: nat := if maxZoom < 0 then 0 else maxZoom + 1;
      for zoom := 0 to zooms
        invariant dataset == open(inputTif)
        invariant inputTif == old(inputTif) && outputDir == old(outputDir) && name == old(name)
        invariant totalTiles == Total(emit, dataset, rowLat, latToRow, bounds.value, zoom)
      {
        var tiles := GenerateZoomLevel(zoom, bounds.value, latToRow, rowLat, emit);
        totalTiles := totalTiles + tiles;
      }
      return true, totalTiles;
    }
  }
}
