/** Web-Mercator tile-grid arithmetic on longitudes, shared by the Terrarium
    generator (scripts/generate-terrain-tiles.py) and the quantized-mesh
    generator (scripts/generate-terrain-quantized-mesh.py), which define the
    same formulas. Floats are modelled as exact reals. */
module TileGrid {

  /** A `(west, south, east, north)` box in degrees. */
  datatype Bounds = Bounds(west: real, south: real, east: real, north: real)

  /** `2 ** z`, the number of tile columns at zoom `z`. */
  function Pow2(z: nat): (r: nat)
    ensures r >= 1
  {
    if z == 0 then 1 else 2 * Pow2(z - 1)
  }

  /** Python's `int(r)` on a float: truncation toward zero. */
  function Trunc(r: real): (t: int)
    ensures r >= 0.0 ==> t >= 0 && t as real <= r < t as real + 1.0
    ensures r < 0.0 ==> t <= 0 && t as real - 1.0 < r <= t as real
  {
    if r >= 0.0 then r.Floor else -((-r).Floor)
  }

  /** `lon_to_tile_x` / the `x` of `_deg_to_tile`. */
  function LonToTileX(lon: real, z: nat): int {
    Trunc((lon + 180.0) / 360.0 * Pow2(z) as real)
  }

  /** The `west` of `tile_bounds` / `_tile_to_deg`. */
  function TileWest(x: int, z: nat): real {
    x as real / Pow2(z) as real * 360.0 - 180.0
  }

  /** The `east` of `tile_bounds` / `_tile_to_deg`. */
  function TileEast(x: int, z: nat): real {
    (x + 1) as real / Pow2(z) as real * 360.0 - 180.0
  }

  /** A longitude in [-180, 180) falls in a column in [0, 2^z). */
  lemma LonToTileXInRange(lon: real, z: nat)
    requires -180.0 <= lon < 180.0
    ensures 0 <= LonToTileX(lon, z) < Pow2(z)
  {
    var n := Pow2(z) as real;
    var u := (lon + 180.0) / 360.0;
    assert 0.0 <= u < 1.0;
    assert 0.0 <= u * n < n by {
      assert u * n < 1.0 * n;
    }
  }

  /** Adjacent columns share an edge, each column has positive width, and
      the columns cover [-180, 180] exactly. */
  lemma TileEdges(x: int, z: nat)
    ensures TileEast(x, z) == TileWest(x + 1, z)
    ensures TileWest(x, z) < TileEast(x, z)
    ensures TileWest(0, z) == -180.0
    ensures TileEast(Pow2(z) - 1, z) == 180.0
  {
    var n := Pow2(z) as real;
    assert (x + 1) as real / n == x as real / n + 1.0 / n;
    assert 1.0 / n > 0.0;
    assert (Pow2(z) - 1 + 1) as real / n == 1.0;
  }

  /** Every longitude east of -180 lies in the column it is mapped to. */
  lemma LonInItsColumn(lon: real, z: nat)
    requires -180.0 <= lon
    ensures var x := LonToTileX(lon, z);
            x >= 0 && TileWest(x, z) <= lon < TileEast(x, z)
  {
    var n := Pow2(z) as real;
    var u := (lon + 180.0) / 360.0;
    var v := u * n;
    var x := LonToTileX(lon, z);
    assert v >= 0.0 by { assert u >= 0.0 && n >= 1.0; }
    assert x as real <= v < x as real + 1.0;
    MulDiv(u, n);
    DivLe(x as real, v, n);
    DivLt(v, (x + 1) as real, n);
  }

  lemma DivLe(a: real, b: real, n: real)
    requires n > 0.0 && a <= b
    ensures a / n <= b / n
  {
    assert b / n - a / n == (b - a) / n;
  }

  lemma DivLt(a: real, b: real, n: real)
    requires n > 0.0 && a < b
    ensures a / n < b / n
  {
    assert b / n - a / n == (b - a) / n;
  }

  lemma MulDiv(u: real, n: real)
    requires n > 0.0
    ensures u * n / n == u
  {
    assert u * n / n * n == u * n;
  }

  /** A column's west edge maps back to that column. */
  lemma WestEdgeRoundTrip(x: nat, z: nat)
    ensures LonToTileX(TileWest(x, z), z) == x
  {
    var n := Pow2(z) as real;
    assert (TileWest(x, z) + 180.0) / 360.0 * n == x as real;
  }

  /** `tile_bounds(x, y, z)` / `_tile_to_deg(x, y, z)`: the longitudes are
      exact; `rowLat(y, z)` stands for the latitude of the top edge of
      row `y` (`degrees(atan(sinh(pi * (1 - 2 * y / n))))`), which the
      model leaves uninterpreted. */
  function TileBounds(x: int, y: int, z: nat, rowLat: (int, nat) -> real): Bounds {
    Bounds(TileWest(x, z), rowLat(y + 1, z), TileEast(x, z), rowLat(y, z))
  }
}
