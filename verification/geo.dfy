/**
 From grid indices to geographic coordinates. The globe is cut into
 `rows` equal latitude bands, row 0 at the north, and each row into
 `cols` equal longitude bands, column 0 at 180 degrees west; a cell stands
 for the centre of its band. The column count is that of the cell's own
 row, so rows of different lengths get different longitude spacings.
 */
module Geo {

  /** `latDegree` for row `lat` of a grid with `rows` rows:
      `90 - (step / 2 + lat * step)` with `step = 180 / rows`. Every row of
      the grid lands strictly inside (-90, 90), half a band away from the
      poles. */
  function LatDegree(lat: int, rows: int): (deg: real)
    requires rows > 0
    ensures 0 <= lat < rows ==> -90.0 + 90.0 / rows as real <= deg <= 90.0 - 90.0 / rows as real
  {
    var latDegreePoint := 180.0 / rows as real;
    LatBandFacts(lat, rows);
    90.0 - ((latDegreePoint / 2.0) + (lat as real * latDegreePoint))
  }

  /** `lonDegree` for column `lon` of a row with `cols` cells:
      `-180 + (step / 2 + lon * step)` with `step = 360 / cols`. Every
      column lands strictly inside (-180, 180), half a band away from the
      antimeridian. */
  function LonDegree(lon: int, cols: int): (deg: real)
    requires cols > 0
    ensures 0 <= lon < cols ==> -180.0 + 180.0 / cols as real <= deg <= 180.0 - 180.0 / cols as real
  {
    var lonDegreePoint := 360.0 / cols as real;
    LonBandFacts(lon, cols);
    -180.0 + ((lonDegreePoint / 2.0) + (lon as real * lonDegreePoint))
  }

  /** `k * (span / n)` for `0 <= k < n` lies in `[0, span - span / n]`. */
  lemma ScaledIndexBounds(k: int, n: int, span: real)
    requires n > 0 && span > 0.0
    ensures 0 <= k < n ==> 0.0 <= k as real * (span / n as real) <= span - span / n as real
  {
    if 0 <= k < n {
      var step := span / n as real;
      assert step > 0.0;
      assert n as real * step == span;
      assert (k as real) * step <= (n - 1) as real * step;
    }
  }

  lemma LatBandFacts(lat: int, rows: int)
    requires rows > 0
    ensures 0 <= lat < rows ==> 0.0 <= lat as real * (180.0 / rows as real) <= 180.0 - 180.0 / rows as real
  {
    ScaledIndexBounds(lat, rows, 180.0);
  }

  lemma LonBandFacts(lon: int, cols: int)
    requires cols > 0
    ensures 0 <= lon < cols ==> 0.0 <= lon as real * (360.0 / cols as real) <= 360.0 - 360.0 / cols as real
  {
    ScaledIndexBounds(lon, cols, 360.0);
  }

  /** Latitude falls strictly from one row to the next, by exactly one band. */
  lemma LatDecreasing(a: int, b: int, rows: int)
    requires rows > 0 && a < b
    ensures LatDegree(a, rows) > LatDegree(b, rows)
    ensures LatDegree(a, rows) - LatDegree(a + 1, rows) == 180.0 / rows as real
  {
    var step := 180.0 / rows as real;
    assert step > 0.0;
    assert (b - a) as real * step > 0.0;
    assert b as real * step - a as real * step == (b - a) as real * step;
  }

  /** Longitude rises strictly from one column to the next, by exactly one
      band. */
  lemma LonIncreasing(a: int, b: int, cols: int)
    requires cols > 0 && a < b
    ensures LonDegree(a, cols) < LonDegree(b, cols)
    ensures LonDegree(a + 1, cols) - LonDegree(a, cols) == 360.0 / cols as real
  {
    var step := 360.0 / cols as real;
    assert step > 0.0;
    assert (b - a) as real * step > 0.0;
    assert b as real * step - a as real * step == (b - a) as real * step;
  }

  /** The rows are placed symmetrically about the equator: row `lat` and
      row `rows - 1 - lat` are mirror images, so the first and last rows sit
      at `90 - 90 / rows` and `-(90 - 90 / rows)`. */
  lemma LatMirror(lat: int, rows: int)
    requires rows > 0
    ensures LatDegree(rows - 1 - lat, rows) == -LatDegree(lat, rows)
    ensures LatDegree(0, rows) == 90.0 - 90.0 / rows as real
    ensures LatDegree(rows - 1, rows) == -90.0 + 90.0 / rows as real
  {
    var step := 180.0 / rows as real;
    assert rows as real * step == 180.0;
    assert (rows - 1 - lat) as real * step == rows as real * step - step - lat as real * step;
  }

  /** The columns are placed symmetrically about the prime meridian. */
  lemma LonMirror(lon: int, cols: int)
    requires cols > 0
    ensures LonDegree(cols - 1 - lon, cols) == -LonDegree(lon, cols)
    ensures LonDegree(0, cols) == -180.0 + 180.0 / cols as real
  {
    var step := 360.0 / cols as real;
    assert cols as real * step == 360.0;
    assert (cols - 1 - lon) as real * step == cols as real * step - step - lon as real * step;
  }

  /** The row whose band holds latitude `deg`: bands are half-open, closed
      at their northern edge. */
  function LatRow(deg: real, rows: int): int
    requires rows > 0
  {
    ((90.0 - deg) * rows as real / 180.0).Floor
  }

  /** The column whose band holds longitude `deg`: bands are half-open,
      closed at their western edge. */
  function LonColumn(deg: real, cols: int): int
    requires cols > 0
  {
    ((deg + 180.0) * cols as real / 360.0).Floor
  }

  /** The latitude of a row lies in that row's own band: mapping it back
      gives the row. */
  lemma LatRowOfLatDegree(lat: int, rows: int)
    requires rows > 0
    ensures LatRow(LatDegree(lat, rows), rows) == lat
  {
    var step := 180.0 / rows as real;
    assert rows as real * step == 180.0;
    var deg := LatDegree(lat, rows);
    assert 90.0 - deg == step / 2.0 + lat as real * step;
    assert (step / 2.0 + lat as real * step) * rows as real == 90.0 + lat as real * 180.0;
    assert (90.0 - deg) * rows as real / 180.0 == lat as real + 0.5;
  }

  /** The longitude of a column lies in that column's own band. */
  lemma LonColumnOfLonDegree(lon: int, cols: int)
    requires cols > 0
    ensures LonColumn(LonDegree(lon, cols), cols) == lon
  {
    var step := 360.0 / cols as real;
    assert cols as real * step == 360.0;
    var deg := LonDegree(lon, cols);
    assert deg + 180.0 == step / 2.0 + lon as real * step;
    assert (step / 2.0 + lon as real * step) * cols as real == 180.0 + lon as real * 360.0;
    assert (deg + 180.0) * cols as real / 360.0 == lon as real + 0.5;
  }
}
