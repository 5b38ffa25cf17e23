/**
 The per-cell loop of `generateMap`. Grid cell `(lat, lon)` is painted
 into pixel `(x, y) = (lon, lat)` of a copy of the base map: the pixel's
 colour is read, darkened by the night overlay when the cell's centre is
 in darkness, then covered by the activity colour when the activity is
 positive, and written back. Pixels are addressed as `y * width + x` in a
 flat buffer, read from the image being painted.

 The solar-position library and the easing function are parameters; the
 cells are taken as numbers.
 */
module MapRenderer {
  import opened ColorModel
  import opened Geo
  import opened SolarMask

  /** A raster: its width and its pixels, row after row. */
  datatype Image = Image(width: nat, pixels: seq<Color>)

  /** The easing function gives a non-negative opacity to every positive
      activity, as `easeOutExpo(a, 0, 225, 100)` does. */
  ghost predicate EaseNonNegative(ease: real -> real) {
    forall a: real :: a > 0.0 ==> ease(a) >= 0.0
  }

  /** The colour of one pixel: the night overlay first (when `shaded`), the
      activity colour with opacity `heatAlpha` last (when the activity is
      positive). */
  function ComposePixel(base: Color, shaded: bool, activity: real, heatAlpha: real): (c: Color)
    requires activity > 0.0 ==> heatAlpha != -255.0
    ensures !shaded && activity <= 0.0 ==> c == base
    ensures c.alpha >= base.alpha
    ensures shaded ==> c.alpha >= NightOverlay.alpha
    ensures activity > 0.0 ==> c.alpha >= heatAlpha
    ensures c.alpha == base.alpha || (shaded && c.alpha == NightOverlay.alpha) || (activity > 0.0 && c.alpha == heatAlpha)
    ensures InByteRange(base) && activity <= 100.0 && (activity > 0.0 ==> heatAlpha >= 0.0) ==> InByteRange(c)
    ensures InByteRange(base) && shaded && activity <= 0.0 ==>
      c.red <= base.red && c.green <= base.green && c.blue <= base.blue
  {
    var night :=
      if shaded && InByteRange(base) then
        NightShadeDarkens(base);
        Mix(base, NightOverlay)
      else if shaded then
        Mix(base, NightOverlay)
      else
        base;
    if activity > 0.0 then
      var heat := HeatColor(activity, heatAlpha);
      if 0.0 < activity <= 100.0 && heatAlpha >= 0.0 && InByteRange(night) then
        HeatInByteRange(activity, heatAlpha);
        MixInByteRange(night, heat);
        Mix(night, heat)
      else
        Mix(night, heat)
    else
      night
  }

  /** Mixing is not commutative in its order of application: a white,
      opaque pixel at night under full activity comes out different when
      the heat colour goes first. The renderer always mixes it last. */
  lemma OrderMatters()
    ensures var white := Color(255, 255, 255, 255.0);
      var heat := HeatColor(100.0, 225.0);
      && ComposePixel(white, true, 100.0, 225.0) == Color(210, 90, 90, 255.0)
      && Mix(Mix(white, heat), NightOverlay) == Color(170, 90, 90, 255.0)
  {
    var white := Color(255, 255, 255, 255.0);
    var heat := HeatColor(100.0, 225.0);
    assert heat == Color(255, 0, 0, 225.0);
    assert Mix(white, NightOverlay) == Color(170, 170, 170, 255.0) by {
      NightShadeScales(white);
      RoundWhole(170);
    }
    assert Mix(white, heat) == Color(255, 135, 135, 255.0);
  }

  /** Night shading alone scales each channel of the pixel to two thirds,
      rounded, and raises its alpha to at least half opacity. */
  lemma ShadedIsDarkened(base: Color, activity: real, heatAlpha: real)
    requires activity <= 0.0
    ensures ComposePixel(base, true, activity, heatAlpha).red == Round(2.0 * base.red as real / 3.0)
    ensures ComposePixel(base, true, activity, heatAlpha).green == Round(2.0 * base.green as real / 3.0)
    ensures ComposePixel(base, true, activity, heatAlpha).blue == Round(2.0 * base.blue as real / 3.0)
    ensures ComposePixel(base, true, activity, heatAlpha).alpha == Max(base.alpha, NightOverlay.alpha)
  {
    NightShadeScales(base);
  }

  /** A positive activity's colour is mixed onto the pixel as it stands
      after the night test: the heat colour comes last. */
  lemma HeatAfterNight(base: Color, shaded: bool, activity: real, heatAlpha: real)
    requires activity > 0.0 && heatAlpha != -255.0
    ensures ComposePixel(base, shaded, activity, heatAlpha)
         == ComposePixel(ComposePixel(base, shaded, 0.0, heatAlpha), false, activity, heatAlpha)
    ensures ComposePixel(base, shaded, activity, heatAlpha)
         == Mix(ComposePixel(base, shaded, 0.0, heatAlpha), HeatColor(activity, heatAlpha))
  {
  }

  /** The colour cell `(lat, lon)` gives a pixel that reads `base`. The
      row's own length fixes the longitude spacing. */
  function CellColor(base: Color, grid: seq<seq<real>>, lat: nat, lon: nat, t: Instant,
                     solar: SolarTimes, ease: real -> real): (c: Color)
    requires lat < |grid| && lon < |grid[lat]|
    requires EaseNonNegative(ease)
    ensures c.alpha >= base.alpha
    ensures InByteRange(base) && grid[lat][lon] <= 100.0 ==> InByteRange(c)
    ensures grid[lat][lon] <= 0.0 && !IsNightShaded(t, solar(t, LatDegree(lat, |grid|), LonDegree(lon, |grid[lat]|))) ==> c == base
    ensures grid[lat][lon] <= 0.0 && IsNightShaded(t, solar(t, LatDegree(lat, |grid|), LonDegree(lon, |grid[lat]|))) ==>
      && c.red == Round(2.0 * base.red as real / 3.0)
      && c.green == Round(2.0 * base.green as real / 3.0)
      && c.blue == Round(2.0 * base.blue as real / 3.0)
      && c.alpha == Max(base.alpha, NightOverlay.alpha)
    ensures grid[lat][lon] > 0.0 ==>
      var shaded := IsNightShaded(t, solar(t, LatDegree(lat, |grid|), LonDegree(lon, |grid[lat]|)));
      c == Mix(ComposePixel(base, shaded, 0.0, 0.0), HeatColor(grid[lat][lon], ease(grid[lat][lon])))
  {
    var latDegree := LatDegree(lat, |grid|);
    var lonDegree := LonDegree(lon, |grid[lat]|);
    var shaded := IsNightShaded(t, solar(t, latDegree, lonDegree));
    var activity := grid[lat][lon];
    if activity > 0.0 then
      HeatAfterNight(base, shaded, activity, ease(activity));
      ComposePixel(base, shaded, activity, ease(activity))
    else if shaded then
      ShadedIsDarkened(base, activity, ease(activity));
      ComposePixel(base, shaded, activity, ease(activity))
    else
      ComposePixel(base, shaded, activity, ease(activity))
  }

  /** Reads, recolours and writes back the pixel of cell `(lat, lon)`. A
      position past the end of the buffer is neither read nor written. */
  function PaintCell(img: Image, grid: seq<seq<real>>, lat: nat, lon: nat, t: Instant,
                     solar: SolarTimes, ease: real -> real): (out: Image)
    requires lat < |grid| && lon < |grid[lat]|
    requires EaseNonNegative(ease)
    ensures out.width == img.width && |out.pixels| == |img.pixels|
  {
    var idx := lat * img.width + lon;
    if idx < |img.pixels| then
      img.(pixels := img.pixels[idx := CellColor(img.pixels[idx], grid, lat, lon, t, solar, ease)])
    else
      img
  }

  /** `latitude.forEach` from column `lon` on. */
  function PaintRow(img: Image, grid: seq<seq<real>>, lat: nat, lon: nat, t: Instant,
                    solar: SolarTimes, ease: real -> real): (out: Image)
    requires lat < |grid| && lon <= |grid[lat]|
    requires EaseNonNegative(ease)
    ensures out.width == img.width && |out.pixels| == |img.pixels|
    decreases |grid[lat]| - lon
  {
    if lon == |grid[lat]| then img
    else PaintRow(PaintCell(img, grid, lat, lon, t, solar, ease), grid, lat, lon + 1, t, solar, ease)
  }

  /** `data.forEach` from row `lat` on. */
  function PaintRows(img: Image, grid: seq<seq<real>>, lat: nat, t: Instant,
                     solar: SolarTimes, ease: real -> real): (out: Image)
    requires lat <= |grid|
    requires EaseNonNegative(ease)
    ensures out.width == img.width && |out.pixels| == |img.pixels|
    decreases |grid| - lat
  {
    if lat == |grid| then img
    else PaintRows(PaintRow(img, grid, lat, 0, t, solar, ease), grid, lat + 1, t, solar, ease)
  }

  /** The whole grid painted onto a copy of the base map at instant `t`. */
  function Render(img: Image, grid: seq<seq<real>>, t: Instant, solar: SolarTimes,
                  ease: real -> real): (out: Image)
    requires EaseNonNegative(ease)
    ensures out.width == img.width && |out.pixels| == |img.pixels|
  {
    PaintRows(img, grid, 0, t, solar, ease)
  }

  /** Every row fits in the raster's width, so no row runs into the next. */
  predicate RowsFit(grid: seq<seq<real>>, width: nat) {
    forall i :: 0 <= i < |grid| ==> |grid[i]| <= width
  }

  /** Pixel `idx` is the pixel of a grid cell: `(idx / width, idx % width)`. */
  predicate HasCell(grid: seq<seq<real>>, width: nat, idx: int) {
    width > 0 && 0 <= idx && idx / width < |grid| && idx % width < |grid[idx / width]|
  }

  /** Pixel `idx` belongs to a cell visited before cell `(lat, lon)`. */
  predicate Visited(grid: seq<seq<real>>, width: nat, lat: int, lon: int, idx: int) {
    HasCell(grid, width, idx) && (idx / width < lat || (idx / width == lat && idx % width < lon))
  }

  /** What pixel `idx` of `img0` should hold once the cells visited before
      `(lat, lon)` have been painted. */
  function PaintedPixel(img0: Image, grid: seq<seq<real>>, lat: int, lon: int, idx: int, t: Instant,
                        solar: SolarTimes, ease: real -> real): Color
    requires 0 <= idx < |img0.pixels|
    requires EaseNonNegative(ease)
  {
    if Visited(grid, img0.width, lat, lon, idx) then
      CellColor(img0.pixels[idx], grid, idx / img0.width, idx % img0.width, t, solar, ease)
    else
      img0.pixels[idx]
  }

  /** `img` is `img0` with exactly the cells before `(lat, lon)` painted. */
  ghost predicate PaintedUpTo(img0: Image, img: Image, grid: seq<seq<real>>, lat: int, lon: int, t: Instant,
                              solar: SolarTimes, ease: real -> real)
    requires EaseNonNegative(ease)
  {
    && img.width == img0.width && |img.pixels| == |img0.pixels|
    && forall idx :: 0 <= idx < |img.pixels| ==> img.pixels[idx] == PaintedPixel(img0, grid, lat, lon, idx, t, solar, ease)
  }

  /** The flat index of `(q, r)` gives back its row and column. */
  lemma IndexRowColumn(q: int, r: int, w: int)
    requires w > 0 && 0 <= r < w
    ensures (q * w + r) / w == q && (q * w + r) % w == r
  {
    var d := q * w + r;
    var k := d / w - q;
    assert w * k == r - d % w;
    SmallMultipleIsZero(w, k);
  }

  /** The only multiple of `w` strictly between `-w` and `w` is zero. */
  lemma SmallMultipleIsZero(w: int, k: int)
    requires w > 0 && -w < w * k < w
    ensures k == 0
  {
  }

  /** A pixel's flat index is determined by its row and column. */
  lemma IndexFromRowColumn(idx: int, w: int)
    requires w > 0
    ensures idx == (idx / w) * w + idx % w
  {
  }

  /** Painting one cell adds exactly that cell's pixel to the painted ones. */
  lemma {:induction false} PaintCellStep(img0: Image, img: Image, grid: seq<seq<real>>, lat: nat, lon: nat,
                                         t: Instant, solar: SolarTimes, ease: real -> real)
    requires EaseNonNegative(ease) && RowsFit(grid, img0.width)
    requires lat < |grid| && lon < |grid[lat]|
    requires PaintedUpTo(img0, img, grid, lat, lon, t, solar, ease)
    ensures PaintedUpTo(img0, PaintCell(img, grid, lat, lon, t, solar, ease), grid, lat, lon + 1, t, solar, ease)
  {
    var w := img0.width;
    assert w > 0;
    var here := lat * w + lon;
    IndexRowColumn(lat, lon, w);
    var out := PaintCell(img, grid, lat, lon, t, solar, ease);
    forall idx | 0 <= idx < |out.pixels|
      ensures out.pixels[idx] == PaintedPixel(img0, grid, lat, lon + 1, idx, t, solar, ease)
    {
      IndexFromRowColumn(idx, w);
      if idx == here {
        assert Visited(grid, w, lat, lon + 1, idx) && !Visited(grid, w, lat, lon, idx);
      } else {
        assert Visited(grid, w, lat, lon + 1, idx) == Visited(grid, w, lat, lon, idx);
      }
    }
  }

  /** Painting the rest of a row paints exactly its remaining cells. */
  lemma {:induction false} PaintRowPaintsCells(img0: Image, img: Image, grid: seq<seq<real>>, lat: nat, lon: nat,
                                        t: Instant, solar: SolarTimes, ease: real -> real)
    requires EaseNonNegative(ease) && RowsFit(grid, img0.width)
    requires lat < |grid| && lon <= |grid[lat]|
    requires PaintedUpTo(img0, img, grid, lat, lon, t, solar, ease)
    ensures PaintedUpTo(img0, PaintRow(img, grid, lat, lon, t, solar, ease), grid, lat, |grid[lat]|, t, solar, ease)
    decreases |grid[lat]| - lon
  {
    if lon < |grid[lat]| {
      PaintCellStep(img0, img, grid, lat, lon, t, solar, ease);
      PaintRowPaintsCells(img0, PaintCell(img, grid, lat, lon, t, solar, ease), grid, lat, lon + 1, t, solar, ease);
    }
  }

  /** Finishing row `lat` is the same as starting row `lat + 1`. */
  lemma NextRow(img0: Image, img: Image, grid: seq<seq<real>>, lat: nat, t: Instant,
                solar: SolarTimes, ease: real -> real)
    requires EaseNonNegative(ease)
    requires lat < |grid|
    requires PaintedUpTo(img0, img, grid, lat, |grid[lat]|, t, solar, ease)
    ensures PaintedUpTo(img0, img, grid, lat + 1, 0, t, solar, ease)
  {
    forall idx | 0 <= idx < |img.pixels|
      ensures Visited(grid, img0.width, lat, |grid[lat]|, idx) == Visited(grid, img0.width, lat + 1, 0, idx)
    {
    }
  }

  /** Painting the remaining rows paints exactly their cells. */
  lemma {:induction false} PaintRowsPaintsCells(img0: Image, img: Image, grid: seq<seq<real>>, lat: nat, t: Instant,
                                         solar: SolarTimes, ease: real -> real)
    requires EaseNonNegative(ease) && RowsFit(grid, img0.width)
    requires lat <= |grid|
    requires PaintedUpTo(img0, img, grid, lat, 0, t, solar, ease)
    ensures PaintedUpTo(img0, PaintRows(img, grid, lat, t, solar, ease), grid, |grid|, 0, t, solar, ease)
    decreases |grid| - lat
  {
    if lat < |grid| {
      PaintRowPaintsCells(img0, img, grid, lat, 0, t, solar, ease);
      var next := PaintRow(img, grid, lat, 0, t, solar, ease);
      NextRow(img0, next, grid, lat, t, solar, ease);
      PaintRowsPaintsCells(img0, next, grid, lat + 1, t, solar, ease);
    }
  }

  /** Before the first cell, no pixel has been painted. */
  lemma NothingVisited(img: Image, grid: seq<seq<real>>, t: Instant, solar: SolarTimes, ease: real -> real)
    requires EaseNonNegative(ease)
    ensures PaintedUpTo(img, img, grid, 0, 0, t, solar, ease)
  {
    forall idx | 0 <= idx < |img.pixels|
      ensures !Visited(grid, img.width, 0, 0, idx)
    {
      if img.width > 0 {
        assert idx / img.width >= 0;
      }
    }
  }

  /** Once every row is done, the visited pixels are those of the cells. */
  lemma AllVisited(img: Image, grid: seq<seq<real>>, idx: int, t: Instant, solar: SolarTimes, ease: real -> real)
    requires EaseNonNegative(ease) && 0 <= idx < |img.pixels|
    ensures PaintedPixel(img, grid, |grid|, 0, idx, t, solar, ease) ==
      if HasCell(grid, img.width, idx)
      then CellColor(img.pixels[idx], grid, idx / img.width, idx % img.width, t, solar, ease)
      else img.pixels[idx]
  {
    assert Visited(grid, img.width, |grid|, 0, idx) == HasCell(grid, img.width, idx);
  }

  /** When every row fits in the width, each cell's pixel holds the colour
      computed from the base map's own pixel, and every other pixel keeps
      the base map's colour. */
  lemma RenderPointwise(img: Image, grid: seq<seq<real>>, t: Instant, solar: SolarTimes, ease: real -> real)
    requires EaseNonNegative(ease) && RowsFit(grid, img.width)
    ensures forall idx :: 0 <= idx < |img.pixels| ==>
      Render(img, grid, t, solar, ease).pixels[idx] ==
        if HasCell(grid, img.width, idx)
        then CellColor(img.pixels[idx], grid, idx / img.width, idx % img.width, t, solar, ease)
        else img.pixels[idx]
  {
    NothingVisited(img, grid, t, solar, ease);
    PaintRowsPaintsCells(img, img, grid, 0, t, solar, ease);
    var out := Render(img, grid, t, solar, ease);
    forall idx | 0 <= idx < |img.pixels|
      ensures out.pixels[idx] ==
        if HasCell(grid, img.width, idx)
        then CellColor(img.pixels[idx], grid, idx / img.width, idx % img.width, t, solar, ease)
        else img.pixels[idx]
    {
      AllVisited(img, grid, idx, t, solar, ease);
    }
  }

  /** Cell `(lat, lon)` lands on pixel `lat * width + lon`, coloured from
      that pixel of the base map. */
  lemma RenderCell(img: Image, grid: seq<seq<real>>, t: Instant, solar: SolarTimes, ease: real -> real,
                   lat: nat, lon: nat)
    requires EaseNonNegative(ease) && RowsFit(grid, img.width)
    requires lat < |grid| && lon < |grid[lat]| && lat * img.width + lon < |img.pixels|
    ensures Render(img, grid, t, solar, ease).pixels[lat * img.width + lon] ==
      CellColor(img.pixels[lat * img.width + lon], grid, lat, lon, t, solar, ease)
  {
    RenderPointwise(img, grid, t, solar, ease);
    IndexRowColumn(lat, lon, img.width);
  }

  /** Every pixel of `img` is a byte colour. */
  predicate ByteImage(img: Image) {
    forall idx :: 0 <= idx < |img.pixels| ==> InByteRange(img.pixels[idx])
  }

  /** No activity of the grid exceeds `bound`. */
  predicate ActivitiesAtMost(grid: seq<seq<real>>, bound: real) {
    forall i, j :: 0 <= i < |grid| && 0 <= j < |grid[i]| ==> grid[i][j] <= bound
  }

  /** The centre of cell `(lat, lon)` is not in darkness at `t`. */
  predicate CentreLit(grid: seq<seq<real>>, lat: nat, lon: nat, t: Instant, solar: SolarTimes)
    requires lat < |grid| && lon < |grid[lat]|
  {
    !IsNightShaded(t, solar(t, LatDegree(lat, |grid|), LonDegree(lon, |grid[lat]|)))
  }

  /** No cell's centre is in darkness at `t` and no activity is positive;
      places between the centres may be dark. */
  predicate QuietDay(grid: seq<seq<real>>, t: Instant, solar: SolarTimes) {
    && ActivitiesAtMost(grid, 0.0)
    && forall lat: nat, lon: nat :: lat < |grid| && lon < |grid[lat]| ==> CentreLit(grid, lat, lon, t, solar)
  }

  lemma PaintCellKeepsBytes(img: Image, grid: seq<seq<real>>, lat: nat, lon: nat, t: Instant,
                            solar: SolarTimes, ease: real -> real)
    requires EaseNonNegative(ease) && lat < |grid| && lon < |grid[lat]|
    requires ByteImage(img) && ActivitiesAtMost(grid, 100.0)
    ensures ByteImage(PaintCell(img, grid, lat, lon, t, solar, ease))
  {
  }

  lemma {:induction false} PaintRowKeepsBytes(img: Image, grid: seq<seq<real>>, lat: nat, lon: nat, t: Instant,
                                              solar: SolarTimes, ease: real -> real)
    requires EaseNonNegative(ease) && lat < |grid| && lon <= |grid[lat]|
    requires ByteImage(img) && ActivitiesAtMost(grid, 100.0)
    ensures ByteImage(PaintRow(img, grid, lat, lon, t, solar, ease))
    decreases |grid[lat]| - lon
  {
    if lon < |grid[lat]| {
      PaintCellKeepsBytes(img, grid, lat, lon, t, solar, ease);
      PaintRowKeepsBytes(PaintCell(img, grid, lat, lon, t, solar, ease), grid, lat, lon + 1, t, solar, ease);
    }
  }

  lemma {:induction false} PaintRowsKeepBytes(img: Image, grid: seq<seq<real>>, lat: nat, t: Instant,
                                              solar: SolarTimes, ease: real -> real)
    requires EaseNonNegative(ease) && lat <= |grid|
    requires ByteImage(img) && ActivitiesAtMost(grid, 100.0)
    ensures ByteImage(PaintRows(img, grid, lat, t, solar, ease))
    decreases |grid| - lat
  {
    if lat < |grid| {
      PaintRowKeepsBytes(img, grid, lat, 0, t, solar, ease);
      PaintRowsKeepBytes(PaintRow(img, grid, lat, 0, t, solar, ease), grid, lat + 1, t, solar, ease);
    }
  }

  /** A raster of byte colours stays one when no activity exceeds 100,
      whatever the grid's shape: rows longer than the width run into the
      next pixel row and are painted over byte colours too. */
  lemma RenderInByteRange(img: Image, grid: seq<seq<real>>, t: Instant, solar: SolarTimes, ease: real -> real)
    requires EaseNonNegative(ease)
    requires ByteImage(img) && ActivitiesAtMost(grid, 100.0)
    ensures ByteImage(Render(img, grid, t, solar, ease))
  {
    PaintRowsKeepBytes(img, grid, 0, t, solar, ease);
  }

  /** Darkness away from the cell centres does not spoil a quiet day: a
      one-cell grid whose only centre, at latitude and longitude 0, is lit
      is quiet although every other place is dark. */
  lemma QuietDayAllowsDarkness()
    ensures var solar: SolarTimes := (t: Instant, la: real, lo: real) =>
              if la == 0.0 && lo == 0.0 then NightBoundaries(Invalid, Invalid)
              else NightBoundaries(Valid(1), Invalid);
      && QuietDay([[0.0]], Valid(0), solar)
      && IsNightShaded(Valid(0), solar(Valid(0), 45.0, 90.0))
  {
    assert LatDegree(0, 1) == 0.0 && LonDegree(0, 1) == 0.0;
  }

  lemma PaintCellQuiet(img: Image, grid: seq<seq<real>>, lat: nat, lon: nat, t: Instant,
                       solar: SolarTimes, ease: real -> real)
    requires EaseNonNegative(ease) && lat < |grid| && lon < |grid[lat]|
    requires QuietDay(grid, t, solar)
    ensures PaintCell(img, grid, lat, lon, t, solar, ease) == img
  {
    var idx := lat * img.width + lon;
    assert CentreLit(grid, lat, lon, t, solar);
    if idx < |img.pixels| {
      assert img.pixels[idx := img.pixels[idx]] == img.pixels;
    }
  }

  lemma {:induction false} PaintRowQuiet(img: Image, grid: seq<seq<real>>, lat: nat, lon: nat, t: Instant,
                                         solar: SolarTimes, ease: real -> real)
    requires EaseNonNegative(ease) && lat < |grid| && lon <= |grid[lat]|
    requires QuietDay(grid, t, solar)
    ensures PaintRow(img, grid, lat, lon, t, solar, ease) == img
    decreases |grid[lat]| - lon
  {
    if lon < |grid[lat]| {
      PaintCellQuiet(img, grid, lat, lon, t, solar, ease);
      PaintRowQuiet(img, grid, lat, lon + 1, t, solar, ease);
    }
  }

  lemma {:induction false} PaintRowsQuiet(img: Image, grid: seq<seq<real>>, lat: nat, t: Instant,
                                          solar: SolarTimes, ease: real -> real)
    requires EaseNonNegative(ease) && lat <= |grid|
    requires QuietDay(grid, t, solar)
    ensures PaintRows(img, grid, lat, t, solar, ease) == img
    decreases |grid| - lat
  {
    if lat < |grid| {
      PaintRowQuiet(img, grid, lat, 0, t, solar, ease);
      PaintRowsQuiet(img, grid, lat + 1, t, solar, ease);
    }
  }

  /** A day with no cell centre in darkness and no positive activity leaves
      the map as it was, whatever the grid's shape. */
  lemma QuietDayKeepsMap(img: Image, grid: seq<seq<real>>, t: Instant, solar: SolarTimes, ease: real -> real)
    requires EaseNonNegative(ease)
    requires QuietDay(grid, t, solar)
    ensures Render(img, grid, t, solar, ease) == img
  {
    PaintRowsQuiet(img, grid, 0, t, solar, ease);
  }
}
