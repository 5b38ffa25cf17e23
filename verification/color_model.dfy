/**
 Colours and the two colour functions of the renderer: the activity heat
 ramp (`AuroraMap.heatMapColorCalculator`) and the blend of an overlay onto
 a pixel (`AuroraMap.colorMix`). Arithmetic is exact: `real` stands for the
 JavaScript numbers, and `Math.round` is written out.
 */
module ColorModel {
  import opened Numbers

  /** A pixel or overlay colour. The channels are whole numbers (every value
      the renderer stores went through `Math.round`); alpha is any real,
      such as the 127.5 of the night overlay. */
  datatype Color = Color(red: int, green: int, blue: int, alpha: real)

  /** Each colour channel lies in 0..255. */
  predicate InByteRange(c: Color) {
    && 0 <= c.red <= 255
    && 0 <= c.green <= 255
    && 0 <= c.blue <= 255
  }

  function Max(a: real, b: real): real {
    if a >= b then a else b
  }

  // ---------------------------------------------------------------------
  // Math.round
  // ---------------------------------------------------------------------

  /** `Math.round`: the nearest integer, halves going up (towards +∞). */
  function Round(x: real): (n: int)
    ensures n as real - 0.5 <= x < n as real + 0.5
  {
    (x + 0.5).Floor
  }

  /** Whole numbers round to themselves. */
  lemma RoundWhole(k: int)
    ensures Round(k as real) == k
  {
  }

  /** Rounding never reverses an order. */
  lemma RoundMonotone(x: real, y: real)
    requires x <= y
    ensures Round(x) <= Round(y)
  {
  }

  /** A value between two whole numbers rounds to a value between them. */
  lemma RoundBetween(x: real, lo: int, hi: int)
    requires lo as real <= x <= hi as real
    ensures lo <= Round(x) <= hi
  {
  }

  // ---------------------------------------------------------------------
  // heatMapColorCalculator
  // ---------------------------------------------------------------------

  /** `255 / 100`: one percent of activity in channel units. */
  const PercentPerHex: real := 255.0 / 100.0

  /** The slope of either half of the ramp, `(255 / 100) * 2`, that is 5.1
      channel units per unit of activity. */
  const RampSlope: real := PercentPerHex * 2.0

  /** `heatMapColorCalculator` without the easing call: `alpha` is the value
      of `easeOutExpo(activity, 0, 225, 100)`, passed in. On (0, 50] red
      climbs from 0 while green stays 255; everywhere else red is 255 and
      green is `Math.round(5.1 * (100 - activity))`. Blue is always 0. The
      channels are bytes for every 0 < activity <= 100. At activity 0 (or
      below) the else-branch gives green 510 or more; above 100 it gives
      green 0 or less, and negative once the activity passes 100 + 5/51. */
  function HeatColor(activity: real, alpha: real): (c: Color)
    ensures c.blue == 0 && c.alpha == alpha
    ensures 0.0 < activity <= 50.0 ==> c.green == 255 && 0 <= c.red <= 255
    ensures !(0.0 < activity <= 50.0) ==> c.red == 255
    ensures 50.0 < activity <= 100.0 ==> 0 <= c.green <= 255
    ensures activity == 50.0 ==> c.red == 255 && c.green == 255
    ensures activity == 100.0 ==> c.green == 0
    ensures activity <= 0.0 ==> c.green >= 510
    ensures activity > 100.0 ==> c.green <= 0
  {
    if 0.0 < activity <= 50.0 then
      Color(Round(RampSlope * activity), 255, 0, alpha)
    else
      var greenFix := activity - 50.0;
      Color(255, Round(RampSlope * (50.0 - greenFix)), 0, alpha)
  }

  /** On (0, 50] red does not decrease as activity grows. */
  lemma HeatRedNonDecreasing(a: real, b: real, alpha: real)
    requires 0.0 < a <= b <= 50.0
    ensures HeatColor(a, alpha).red <= HeatColor(b, alpha).red
  {
    RoundMonotone(RampSlope * a, RampSlope * b);
  }

  /** Above 50 green does not increase as activity grows. */
  lemma HeatGreenNonIncreasing(a: real, b: real, alpha: real)
    requires 50.0 < a <= b
    ensures HeatColor(a, alpha).green >= HeatColor(b, alpha).green
  {
    RoundMonotone(RampSlope * (100.0 - b), RampSlope * (100.0 - a));
    assert RampSlope * (50.0 - (a - 50.0)) == RampSlope * (100.0 - a);
    assert RampSlope * (50.0 - (b - 50.0)) == RampSlope * (100.0 - b);
  }

  /** For every activity the caller passes (0 < activity <= 100) the heat
      colour is a byte colour. */
  lemma HeatInByteRange(activity: real, alpha: real)
    requires 0.0 < activity <= 100.0
    ensures InByteRange(HeatColor(activity, alpha))
  {
  }

  // The reference ramp: straight-line interpolation between three anchor
  // colours, green at activity 0, yellow at 50 and red at 100.

  /** `x + (y - x) * t`: the point a fraction `t` of the way from `x` to `y`. */
  function Lerp(x: real, y: real, t: real): real {
    x + (y - x) * t
  }

  /** An anchor of the reference ramp: an activity and the colour there. */
  datatype Anchor = Anchor(activity: real, red: int, green: int, blue: int)

  const RampAnchors: seq<Anchor> := [
    Anchor(0.0, 0, 255, 0),
    Anchor(50.0, 255, 255, 0),
    Anchor(100.0, 255, 0, 0)
  ]

  /** The colour of the straight segment from anchor `lo` to anchor `hi` at
      `activity`, each channel rounded. */
  function Segment(lo: Anchor, hi: Anchor, activity: real, alpha: real): Color
    requires lo.activity < hi.activity
  {
    var t := (activity - lo.activity) / (hi.activity - lo.activity);
    Color(
      Round(Lerp(lo.red as real, hi.red as real, t)),
      Round(Lerp(lo.green as real, hi.green as real, t)),
      Round(Lerp(lo.blue as real, hi.blue as real, t)),
      alpha)
  }

  /** The reference ramp on (0, 100]: the first segment up to 50, the
      second after it. */
  function RampColor(activity: real, alpha: real): Color
    requires 0.0 < activity <= 100.0
  {
    if activity <= RampAnchors[1].activity then Segment(RampAnchors[0], RampAnchors[1], activity, alpha)
    else Segment(RampAnchors[1], RampAnchors[2], activity, alpha)
  }

  /** The heat colour is the green-yellow-red reference ramp on the whole
      domain the caller uses. */
  lemma HeatIsRamp(activity: real, alpha: real)
    requires 0.0 < activity <= 100.0
    ensures HeatColor(activity, alpha) == RampColor(activity, alpha)
  {
    if activity <= 50.0 {
      assert Lerp(0.0, 255.0, (activity - 0.0) / (50.0 - 0.0)) == RampSlope * activity;
      assert Lerp(255.0, 255.0, (activity - 0.0) / (50.0 - 0.0)) == 255.0;
      assert Lerp(0.0, 0.0, (activity - 0.0) / (50.0 - 0.0)) == 0.0;
    } else {
      assert Lerp(255.0, 255.0, (activity - 50.0) / (100.0 - 50.0)) == 255.0;
      assert Lerp(255.0, 0.0, (activity - 50.0) / (100.0 - 50.0)) == RampSlope * (50.0 - (activity - 50.0));
      assert Lerp(0.0, 0.0, (activity - 50.0) / (100.0 - 50.0)) == 0.0;
    }
  }

  // ---------------------------------------------------------------------
  // colorMix
  // ---------------------------------------------------------------------

  /** One channel of `colorMix`: `Math.round((under + over * p) / (1 + p))`
      with `p` the overlay's alpha as a fraction of 255. */
  function BlendChannel(under: int, over: int, p: real): (r: int)
    requires p != -1.0
    ensures p == 0.0 ==> r == under
    ensures under == over ==> r == under
  {
    SameChannelBlend(under, over, p);
    RoundWhole(under);
    Round((under as real + over as real * p) / (1.0 + p))
  }

  /** Blending a value with itself, or with weight 0, gives it back. */
  lemma SameChannelBlend(under: int, over: int, p: real)
    requires p != -1.0
    ensures under == over || p == 0.0 ==> (under as real + over as real * p) / (1.0 + p) == under as real
  {
    var u := under as real;
    var q := 1.0 + p;
    var w := (u + over as real * p) / q;
    assert w * q == u + over as real * p;
    if under == over {
      assert (w - u) * q == 0.0;
    }
  }

  /** `colorMix(under, over)`: each channel is the weighted average of the
      two with weights 1 and `over.alpha / 255`, rounded; alpha is the
      larger of the two. An overlay with alpha 0 changes no channel, and
      with a non-negative alpha every channel lands between the two inputs'
      values. The one alpha excluded, -255, is where the source divides by
      zero. */
  function Mix(under: Color, over: Color): (r: Color)
    requires over.alpha != -255.0
    ensures r.alpha == Max(under.alpha, over.alpha)
    ensures over.alpha == 0.0 ==> r.red == under.red && r.green == under.green && r.blue == under.blue
    ensures over.alpha >= 0.0 ==>
      && MinInt(under.red, over.red) <= r.red <= MaxInt(under.red, over.red)
      && MinInt(under.green, over.green) <= r.green <= MaxInt(under.green, over.green)
      && MinInt(under.blue, over.blue) <= r.blue <= MaxInt(under.blue, over.blue)
  {
    var p := over.alpha / 255.0;
    BlendBetween(under.red, over.red, p);
    BlendBetween(under.green, over.green, p);
    BlendBetween(under.blue, over.blue, p);
    Color(
      BlendChannel(under.red, over.red, p),
      BlendChannel(under.green, over.green, p),
      BlendChannel(under.blue, over.blue, p),
      Max(under.alpha, over.alpha))
  }

  /** A blend with non-negative weight lies between its two channel values. */
  lemma BlendBetween(under: int, over: int, p: real)
    ensures p >= 0.0 ==> MinInt(under, over) <= BlendChannel(under, over, p) <= MaxInt(under, over)
  {
    if p >= 0.0 {
      var w := (under as real + over as real * p) / (1.0 + p);
      assert BlendChannel(under, over, p) == Round(w);
      WeightedMeanBetween(under as real, over as real, p);
      RoundBetween(w, MinInt(under, over), MaxInt(under, over));
    }
  }

  /** `(u + o * p) / (1 + p)` with `p >= 0` lies between `u` and `o`. */
  lemma WeightedMeanBetween(u: real, o: real, p: real)
    requires p >= 0.0
    ensures var w := (u + o * p) / (1.0 + p);
      (u <= o ==> u <= w <= o) && (o <= u ==> o <= w <= u)
  {
    var w := (u + o * p) / (1.0 + p);
    assert w * (1.0 + p) == u + o * p;
    assert (w - u) * (1.0 + p) == (o - u) * p;
    assert (o - w) * (1.0 + p) == o - u;
    if u <= o {
      SignOfProduct(w - u, 1.0 + p);
      SignOfProduct(o - w, 1.0 + p);
    } else {
      assert (u - w) * (1.0 + p) == (u - o) * p;
      assert (w - o) * (1.0 + p) == u - o;
      SignOfProduct(u - w, 1.0 + p);
      SignOfProduct(w - o, 1.0 + p);
    }
  }

  lemma SignOfProduct(x: real, y: real)
    requires y > 0.0 && x * y >= 0.0
    ensures x >= 0.0
  {
  }

  /** The blend is straight-line interpolation from the pixel's channel to
      the overlay's, a fraction `alpha / (255 + alpha)` of the way. */
  lemma BlendIsLerp(under: int, over: int, alpha: real)
    requires alpha >= 0.0
    ensures BlendChannel(under, over, alpha / 255.0) == Round(Lerp(under as real, over as real, alpha / (255.0 + alpha)))
  {
    var u := under as real;
    var o := over as real;
    var p := alpha / 255.0;
    var t := alpha / (255.0 + alpha);
    assert (u + o * p) * 255.0 == 255.0 * u + o * alpha;
    assert (1.0 + p) * 255.0 == 255.0 + alpha;
    assert (u + o * p) / (1.0 + p) == (255.0 * u + o * alpha) / (255.0 + alpha);
    assert Lerp(u, o, t) * (255.0 + alpha) == 255.0 * u + o * alpha;
  }

  /** Mixing is interpolation channel by channel: the overlay pulls each
      channel a fraction `alpha / (255 + alpha)` of the way towards its own. */
  lemma MixIsInterpolation(under: Color, over: Color)
    requires over.alpha >= 0.0
    ensures var t := over.alpha / (255.0 + over.alpha);
      && Mix(under, over).red == Round(Lerp(under.red as real, over.red as real, t))
      && Mix(under, over).green == Round(Lerp(under.green as real, over.green as real, t))
      && Mix(under, over).blue == Round(Lerp(under.blue as real, over.blue as real, t))
  {
    BlendIsLerp(under.red, over.red, over.alpha);
    BlendIsLerp(under.green, over.green, over.alpha);
    BlendIsLerp(under.blue, over.blue, over.alpha);
  }

  /** Mixing byte colours with a non-negative overlay alpha gives a byte
      colour. */
  lemma MixInByteRange(under: Color, over: Color)
    requires InByteRange(under) && InByteRange(over) && over.alpha >= 0.0
    ensures InByteRange(Mix(under, over))
  {
  }

  /** A fully opaque overlay (alpha 255) gives the rounded mean of the two
      channels, not the overlay colour. */
  lemma MixOpaqueIsMean(under: Color, over: Color)
    requires over.alpha == 255.0
    ensures Mix(under, over).red == Round((under.red + over.red) as real / 2.0)
    ensures Mix(under, over).green == Round((under.green + over.green) as real / 2.0)
    ensures Mix(under, over).blue == Round((under.blue + over.blue) as real / 2.0)
  {
  }

  // ---------------------------------------------------------------------
  // The night overlay
  // ---------------------------------------------------------------------

  /** The semi-transparent black mixed onto pixels in darkness. */
  const NightOverlay: Color := Color(0, 0, 0, 127.5)

  /** Night shading scales each channel to two thirds (rounded) and makes
      the pixel at least half opaque. */
  lemma NightShadeScales(c: Color)
    ensures Mix(c, NightOverlay).red == Round(2.0 * c.red as real / 3.0)
    ensures Mix(c, NightOverlay).green == Round(2.0 * c.green as real / 3.0)
    ensures Mix(c, NightOverlay).blue == Round(2.0 * c.blue as real / 3.0)
    ensures Mix(c, NightOverlay).alpha >= 127.5
  {
  }

  /** Night shading never brightens a byte colour. */
  lemma NightShadeDarkens(c: Color)
    requires InByteRange(c)
    ensures InByteRange(Mix(c, NightOverlay))
    ensures Mix(c, NightOverlay).red <= c.red
    ensures Mix(c, NightOverlay).green <= c.green
    ensures Mix(c, NightOverlay).blue <= c.blue
  {
  }
}
