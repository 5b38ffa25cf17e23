/**
 The night test of the renderer. The solar-position library is outside
 the model: for each place it is asked for two instants of the day,
 `nightEnd` (when the morning sky stops being fully dark) and `night`
 (when the evening sky becomes fully dark), and the renderer shades the
 place when the data's instant is before the first or after the second.
 The comparison is on `Date.getTime()` values, which are NaN for an invalid
 date; every comparison with NaN is false.
 */
module SolarMask {

  /** A `Date.getTime()` value: whole milliseconds, or NaN. */
  datatype Instant = Valid(ms: int) | Invalid

  /** The two boundaries of the dark part of a day at one place. */
  datatype NightBoundaries = NightBoundaries(nightEnd: Instant, night: Instant)

  /** The solar-position collaborator: the boundaries for an instant and a
      latitude and longitude in degrees. */
  type SolarTimes = (Instant, real, real) -> NightBoundaries

  /** `a < b` on `getTime()` values: false whenever either side is NaN. */
  predicate Before(a: Instant, b: Instant) {
    a.Valid? && b.Valid? && a.ms < b.ms
  }

  /** `t < nightEnd || t > night`: the place is in darkness at `t`. Only a
      valid instant can be shaded, and only through a valid boundary it
      lies before (`nightEnd`) or after (`night`). */
  function IsNightShaded(t: Instant, b: NightBoundaries): (shaded: bool)
    ensures shaded ==> t.Valid?
    ensures shaded ==> (b.nightEnd.Valid? && t.ms < b.nightEnd.ms) || (b.night.Valid? && t.ms > b.night.ms)
    ensures t.Valid? && b.nightEnd.Valid? && t.ms < b.nightEnd.ms ==> shaded
    ensures t.Valid? && b.night.Valid? && t.ms > b.night.ms ==> shaded
  {
    Before(t, b.nightEnd) || Before(b.night, t)
  }

  /** With valid boundaries and a valid instant, a place is shaded exactly
      when the instant lies outside the closed daylight window from
      `nightEnd` to `night`. */
  lemma ShadedOutsideWindow(t: Instant, b: NightBoundaries)
    requires t.Valid? && b.nightEnd.Valid? && b.night.Valid?
    ensures IsNightShaded(t, b) <==> !(b.nightEnd.ms <= t.ms <= b.night.ms)
  {
  }

  /** An invalid boundary never causes shading on its side, and an invalid
      instant is never shaded: a day with no dark period reported (both
      boundaries NaN) is drawn unshaded. */
  lemma InvalidNeverShades(t: Instant, b: NightBoundaries)
    ensures !t.Valid? ==> !IsNightShaded(t, b)
    ensures !b.nightEnd.Valid? && !b.night.Valid? ==> !IsNightShaded(t, b)
    ensures !b.nightEnd.Valid? && b.night.Valid? && t.Valid? ==> (IsNightShaded(t, b) <==> t.ms > b.night.ms)
    ensures b.nightEnd.Valid? && !b.night.Valid? && t.Valid? ==> (IsNightShaded(t, b) <==> t.ms < b.nightEnd.ms)
  {
  }
}
