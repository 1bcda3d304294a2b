/** Durations of the example application, and the expiry test it makes with
    them. Times are whole milliseconds since the epoch; the clock reading is
    passed in as `now`. */
module Durations {

  datatype Unit = Ms | S | M | H | D | W

  /** A value in a unit; the fields are set once, by the constructor. */
  datatype Duration = Duration(value: int, unit: Unit)

  /** `Duration.milliseconds`: one test per unit, the last case taking any
      remaining unit as weeks. */
  function Milliseconds(d: Duration): int
  {
    if d.unit == Ms then d.value
    else if d.unit == S then d.value * 1000
    else if d.unit == M then d.value * 1000 * 60
    else if d.unit == H then d.value * 1000 * 60 * 60
    else if d.unit == D then d.value * 1000 * 60 * 60 * 24
    else d.value * 1000 * 60 * 60 * 24 * 7
  }

  /** How many milliseconds one unit is: a table independent of the chain
      above. */
  function Factor(u: Unit): (f: nat)
    ensures f >= 1
    ensures u != Ms ==> f % 1000 == 0
  {
    match u
    case Ms => 1
    case S => 1000
    case M => 60000
    case H => 3600000
    case D => 86400000
    case W => 604800000
  }

  /** `milliseconds()` is the value scaled by its unit's factor. */
  lemma MillisecondsScaled(d: Duration)
    ensures Milliseconds(d) == d.value * Factor(d.unit)
    ensures d.unit == Ms ==> Milliseconds(d) == d.value
  {
  }

  /** A week is seven days, whatever the value. */
  lemma WeekIsSevenDays(v: int)
    ensures Milliseconds(Duration(v, W)) == 7 * Milliseconds(Duration(v, D))
  {
  }

  /** `milliseconds()` is strictly increasing in the value, for every unit. */
  lemma MillisecondsMonotone(v: int, v': int, u: Unit)
    requires v < v'
    ensures Milliseconds(Duration(v, u)) < Milliseconds(Duration(v', u))
  {
    MillisecondsScaled(Duration(v, u));
    MillisecondsScaled(Duration(v', u));
    assert (v' - v) * Factor(u) >= 1 by {
      assert v' - v >= 1 && Factor(u) >= 1;
    }
  }

  /** The first argument of `isWithinDuration`: a number of milliseconds or
      a `Date`. */
  datatype Moment = Millis(ms: int) | Date(time: int)

  /** `isWithinDuration(t, d)` read at clock `now`: the moment plus the
      duration is still in the future. */
  predicate IsWithinDuration(t: Moment, d: Duration, now: int)
  {
    match t
    case Millis(ms) => ms + Milliseconds(d) > now
    case Date(time) => time + Milliseconds(d) > now
  }

  /** The number and the `Date` forms agree, and both mean "not yet
      expired at `now`". */
  lemma WithinDurationForms(n: int, d: Duration, now: int)
    ensures IsWithinDuration(Millis(n), d, now) == IsWithinDuration(Date(n), d, now)
    ensures IsWithinDuration(Millis(n), d, now) <==> n + d.value * Factor(d.unit) > now
  {
    MillisecondsScaled(d);
  }

  /** Still within the duration at an earlier reading of the clock. */
  lemma WithinEarlier(t: Moment, d: Duration, now: int, earlier: int)
    requires earlier <= now && IsWithinDuration(t, d, now)
    ensures IsWithinDuration(t, d, earlier)
  {
  }
}
