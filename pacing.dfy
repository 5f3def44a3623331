/**
 * The rate limiter's read-only arithmetic: its configuration, quiet periods,
 * the hourly activity pattern, the activity multiplier, the delay ranges and
 * the error cooldown. Multipliers and delays are exact reals; every random
 * draw is a parameter.
 */
module Pacing {
  import opened Wrappers

  /** A (minimum, maximum) pair of seconds, as in the `delays` settings. */
  datatype DelayBounds = DelayBounds(low: real, high: real)

  /** The settings the limiter reads from its configuration dictionary. */
  datatype Config = Config(
    maxActionsPerHour: int,
    maxActionsPerDay: int,
    maxLikesPerHour: int,
    maxRepliesPerHour: int,
    maxRetweetsPerHour: int,
    betweenActions: DelayBounds,
    betweenSearches: DelayBounds,
    afterError: DelayBounds,
    weekendMode: bool,
    weekendReduction: real)

  /** The values used for settings that are absent. */
  const DefaultConfig: Config := Config(12, 100, 8, 3, 2,
    DelayBounds(60.0, 600.0), DelayBounds(300.0, 900.0), DelayBounds(900.0, 1800.0), true, 0.5)

  /** The hourly cap for an action type; only likes, replies and retweets have one. */
  function TypeCap(cfg: Config, kind: string): Option<int> {
    if kind == "like" then Some(cfg.maxLikesPerHour)
    else if kind == "reply" then Some(cfg.maxRepliesPerHour)
    else if kind == "retweet" then Some(cfg.maxRetweetsPerHour)
    else None
  }

  // ---------------------------------------------------------------------------
  // Quiet periods
  // ---------------------------------------------------------------------------

  /** A (start, end) pair of hours; a start after the end spans midnight. */
  datatype QuietPeriod = QuietPeriod(start: int, end: int)

  /** Late night, 23 to 6, and lunch, 12 to 13. */
  const DefaultQuietPeriods: seq<QuietPeriod> := [QuietPeriod(23, 6), QuietPeriod(12, 13)]

  /** The hour lies in the period; both ends are included. */
  predicate InPeriod(p: QuietPeriod, hour: int) {
    if p.start > p.end then hour >= p.start || hour <= p.end else p.start <= hour <= p.end
  }

  /** `_is_in_quiet_period`: the periods are tried in order and the first that holds answers. */
  function AnyQuiet(periods: seq<QuietPeriod>, hour: int): bool {
    if periods == [] then false
    else if InPeriod(periods[0], hour) then true
    else AnyQuiet(periods[1..], hour)
  }

  lemma {:induction false} AnyQuietIff(periods: seq<QuietPeriod>, hour: int)
    ensures AnyQuiet(periods, hour) <==> exists i :: 0 <= i < |periods| && InPeriod(periods[i], hour)
  {
    if periods != [] {
      AnyQuietIff(periods[1..], hour);
      if !InPeriod(periods[0], hour) && exists i :: 0 <= i < |periods| && InPeriod(periods[i], hour) {
        var i :| 0 <= i < |periods| && InPeriod(periods[i], hour);
        assert periods[1..][i - 1] == periods[i];
      }
    }
  }

  /** With the default periods the quiet hours are exactly 23, 0 to 6, 12 and 13. */
  lemma DefaultQuietHours(hour: int)
    requires 0 <= hour < 24
    ensures AnyQuiet(DefaultQuietPeriods, hour) <==> hour == 23 || hour <= 6 || hour == 12 || hour == 13
  {
    AnyQuietIff(DefaultQuietPeriods, hour);
    if hour == 23 || hour <= 6 {
      assert InPeriod(DefaultQuietPeriods[0], hour);
    } else if hour == 12 || hour == 13 {
      assert InPeriod(DefaultQuietPeriods[1], hour);
    } else {
      forall i | 0 <= i < |DefaultQuietPeriods| ensures !InPeriod(DefaultQuietPeriods[i], hour) {
      }
    }
  }

  /** A quiet-hour skip threshold: each matching period skips the action with probability 0.7. */
  const SkipChance: real := 0.7

  /**
   * The quiet-period step of `can_perform_action` skips the action: some
   * period holds the hour and the draw made for it falls under 0.7. A draw is
   * made only for a period that holds the hour; `draws[i]` is the one for
   * period `i`.
   */
  predicate QuietSkipped(periods: seq<QuietPeriod>, draws: seq<real>, hour: int) {
    exists i :: 0 <= i < |periods| && i < |draws| && SkipsAt(periods, draws, hour, i)
  }

  predicate SkipsAt(periods: seq<QuietPeriod>, draws: seq<real>, hour: int, i: int)
    requires 0 <= i < |periods| && i < |draws|
  {
    InPeriod(periods[i], hour) && draws[i] < SkipChance
  }

  /** Random suppression only ever happens in a quiet hour, and never when every draw is at least 0.7. */
  lemma QuietSkipNeedsQuietHour(periods: seq<QuietPeriod>, draws: seq<real>, hour: int)
    ensures QuietSkipped(periods, draws, hour) ==> AnyQuiet(periods, hour)
    ensures (forall i :: 0 <= i < |draws| ==> draws[i] >= SkipChance) ==> !QuietSkipped(periods, draws, hour)
  {
    AnyQuietIff(periods, hour);
  }

  // ---------------------------------------------------------------------------
  // The daily activity pattern
  // ---------------------------------------------------------------------------

  /**
   * `_generate_daily_pattern`'s table before jitter. The night branch tests
   * `23 <= hour <= 5`, which no hour satisfies, so hours 23 and 0 to 5 fall to
   * the regular 1.0.
   */
  function BaseMultiplier(hour: int): real {
    if 6 <= hour <= 9 then 1.5
    else if 12 <= hour <= 13 then 0.8
    else if 17 <= hour <= 22 then 1.8
    else if 23 <= hour <= 5 then 0.3
    else 1.0
  }

  /** No hour takes the night multiplier 0.3: the night and early-morning hours get 1.0. */
  lemma NightBranchIsDead(hour: int)
    ensures BaseMultiplier(hour) != 0.3
    ensures 0 <= hour <= 5 || hour == 23 ==> BaseMultiplier(hour) == 1.0
  {
  }

  /** The table scaled by a jitter factor `0.8 + 0.4 * draw`. */
  function HourWeight(hour: int, draw: real): real {
    BaseMultiplier(hour) * (0.8 + draw * 0.4)
  }

  /** With a draw in [0, 1), every hour's multiplier lies in [0.64, 2.16). */
  lemma HourWeightBounds(hour: int, draw: real)
    requires 0.0 <= draw < 1.0
    ensures 0.64 <= HourWeight(hour, draw) < 2.16
  {
    JitterBounds(BaseMultiplier(hour), 0.8 + draw * 0.4);
  }

  lemma JitterBounds(b: real, f: real)
    requires b == 1.5 || b == 0.8 || b == 1.8 || b == 1.0
    requires 0.8 <= f < 1.2
    ensures 0.64 <= b * f < 2.16
  {
  }

  /** `_generate_daily_pattern`: one jittered multiplier per hour, hour 0 first. */
  method GenerateDailyPattern(jitter: seq<real>) returns (pattern: seq<real>)
    requires |jitter| == 24
    ensures |pattern| == 24
    ensures forall hour :: 0 <= hour < 24 ==> pattern[hour] == HourWeight(hour, jitter[hour])
  {
    pattern := [];
    for hour := 0 to 24
      invariant |pattern| == hour
      invariant forall h :: 0 <= h < hour ==> pattern[h] == HourWeight(h, jitter[h])
    {
      var multiplier := BaseMultiplier(hour);
      multiplier := multiplier * (0.8 + jitter[hour] * 0.4);
      pattern := pattern + [multiplier];
    }
  }

  // ---------------------------------------------------------------------------
  // Activity and delays
  // ---------------------------------------------------------------------------

  /**
   * `_get_current_activity_multiplier` given the hour's pattern value: halved
   * (by the weekend reduction) on a weekend in weekend mode, then raised by
   * half in burst mode. With a reduction in [0, 1] the multiplier is never
   * negative and never exceeds 1.5 times the pattern value; on a weekday
   * without burst it is the pattern value. With the default pattern bounds it
   * can exceed 2.
   */
  function Activity(pattern: real, weekendCut: bool, reduction: real, burst: bool): (r: real)
    ensures 0.0 <= pattern && 0.0 <= reduction <= 1.0 ==> 0.0 <= r <= 1.5 * pattern
    ensures !weekendCut && !burst ==> r == pattern
  {
    WeightedBound(pattern, weekendCut, reduction);
    var weighted := if weekendCut then Scale(pattern, reduction) else pattern;
    if burst then Scale(weighted, 1.5) else weighted
  }

  /** The weekend weighting keeps the pattern value within [0, itself]. */
  lemma WeightedBound(pattern: real, weekendCut: bool, reduction: real)
    ensures 0.0 <= pattern && 0.0 <= reduction <= 1.0 ==>
      0.0 <= (if weekendCut then Scale(pattern, reduction) else pattern) <= pattern
  {
    if 0.0 <= pattern && 0.0 <= reduction <= 1.0 && weekendCut {
      ReductionBound(pattern, reduction);
    }
  }

  lemma ReductionBound(p: real, k: real)
    requires 0.0 <= p && 0.0 <= k <= 1.0
    ensures 0.0 <= Scale(p, k) <= p
  {
    assert p - Scale(p, k) == p * (1.0 - k);
  }

  /**
   * The speed-up or slow-down for the last hour's load: 1.5 above 80% of the
   * hourly cap, 0.7 below 20%, 1.0 otherwise; both comparisons are strict.
   * A positive cap reached speeds up; an empty last hour under a positive cap
   * slows down.
   */
  function LoadFactor(recent: int, perHour: int): (r: real)
    ensures r == 0.7 || r == 1.0 || r == 1.5
    ensures 0 < perHour <= recent ==> r == 1.5
    ensures recent <= 0 < perHour ==> r == 0.7
  {
    if recent as real > perHour as real * 0.8 then 1.5
    else if recent as real < perHour as real * 0.2 then 0.7
    else 1.0
  }

  /** More recent actions never lower the load factor. */
  lemma LoadFactorMonotone(r1: int, r2: int, perHour: int)
    requires r1 <= r2
    ensures LoadFactor(r1, perHour) <= LoadFactor(r2, perHour)
  {
  }

  /** With the default cap of 12 an hour: 10 or more is heavy, 2 or fewer is light; with a cap of 10, exactly 8 and exactly 2 are neither. */
  lemma LoadFactorBoundaries(recent: int)
    ensures recent >= 10 ==> LoadFactor(recent, 12) == 1.5
    ensures 3 <= recent <= 9 ==> LoadFactor(recent, 12) == 1.0
    ensures recent <= 2 ==> LoadFactor(recent, 12) == 0.7
    ensures LoadFactor(8, 10) == 1.0 && LoadFactor(9, 10) == 1.5
    ensures LoadFactor(2, 10) == 1.0 && LoadFactor(1, 10) == 0.7
  {
  }

  const MinActionDelay: real := 10.0
  const MaxActionDelay: real := 1800.0

  /**
   * `_calculate_dynamic_delay`: the configured range scaled by the load factor
   * and by `2 - activity`, then clamped below at 10 s and above at 30 min.
   */
  function DynamicDelay(between: DelayBounds, perHour: int, activity: real, recent: int): (r: DelayBounds)
    ensures r.low >= MinActionDelay && r.high <= MaxActionDelay
    ensures r.low == MinActionDelay || r.low == Scale(between.low, DelayFactor(perHour, activity, recent))
    ensures r.high == MaxActionDelay || r.high == Scale(between.high, DelayFactor(perHour, activity, recent))
  {
    var m := DelayFactor(perHour, activity, recent);
    DelayBounds(Max(MinActionDelay, Scale(between.low, m)), Min(MaxActionDelay, Scale(between.high, m)))
  }

  /** The load factor times the inverse of the activity. */
  function DelayFactor(perHour: int, activity: real, recent: int): real {
    LoadFactor(recent, perHour) * (2.0 - activity)
  }

  function Scale(x: real, k: real): real {
    x * k
  }

  function Max(a: real, b: real): real {
    if a >= b then a else b
  }

  function Min(a: real, b: real): real {
    if a <= b then a else b
  }

  /** Higher activity never lengthens the delays (for non-negative configured bounds). */
  lemma DelayShrinksWithActivity(between: DelayBounds, perHour: int, a1: real, a2: real, recent: int)
    requires a1 <= a2 && 0.0 <= between.low && 0.0 <= between.high
    ensures DynamicDelay(between, perHour, a2, recent).low <= DynamicDelay(between, perHour, a1, recent).low
    ensures DynamicDelay(between, perHour, a2, recent).high <= DynamicDelay(between, perHour, a1, recent).high
  {
    FactorAntitone(LoadFactor(recent, perHour), a1, a2);
    ScaleMonotone(between.low, DelayFactor(perHour, a2, recent), DelayFactor(perHour, a1, recent));
    ScaleMonotone(between.high, DelayFactor(perHour, a2, recent), DelayFactor(perHour, a1, recent));
  }

  /** More recent actions never shorten the delays, while activity is at most 2. */
  lemma DelayGrowsWithLoad(between: DelayBounds, perHour: int, activity: real, r1: int, r2: int)
    requires r1 <= r2 && activity <= 2.0 && 0.0 <= between.low && 0.0 <= between.high
    ensures DynamicDelay(between, perHour, activity, r1).low <= DynamicDelay(between, perHour, activity, r2).low
    ensures DynamicDelay(between, perHour, activity, r1).high <= DynamicDelay(between, perHour, activity, r2).high
  {
    LoadFactorMonotone(r1, r2, perHour);
    ScaleMonotone(2.0 - activity, LoadFactor(r1, perHour), LoadFactor(r2, perHour));
    assert DelayFactor(perHour, activity, r1) == Scale(2.0 - activity, LoadFactor(r1, perHour));
    assert DelayFactor(perHour, activity, r2) == Scale(2.0 - activity, LoadFactor(r2, perHour));
    ScaleMonotone(between.low, DelayFactor(perHour, activity, r1), DelayFactor(perHour, activity, r2));
    ScaleMonotone(between.high, DelayFactor(perHour, activity, r1), DelayFactor(perHour, activity, r2));
  }

  lemma FactorAntitone(f: real, a1: real, a2: real)
    requires 0.0 <= f && a1 <= a2
    ensures f * (2.0 - a2) <= f * (2.0 - a1)
  {
    assert f * (2.0 - a1) - f * (2.0 - a2) == f * (a2 - a1);
  }

  lemma ScaleMonotone(x: real, k1: real, k2: real)
    requires 0.0 <= x && k1 <= k2
    ensures Scale(x, k1) <= Scale(x, k2)
  {
    assert Scale(x, k2) - Scale(x, k1) == x * (k2 - k1);
  }

  /**
   * The range is not always ordered: at an activity above 2 (an evening hour
   * with a high draw) the factor turns negative and the maximum falls below
   * the 10 s minimum.
   */
  lemma InvertedDelayRange()
    ensures HourWeight(18, 0.9) > 2.0
    ensures var r := DynamicDelay(DefaultConfig.betweenActions, 12, HourWeight(18, 0.9), 0);
      r.high < 0.0 < r.low
  {
    assert HourWeight(18, 0.9) == 1.8 * 1.16;
  }

  /** `wait_after_error`'s factor: one and a half more per consecutive error. */
  function ErrorFactor(errors: nat): real {
    1.0 + errors as real * 0.5
  }

  /**
   * `wait_after_error`: the range its delay is drawn from. With no errors it
   * is the configured range, and it never shortens a non-negative end.
   */
  function ErrorDelay(afterError: DelayBounds, errors: nat): (r: DelayBounds)
    ensures errors == 0 ==> r == afterError
    ensures 0.0 <= afterError.low ==> afterError.low <= r.low
    ensures 0.0 <= afterError.high ==> afterError.high <= r.high
  {
    ScaleGrows(afterError.low, ErrorFactor(errors));
    ScaleGrows(afterError.high, ErrorFactor(errors));
    DelayBounds(Scale(afterError.low, ErrorFactor(errors)), Scale(afterError.high, ErrorFactor(errors)))
  }

  /** A factor of at least 1 never shrinks a non-negative value. */
  lemma ScaleGrows(x: real, k: real)
    requires 1.0 <= k
    ensures 0.0 <= x ==> x <= Scale(x, k)
  {
    if 0.0 <= x {
      ScaleMonotone(x, 1.0, k);
    }
  }

  /**
   * Each further error lengthens both ends (for non-negative bounds); an
   * ordered range stays ordered.
   */
  lemma ErrorDelayGrows(afterError: DelayBounds, e1: nat, e2: nat)
    requires e1 <= e2 && 0.0 <= afterError.low && 0.0 <= afterError.high
    ensures ErrorDelay(afterError, e1).low <= ErrorDelay(afterError, e2).low
    ensures ErrorDelay(afterError, e1).high <= ErrorDelay(afterError, e2).high
    ensures afterError.low <= afterError.high ==> ErrorDelay(afterError, e2).low <= ErrorDelay(afterError, e2).high
  {
    ScaleMonotone(afterError.low, ErrorFactor(e1), ErrorFactor(e2));
    ScaleMonotone(afterError.high, ErrorFactor(e1), ErrorFactor(e2));
    if afterError.low <= afterError.high {
      ScaleOrdered(afterError.low, afterError.high, ErrorFactor(e2));
    }
  }

  lemma ScaleOrdered(x: real, y: real, k: real)
    requires x <= y && 0.0 <= k
    ensures Scale(x, k) <= Scale(y, k)
  {
    assert Scale(y, k) - Scale(x, k) == (y - x) * k;
  }

  /** After three errors the default 15 to 30 minutes becomes 37.5 to 75 minutes. */
  lemma ErrorDelayExample()
    ensures ErrorDelay(DefaultConfig.afterError, 3) == DelayBounds(2250.0, 4500.0)
  {
  }

  // ---------------------------------------------------------------------------
  // Error cooldown
  // ---------------------------------------------------------------------------

  /** Five errors in a row trigger the cooldown. */
  const ErrorThreshold: nat := 5

  /** The cooldown lasts 30 minutes from the last error. */
  const CooldownSeconds: int := 30 * 60

  /** The action is refused for the cooldown: enough errors, and the last one recent. */
  predicate InCooldown(errors: nat, lastError: Option<int>, now: int) {
    errors >= ErrorThreshold && lastError.Some? && now - lastError.value < CooldownSeconds
  }

  /** The error count after the cooldown check: a streak whose cooldown is over (or has no time) restarts. */
  function ErrorsAfterCheck(errors: nat, lastError: Option<int>, now: int): (e: nat)
    ensures e == errors || e == 0
    ensures e < ErrorThreshold || InCooldown(errors, lastError, now)
    ensures InCooldown(errors, lastError, now) ==> e == errors
    ensures errors < ErrorThreshold ==> e == errors
  {
    if errors >= ErrorThreshold && !InCooldown(errors, lastError, now) then 0 else errors
  }
}
