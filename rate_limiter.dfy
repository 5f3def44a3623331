/**
 * rate_limiter.RateLimiter: decides whether an action may be taken now, records
 * what was done, and reports the limiter's state.
 *
 * The clock is the parameter `now` (see Clock), and each random draw is a
 * parameter too. Saving the history to its file is reported as a returned flag.
 */
module RateLimiting {
  import opened Wrappers
  import Clock
  import Durations
  import opened History
  import opened Pacing

  /** The limit checks of `can_perform_action`, in order: the last day, the last hour, then the type's hourly cap. */
  predicate UnderLimits(cfg: Config, h: seq<Action>, now: int, kind: string) {
    CountWithin(h, Cutoff(now, 24), None) < cfg.maxActionsPerDay
    && CountWithin(h, Cutoff(now, 1), None) < cfg.maxActionsPerHour
    && (TypeCap(cfg, kind).Some? ==> CountWithin(h, Cutoff(now, 1), Some(kind)) < TypeCap(cfg, kind).value)
  }

  /**
   * `can_perform_action`'s answer: no error cooldown, every count under its
   * limit, and no quiet period that skips the action.
   */
  predicate Permits(cfg: Config, h: seq<Action>, errors: nat, lastError: Option<int>,
                    periods: seq<QuietPeriod>, draws: seq<real>, now: int, kind: string) {
    !InCooldown(errors, lastError, now)
    && UnderLimits(cfg, h, now, kind)
    && !QuietSkipped(periods, draws, Clock.HourOf(now))
  }

  /**
   * `get_next_action_time` once the permission check has answered: nothing when
   * permitted; else the next 06:00 for the daily limit, the next whole hour for
   * the hourly limit or the like cap, and half an hour otherwise.
   */
  function NextActionTime(cfg: Config, h: seq<Action>, now: int, kind: string, permitted: bool): Option<int> {
    if permitted then None
    else if CountWithin(h, Cutoff(now, 24), None) >= cfg.maxActionsPerDay then Some(Clock.NextSixAm(now))
    else if CountWithin(h, Cutoff(now, 1), None) >= cfg.maxActionsPerHour then Some(Clock.NextHour(now))
    else if kind == "like" && CountWithin(h, Cutoff(now, 1), Some("like")) >= cfg.maxLikesPerHour then Some(Clock.NextHour(now))
    else Some(now + 30 * Clock.SecondsPerMinute)
  }

  /** One `used`/`limit`/`remaining` entry of the status report. */
  datatype Usage = Usage(used: nat, limit: int, remaining: int)

  function UsageOf(used: nat, limit: int): Usage {
    Usage(used, limit, if limit - used > 0 then limit - used else 0)
  }

  datatype RateStatus = RateStatus(
    hourlyActions: Usage,
    dailyActions: Usage,
    hourlyLikes: Usage,
    hourlyReplies: Usage,
    hourlyRetweets: Usage,
    consecutiveErrors: nat,
    lastErrorTime: Option<int>,
    activityMultiplier: real,
    inQuietPeriod: bool,
    weekendMode: bool)

  /** A limit of zero makes the report's percentage divide by zero. */
  predicate HasZeroLimit(cfg: Config) {
    cfg.maxActionsPerHour == 0 || cfg.maxActionsPerDay == 0 || cfg.maxLikesPerHour == 0
    || cfg.maxRepliesPerHour == 0 || cfg.maxRetweetsPerHour == 0
  }

  /** `get_rate_limit_status`: the report, or None for the empty dictionary returned on a division by zero. */
  function StatusOf(cfg: Config, h: seq<Action>, errors: nat, lastError: Option<int>,
                    activity: real, quiet: bool, weekend: bool, now: int): Option<RateStatus> {
    if HasZeroLimit(cfg) then None
    else Some(RateStatus(
      UsageOf(CountWithin(h, Cutoff(now, 1), None), cfg.maxActionsPerHour),
      UsageOf(CountWithin(h, Cutoff(now, 24), None), cfg.maxActionsPerDay),
      UsageOf(CountWithin(h, Cutoff(now, 1), Some("like")), cfg.maxLikesPerHour),
      UsageOf(CountWithin(h, Cutoff(now, 1), Some("reply")), cfg.maxRepliesPerHour),
      UsageOf(CountWithin(h, Cutoff(now, 1), Some("retweet")), cfg.maxRetweetsPerHour),
      errors, lastError, activity, quiet, weekend))
  }

  datatype Statistics = Statistics(
    sessionDuration: string,
    totalActions: nat,
    actionsLastHour: nat,
    actionsLastDay: nat,
    actionsByType: map<string, Tally>,
    rateLimitStatus: Option<RateStatus>)

  class RateLimiter {
    const config: Config
    const quietPeriods: seq<QuietPeriod>
    const dailyPattern: seq<real>
    const sessionStart: int
    var history: seq<Action>
    var consecutiveErrors: nat
    var lastErrorTime: Option<int>
    var burstMode: bool

    ghost predicate Valid()
      reads this
    {
      |history| <= MaxHistory && |dailyPattern| == 24
    }

    /** `__init__` with the saved `actions` list and the 24 pattern draws. */
    constructor (config: Config, saved: seq<RawEntry>, jitter: seq<real>, now: int)
      requires |jitter| == 24
      ensures Valid()
      ensures this.config == config && quietPeriods == DefaultQuietPeriods && sessionStart == now
      ensures forall hour :: 0 <= hour < 24 ==> dailyPattern[hour] == HourWeight(hour, jitter[hour])
      ensures history == LoadedHistory(saved, now)
      ensures consecutiveErrors == 0 && lastErrorTime == None && !burstMode
    {
      this.config := config;
      sessionStart := now;
      quietPeriods := DefaultQuietPeriods;
      var pattern := GenerateDailyPattern(jitter);
      dailyPattern := pattern;
      var loaded := LoadActions(saved, now);
      history := loaded;
      consecutiveErrors := 0;
      lastErrorTime := None;
      burstMode := false;
    }

    /** `_get_current_activity_multiplier`. */
    function ActivityMultiplier(now: int): (r: real)
      reads this
      requires Valid()
      ensures var p := dailyPattern[Clock.HourOf(now)];
        0.0 <= p && 0.0 <= config.weekendReduction <= 1.0 ==> 0.0 <= r <= 1.5 * p
      ensures !burstMode && !(Clock.IsWeekend(now) && config.weekendMode) ==> r == dailyPattern[Clock.HourOf(now)]
    {
      Activity(dailyPattern[Clock.HourOf(now)], Clock.IsWeekend(now) && config.weekendMode,
               config.weekendReduction, burstMode)
    }

    /**
     * `_is_in_quiet_period`: some period holds the current hour; with the
     * default periods, the hours 23, 0 to 6, 12 and 13.
     */
    function IsInQuietPeriod(now: int): (r: bool)
      ensures r <==> exists i :: 0 <= i < |quietPeriods| && InPeriod(quietPeriods[i], Clock.HourOf(now))
      ensures quietPeriods == DefaultQuietPeriods ==>
        (r <==> var hour := Clock.HourOf(now); hour == 23 || hour <= 6 || hour == 12 || hour == 13)
    {
      AnyQuietIff(quietPeriods, Clock.HourOf(now));
      DefaultQuietHours(Clock.HourOf(now));
      AnyQuiet(quietPeriods, Clock.HourOf(now))
    }

    /**
     * The range `wait_after_error` draws its delay from: the configured range
     * while there is no error streak, and never shorter at a non-negative end.
     */
    function WaitAfterErrorRange(): (r: DelayBounds)
      reads this
      ensures consecutiveErrors == 0 ==> r == config.afterError
      ensures 0.0 <= config.afterError.low ==> config.afterError.low <= r.low
      ensures 0.0 <= config.afterError.high ==> config.afterError.high <= r.high
    {
      ErrorDelay(config.afterError, consecutiveErrors)
    }

    /** `_get_actions_in_timeframe`. */
    method CountInTimeframe(hours: int, kind: Option<string>, now: int) returns (count: nat)
      ensures count == CountWithin(history, Cutoff(now, hours), kind)
    {
      var cutoff := now - hours * Clock.SecondsPerHour;
      count := 0;
      for i := 0 to |history|
        invariant count == CountWithin(history[..i], cutoff, kind)
      {
        assert history[..i + 1][..i] == history[..i];
        if history[i].timestamp > cutoff {
          if kind.None? || history[i].kind == kind.value {
            count := count + 1;
          }
        }
      }
      assert history[..|history|] == history;
    }

    /** `_calculate_dynamic_delay`: the range the delay before the next action is drawn from. */
    method CalculateDynamicDelay(kind: string, now: int) returns (r: DelayBounds)
      requires Valid()
      ensures r == DynamicDelay(config.betweenActions, config.maxActionsPerHour, ActivityMultiplier(now),
                                CountWithin(history, Cutoff(now, 1), None))
      ensures MinActionDelay <= r.low && r.high <= MaxActionDelay
    {
      var activity := ActivityMultiplier(now);
      var recent := CountInTimeframe(1, None, now);
      r := DynamicDelay(config.betweenActions, config.maxActionsPerHour, activity, recent);
    }

    /**
     * `can_perform_action`. The draws are the quiet-period coins, one per
     * period, of which only those for periods holding the hour are looked at.
     */
    method CanPerformAction(kind: string, now: int, draws: seq<real>) returns (ok: bool)
      requires Valid() && |draws| == |quietPeriods|
      modifies this
      ensures Valid()
      ensures ok == Permits(config, history, old(consecutiveErrors), lastErrorTime, quietPeriods, draws, now, kind)
      ensures consecutiveErrors == ErrorsAfterCheck(old(consecutiveErrors), lastErrorTime, now)
      ensures history == old(history) && lastErrorTime == old(lastErrorTime) && burstMode == old(burstMode)
    {
      if consecutiveErrors >= ErrorThreshold {
        if lastErrorTime.Some? {
          if now - lastErrorTime.value < CooldownSeconds {
            return false;
          }
        }
        consecutiveErrors := 0;
      }
      var daily := CountInTimeframe(24, None, now);
      if daily >= config.maxActionsPerDay {
        return false;
      }
      var hourly := CountInTimeframe(1, None, now);
      if hourly >= config.maxActionsPerHour {
        return false;
      }
      if kind == "like" {
        var likes := CountInTimeframe(1, Some("like"), now);
        if likes >= config.maxLikesPerHour {
          return false;
        }
      } else if kind == "reply" {
        var replies := CountInTimeframe(1, Some("reply"), now);
        if replies >= config.maxRepliesPerHour {
          return false;
        }
      } else if kind == "retweet" {
        var retweets := CountInTimeframe(1, Some("retweet"), now);
        if retweets >= config.maxRetweetsPerHour {
          return false;
        }
      }
      var hour := Clock.HourOf(now);
      for i := 0 to |quietPeriods|
        invariant forall j :: 0 <= j < i ==> !SkipsAt(quietPeriods, draws, hour, j)
      {
        var p := quietPeriods[i];
        if p.start > p.end {
          if hour >= p.start || hour <= p.end {
            if draws[i] < SkipChance {
              assert SkipsAt(quietPeriods, draws, hour, i);
              return false;
            }
          }
        } else {
          if p.start <= hour <= p.end {
            if draws[i] < SkipChance {
              assert SkipsAt(quietPeriods, draws, hour, i);
              return false;
            }
          }
        }
      }
      return true;
    }

    /** `record_action`; `saved` says whether the history is written to its file. */
    method RecordAction(kind: string, success: bool, metadata: Option<Metadata>, now: int) returns (saved: bool)
      requires Valid()
      modifies this
      ensures Valid()
      ensures history == Appended(old(history), Action(kind, success, now, metadata.GetOr(map[])))
      ensures success ==> consecutiveErrors == 0 && lastErrorTime == None
      ensures !success ==> consecutiveErrors == old(consecutiveErrors) + 1 && lastErrorTime == Some(now)
      ensures burstMode == old(burstMode)
      ensures saved <==> |history| % 10 == 0
    {
      var action := Action(kind, success, now, metadata.GetOr(map[]));
      history := Appended(history, action);
      if !success {
        consecutiveErrors := consecutiveErrors + 1;
        lastErrorTime := Some(now);
      } else {
        consecutiveErrors := 0;
        lastErrorTime := None;
      }
      saved := |history| % 10 == 0;
    }

    /** `get_rate_limit_status`. */
    method GetRateLimitStatus(now: int) returns (r: Option<RateStatus>)
      requires Valid()
      ensures r == StatusOf(config, history, consecutiveErrors, lastErrorTime, ActivityMultiplier(now),
                            IsInQuietPeriod(now), Clock.IsWeekend(now) && config.weekendMode, now)
    {
      var hourly := CountInTimeframe(1, None, now);
      var daily := CountInTimeframe(24, None, now);
      var likes := CountInTimeframe(1, Some("like"), now);
      var replies := CountInTimeframe(1, Some("reply"), now);
      var retweets := CountInTimeframe(1, Some("retweet"), now);
      if HasZeroLimit(config) {
        return None;
      }
      r := Some(RateStatus(
        UsageOf(hourly, config.maxActionsPerHour),
        UsageOf(daily, config.maxActionsPerDay),
        UsageOf(likes, config.maxLikesPerHour),
        UsageOf(replies, config.maxRepliesPerHour),
        UsageOf(retweets, config.maxRetweetsPerHour),
        consecutiveErrors, lastErrorTime, ActivityMultiplier(now),
        IsInQuietPeriod(now), Clock.IsWeekend(now) && config.weekendMode));
    }

    /** `get_next_action_time`: runs the permission check, then finds what blocks. */
    method GetNextActionTime(kind: string, now: int, draws: seq<real>) returns (r: Option<int>)
      requires Valid() && |draws| == |quietPeriods|
      modifies this
      ensures Valid()
      ensures r == NextActionTime(config, history, now, kind,
        Permits(config, history, old(consecutiveErrors), lastErrorTime, quietPeriods, draws, now, kind))
      ensures consecutiveErrors == ErrorsAfterCheck(old(consecutiveErrors), lastErrorTime, now)
      ensures history == old(history) && lastErrorTime == old(lastErrorTime) && burstMode == old(burstMode)
    {
      var ok := CanPerformAction(kind, now, draws);
      if ok {
        return None;
      }
      var hourly := CountInTimeframe(1, None, now);
      var daily := CountInTimeframe(24, None, now);
      if daily >= config.maxActionsPerDay {
        return Some(Clock.NextSixAm(now));
      }
      if hourly >= config.maxActionsPerHour {
        return Some(Clock.NextHour(now));
      }
      if kind == "like" {
        var likes := CountInTimeframe(1, Some("like"), now);
        if likes >= config.maxLikesPerHour {
          return Some(Clock.NextHour(now));
        }
      }
      return Some(now + 30 * Clock.SecondsPerMinute);
    }

    /** `reset_error_count`. */
    method ResetErrorCount()
      modifies this
      ensures consecutiveErrors == 0 && lastErrorTime == None
      ensures history == old(history) && burstMode == old(burstMode)
    {
      consecutiveErrors := 0;
      lastErrorTime := None;
    }

    /** `enable_burst_mode` sets the flag; its timer thread later clears it. */
    method SetBurstMode(on: bool)
      modifies this
      ensures burstMode == on
      ensures history == old(history) && consecutiveErrors == old(consecutiveErrors)
      ensures lastErrorTime == old(lastErrorTime)
    {
      burstMode := on;
    }

    /** `get_statistics` without the success rate and the hourly average. */
    method GetStatistics(now: int) returns (s: Statistics)
      requires Valid()
      ensures s == Statistics(Durations.FormatDuration(now - sessionStart), |history|,
        CountWithin(history, Cutoff(now, 1), None), CountWithin(history, Cutoff(now, 24), None),
        Tallies(history),
        StatusOf(config, history, consecutiveErrors, lastErrorTime, ActivityMultiplier(now),
                 IsInQuietPeriod(now), Clock.IsWeekend(now) && config.weekendMode, now))
    {
      var lastHour := CountInTimeframe(1, None, now);
      var lastDay := CountInTimeframe(24, None, now);
      var status := GetRateLimitStatus(now);
      var byType := CountByType(history);
      s := Statistics(Durations.FormatDuration(now - sessionStart), |history|, lastHour, lastDay, byType, status);
    }
  }

  /** The `actions_by_type` loop of `get_statistics`: one pass over the history. */
  method CountByType(history: seq<Action>) returns (byType: map<string, Tally>)
    ensures byType == Tallies(history)
  {
    byType := map[];
    for i := 0 to |history|
      invariant byType == Tallies(history[..i])
    {
      var before := byType;
      var action := history[i];
      // A type seen for the first time starts from a zero tally.
      var t := if action.kind in byType then byType[action.kind] else Tally(0, 0, 0);
      if action.success {
        byType := byType[action.kind := Tally(t.total + 1, t.successful + 1, t.failed)];
      } else {
        byType := byType[action.kind := Tally(t.total + 1, t.successful, t.failed + 1)];
      }
      assert byType == Record(before, action);
      TalliesSnoc(history, i);
    }
    assert history[..|history|] == history;
  }

  // ---------------------------------------------------------------------------
  // Properties of the permission check
  // ---------------------------------------------------------------------------

  /**
   * The cooldown refuses; the daily and hourly limits refuse; the type caps
   * apply to likes, replies and retweets only.
   */
  lemma RefusalReasons(cfg: Config, h: seq<Action>, errors: nat, lastError: Option<int>,
                       periods: seq<QuietPeriod>, draws: seq<real>, now: int, kind: string)
    ensures InCooldown(errors, lastError, now) ==> !Permits(cfg, h, errors, lastError, periods, draws, now, kind)
    ensures CountWithin(h, Cutoff(now, 24), None) >= cfg.maxActionsPerDay ==> !Permits(cfg, h, errors, lastError, periods, draws, now, kind)
    ensures CountWithin(h, Cutoff(now, 1), None) >= cfg.maxActionsPerHour ==> !Permits(cfg, h, errors, lastError, periods, draws, now, kind)
    ensures kind != "like" && kind != "reply" && kind != "retweet" ==>
      (UnderLimits(cfg, h, now, kind) <==>
        CountWithin(h, Cutoff(now, 24), None) < cfg.maxActionsPerDay && CountWithin(h, Cutoff(now, 1), None) < cfg.maxActionsPerHour)
  {
  }

  /** With no cooldown, every count under its limit and the hour in no quiet period, the action is permitted whatever the draws. */
  lemma AllClearPermits(cfg: Config, h: seq<Action>, errors: nat, lastError: Option<int>,
                        periods: seq<QuietPeriod>, draws: seq<real>, now: int, kind: string)
    requires !InCooldown(errors, lastError, now) && UnderLimits(cfg, h, now, kind)
    requires !AnyQuiet(periods, Clock.HourOf(now))
    ensures Permits(cfg, h, errors, lastError, periods, draws, now, kind)
  {
    QuietSkipNeedsQuietHour(periods, draws, Clock.HourOf(now));
  }

  /** Once the history is full, every record triggers a save; before that, every tenth one does. */
  lemma SaveCadence(h: seq<Action>, a: Action)
    requires |h| <= MaxHistory
    ensures |h| == MaxHistory ==> |Appended(h, a)| % 10 == 0
    ensures |h| < MaxHistory ==> (|Appended(h, a)| % 10 == 0 <==> (|h| + 1) % 10 == 0)
  {
    AppendedKeepsNewest(h, a);
  }

  /** A record made now counts once more in every window of at least a second, unless the history was full. */
  lemma RecordCounts(h: seq<Action>, a: Action, now: int, hours: int, kind: Option<string>)
    requires |h| < MaxHistory && a.timestamp == now && 0 <= hours
    ensures CountWithin(Appended(h, a), Cutoff(now, hours), kind)
         == CountWithin(h, Cutoff(now, hours), kind) + (if MatchesKind(a, kind) && hours > 0 then 1 else 0)
  {
    CountWithinSnoc(h, a, Cutoff(now, hours), kind);
  }

  // ---------------------------------------------------------------------------
  // The caps hold over any run of permitted actions
  // ---------------------------------------------------------------------------

  /** The history satisfies the hourly, daily and per-type caps of the configuration. */
  ghost predicate WithinCaps(cfg: Config, h: seq<Action>) {
    Admitted(h, 24, None, cfg.maxActionsPerDay)
    && Admitted(h, 1, None, cfg.maxActionsPerHour)
    && forall kind :: TypeCap(cfg, kind).Some? ==> Admitted(h, 1, Some(kind), TypeCap(cfg, kind).value)
  }

  /**
   * Recording an action permitted at `checked`, at a time `now` no earlier,
   * keeps every cap admitted.
   */
  lemma PermittedRecordKeepsCaps(cfg: Config, h: seq<Action>, errors: nat, lastError: Option<int>,
                                 periods: seq<QuietPeriod>, draws: seq<real>, checked: int,
                                 kind: string, success: bool, metadata: Metadata, now: int)
    requires |h| <= MaxHistory && WithinCaps(cfg, h)
    requires Permits(cfg, h, errors, lastError, periods, draws, checked, kind)
    requires checked <= now
    ensures WithinCaps(cfg, Appended(h, Action(kind, success, now, metadata)))
  {
    var a := Action(kind, success, now, metadata);
    CountWithinMonotone(h, Cutoff(checked, 24), Cutoff(now, 24), None);
    AdmittedAppended(h, a, 24, None, cfg.maxActionsPerDay);
    CountWithinMonotone(h, Cutoff(checked, 1), Cutoff(now, 1), None);
    AdmittedAppended(h, a, 1, None, cfg.maxActionsPerHour);
    forall k | TypeCap(cfg, k).Some?
      ensures Admitted(Appended(h, a), 1, Some(k), TypeCap(cfg, k).value)
    {
      if k == kind {
        CountWithinMonotone(h, Cutoff(checked, 1), Cutoff(now, 1), Some(k));
      }
      AdmittedAppended(h, a, 1, Some(k), TypeCap(cfg, k).value);
    }
  }

  /**
   * In a history built from permitted actions, no window of the last hour or
   * the last day, taken at or after the newest action, holds more actions than
   * its limit, and no type holds more than its hourly cap.
   */
  lemma CapsHold(cfg: Config, h: seq<Action>, now: int, kind: string)
    requires WithinCaps(cfg, h)
    requires 0 <= cfg.maxActionsPerHour && 0 <= cfg.maxActionsPerDay
    requires forall i :: 0 <= i < |h| ==> h[i].timestamp <= now
    ensures CountWithin(h, Cutoff(now, 24), None) <= cfg.maxActionsPerDay
    ensures CountWithin(h, Cutoff(now, 1), None) <= cfg.maxActionsPerHour
    ensures TypeCap(cfg, kind).Some? && 0 <= TypeCap(cfg, kind).value ==>
      CountWithin(h, Cutoff(now, 1), Some(kind)) <= TypeCap(cfg, kind).value
  {
    AdmittedCapHolds(h, 24, None, cfg.maxActionsPerDay, now);
    AdmittedCapHolds(h, 1, None, cfg.maxActionsPerHour, now);
    if TypeCap(cfg, kind).Some? && 0 <= TypeCap(cfg, kind).value {
      AdmittedCapHolds(h, 1, Some(kind), TypeCap(cfg, kind).value, now);
    }
  }

  // ---------------------------------------------------------------------------
  // Properties of the reports
  // ---------------------------------------------------------------------------

  /** `t` is the first 06:00 strictly after `now`. */
  predicate FirstSixAmAfter(now: int, t: int) {
    now < t && t % Clock.SecondsPerDay == 6 * Clock.SecondsPerHour
    && forall u :: now < u < t ==> u % Clock.SecondsPerDay != 6 * Clock.SecondsPerHour
  }

  /** `t` is the first whole hour strictly after `now`. */
  predicate FirstHourAfter(now: int, t: int) {
    now < t && t % Clock.SecondsPerHour == 0
    && forall u :: now < u < t ==> u % Clock.SecondsPerHour != 0
  }

  /**
   * Nothing comes back exactly when the action is permitted; otherwise the
   * time is strictly later than now and at most a day away. The daily limit
   * waits for the next 06:00; else the hourly limit, or for a like the like
   * cap, waits for the next whole hour (at most an hour away); any other
   * refusal waits half an hour.
   */
  lemma NextActionTimeSpec(cfg: Config, h: seq<Action>, now: int, kind: string, permitted: bool)
    ensures NextActionTime(cfg, h, now, kind, permitted).None? <==> permitted
    ensures var r := NextActionTime(cfg, h, now, kind, permitted);
      r.Some? ==> now < r.value <= now + Clock.SecondsPerDay
    ensures var r := NextActionTime(cfg, h, now, kind, permitted);
      r.Some? && CountWithin(h, Cutoff(now, 24), None) >= cfg.maxActionsPerDay ==>
        FirstSixAmAfter(now, r.value)
    ensures var r := NextActionTime(cfg, h, now, kind, permitted);
      r.Some? && CountWithin(h, Cutoff(now, 24), None) < cfg.maxActionsPerDay
        && CountWithin(h, Cutoff(now, 1), None) >= cfg.maxActionsPerHour ==>
        FirstHourAfter(now, r.value) && r.value <= now + Clock.SecondsPerHour
    ensures var r := NextActionTime(cfg, h, now, kind, permitted);
      r.Some? && CountWithin(h, Cutoff(now, 24), None) < cfg.maxActionsPerDay
        && CountWithin(h, Cutoff(now, 1), None) < cfg.maxActionsPerHour
        && kind == "like" && CountWithin(h, Cutoff(now, 1), Some("like")) >= cfg.maxLikesPerHour ==>
        FirstHourAfter(now, r.value) && r.value <= now + Clock.SecondsPerHour
    ensures var r := NextActionTime(cfg, h, now, kind, permitted);
      r.Some? && CountWithin(h, Cutoff(now, 24), None) < cfg.maxActionsPerDay
        && CountWithin(h, Cutoff(now, 1), None) < cfg.maxActionsPerHour
        && !(kind == "like" && CountWithin(h, Cutoff(now, 1), Some("like")) >= cfg.maxLikesPerHour) ==>
        r.value == now + 30 * Clock.SecondsPerMinute
  {
    Clock.NextSixAmIsNextSixOClock(now);
    Clock.NextHourIsNextBoundary(now);
  }

  /**
   * Under the deque's capacity, adding an entry never turns a refusal into a
   * permission: limits met after the append were met before it.
   */
  lemma MonotoneUnderAppend(cfg: Config, h: seq<Action>, a: Action, now: int, kind: string)
    requires |h| < MaxHistory
    requires UnderLimits(cfg, Appended(h, a), now, kind)
    ensures UnderLimits(cfg, h, now, kind)
  {
    CountWithinSnoc(h, a, Cutoff(now, 24), None);
    CountWithinSnoc(h, a, Cutoff(now, 1), None);
    CountWithinSnoc(h, a, Cutoff(now, 1), Some(kind));
  }

  /**
   * Why MonotoneUnderAppend needs room in the deque: once it is full, an entry
   * outside a window evicts the oldest, and when that one was inside the
   * window the count drops by one, so a limit met before can be unmet after.
   */
  lemma EvictionLowersCount(h: seq<Action>, a: Action, cutoff: int, kind: Option<string>)
    requires |h| == MaxHistory && InWindow(h[0], cutoff, kind) && !InWindow(a, cutoff, kind)
    ensures CountWithin(Appended(h, a), cutoff, kind) + 1 == CountWithin(h, cutoff, kind)
  {
    assert h == [h[0]] + h[1..];
    CountWithinAppend([h[0]], h[1..], cutoff, kind);
    CountWithinSnoc(h[1..], a, cutoff, kind);
  }

  /**
   * The report has a remaining allowance in the daily, the hourly and the
   * action's own hourly count exactly when those limits let the action through.
   */
  lemma StatusMatchesLimits(cfg: Config, h: seq<Action>, errors: nat, lastError: Option<int>,
                            activity: real, quiet: bool, weekend: bool, now: int, kind: string)
    ensures StatusOf(cfg, h, errors, lastError, activity, quiet, weekend, now).None? <==> HasZeroLimit(cfg)
    ensures var r := StatusOf(cfg, h, errors, lastError, activity, quiet, weekend, now);
      r.Some? ==>
        (UnderLimits(cfg, h, now, kind) <==>
          r.value.dailyActions.remaining > 0 && r.value.hourlyActions.remaining > 0
          && (kind == "like" ==> r.value.hourlyLikes.remaining > 0)
          && (kind == "reply" ==> r.value.hourlyReplies.remaining > 0)
          && (kind == "retweet" ==> r.value.hourlyRetweets.remaining > 0))
  {
  }
}
