/**
 * utils.RateLimitTracker: a list of (type, timestamp) records, counted over a
 * trailing window and pruned by age. Timestamps are whole seconds; "now" is a
 * parameter.
 */
module Tracker {
  import opened Wrappers
  import Clock

  datatype TrackedAction = TrackedAction(kind: string, timestamp: int)

  /**
   * The record counts toward a window ending now with this cutoff: strictly
   * newer than the cutoff, and of the asked type when one is given (a type
   * that is None or "" is falsy, which means "any type").
   */
  predicate Counted(a: TrackedAction, cutoff: int, kind: Option<string>) {
    a.timestamp > cutoff && (kind.None? || kind.value == "" || a.kind == kind.value)
  }

  function CountWhere(s: seq<TrackedAction>, cutoff: int, kind: Option<string>): (n: nat)
    ensures n <= |s|
  {
    if s == [] then 0
    else CountWhere(s[..|s| - 1], cutoff, kind) + (if Counted(s[|s| - 1], cutoff, kind) then 1 else 0)
  }

  /**
   * The records strictly newer than the cutoff, in their order. This is the
   * tracker's own list comprehension over its own record type; the limiter's
   * start-up filter over its deque is History.KeepRecent.
   */
  function KeepNewer(s: seq<TrackedAction>, cutoff: int): (r: seq<TrackedAction>)
    ensures |r| <= |s|
  {
    if s == [] then []
    else KeepNewer(s[..|s| - 1], cutoff) + (if s[|s| - 1].timestamp > cutoff then [s[|s| - 1]] else [])
  }

  /** The positions of the counted records: an independent description of the count. */
  function CountedIndices(s: seq<TrackedAction>, cutoff: int, kind: Option<string>): set<int> {
    set i | 0 <= i < |s| && Counted(s[i], cutoff, kind)
  }

  class RateLimitTracker {
    var actions: seq<TrackedAction>

    constructor ()
      ensures actions == []
    {
      actions := [];
    }

    /** `add_action`: a missing timestamp means now. */
    method AddAction(kind: string, timestamp: Option<int>, now: int)
      modifies this
      ensures actions == old(actions) + [TrackedAction(kind, timestamp.GetOr(now))]
    {
      actions := actions + [TrackedAction(kind, timestamp.GetOr(now))];
    }

    /** `get_actions_in_period`: records newer than `hours` ago, of the given type if one is given. */
    function ActionsInPeriod(hours: int, kind: Option<string>, now: int): (n: nat)
      reads this
      ensures n == |CountedIndices(actions, now - hours * Clock.SecondsPerHour, kind)|
    {
      CountIsIndexCount(actions, now - hours * Clock.SecondsPerHour, kind);
      CountWhere(actions, now - hours * Clock.SecondsPerHour, kind)
    }

    /** `cleanup_old_actions`: keeps the records newer than `days` ago. */
    method CleanupOldActions(days: int, now: int)
      modifies this
      ensures actions == KeepNewer(old(actions), now - days * Clock.SecondsPerDay)
    {
      var kept: seq<TrackedAction> := [];
      var cutoff := now - days * Clock.SecondsPerDay;
      for i := 0 to |actions|
        invariant kept == KeepNewer(actions[..i], cutoff)
      {
        assert actions[..i + 1][..i] == actions[..i];
        if actions[i].timestamp > cutoff {
          kept := kept + [actions[i]];
        }
      }
      assert actions[..|actions|] == actions;
      actions := kept;
    }
  }

  /** The count is the number of positions holding a counted record. */
  lemma {:induction false} CountIsIndexCount(s: seq<TrackedAction>, cutoff: int, kind: Option<string>)
    ensures CountWhere(s, cutoff, kind) == |CountedIndices(s, cutoff, kind)|
  {
    if s != [] {
      var n := |s| - 1;
      var init := s[..n];
      CountIsIndexCount(init, cutoff, kind);
      var before := CountedIndices(init, cutoff, kind);
      if Counted(s[n], cutoff, kind) {
        assert CountedIndices(s, cutoff, kind) == before + {n};
        assert n !in before;
      } else {
        assert CountedIndices(s, cutoff, kind) == before;
      }
    }
  }

  /** Cleanup keeps exactly the records strictly newer than the cutoff. */
  lemma {:induction false} KeepNewerMembers(s: seq<TrackedAction>, cutoff: int, a: TrackedAction)
    ensures a in KeepNewer(s, cutoff) <==> a in s && a.timestamp > cutoff
  {
    if s != [] {
      KeepNewerMembers(s[..|s| - 1], cutoff, a);
      assert s == s[..|s| - 1] + [s[|s| - 1]];
    }
  }

  /** Cleaning up twice with the same cutoff is the same as once. */
  lemma {:induction false} KeepNewerIdempotent(s: seq<TrackedAction>, cutoff: int)
    ensures KeepNewer(KeepNewer(s, cutoff), cutoff) == KeepNewer(s, cutoff)
  {
    if s != [] {
      var init := s[..|s| - 1];
      KeepNewerIdempotent(init, cutoff);
      var r := KeepNewer(init, cutoff);
      if s[|s| - 1].timestamp > cutoff {
        KeepNewerAppend(r, [s[|s| - 1]], cutoff);
      } else {
        assert KeepNewer(s, cutoff) == r + [];
        assert r + [] == r;
      }
    }
  }

  lemma {:induction false} KeepNewerAppend(s: seq<TrackedAction>, t: seq<TrackedAction>, cutoff: int)
    ensures KeepNewer(s + t, cutoff) == KeepNewer(s, cutoff) + KeepNewer(t, cutoff)
    decreases |t|
  {
    if t == [] {
      assert s + t == s;
    } else {
      var u := t[..|t| - 1];
      assert (s + t)[..|s + t| - 1] == s + u;
      KeepNewerAppend(s, u, cutoff);
    }
  }

  lemma {:induction false} CountAppend(s: seq<TrackedAction>, t: seq<TrackedAction>, cutoff: int, kind: Option<string>)
    ensures CountWhere(s + t, cutoff, kind) == CountWhere(s, cutoff, kind) + CountWhere(t, cutoff, kind)
    decreases |t|
  {
    if t == [] {
      assert s + t == s;
    } else {
      var u := t[..|t| - 1];
      assert (s + t)[..|s + t| - 1] == s + u;
      CountAppend(s, u, cutoff, kind);
    }
  }

  /**
   * Adding a record raises every count by one when the record falls in the
   * window and has the asked type, and leaves it unchanged otherwise.
   */
  lemma AddActionCount(s: seq<TrackedAction>, a: TrackedAction, cutoff: int, kind: Option<string>)
    ensures CountWhere(s + [a], cutoff, kind) == CountWhere(s, cutoff, kind) + (if Counted(a, cutoff, kind) then 1 else 0)
  {
    assert (s + [a])[..|s|] == s;
  }

  /** A typed count never exceeds the count of all types. */
  lemma {:induction false} TypedAtMostAll(s: seq<TrackedAction>, cutoff: int, kind: string)
    ensures CountWhere(s, cutoff, Some(kind)) <= CountWhere(s, cutoff, None)
  {
    if s != [] {
      TypedAtMostAll(s[..|s| - 1], cutoff, kind);
    }
  }

  /** A longer window counts at least as many records. */
  lemma {:induction false} CountMonotone(s: seq<TrackedAction>, older: int, newer: int, kind: Option<string>)
    requires older <= newer
    ensures CountWhere(s, newer, kind) <= CountWhere(s, older, kind)
  {
    if s != [] {
      CountMonotone(s[..|s| - 1], older, newer, kind);
    }
  }

  /** Cleaning up older records does not change any count over a window inside the kept span. */
  lemma {:induction false} CleanupKeepsCounts(s: seq<TrackedAction>, keepCutoff: int, cutoff: int, kind: Option<string>)
    requires keepCutoff <= cutoff
    ensures CountWhere(KeepNewer(s, keepCutoff), cutoff, kind) == CountWhere(s, cutoff, kind)
  {
    if s != [] {
      var init := s[..|s| - 1];
      var a := s[|s| - 1];
      CleanupKeepsCounts(init, keepCutoff, cutoff, kind);
      if a.timestamp > keepCutoff {
        AddActionCount(KeepNewer(init, keepCutoff), a, cutoff, kind);
      } else {
        assert KeepNewer(s, keepCutoff) == KeepNewer(init, keepCutoff) + [];
        assert KeepNewer(init, keepCutoff) + [] == KeepNewer(init, keepCutoff);
      }
    }
  }

  /** With the default week of retention, every count over at most a week is unchanged by cleanup. */
  lemma CleanupKeepsWindowCounts(s: seq<TrackedAction>, days: int, hours: int, now: int, kind: Option<string>)
    requires hours * Clock.SecondsPerHour <= days * Clock.SecondsPerDay
    ensures CountWhere(KeepNewer(s, now - days * Clock.SecondsPerDay), now - hours * Clock.SecondsPerHour, kind)
         == CountWhere(s, now - hours * Clock.SecondsPerHour, kind)
  {
    CleanupKeepsCounts(s, now - days * Clock.SecondsPerDay, now - hours * Clock.SecondsPerHour, kind);
  }
}
