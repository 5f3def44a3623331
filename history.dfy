/**
 * The rate limiter's action history: a deque bounded at 10000 entries, the
 * trailing-window counts taken over it, the per-type tallies reported in the
 * statistics, and the entries rebuilt from the saved log at start-up.
 */
module History {
  import opened Wrappers
  import Clock

  /** The `metadata` dictionary; its values are kept as text. */
  type Metadata = map<string, string>

  datatype Action = Action(kind: string, success: bool, timestamp: int, metadata: Metadata)

  /** `deque(maxlen=10000)`. */
  const MaxHistory: nat := 10000

  /** Days of history kept when the log is loaded. */
  const RetentionDays: int := 7

  /** `deque.append` on a deque with `maxlen`: a full deque drops its oldest entry. */
  function Appended(h: seq<Action>, a: Action): (r: seq<Action>)
    requires |h| <= MaxHistory
    ensures |r| <= MaxHistory
  {
    if |h| < MaxHistory then h + [a] else h[1..] + [a]
  }

  /** The newest entries of `v`, as many as the deque holds. */
  function Newest(v: seq<Action>): (r: seq<Action>)
    ensures |r| <= MaxHistory
  {
    if |v| <= MaxHistory then v else v[|v| - MaxHistory..]
  }

  /** Appending keeps the newest entries: the new entry last, after the newest ones already held. */
  lemma AppendedKeepsNewest(h: seq<Action>, a: Action)
    requires |h| <= MaxHistory
    ensures |Appended(h, a)| == if |h| < MaxHistory then |h| + 1 else MaxHistory
    ensures Appended(h, a) == Newest(h + [a])
  {
    if |h| == MaxHistory {
      assert (h + [a])[|h + [a]| - MaxHistory..] == h[1..] + [a];
    }
  }

  /** Appending the newest entries of `v`, then `a`, keeps the newest entries of `v + [a]`. */
  lemma NewestAppend(v: seq<Action>, a: Action)
    ensures Appended(Newest(v), a) == Newest(v + [a])
  {
    AppendedKeepsNewest(Newest(v), a);
    if |v| > MaxHistory {
      var w := v + [a];
      assert Newest(v) + [a] == w[|w| - MaxHistory - 1..];
      assert w[|w| - MaxHistory - 1..][|w[|w| - MaxHistory - 1..]| - MaxHistory..] == w[|w| - MaxHistory..];
    }
  }

  // ---------------------------------------------------------------------------
  // Trailing-window counts (`_get_actions_in_timeframe`)
  // ---------------------------------------------------------------------------

  /** Of the asked type when a type is given (`is None` means any type). */
  predicate MatchesKind(a: Action, kind: Option<string>) {
    kind.None? || a.kind == kind.value
  }

  /** Newer than the cutoff, and of the asked type. */
  predicate InWindow(a: Action, cutoff: int, kind: Option<string>) {
    a.timestamp > cutoff && MatchesKind(a, kind)
  }

  /** The number of entries in the window. */
  function CountWithin(h: seq<Action>, cutoff: int, kind: Option<string>): (n: nat)
    ensures n <= |h|
  {
    if h == [] then 0
    else CountWithin(h[..|h| - 1], cutoff, kind) + (if InWindow(h[|h| - 1], cutoff, kind) then 1 else 0)
  }

  /** The window looking back `hours` hours from `now`. */
  function Cutoff(now: int, hours: int): int {
    now - hours * Clock.SecondsPerHour
  }

  function WindowIndices(h: seq<Action>, cutoff: int, kind: Option<string>): set<int> {
    set i | 0 <= i < |h| && InWindow(h[i], cutoff, kind)
  }

  /** The count is the number of history positions in the window. */
  lemma {:induction false} CountWithinIsIndexCount(h: seq<Action>, cutoff: int, kind: Option<string>)
    ensures CountWithin(h, cutoff, kind) == |WindowIndices(h, cutoff, kind)|
  {
    if h != [] {
      var n := |h| - 1;
      CountWithinIsIndexCount(h[..n], cutoff, kind);
      var before := WindowIndices(h[..n], cutoff, kind);
      if InWindow(h[n], cutoff, kind) {
        assert WindowIndices(h, cutoff, kind) == before + {n};
      } else {
        assert WindowIndices(h, cutoff, kind) == before;
      }
    }
  }

  /** A count of one type never exceeds the count of all types. */
  lemma {:induction false} TypedCountAtMostTotal(h: seq<Action>, cutoff: int, kind: string)
    ensures CountWithin(h, cutoff, Some(kind)) <= CountWithin(h, cutoff, None)
  {
    if h != [] {
      TypedCountAtMostTotal(h[..|h| - 1], cutoff, kind);
    }
  }

  /** A longer look-back counts at least as much: the last hour never exceeds the last day. */
  lemma {:induction false} CountWithinMonotone(h: seq<Action>, older: int, newer: int, kind: Option<string>)
    requires older <= newer
    ensures CountWithin(h, newer, kind) <= CountWithin(h, older, kind)
  {
    if h != [] {
      CountWithinMonotone(h[..|h| - 1], older, newer, kind);
    }
  }

  lemma HourAtMostDay(h: seq<Action>, now: int, kind: Option<string>)
    ensures CountWithin(h, Cutoff(now, 1), kind) <= CountWithin(h, Cutoff(now, 24), kind)
  {
    CountWithinMonotone(h, Cutoff(now, 24), Cutoff(now, 1), kind);
  }

  /** A new entry adds one to every window it falls in and nothing to the others. */
  lemma CountWithinSnoc(h: seq<Action>, a: Action, cutoff: int, kind: Option<string>)
    ensures CountWithin(h + [a], cutoff, kind) == CountWithin(h, cutoff, kind) + (if InWindow(a, cutoff, kind) then 1 else 0)
  {
    assert (h + [a])[..|h|] == h;
  }

  /** Counting distributes over concatenation. */
  lemma {:induction false} CountWithinAppend(s: seq<Action>, t: seq<Action>, cutoff: int, kind: Option<string>)
    ensures CountWithin(s + t, cutoff, kind) == CountWithin(s, cutoff, kind) + CountWithin(t, cutoff, kind)
    decreases |t|
  {
    if t == [] {
      assert s + t == s;
    } else {
      var u := t[..|t| - 1];
      assert (s + t)[..|s + t| - 1] == s + u;
      CountWithinAppend(s, u, cutoff, kind);
    }
  }

  // ---------------------------------------------------------------------------
  // Caps over a history built by admitted appends
  // ---------------------------------------------------------------------------

  /**
   * Every entry of the kind was let in under the cap: when it was added, fewer
   * than `cap` earlier entries of the kind lay in the `hours` before it.
   */
  ghost predicate Admitted(h: seq<Action>, hours: int, kind: Option<string>, cap: int) {
    forall i :: 0 <= i < |h| && MatchesKind(h[i], kind) ==>
      CountWithin(h[..i], Cutoff(h[i].timestamp, hours), kind) < cap
  }

  /**
   * A history of admitted entries never holds more than `cap` entries of the
   * kind in a window of `hours` ending at or after its newest entry.
   */
  lemma {:induction false} AdmittedCapHolds(h: seq<Action>, hours: int, kind: Option<string>, cap: int, now: int)
    requires 0 <= cap && Admitted(h, hours, kind, cap)
    requires forall i :: 0 <= i < |h| ==> h[i].timestamp <= now
    ensures CountWithin(h, Cutoff(now, hours), kind) <= cap
  {
    if h != [] {
      var n := |h| - 1;
      var init := h[..n];
      var a := h[n];
      AdmittedPrefix(h, hours, kind, cap);
      assert forall i :: 0 <= i < |init| ==> init[i].timestamp <= now by {
        assert forall i :: 0 <= i < |init| ==> init[i] == h[i];
      }
      AdmittedCapHolds(init, hours, kind, cap, now);
      assert h == init + [a];
      CountWithinSnoc(init, a, Cutoff(now, hours), kind);
      if InWindow(a, Cutoff(now, hours), kind) {
        CountWithinMonotone(init, Cutoff(a.timestamp, hours), Cutoff(now, hours), kind);
      }
    }
  }

  /** Dropping the newest entry keeps the history admitted. */
  lemma AdmittedPrefix(h: seq<Action>, hours: int, kind: Option<string>, cap: int)
    requires h != [] && Admitted(h, hours, kind, cap)
    ensures Admitted(h[..|h| - 1], hours, kind, cap)
  {
    var init := h[..|h| - 1];
    forall i | 0 <= i < |init| && MatchesKind(init[i], kind)
      ensures CountWithin(init[..i], Cutoff(init[i].timestamp, hours), kind) < cap
    {
      assert init[..i] == h[..i];
    }
  }

  /** Appending an entry that passes the cap keeps the history admitted. */
  lemma AdmittedSnoc(h: seq<Action>, a: Action, hours: int, kind: Option<string>, cap: int)
    requires Admitted(h, hours, kind, cap)
    requires MatchesKind(a, kind) ==> CountWithin(h, Cutoff(a.timestamp, hours), kind) < cap
    ensures Admitted(h + [a], hours, kind, cap)
  {
    var g := h + [a];
    forall i | 0 <= i < |g| && MatchesKind(g[i], kind)
      ensures CountWithin(g[..i], Cutoff(g[i].timestamp, hours), kind) < cap
    {
      if i < |h| {
        assert g[..i] == h[..i];
      } else {
        assert g[..i] == h;
      }
    }
  }

  /** Dropping the oldest entry keeps the history admitted. */
  lemma AdmittedDropOldest(h: seq<Action>, hours: int, kind: Option<string>, cap: int)
    requires h != [] && Admitted(h, hours, kind, cap)
    ensures Admitted(h[1..], hours, kind, cap)
  {
    var g := h[1..];
    forall i | 0 <= i < |g| && MatchesKind(g[i], kind)
      ensures CountWithin(g[..i], Cutoff(g[i].timestamp, hours), kind) < cap
    {
      assert h[..i + 1] == [h[0]] + g[..i];
      CountWithinAppend([h[0]], g[..i], Cutoff(g[i].timestamp, hours), kind);
      assert MatchesKind(h[i + 1], kind);
    }
  }

  /** The bounded append keeps the history admitted when the new entry passes the cap. */
  lemma AdmittedAppended(h: seq<Action>, a: Action, hours: int, kind: Option<string>, cap: int)
    requires |h| <= MaxHistory && Admitted(h, hours, kind, cap)
    requires MatchesKind(a, kind) ==> CountWithin(h, Cutoff(a.timestamp, hours), kind) < cap
    ensures Admitted(Appended(h, a), hours, kind, cap)
  {
    if |h| == MaxHistory {
      AdmittedDropOldest(h, hours, kind, cap);
      assert h == [h[0]] + h[1..];
      CountWithinAppend([h[0]], h[1..], Cutoff(a.timestamp, hours), kind);
      AdmittedSnoc(h[1..], a, hours, kind, cap);
    } else {
      AdmittedSnoc(h, a, hours, kind, cap);
    }
  }

  // ---------------------------------------------------------------------------
  // Per-type tallies (`get_statistics`)
  // ---------------------------------------------------------------------------

  datatype Tally = Tally(total: nat, successful: nat, failed: nat)

  /** One more entry of a type, counted as successful or failed. */
  function Bump(t: Tally, success: bool): Tally {
    if success then Tally(t.total + 1, t.successful + 1, t.failed)
    else Tally(t.total + 1, t.successful, t.failed + 1)
  }

  /** One more entry of type `kind`; a type seen for the first time starts at zero. */
  function Record(m: map<string, Tally>, a: Action): map<string, Tally> {
    var t := if a.kind in m then m[a.kind] else Tally(0, 0, 0);
    m[a.kind := Bump(t, a.success)]
  }

  /** The `actions_by_type` table for a history. */
  function Tallies(h: seq<Action>): map<string, Tally> {
    if h == [] then map[] else Record(Tallies(h[..|h| - 1]), h[|h| - 1])
  }

  lemma TalliesSnoc(h: seq<Action>, i: int)
    requires 0 <= i < |h|
    ensures Tallies(h[..i + 1]) == Record(Tallies(h[..i]), h[i])
  {
    assert h[..i + 1][..i] == h[..i];
  }

  function KindCount(h: seq<Action>, kind: string): nat {
    if h == [] then 0 else KindCount(h[..|h| - 1], kind) + (if h[|h| - 1].kind == kind then 1 else 0)
  }

  function KindSuccesses(h: seq<Action>, kind: string): (n: nat)
    ensures n <= KindCount(h, kind)
  {
    if h == [] then 0
    else KindSuccesses(h[..|h| - 1], kind) + (if h[|h| - 1].kind == kind && h[|h| - 1].success then 1 else 0)
  }

  /**
   * The table has a row for exactly the types in the history, and each row
   * counts that type's entries, its successes and its failures.
   */
  lemma {:induction false} TalliesCount(h: seq<Action>, kind: string)
    ensures kind in Tallies(h) <==> exists a :: a in h && a.kind == kind
    ensures kind in Tallies(h) ==>
      Tallies(h)[kind] == Tally(KindCount(h, kind), KindSuccesses(h, kind), KindCount(h, kind) - KindSuccesses(h, kind))
  {
    if h != [] {
      var init := h[..|h| - 1];
      TalliesCount(init, kind);
      assert h == init + [h[|h| - 1]];
      if kind !in Tallies(init) {
        assert KindCount(init, kind) == 0 by {
          NoKindNoCount(init, kind);
        }
      }
    }
  }

  lemma {:induction false} NoKindNoCount(h: seq<Action>, kind: string)
    requires forall a :: a in h ==> a.kind != kind
    ensures KindCount(h, kind) == 0 && KindSuccesses(h, kind) == 0
  {
    if h != [] {
      assert h[|h| - 1] in h;
      var init := h[..|h| - 1];
      assert forall a :: a in init ==> a in h;
      NoKindNoCount(init, kind);
    }
  }

  // ---------------------------------------------------------------------------
  // Loading the saved log (`_load_actions_history`)
  // ---------------------------------------------------------------------------

  /**
   * One element of the saved `actions` list. `Entry` is a mapping; its `stamp`
   * is the parsed `timestamp`, or None when the key is missing, the text is
   * empty or it does not parse. `Malformed` is an element that is not a
   * mapping: reading its `timestamp` raises.
   */
  datatype RawEntry = Entry(kind: string, success: bool, stamp: Option<int>, metadata: Metadata) | Malformed

  /** The position of the first malformed element, or the length when there is none. */
  function FirstMalformed(entries: seq<RawEntry>): (k: nat)
    ensures k <= |entries|
    ensures forall j :: 0 <= j < k ==> entries[j].Entry?
    ensures k < |entries| ==> entries[k].Malformed?
  {
    if entries == [] || entries[0].Malformed? then 0 else 1 + FirstMalformed(entries[1..])
  }

  /** The elements that become actions: those with a timestamp, in order. */
  function ValidActions(entries: seq<RawEntry>): seq<Action> {
    if entries == [] then []
    else
      var e := entries[|entries| - 1];
      ValidActions(entries[..|entries| - 1])
        + (if e.Entry? && e.stamp.Some? then [Action(e.kind, e.success, e.stamp.value, e.metadata)] else [])
  }

  /** The deque after appending each element that has a timestamp, starting empty. */
  function Accumulated(entries: seq<RawEntry>): (h: seq<Action>)
    ensures |h| <= MaxHistory
  {
    if entries == [] then []
    else
      var e := entries[|entries| - 1];
      var h := Accumulated(entries[..|entries| - 1]);
      if e.Entry? && e.stamp.Some? then Appended(h, Action(e.kind, e.success, e.stamp.value, e.metadata)) else h
  }

  /** The entries newer than the cutoff, in order. */
  function KeepRecent(h: seq<Action>, cutoff: int): (r: seq<Action>)
    ensures |r| <= |h|
  {
    if h == [] then []
    else KeepRecent(h[..|h| - 1], cutoff) + (if h[|h| - 1].timestamp > cutoff then [h[|h| - 1]] else [])
  }

  /**
   * The history after start-up. A malformed element stops the load: what was
   * appended before it stays, unfiltered. Otherwise the deque is cut to the
   * last seven days.
   */
  function LoadedHistory(entries: seq<RawEntry>, now: int): (h: seq<Action>)
    ensures |h| <= MaxHistory
  {
    var k := FirstMalformed(entries);
    var h := Accumulated(entries[..k]);
    if k < |entries| then h else KeepRecent(h, now - RetentionDays * Clock.SecondsPerDay)
  }

  /** `_load_actions_history` on the elements of the saved `actions` list. */
  method LoadActions(entries: seq<RawEntry>, now: int) returns (h: seq<Action>)
    ensures h == LoadedHistory(entries, now)
  {
    h := [];
    var i := 0;
    while i < |entries| && entries[i].Entry?
      invariant 0 <= i <= FirstMalformed(entries)
      invariant h == Accumulated(entries[..i])
    {
      assert entries[..i + 1][..i] == entries[..i];
      var e := entries[i];
      if e.stamp.Some? {
        h := Appended(h, Action(e.kind, e.success, e.stamp.value, e.metadata));
      }
      i := i + 1;
    }
    if i < |entries| {
      // reading the timestamp of a non-mapping raises; the handler logs it
      return;
    }
    assert entries[..i] == entries;
    var cutoff := now - RetentionDays * Clock.SecondsPerDay;
    var kept: seq<Action> := [];
    for j := 0 to |h|
      invariant kept == KeepRecent(h[..j], cutoff)
    {
      assert h[..j + 1][..j] == h[..j];
      if h[j].timestamp > cutoff {
        kept := kept + [h[j]];
      }
    }
    assert h[..|h|] == h;
    h := kept;
  }

  /** The deque holds the newest timestamped elements, as many as fit. */
  lemma {:induction false} AccumulatedIsNewest(entries: seq<RawEntry>)
    ensures Accumulated(entries) == Newest(ValidActions(entries))
  {
    if entries != [] {
      var init := entries[..|entries| - 1];
      var e := entries[|entries| - 1];
      AccumulatedIsNewest(init);
      if e.Entry? && e.stamp.Some? {
        NewestAppend(ValidActions(init), Action(e.kind, e.success, e.stamp.value, e.metadata));
      } else {
        assert ValidActions(entries) == ValidActions(init) + [];
        assert ValidActions(init) + [] == ValidActions(init);
      }
    }
  }

  lemma {:induction false} KeepRecentMembers(h: seq<Action>, cutoff: int, a: Action)
    ensures a in KeepRecent(h, cutoff) <==> a in h && a.timestamp > cutoff
  {
    if h != [] {
      KeepRecentMembers(h[..|h| - 1], cutoff, a);
      assert h == h[..|h| - 1] + [h[|h| - 1]];
    }
  }

  /**
   * A well-formed log loads exactly the timestamped actions of the last seven
   * days, in their order, provided the log holds no more than the deque keeps.
   */
  lemma LoadKeepsLastWeek(entries: seq<RawEntry>, now: int, a: Action)
    requires forall j :: 0 <= j < |entries| ==> entries[j].Entry?
    requires |ValidActions(entries)| <= MaxHistory
    ensures LoadedHistory(entries, now) == KeepRecent(ValidActions(entries), now - RetentionDays * Clock.SecondsPerDay)
    ensures a in LoadedHistory(entries, now) <==>
      a in ValidActions(entries) && a.timestamp > now - RetentionDays * Clock.SecondsPerDay
  {
    assert FirstMalformed(entries) == |entries|;
    assert entries[..|entries|] == entries;
    AccumulatedIsNewest(entries);
    KeepRecentMembers(Accumulated(entries), now - RetentionDays * Clock.SecondsPerDay, a);
  }

  /** A malformed element ends the load with the earlier timestamped actions kept, however old. */
  lemma LoadStopsAtMalformed(prefix: seq<RawEntry>, rest: seq<RawEntry>, now: int)
    requires forall j :: 0 <= j < |prefix| ==> prefix[j].Entry?
    ensures LoadedHistory(prefix + [Malformed] + rest, now) == Newest(ValidActions(prefix))
  {
    var tail := [Malformed] + rest;
    SplitAtMalformed(prefix, rest);
    FirstMalformedAfter(prefix, tail);
    LoadAborted(prefix + tail, |prefix|, now);
    AccumulatedIsNewest(prefix);
  }

  lemma SplitAtMalformed(prefix: seq<RawEntry>, rest: seq<RawEntry>)
    ensures prefix + [Malformed] + rest == prefix + ([Malformed] + rest)
    ensures (prefix + ([Malformed] + rest))[..|prefix|] == prefix
  {
  }

  lemma LoadAborted(entries: seq<RawEntry>, k: nat, now: int)
    requires k < |entries| && FirstMalformed(entries) == k
    ensures LoadedHistory(entries, now) == Accumulated(entries[..k])
  {
  }

  lemma {:induction false} FirstMalformedAfter(prefix: seq<RawEntry>, rest: seq<RawEntry>)
    requires forall j :: 0 <= j < |prefix| ==> prefix[j].Entry?
    requires rest != [] && rest[0].Malformed?
    ensures FirstMalformed(prefix + rest) == |prefix|
  {
    if prefix != [] {
      assert (prefix + rest)[1..] == prefix[1..] + rest;
      FirstMalformedAfter(prefix[1..], rest);
    } else {
      assert prefix + rest == rest;
    }
  }
}
