# Twitter bot pacing core, in Dafny

This project models the part of the Twitter engagement bot that decides when it may act, plus the text and number helpers around it.

- **`RateLimiter`** (`twitter_bot/rate_limiter.py`) keeps a history of past actions, bounded at 10000 entries. It also keeps an error streak: `consecutive_errors` and `last_error_time`.
  - `can_perform_action` runs its checks in order: the error cooldown, the trailing-day count, the trailing-hour count, the per-type hourly caps for likes, replies and retweets, and the quiet hours.
  - `record_action` appends to the history and updates the streak.
  - The rest of the class computes delay ranges, the next permitted time and reports.
- **`twitter_bot/utils.py`** supplies the helpers:
  - duration formatting;
  - whitespace clean-up and file-name sanitising;
  - blocked-keyword search;
  - engagement-count parsing ("1.5K");
  - status-id extraction from URLs;
  - the retry-with-backoff loop;
  - the small `RateLimitTracker` class.

Time is a whole number of seconds on the bot's local wall clock, passed in as `now` (module `Clock`). Day 0 is Thursday 1970-01-01, and the hour of day and the weekday are computed from the time. Every random draw is a parameter too: the pattern jitter, the quiet-hour coins and the delays. Multipliers and delays are exact reals.

The stateful parts are classes whose methods are proved against specification functions:

- `RateLimiting.RateLimiter`;
- `Tracker.RateLimitTracker`;
- the loops in `History.LoadActions`, `Pacing.GenerateDailyPattern`, `Cleaning.SanitizeFilename` and `Retry.RetryWithBackoff`.

The specification functions carry the lemmas. The headline result is `RateLimiting.CapsHold` with `RateLimiting.PermittedRecordKeepsCaps`: if every action is recorded only after `can_perform_action` allowed it, then no trailing hour or day holds more actions than its limit, and no action type holds more than its hourly cap.

Where the code and its comments disagree, the model follows the code:

- The night branch of the daily pattern tests `23 <= hour <= 5`, which no hour satisfies. Hours 23 and 0 to 5 therefore get the regular multiplier 1.0, not the 0.3 the comment describes (`Pacing.NightBranchIsDead`).
- The activity multiplier is documented as lying between 0 and 2. Jitter takes it up to 2.16, and burst mode up to 3.24. Above 2 the delay factor turns negative, and the delay range inverts (`Pacing.InvertedDelayRange`).

## Model

| member | source | states |
|---|---|---|
| Clock.SecondsUntilNextHour | twitter_bot/utils.py:236-245 | between 1 and 3600 seconds, ending on a whole hour |
| Clock.SecondsUntilNextDay | twitter_bot/utils.py:247-256 | between 1 and 86400 seconds, ending on a midnight (hour 0) |
| Clock.NextHourIsNextBoundary | twitter_bot/rate_limiter.py:509-513 | the next-hour time is the first whole hour strictly after now, at most an hour away |
| Clock.NextSixAmIsNextSixOClock | twitter_bot/rate_limiter.py:502-507 | the "tomorrow" time is the first 06:00 strictly after now, at most a day away |
| Clock.IsWeekend | twitter_bot/utils.py:227-234 | weekend exactly on the days 2 and 3 past a multiple of seven, counting whole days from 1970-01-01 (a Thursday), that is Saturdays and Sundays |
| Clock.WeekendIsWeekly | twitter_bot/utils.py:227-234 | being a weekend day repeats every seven days; Saturday and Sunday are weekend days, Monday is not |
| Durations.FormatDuration | twitter_bot/utils.py:258-280 | the text has at least two characters and ends with its finest unit: s under a minute, m under a day, h from a day on |
| Durations.FormatDurationReadsBack | twitter_bot/utils.py:258-280 | round trip: the text of a non-negative duration reads back to the duration rounded down to the text's unit (1 s, 1 min or 1 h) |
| Durations.FormatDurationExamples | twitter_bot/test_bot.py:126-127 | 3661 s is "1h 1m", 59 s is "59s", 90061 s is "1d 1h" |
| Durations.TwoPartsFromAnHour | twitter_bot/utils.py:268-280 | the text holds a space, separating two parts, exactly from 3600 s on |
| Cleaning.Collapse | twitter_bot/utils.py:181 | collapsing whitespace runs never lengthens the text |
| Cleaning.CleanTweetText | twitter_bot/utils.py:167-188 | the cleaned text is never longer than the input |
| Cleaning.CleanIsJoinedWords | twitter_bot/utils.py:167-188 | cleaning equals joining the whitespace-separated words with single spaces |
| Cleaning.CleanShape | twitter_bot/utils.py:167-188 | every whitespace character left is a single space between two non-whitespace characters: no newline, CR, tab, double space or edge space |
| Cleaning.CleanKeepsWords | twitter_bot/utils.py:167-188 | the cleaned text has exactly the words of the input |
| Cleaning.CleanIdempotent | twitter_bot/utils.py:167-188 | cleaning twice is cleaning once |
| Cleaning.CleanTwoWords | twitter_bot/test_bot.py:142-143 | two words between whitespace runs clean to "w1 w2" ("  Hello\n\nWorld  \t" gives "Hello World") |
| Cleaning.SanitizeFilename | twitter_bot/utils.py:364-383 | the replace loop computes the sanitized name, which contains none of `<>:"/\|?*` and is at most 200 characters |
| Cleaning.SanitizedIsValid | twitter_bot/utils.py:364-383 | the sanitized name has no invalid character and length at most 200 |
| Keywords.OccursIff | twitter_bot/utils.py:346 | Python's `in` on strings: the keyword is the slice of the text at some position |
| Keywords.ContainsBlockedKeywords | twitter_bot/utils.py:331-346 | blocked exactly when the text is non-empty and some lower-cased keyword is a slice of the lower-cased text; an empty list never blocks |
| Keywords.EmptyKeywordBlocksEverything | twitter_bot/utils.py:331-346 | an empty keyword blocks every non-empty text |
| Keywords.CaseInsensitive | twitter_bot/utils.py:331-346 | lower-casing the text or the keywords beforehand changes nothing |
| Engagement.Trunc | twitter_bot/utils.py:217 | `int()` of a real rounds toward zero: within one below (above) a non-negative (negative) value |
| Engagement.ShiftIsTruncatedProduct | twitter_bot/utils.py:216-217 | the digit-shifting computation equals the exact product of the decimal with 10^k, truncated toward zero |
| Engagement.ReadCompactMeaning | twitter_bot/utils.py:200-225 | with a K/M/B suffix and a parsable prefix the result is the prefix times 10^3/10^6/10^9 truncated; otherwise the parsable text truncated; otherwise 0 |
| Engagement.PlainCountReadsBack | twitter_bot/utils.py:221-223 | the decimal notation of n reads back as n |
| Engagement.SuffixedCountReadsBack | twitter_bot/utils.py:213-217 | n followed by k/K, m/M or b/B reads as n times 10^3, 10^6 or 10^9 |
| Engagement.FractionalCountReadsBack | twitter_bot/utils.py:213-217 | "n.f" with a suffix reads as the digits of n and f with the point moved 3, 6 or 9 places, the rest dropped |
| Engagement.ParseEngagementNumbers | twitter_bot/utils.py:190-225 | a text without any digit (including "" and "N/A") reads as 0 |
| Engagement.OnePointFiveK | twitter_bot/test_bot.py:134-135 | "1.5K" reads as 1500 |
| TweetId.StatusIdAt | twitter_bot/utils.py:157 | the bare pattern matches at i exactly when "/status/" and a digit start at i, and captures the whole digit run |
| TweetId.SearchBareNone | twitter_bot/utils.py:157-161 | the bare search finds nothing exactly when no "/status/" is followed by a digit |
| TweetId.ExtractTweetId | twitter_bot/utils.py:143-165 | what it extracts is a non-empty run of digits |
| TweetId.ExtractTweetIdSpec | twitter_bot/utils.py:143-165 | None exactly when no "/status/" in the URL is followed by a digit; otherwise the maximal digit run right after some "/status/" |
| TweetId.HostUrlReadsBack | twitter_bot/utils.py:155-156 | host + word user + "/status/" + digits (then a non-digit or the end) matches with those digits |
| TweetId.TwitterUrlReadsBack | twitter_bot/utils.py:143-165 | "twitter.com/<user>/status/<id>" extracts `<id>` |
| Retry.RetryWithBackoff | twitter_bot/utils.py:438-469 | at most max_retries+1 calls; all but the last raised a caught exception; the first success is returned; an uncaught or final failure is re-raised; no call at all raises the `raise None` error; the sleeps are the schedule, none after the last attempt |
| Retry.ScheduleAt | twitter_bot/utils.py:462-465 | before attempt k+1 the sleep is base·multiplier^k |
| Retry.TotalBackoff | twitter_bot/utils.py:457-465 | the sleeps sum to the geometric series: total·(m−1) = base·(m^n − 1) |
| Retry.DefaultSchedule | twitter_bot/utils.py:438-440 | with the defaults a call that never succeeds sleeps 1, 2 and 4 s, 7 s in all |
| Tracker.RateLimitTracker.constructor | twitter_bot/utils.py:498-499 | a new tracker has no actions |
| Tracker.RateLimitTracker.AddAction | twitter_bot/utils.py:501-508 | appends exactly one (type, timestamp) entry, the timestamp defaulting to now |
| Tracker.RateLimitTracker.ActionsInPeriod | twitter_bot/utils.py:510-525 | the count is the number of positions whose entry is strictly newer than now − hours and of the type when a non-empty type is given |
| Tracker.RateLimitTracker.CleanupOldActions | twitter_bot/utils.py:527-533 | the new list is the old one filtered to entries strictly newer than now − days, in order |
| Tracker.CountIsIndexCount | twitter_bot/utils.py:510-525 | the recursive count equals the number of qualifying positions |
| Tracker.KeepNewerMembers | twitter_bot/utils.py:527-533 | an entry survives cleanup exactly when it was present and is newer than the cutoff |
| Tracker.KeepNewerIdempotent | twitter_bot/utils.py:527-533 | cleaning up twice with one cutoff is cleaning once |
| Tracker.KeepNewerAppend | twitter_bot/utils.py:527-533 | cleanup distributes over concatenation |
| Tracker.CountAppend | twitter_bot/utils.py:510-525 | counts add over concatenation |
| Tracker.AddActionCount | twitter_bot/utils.py:501-525 | adding an entry raises a count by one exactly when the entry is in that window and of that type |
| Tracker.TypedAtMostAll | twitter_bot/utils.py:519-523 | a typed count never exceeds the untyped one |
| Tracker.CountMonotone | twitter_bot/utils.py:512-517 | a longer period counts at least as many entries |
| Tracker.CleanupKeepsCounts | twitter_bot/utils.py:510-533 | cleaning up with an older cutoff leaves every count over a newer window unchanged |
| Tracker.CleanupKeepsWindowCounts | twitter_bot/utils.py:510-533 | cleaning up `days` back never changes a count over at most that many hours |
| History.AppendedKeepsNewest | twitter_bot/rate_limiter.py:48 | appending to the bounded deque keeps the newest 10000 entries of history + [a]; the length grows by one until full |
| History.NewestAppend | twitter_bot/rate_limiter.py:48 | bounding then appending equals appending then bounding |
| History.CountWithinIsIndexCount | twitter_bot/rate_limiter.py:192-211 | the window count is the number of positions strictly newer than the cutoff (and of the type, when one is given) |
| History.TypedCountAtMostTotal | twitter_bot/rate_limiter.py:206-209 | a typed count never exceeds the untyped count |
| History.CountWithinMonotone | twitter_bot/rate_limiter.py:203-207 | an earlier cutoff counts at least as many entries |
| History.HourAtMostDay | twitter_bot/rate_limiter.py:274-280 | the last-hour count never exceeds the last-day count |
| History.CountWithinSnoc | twitter_bot/rate_limiter.py:206-209 | a new entry adds one to exactly the windows it falls in |
| History.CountWithinAppend | twitter_bot/rate_limiter.py:206-209 | counts add over concatenation |
| History.AdmittedCapHolds | twitter_bot/rate_limiter.py:273-302 | a history whose every entry was let in under a cap holds at most cap entries in any such window ending at or after its newest entry |
| History.AdmittedSnoc | twitter_bot/rate_limiter.py:343 | appending an entry that passes the cap keeps the history admitted |
| History.AdmittedDropOldest | twitter_bot/rate_limiter.py:48 | evicting the oldest entry keeps the history admitted |
| History.AdmittedAppended | twitter_bot/rate_limiter.py:343 | the bounded append of a passing entry keeps the history admitted |
| History.KindSuccesses | twitter_bot/rate_limiter.py:587-591 | a type's successes never exceed its entries |
| History.TalliesCount | twitter_bot/rate_limiter.py:577-591 | the by-type table has a row for exactly the types present, each counting the type's entries, successes and failures |
| History.FirstMalformed | twitter_bot/rate_limiter.py:86-92 | the index of the first non-mapping element: all earlier ones are mappings |
| History.LoadActions | twitter_bot/rate_limiter.py:77-104 | the load loop and filter compute the loaded history: timestamped entries appended to the bounded deque, cut to the last 7 days, or kept unfiltered when a malformed element aborts the load |
| History.AccumulatedIsNewest | twitter_bot/rate_limiter.py:86-92 | the deque after loading holds the newest 10000 timestamped entries |
| History.KeepRecentMembers | twitter_bot/rate_limiter.py:94-99 | an entry survives the 7-day filter exactly when it is present and strictly newer than the cutoff |
| History.LoadKeepsLastWeek | twitter_bot/rate_limiter.py:77-104 | a well-formed log of at most 10000 entries loads exactly its timestamped entries of the last seven days, in log order |
| History.LoadStopsAtMalformed | twitter_bot/rate_limiter.py:77-104 | a malformed element ends the load with the earlier timestamped entries kept, unfiltered |
| Pacing.AnyQuietIff | twitter_bot/rate_limiter.py:469-481 | quiet exactly when some period holds the hour; a period with start > end wraps midnight, both ends inclusive |
| Pacing.DefaultQuietHours | twitter_bot/rate_limiter.py:135-138 | with the default periods the quiet hours are exactly 23, 0 to 6, 12 and 13 |
| Pacing.QuietSkipNeedsQuietHour | twitter_bot/rate_limiter.py:304-319 | random suppression happens only in a quiet hour, and never when every draw is at least 0.7 |
| Pacing.NightBranchIsDead | twitter_bot/rate_limiter.py:155-164 | no hour gets 0.3; hours 0 to 5 and 23 get 1.0 |
| Pacing.HourWeightBounds | twitter_bot/rate_limiter.py:154-168 | with a draw in [0,1) each hour's multiplier lies in [0.64, 2.16) |
| Pacing.GenerateDailyPattern | twitter_bot/rate_limiter.py:145-170 | 24 values, hour h's being its table entry times 0.8 + 0.4·draw |
| Pacing.Activity | twitter_bot/rate_limiter.py:172-190 | with a reduction in [0,1] the multiplier lies in [0, 1.5·pattern], and equals the pattern on a weekday without burst |
| Pacing.LoadFactor | twitter_bot/rate_limiter.py:229-237 | the factor is 0.7, 1.0 or 1.5; a positive cap reached gives 1.5, an empty last hour under a positive cap gives 0.7 |
| Pacing.LoadFactorMonotone | twitter_bot/rate_limiter.py:229-237 | more recent actions never lower the load factor |
| Pacing.LoadFactorBoundaries | twitter_bot/rate_limiter.py:229-237 | strict comparisons: with a cap of 10, exactly 8 and exactly 2 give 1.0; with 12, 10+ give 1.5 and 2− give 0.7 |
| Pacing.DynamicDelay | twitter_bot/rate_limiter.py:213-250 | the range is clamped to minimum ≥ 10 s and maximum ≤ 1800 s; each end is its clamp or the configured end times load factor·(2 − activity) |
| Pacing.DelayShrinksWithActivity | twitter_bot/rate_limiter.py:239-248 | higher activity never lengthens either end |
| Pacing.DelayGrowsWithLoad | twitter_bot/rate_limiter.py:228-248 | more recent actions never shorten either end while activity is at most 2 |
| Pacing.InvertedDelayRange | twitter_bot/rate_limiter.py:239-248 | an evening hour with draw 0.9 has activity above 2, and its range has a negative maximum below the 10 s minimum |
| Pacing.ErrorDelay | twitter_bot/rate_limiter.py:386-394 | zero errors give the configured range; a non-negative end is never shortened |
| Pacing.ErrorDelayGrows | twitter_bot/rate_limiter.py:389-394 | more errors lengthen both ends; an ordered range stays ordered |
| Pacing.ErrorDelayExample | twitter_bot/rate_limiter.py:389-394 | three errors turn the default 900–1800 s into 2250–4500 s |
| Pacing.ErrorsAfterCheck | twitter_bot/rate_limiter.py:263-271 | the streak is kept during a cooldown and below 5, and otherwise restarts, including when no error time is set |
| RateLimiting.RateLimiter.constructor | twitter_bot/rate_limiter.py:27-75 | the limiter starts with the loaded history, no errors, no burst, the default quiet periods and the jittered pattern |
| RateLimiting.RateLimiter.ActivityMultiplier | twitter_bot/rate_limiter.py:172-190 | for the hour's pattern value p and a reduction in [0,1] the multiplier lies in [0, 1.5·p]; on a weekday (or without weekend mode) and without burst it is p |
| RateLimiting.RateLimiter.IsInQuietPeriod | twitter_bot/rate_limiter.py:469-481 | quiet exactly when some period holds the current hour; with the default periods, at hours 23, 0 to 6, 12 and 13 |
| RateLimiting.RateLimiter.WaitAfterErrorRange | twitter_bot/rate_limiter.py:386-394 | the configured after-error range while there is no streak; never shorter at a non-negative end |
| RateLimiting.RateLimiter.CountInTimeframe | twitter_bot/rate_limiter.py:192-211 | the loop computes the window count over the history |
| RateLimiting.RateLimiter.CalculateDynamicDelay | twitter_bot/rate_limiter.py:213-250 | the range for the current activity and last-hour count, within [10, 1800] |
| RateLimiting.RateLimiter.CanPerformAction | twitter_bot/rate_limiter.py:252-323 | answers the permission predicate; a cooldown leaves the state unchanged, and otherwise a streak of 5 or more is reset; nothing else changes |
| RateLimiting.RateLimiter.RecordAction | twitter_bot/rate_limiter.py:325-361 | appends one (type, success, now, metadata) entry; a failure adds one to the streak and stamps it, a success clears both; saves exactly when the new length is a multiple of 10 |
| RateLimiting.RateLimiter.GetRateLimitStatus | twitter_bot/rate_limiter.py:407-467 | used/limit/remaining per window, or nothing when a limit is 0 |
| RateLimiting.RateLimiter.GetNextActionTime | twitter_bot/rate_limiter.py:483-528 | runs the permission check (with its state change), then reports the blocking limit's time |
| RateLimiting.RateLimiter.ResetErrorCount | twitter_bot/rate_limiter.py:530-534 | clears the streak and its time, nothing else |
| RateLimiting.RateLimiter.SetBurstMode | twitter_bot/rate_limiter.py:536-544 | sets the burst flag, nothing else |
| RateLimiting.RateLimiter.GetStatistics | twitter_bot/rate_limiter.py:555-591 | session length formatted, total, last-hour and last-day counts, the by-type tallies and the status report |
| RateLimiting.CountByType | twitter_bot/rate_limiter.py:577-591 | the by-type loop computes the tallies: per type, its entries, successes and failures |
| RateLimiting.RefusalReasons | twitter_bot/rate_limiter.py:263-302 | a cooldown, a full day or a full hour refuses; types other than like, reply and retweet skip the per-type cap |
| RateLimiting.AllClearPermits | twitter_bot/rate_limiter.py:263-319 | no cooldown, all counts under their limits and no quiet hour: permitted whatever the draws |
| RateLimiting.SaveCadence | twitter_bot/rate_limiter.py:354-356 | once the history is full every record saves; before that, exactly every tenth |
| RateLimiting.RecordCounts | twitter_bot/rate_limiter.py:336-343 | while the deque is not full, a record made now adds one to every window of positive length whose type it matches, and nothing to the others |
| RateLimiting.PermittedRecordKeepsCaps | twitter_bot/rate_limiter.py:273-302 | recording an action permitted earlier keeps the daily, hourly and per-type caps admitted |
| RateLimiting.CapsHold | twitter_bot/rate_limiter.py:273-302 | over a history of permitted actions no trailing day or hour exceeds its limit and no type its hourly cap |
| RateLimiting.NextActionTimeSpec | twitter_bot/rate_limiter.py:493-524 | None exactly when permitted; otherwise strictly after now and within a day: the first 06:00 after now for the daily limit; else the first whole hour after now, at most an hour away, for the hourly limit or a like over the like cap; else now plus 30 minutes |
| RateLimiting.MonotoneUnderAppend | twitter_bot/rate_limiter.py:273-302 | while the deque has room, limits met after one more entry were met before it: recording never turns a refusal into a permission |
| RateLimiting.EvictionLowersCount | twitter_bot/rate_limiter.py:48 | once the deque is full, appending an entry outside a window evicts the oldest; if that one was inside, the count drops by one |
| RateLimiting.StatusMatchesLimits | twitter_bot/rate_limiter.py:424-455 | nothing exactly when a limit is 0; otherwise the day, hour and own-type allowances are all positive exactly when the limits let the action through |

## Left out

- Reading and writing files is not modelled: `load_json_file`, `save_json_file`, `_save_actions_history` and `__del__`. The saved `actions` list is a parameter, parsed into entries that carry an optional timestamp, and a save is a returned flag.
- `datetime.fromisoformat` is not modelled: a timestamp is already a number of seconds, or missing. A timezone-aware timestamp, which would make the naive comparisons raise, is not modelled.
- Microseconds are not modelled: the clock counts whole seconds.
- Sleeping, `human_like_delay`, `random_delay`, `wait_before_action` and the delay sampled by `random.uniform` are not modelled. The models return the range a delay is drawn from. `wait_after_error` is modelled by that range only (`Pacing.ErrorDelay`, `RateLimiting.RateLimiter.WaitAfterErrorRange`).
- The random number generator is not modelled: draws are parameters. `CanPerformAction` takes one coin per quiet period and looks only at those for periods that hold the hour. Since each `random.random()` call is independent, this is the same as drawing them on demand.
- The timer thread of `enable_burst_mode` is not modelled: burst mode is a flag set or cleared by `SetBurstMode`.
- Reading settings out of the nested configuration dictionary is not modelled: the constructor takes a `Config`, and `Pacing.DefaultConfig` holds the defaults the code falls back on.
- Floating point is not modelled: multipliers are exact reals, so IEEE rounding (for instance in `int(1.15 * 1000)`) is not reproduced.
- Engagement.ReadCompactMeaning: `float()` is modelled on plain decimal literals only, so its promise is weaker than the code on other literals. In the code an exponent parses ("1e3" reads as 1000), while the model reads it as unparsable and returns 0. `float("inf")` (also behind a suffix, as in "infK") or an exponent that overflows (as in "1e400") makes `int()` raise an `OverflowError` that nothing catches (twitter_bot/utils.py:216-217 and 223); the model returns 0 there too. `nan` and underscores in a literal also read as unparsable.
- Characters are ASCII-only: `\w`, `\d`, `lower()` and `upper()` cover ASCII letters and digits only. Whitespace is what `str.isspace` accepts.
- The percentages, `success_rate`, `average_actions_per_hour` and the `last_error_time` ISO text of the reports are not modelled. A zero limit's division by zero is modelled as the empty report.
- Missing `type`, `success` or `timestamp` keys in loaded entries are not modelled, nor the `except` fallbacks they would reach in later calls.
- The unused `daily_counts` and `hourly_counts` dictionaries are not modelled, nor the module-level `rate_tracker` instance.
- RateLimiting.MonotoneUnderAppend: holds only while the deque has room. Once 10000 entries are held, the append evicts the oldest, and a refusal can turn into a permission (RateLimiting.EvictionLowersCount shows the count dropping).
- Default arguments are not modelled: `record_action(success=True)`, `cleanup_old_actions(days=7)`, `get_actions_in_period(action_type=None)` and `enable_burst_mode(duration_minutes=30)`. Callers pass every argument; `None` is `Option.None`.
- Retry.RetryWithBackoff: `func` is a function of the attempt number, so side effects between calls are not modelled. `raise None` with a negative `max_retries` is the error result `Failed(None)`.
- Logging, the browser automation modules, the orchestration loop, `setup_logging`, `get_system_info`, `validate_url`, `calculate_weighted_choice` and `get_random_user_agent` are not part of this model.
