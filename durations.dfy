/** utils.format_duration: a duration in seconds as a short human-readable string. */
module Durations {
  import opened Wrappers
  import opened Text

  /**
   * Under a minute: "<s>s"; under an hour: whole minutes "<m>m"; under a day:
   * "<h>h <m>m"; otherwise "<d>d <h>h". A negative input takes the first branch.
   * The text ends with its finest unit.
   */
  function FormatDuration(seconds: int): (r: string)
    ensures |r| >= 2 && r[|r| - 1] == (if seconds < 60 then 's' else if seconds < 86400 then 'm' else 'h')
  {
    if seconds < 60 then IntToString(seconds) + "s"
    else if seconds < 3600 then NatToString(seconds / 60) + "m"
    else if seconds < 86400 then NatToString(seconds / 3600) + "h " + NatToString((seconds % 3600) / 60) + "m"
    else NatToString(seconds / 86400) + "d " + NatToString((seconds % 86400) / 3600) + "h"
  }

  /** The resolution of the text FormatDuration writes for `seconds`. */
  function Granularity(seconds: int): int {
    if seconds < 60 then 1 else if seconds < 86400 then 60 else 3600
  }

  /**
   * Reads a duration in the shapes FormatDuration writes ("12s", "5m", "1h 1m",
   * "2d 3h") back to a number of seconds; anything else is None.
   */
  function ReadDuration(t: string): Option<int> {
    var k := SpanDigits(t);
    if k == 0 || k >= |t| then None else ReadAfterNumber(DigitsValue(t[..k]), t[k], t[k + 1..])
  }

  /** What follows the first number: its unit, then nothing or " <number><unit>". */
  function ReadAfterNumber(a: nat, unit: char, rest: string): Option<int> {
    if rest == [] then
      if unit == 's' then Some(a) else if unit == 'm' then Some(a * 60) else None
    else if (unit == 'h' || unit == 'd') && rest[0] == ' ' then ReadSecondPart(a, unit, rest[1..])
    else None
  }

  function ReadSecondPart(a: nat, unit: char, tail: string): Option<int> {
    var k := SpanDigits(tail);
    if k == 0 || k + 1 != |tail| then None
    else
      var b := DigitsValue(tail[..k]);
      if unit == 'h' && tail[k] == 'm' then Some(a * 3600 + b * 60)
      else if unit == 'd' && tail[k] == 'h' then Some(a * 86400 + b * 3600)
      else None
  }

  lemma ReadSecond(a: nat, unit: char, b: nat, unit2: char)
    requires !IsDigit(unit2)
    ensures ReadSecondPart(a, unit, NatToString(b) + [unit2]) ==
      if unit == 'h' && unit2 == 'm' then Some(a * 3600 + b * 60)
      else if unit == 'd' && unit2 == 'h' then Some(a * 86400 + b * 3600)
      else None
  {
    var e := NatToString(b);
    var tail := e + [unit2];
    SpanDigitsOfDigitsThen(e, [unit2]);
    assert tail[..|e|] == e;
    DigitsValueOfNatToString(b);
  }

  lemma ReadFirst(a: nat, rest: string)
    requires rest != [] && !IsDigit(rest[0])
    ensures ReadDuration(NatToString(a) + rest) == ReadAfterNumber(a, rest[0], rest[1..])
  {
    var d := NatToString(a);
    var t := d + rest;
    SpanDigitsOfDigitsThen(d, rest);
    assert t[..|d|] == d;
    DigitsValueOfNatToString(a);
    assert t[|d| + 1..] == rest[1..];
  }

  lemma ReadOne(a: nat, unit: char)
    requires !IsDigit(unit)
    ensures ReadDuration(NatToString(a) + [unit]) ==
      if unit == 's' then Some(a) else if unit == 'm' then Some(a * 60) else None
  {
    ReadFirst(a, [unit]);
  }

  lemma ReadTwo(t: string, a: nat, unit: char, b: nat, unit2: char)
    requires unit == 'h' || unit == 'd'
    requires !IsDigit(unit2)
    requires t == NatToString(a) + [unit] + " " + NatToString(b) + [unit2]
    ensures ReadDuration(t) ==
      if unit == 'h' && unit2 == 'm' then Some(a * 3600 + b * 60)
      else if unit == 'd' && unit2 == 'h' then Some(a * 86400 + b * 3600)
      else None
  {
    var tail := NatToString(b) + [unit2];
    var rest := [unit] + (" " + tail);
    calc {
      t;
      NatToString(a) + [unit] + " " + NatToString(b) + [unit2];
      NatToString(a) + ([unit] + (" " + (NatToString(b) + [unit2])));
    }
    ReadFirst(a, rest);
    assert rest[0] == unit && rest[1..] == " " + tail;
    ReadAfterSpace(a, unit, tail);
    ReadSecond(a, unit, b, unit2);
  }

  lemma ReadAfterSpace(a: nat, unit: char, tail: string)
    requires unit == 'h' || unit == 'd'
    ensures ReadAfterNumber(a, unit, " " + tail) == ReadSecondPart(a, unit, tail)
  {
    assert (" " + tail)[0] == ' ' && (" " + tail)[1..] == tail;
  }

  /**
   * Round trip: for a non-negative duration the text reads back to `seconds`
   * rounded down to the resolution of the text, so it never overstates the
   * duration and loses less than one unit.
   */
  lemma FormatDurationReadsBack(seconds: int)
    requires seconds >= 0
    ensures var r := ReadDuration(FormatDuration(seconds));
      && r.Some?
      && r.value <= seconds < r.value + Granularity(seconds)
      && r.value % Granularity(seconds) == 0
  {
    if seconds < 60 {
      ReadOne(seconds, 's');
    } else if seconds < 3600 {
      var m := seconds / 60;
      ReadOne(m, 'm');
      assert (m * 60) % 60 == 0;
    } else if seconds < 86400 {
      ReadsBackHours(seconds);
    } else {
      ReadsBackDays(seconds);
    }
  }

  lemma ReadsBackHours(seconds: int)
    requires 3600 <= seconds < 86400
    ensures var r := ReadDuration(FormatDuration(seconds));
      r.Some? && r.value <= seconds < r.value + 60 && r.value % 60 == 0
  {
    var h, m := seconds / 3600, (seconds % 3600) / 60;
    assert FormatDuration(seconds) == NatToString(h) + ['h'] + " " + NatToString(m) + ['m'] by {
      assert NatToString(h) + "h " == NatToString(h) + ['h'] + " ";
    }
    ReadTwo(FormatDuration(seconds), h, 'h', m, 'm');
    SplitHours(seconds, h, m);
  }

  /** Whole hours and whole minutes of the rest stay within a minute below `seconds`. */
  lemma SplitHours(seconds: int, h: int, m: int)
    requires 0 <= seconds && h == seconds / 3600 && m == (seconds % 3600) / 60
    ensures h * 3600 + m * 60 <= seconds < h * 3600 + m * 60 + 60
    ensures (h * 3600 + m * 60) % 60 == 0
  {
    assert seconds == 3600 * h + seconds % 3600;
    assert seconds % 3600 == 60 * m + (seconds % 3600) % 60;
    assert h * 3600 + m * 60 == (h * 60 + m) * 60;
  }

  /** Whole days and whole hours of the rest stay within an hour below `seconds`. */
  lemma SplitDays(seconds: int, d: int, h: int)
    requires 0 <= seconds && d == seconds / 86400 && h == (seconds % 86400) / 3600
    ensures d * 86400 + h * 3600 <= seconds < d * 86400 + h * 3600 + 3600
    ensures (d * 86400 + h * 3600) % 3600 == 0
  {
    assert seconds == 86400 * d + seconds % 86400;
    assert seconds % 86400 == 3600 * h + (seconds % 86400) % 3600;
    assert d * 86400 + h * 3600 == (d * 24 + h) * 3600;
  }

  lemma ReadsBackDays(seconds: int)
    requires 86400 <= seconds
    ensures var r := ReadDuration(FormatDuration(seconds));
      r.Some? && r.value <= seconds < r.value + 3600 && r.value % 3600 == 0
  {
    var d, h := seconds / 86400, (seconds % 86400) / 3600;
    assert FormatDuration(seconds) == NatToString(d) + ['d'] + " " + NatToString(h) + ['h'] by {
      assert NatToString(d) + "d " == NatToString(d) + ['d'] + " ";
    }
    ReadTwo(FormatDuration(seconds), d, 'd', h, 'h');
    SplitDays(seconds, d, h);
  }

  /** The text has two parts, separated by a space, exactly from an hour on. */
  lemma TwoPartsFromAnHour(seconds: int)
    ensures ' ' in FormatDuration(seconds) <==> seconds >= 3600
  {
  }

  /** The durations pinned by the smoke test: 3661 seconds is "1h 1m". */
  lemma FormatDurationExamples()
    ensures FormatDuration(3661) == "1h 1m"
    ensures FormatDuration(59) == "59s" && FormatDuration(90061) == "1d 1h"
  {
  }
}
