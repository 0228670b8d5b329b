/**
 * The two renderings of a session's length: the long form of the user
 * record's `sessionDuration` virtual ("1 hour 5 minutes") and the short form
 * of the admin user list ("1h 5m"). Both start from whole minutes,
 * `Math.floor(ms / 1000 / 60)`, which on integer milliseconds is the floor
 * division `ms / 60000`.
 */
module Duration {
  import opened Wrappers
  import opened Text

  const MsPerMinute: int := 60000

  function WholeMinutes(ms: int): int {
    ms / MsPerMinute
  }

  function HourUnit(hours: int): string {
    if hours > 1 then "hours" else "hour"
  }

  function MinuteUnit(minutes: int): string {
    if minutes != 1 then "minutes" else "minute"
  }

  /** The long form: "H hour[s] M minute[s]" from one hour on, else "N minute[s]". */
  function LongDuration(ms: int): string {
    var minutes := WholeMinutes(ms);
    var hours := minutes / 60;
    if hours > 0 then
      var remaining := minutes % 60;
      IntToString(hours) + " " + HourUnit(hours) + " " + IntToString(remaining) + " " + MinuteUnit(remaining)
    else
      IntToString(minutes) + " " + MinuteUnit(minutes)
  }

  /** The short form: "Hh Mm" from one hour on, else "Mm". */
  function ShortDuration(ms: int): string {
    var minutes := WholeMinutes(ms);
    var hours := minutes / 60;
    if hours > 0 then IntToString(hours) + "h " + IntToString(minutes % 60) + "m"
    else IntToString(minutes) + "m"
  }

  // ---------------------------------------------------------------------------
  // Reading a rendering back. The parsers accept only well-formed renderings:
  // the unit words must agree in number with the figure before them, the
  // minute part is below 60, and an hour part is present exactly when it is
  // positive.

  /** Splits at the first space: the word before it and the text after it. */
  function SplitWord(s: string): (string, string) {
    if s == [] then ([], [])
    else if s[0] == ' ' then ([], s[1..])
    else
      var (w, rest) := SplitWord(s[1..]);
      ([s[0]] + w, rest)
  }

  predicate NoBlank(w: string) {
    forall k :: 0 <= k < |w| ==> w[k] != ' '
  }

  lemma {:induction false} SplitWordAt(w: string, rest: string)
    requires NoBlank(w)
    ensures SplitWord(w + " " + rest) == (w, rest)
    ensures SplitWord(w) == (w, [])
  {
    if w != [] {
      SplitWordAt(w[1..], rest);
      assert (w + " " + rest)[1..] == w[1..] + " " + rest;
      assert [w[0]] + w[1..] == w;
    }
  }

  lemma NumeralNoBlank(i: int)
    ensures NoBlank(IntToString(i))
  {
  }

  function ParseLongDuration(s: string): Option<int> {
    var (first, r1) := SplitWord(s);
    var (unit1, r2) := SplitWord(r1);
    var n := ParseInt(first);
    if n.None? then None
    else if r2 == [] then
      if n.value < 60 && unit1 == MinuteUnit(n.value) then Some(n.value) else None
    else
      var (second, unit2) := SplitWord(r2);
      var m := ParseInt(second);
      if n.value > 0 && unit1 == HourUnit(n.value) && m.Some? && 0 <= m.value < 60
         && unit2 == MinuteUnit(m.value)
      then Some(60 * n.value + m.value)
      else None
  }

  function ParseShortDuration(s: string): Option<int> {
    var (first, rest) := SplitWord(s);
    if rest == [] then
      if |first| > 1 && first[|first| - 1] == 'm' then
        var n := ParseInt(first[..|first| - 1]);
        if n.Some? && n.value < 60 then n else None
      else None
    else if |first| > 1 && first[|first| - 1] == 'h' && |rest| > 1 && rest[|rest| - 1] == 'm' then
      var h := ParseInt(first[..|first| - 1]);
      var m := ParseInt(rest[..|rest| - 1]);
      if h.Some? && h.value > 0 && m.Some? && 0 <= m.value < 60 then Some(60 * h.value + m.value) else None
    else None
  }

  /**
   * The long form is unambiguous and grammatical: it reads back as the whole
   * number of minutes it was rendered from, which the parser only accepts
   * when "hour" is singular exactly for one hour and "minute" exactly for one
   * minute.
   */
  lemma LongDurationRoundTrip(ms: int)
    ensures ParseLongDuration(LongDuration(ms)) == Some(WholeMinutes(ms))
  {
    if WholeMinutes(ms) / 60 > 0 {
      HoursReadBack(ms);
    } else {
      MinutesReadBack(ms);
    }
  }

  lemma HoursReadBack(ms: int)
    requires WholeMinutes(ms) / 60 > 0
    ensures ParseLongDuration(LongDuration(ms)) == Some(WholeMinutes(ms))
  {
    var minutes := WholeMinutes(ms);
    var hours := minutes / 60;
    var remaining := minutes % 60;
    var h, hu, m, mu := IntToString(hours), HourUnit(hours), IntToString(remaining), MinuteUnit(remaining);
    NumeralNoBlank(hours);
    NumeralNoBlank(remaining);
    IntToStringRoundTrip(hours);
    IntToStringRoundTrip(remaining);
    var s := LongDuration(ms);
    var r2 := m + " " + mu;
    var r1 := hu + " " + r2;
    assert s == h + " " + r1;
    SplitWordAt(h, r1);
    SplitWordAt(hu, r2);
    SplitWordAt(m, mu);
    assert r2 != [];
    assert 60 * hours + remaining == minutes;
  }

  lemma MinutesReadBack(ms: int)
    requires WholeMinutes(ms) / 60 <= 0
    ensures ParseLongDuration(LongDuration(ms)) == Some(WholeMinutes(ms))
  {
    var minutes := WholeMinutes(ms);
    var n, nu := IntToString(minutes), MinuteUnit(minutes);
    NumeralNoBlank(minutes);
    IntToStringRoundTrip(minutes);
    var s := LongDuration(ms);
    assert s == n + " " + nu;
    SplitWordAt(n, nu);
    SplitWordAt(nu, []);
  }

  /** The short form reads back as the whole number of minutes too. */
  lemma ShortDurationRoundTrip(ms: int)
    ensures ParseShortDuration(ShortDuration(ms)) == Some(WholeMinutes(ms))
  {
    if WholeMinutes(ms) / 60 > 0 {
      ShortHoursReadBack(ms);
    } else {
      ShortMinutesReadBack(ms);
    }
  }

  lemma ShortHoursReadBack(ms: int)
    requires WholeMinutes(ms) / 60 > 0
    ensures ParseShortDuration(ShortDuration(ms)) == Some(WholeMinutes(ms))
  {
    var minutes := WholeMinutes(ms);
    var hours := minutes / 60;
    var h, m := IntToString(hours) + "h", IntToString(minutes % 60) + "m";
    NumeralNoBlank(hours);
    NumeralNoBlank(minutes % 60);
    IntToStringRoundTrip(hours);
    IntToStringRoundTrip(minutes % 60);
    assert NoBlank(h);
    assert ShortDuration(ms) == h + " " + m;
    SplitWordAt(h, m);
    assert h[..|h| - 1] == IntToString(hours);
    assert m[..|m| - 1] == IntToString(minutes % 60);
  }

  lemma ShortMinutesReadBack(ms: int)
    requires WholeMinutes(ms) / 60 <= 0
    ensures ParseShortDuration(ShortDuration(ms)) == Some(WholeMinutes(ms))
  {
    var minutes := WholeMinutes(ms);
    var n := IntToString(minutes) + "m";
    NumeralNoBlank(minutes);
    IntToStringRoundTrip(minutes);
    assert NoBlank(n);
    SplitWordAt(n, []);
    assert n[..|n| - 1] == IntToString(minutes);
  }

  /**
   * The long form from 60 minutes on: an hour part, with "hour" singular
   * exactly for one hour, then the minutes left over, with "minute" singular
   * exactly when one is left.
   */
  lemma LongDurationWithHours(ms: int)
    requires WholeMinutes(ms) >= 60
    ensures LongDuration(ms) ==
      IntToString(WholeMinutes(ms) / 60) + (if WholeMinutes(ms) / 60 == 1 then " hour " else " hours ")
      + IntToString(WholeMinutes(ms) % 60) + (if WholeMinutes(ms) % 60 == 1 then " minute" else " minutes")
  {
    var m := WholeMinutes(ms);
    var h, r := m / 60, m % 60;
    assert h > 0;
    var a, hu, b, mu := IntToString(h), HourUnit(h), IntToString(r), MinuteUnit(r);
    assert LongDuration(ms) == a + " " + hu + " " + b + " " + mu;
    assert a + " " + hu + " " + b + " " + mu == a + (" " + hu + " ") + b + (" " + mu);
    assert " " + hu + " " == if h == 1 then " hour " else " hours ";
    assert " " + mu == if r == 1 then " minute" else " minutes";
  }

  /**
   * The long form below 60 minutes, negative lengths included: only a minute
   * count, with "minute" singular exactly when the count is 1.
   */
  lemma LongDurationMinutesOnly(ms: int)
    requires WholeMinutes(ms) < 60
    ensures LongDuration(ms) ==
      IntToString(WholeMinutes(ms)) + (if WholeMinutes(ms) == 1 then " minute" else " minutes")
  {
    assert WholeMinutes(ms) / 60 <= 0;
  }

  /** 65 minutes: one hour, singular, and the five minutes left over. */
  lemma LongDurationSixtyFiveMinutes()
    ensures LongDuration(65 * MsPerMinute) == "1 hour 5 minutes"
  {
    assert WholeMinutes(65 * MsPerMinute) == 65;
    assert IntToString(1) == "1" by { assert DigitChar(1) == '1'; }
    assert IntToString(5) == "5" by { assert DigitChar(5) == '5'; }
    assert LongDuration(65 * MsPerMinute) == "1" + " " + "hour" + " " + "5" + " " + "minutes";
  }

  /** 60 minutes: the hour part is present and the minute part reads 0. */
  lemma LongDurationSixtyMinutes()
    ensures LongDuration(60 * MsPerMinute) == "1 hour 0 minutes"
  {
    assert WholeMinutes(60 * MsPerMinute) == 60;
    assert IntToString(1) == "1" by { assert DigitChar(1) == '1'; }
    assert IntToString(0) == "0" by { assert DigitChar(0) == '0'; }
    assert LongDuration(60 * MsPerMinute) == "1" + " " + "hour" + " " + "0" + " " + "minutes";
  }

  /** 120 minutes: "hours" is plural from two hours on. */
  lemma LongDurationTwoHours()
    ensures LongDuration(120 * MsPerMinute) == "2 hours 0 minutes"
  {
    assert WholeMinutes(120 * MsPerMinute) == 120;
    assert IntToString(2) == "2" by { assert DigitChar(2) == '2'; }
    assert IntToString(0) == "0" by { assert DigitChar(0) == '0'; }
    assert LongDuration(120 * MsPerMinute) == "2" + " " + "hours" + " " + "0" + " " + "minutes";
  }

  lemma LongDurationMinuteExamples()
    ensures LongDuration(MsPerMinute) == "1 minute"
    ensures LongDuration(0) == "0 minutes"
    ensures LongDuration(-1) == "-1 minutes"
  {
    assert IntToString(0) == "0" by { assert DigitChar(0) == '0'; }
    assert IntToString(1) == "1" by { assert DigitChar(1) == '1'; }
    assert IntToString(-1) == "-1" by { assert NatToString(1) == "1" by { assert DigitChar(1) == '1'; } }
    assert WholeMinutes(MsPerMinute) == 1;
    assert WholeMinutes(0) == 0;
    assert WholeMinutes(-1) == -1;
  }

  lemma ShortDurationExamples()
    ensures ShortDuration(65 * MsPerMinute) == "1h 5m"
    ensures ShortDuration(59 * MsPerMinute) == "59m"
  {
    assert IntToString(1) == "1" by { assert DigitChar(1) == '1'; }
    assert IntToString(5) == "5" by { assert DigitChar(5) == '5'; }
    assert IntToString(59) == "59" by {
      assert NatToString(5) == "5" by { assert DigitChar(5) == '5'; }
      assert DigitChar(9) == '9';
    }
    assert WholeMinutes(65 * MsPerMinute) == 65;
    assert WholeMinutes(59 * MsPerMinute) == 59;
  }
}
