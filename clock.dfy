/** Times of day as the plugin writes and reads them: the `HH:MM` check that
    `cmd_schedule_push` applies to what the administrator typed, and the
    zero-padded `strftime("%H:%M")` text the listener compares tasks against. */
module Clock {
  import opened Text

  datatype TimeOfDay = TimeOfDay(hour: int, minute: int)

  /** The time check of `cmd_schedule_push`: `hour, minute = map(int, s.split(":"))`
      followed by the range test; `None` where the handler answers "wrong time format". */
  function ParseClock(s: string): (r: Option<TimeOfDay>)
    ensures r.Some? ==> 0 <= r.value.hour < 24 && 0 <= r.value.minute < 60
    ensures r.Some? ==> multiset(s)[':'] == 1
  {
    var parts := Split(s, ':');
    SplitCount(s, ':');
    if |parts| != 2 then None
    else
      match (ParseInt(parts[0]), ParseInt(parts[1]))
      case (Some(h), Some(m)) =>
        if 0 <= h < 24 && 0 <= m < 60 then Some(TimeOfDay(h, m)) else None
      case _ => None
  }

  /** `strftime("%H:%M")`: two digits of hour, a colon, two digits of minute. */
  function Format(hour: int, minute: int): (r: string)
    requires 0 <= hour < 24 && 0 <= minute < 60
    ensures |r| == 5 && r[2] == ':'
  {
    TwoDigits(hour) + [':'] + TwoDigits(minute)
  }

  function TwoDigits(n: int): (r: string)
    requires 0 <= n < 100
    ensures |r| == 2 && IsDigit(r[0]) && IsDigit(r[1])
  {
    [DigitChar(n / 10), DigitChar(n % 10)]
  }

  /** `int()` reads two zero-padded digits back as their value. */
  lemma ParseTwoDigits(n: int)
    requires 0 <= n < 100
    ensures ParseInt(TwoDigits(n)) == Some(n)
  {
    TwoDigitsValue(n);
    ParseDigits(TwoDigits(n));
  }

  /** The two padded digits denote the number they pad. */
  lemma TwoDigitsValue(n: int)
    requires 0 <= n < 100
    ensures DigitsValue(TwoDigits(n)) == n
  {
    var r := TwoDigits(n);
    DigitsValuePair(r[0], r[1]);
    assert r == [r[0], r[1]];
  }

  /** Every clock reading the listener produces passes the schedule check as the same time. */
  lemma {:induction false} ParseFormat(hour: int, minute: int)
    requires 0 <= hour < 24 && 0 <= minute < 60
    ensures ParseClock(Format(hour, minute)) == Some(TimeOfDay(hour, minute))
  {
    var hh, mm := TwoDigits(hour), TwoDigits(minute);
    assert Join([hh, mm], ':') == Format(hour, minute);
    assert ':' !in hh && ':' !in mm;
    SplitJoin([hh, mm], ':');
    ParseTwoDigits(hour);
    ParseTwoDigits(minute);
  }

  /** Distinct minutes of the day read differently on the clock. */
  lemma FormatInjective(h1: int, m1: int, h2: int, m2: int)
    requires 0 <= h1 < 24 && 0 <= m1 < 60 && 0 <= h2 < 24 && 0 <= m2 < 60
    ensures Format(h1, m1) == Format(h2, m2) <==> h1 == h2 && m1 == m2
  {
    ParseFormat(h1, m1);
    ParseFormat(h2, m2);
  }

  /** An accepted time string matches some clock reading exactly when it is written in
      the canonical zero-padded form of the time it denotes; any other accepted spelling
      ("9:00", " 09:00", "9:0", "+9:00") matches no reading at all. */
  lemma FiresIffCanonical(s: string)
    requires ParseClock(s).Some?
    ensures var t := ParseClock(s).value;
      (exists h, m :: 0 <= h < 24 && 0 <= m < 60 && Format(h, m) == s) <==> s == Format(t.hour, t.minute)
  {
    var t := ParseClock(s).value;
    if s == Format(t.hour, t.minute) {
      assert 0 <= t.hour < 24 && 0 <= t.minute < 60 && Format(t.hour, t.minute) == s;
    }
    forall h, m | 0 <= h < 24 && 0 <= m < 60 && Format(h, m) == s
      ensures s == Format(t.hour, t.minute)
    {
      ParseFormat(h, m);
    }
  }

  /** An hour below ten typed without its leading zero ("9:00") passes the schedule check
      as the same time as its zero-padded spelling ("09:00"), but no clock reading is
      ever equal to it. */
  lemma UnpaddedHourAccepted(hour: int, minute: int)
    requires 0 <= hour < 10 && 0 <= minute < 60
    ensures var typed := [DigitChar(hour)] + [':'] + TwoDigits(minute);
      && ParseClock(typed) == Some(TimeOfDay(hour, minute))
      && ParseClock(Format(hour, minute)) == Some(TimeOfDay(hour, minute))
      && forall h, m :: 0 <= h < 24 && 0 <= m < 60 ==> Format(h, m) != typed
  {
    ParseFormat(hour, minute);
    ParseOneDigit(DigitChar(hour));
    ParseTwoDigits(minute);
    ParseClockParts([DigitChar(hour)], TwoDigits(minute), hour, minute);
  }

  /** Whatever spelling `int()` accepts for the two pieces (padding, a sign, underscores,
      missing or extra leading zeros: " 09:00", "+9:0", "9:00"), the schedule check reads
      the time those literals denote, as long as it is in range. */
  lemma SpelledTimeAccepted(pre1: string, sign1: string, body1: string, post1: string,
                            pre2: string, sign2: string, body2: string, post2: string)
    requires IsIntLiteral(pre1, sign1, body1, post1) && IsIntLiteral(pre2, sign2, body2, post2)
    requires 0 <= LiteralValue(sign1, body1) < 24 && 0 <= LiteralValue(sign2, body2) < 60
    ensures var hh, mm := pre1 + sign1 + body1 + post1, pre2 + sign2 + body2 + post2;
      ParseClock(hh + [':'] + mm) == Some(TimeOfDay(LiteralValue(sign1, body1), LiteralValue(sign2, body2)))
  {
    var hh, mm := pre1 + sign1 + body1 + post1, pre2 + sign2 + body2 + post2;
    ParseIntLiteral(pre1, sign1, body1, post1);
    ParseIntLiteral(pre2, sign2, body2, post2);
    LiteralHasNoColon(pre1, sign1, body1, post1);
    LiteralHasNoColon(pre2, sign2, body2, post2);
    ParseClockParts(hh, mm, LiteralValue(sign1, body1), LiteralValue(sign2, body2));
  }

  /** The check applied to `hh + ":" + mm` for colon-free parts. */
  lemma ParseClockParts(hh: string, mm: string, h: int, m: int)
    requires ':' !in hh && ':' !in mm
    requires ParseInt(hh) == Some(h) && ParseInt(mm) == Some(m)
    requires 0 <= h < 24 && 0 <= m < 60
    ensures ParseClock(hh + [':'] + mm) == Some(TimeOfDay(h, m))
  {
    SplitAtColon(hh, mm);
  }

  lemma SplitAtColon(hh: string, mm: string)
    requires ':' !in hh && ':' !in mm
    ensures Split(hh + [':'] + mm, ':') == [hh, mm]
  {
    assert Join([hh, mm], ':') == hh + [':'] + mm;
    SplitJoin([hh, mm], ':');
  }

  /** An accepted time is two colon-free pieces around one colon, and its hour and minute
      are what `int()` reads from those pieces; with `ParseClockParts` the check is
      exactly "two integer pieces in range". */
  lemma ParseClockShape(s: string)
    requires ParseClock(s).Some?
    ensures var t := ParseClock(s).value;
      exists hh, mm :: ':' !in hh && ':' !in mm && s == hh + [':'] + mm
        && ParseInt(hh) == Some(t.hour) && ParseInt(mm) == Some(t.minute)
  {
    var parts := Split(s, ':');
    JoinSplit(s, ':');
    assert |parts| == 2;
    assert parts[0] in parts && parts[1] in parts;
    assert Join(parts, ':') == parts[0] + [':'] + parts[1];
  }

}
