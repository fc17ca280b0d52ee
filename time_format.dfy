/**
 * The two readings of an "HH:MM" string in bot.py: the validation `datetime.strptime(s, "%H:%M")`
 * in `set_time`, and the `split(":")` / `int` / `CronTrigger` path of `schedule_user_job`.
 *
 * CPython's `_strptime` turns "%H:%M" into the regular expression
 *   (?P<H>2[0-3]|[0-1]\d|\d):(?P<M>[0-5]\d|\d)
 * applies it with `re.match` (anchored at the start only, alternatives tried left to right), and
 * then fails with "unconverted data remains" unless the match covers the whole string.
 */
module TimeFormat {
  import opened Common
  import opened Text

  datatype TimeOfDay = TimeOfDay(hour: nat, minute: nat)

  predicate ValidTime(t: TimeOfDay)
  {
    t.hour <= 23 && t.minute <= 59
  }

  // ---------------------------------------------------------------------------------------------
  // The regular expression, as data.

  /** A character class `[lo-hi]`; `\d` is `[0-9]`. */
  datatype CharClass = CharClass(lo: char, hi: char)

  const Digit := CharClass('0', '9')

  /** An alternative of a group: one character class per character it matches. */
  type Alternative = seq<CharClass>

  /** `2[0-3]|[0-1]\d|\d`, in the order the regex engine tries them. */
  const HourAlternatives: seq<Alternative> := [[CharClass('2', '2'), CharClass('0', '3')], [CharClass('0', '1'), Digit], [Digit]]

  /** `[0-5]\d|\d`, in the order the regex engine tries them. */
  const MinuteAlternatives: seq<Alternative> := [[CharClass('0', '5'), Digit], [Digit]]

  /** Every class of every alternative lies within the decimal digits. */
  predicate DigitsOnly(alts: seq<Alternative>)
  {
    forall i, j :: 0 <= i < |alts| && 0 <= j < |alts[i]| ==> '0' <= alts[i][j].lo && alts[i][j].hi <= '9'
  }

  /** The alternative matches the first |alt| characters of `s`. */
  predicate MatchesPrefix(s: string, alt: Alternative)
  {
    |alt| <= |s| && forall i :: 0 <= i < |alt| ==> alt[i].lo <= s[i] <= alt[i].hi
  }

  /** Length of the text that the first matching alternative consumes at the start of `s`. */
  function FirstMatch(s: string, alts: seq<Alternative>): (n: Option<nat>)
    requires DigitsOnly(alts)
    ensures n.Some? ==> n.value <= |s| && AllDigits(s[..n.value])
    ensures n.Some? <==> exists i :: 0 <= i < |alts| && MatchesPrefix(s, alts[i])
  {
    if alts == [] then None
    else if MatchesPrefix(s, alts[0]) then
      assert forall j :: 0 <= j < |alts[0]| ==> '0' <= alts[0][j].lo && alts[0][j].hi <= '9';
      Some(|alts[0]|)
    else
      var n := FirstMatch(s, alts[1..]);
      assert forall i :: 1 <= i < |alts| ==> alts[i] == alts[1..][i - 1];
      n
  }

  /** Where the hour group ends (at the ':') and where the whole match ends. */
  datatype TimeMatch = TimeMatch(hourEnd: nat, end: nat)

  /** The rest of the pattern, `:(?P<M>[0-5]\d|\d)`, after an hour group that ended at `h`. */
  function AfterHour(s: string, h: nat): (m: Option<TimeMatch>)
    ensures m.Some? ==> m.value.hourEnd == h < m.value.end <= |s| && s[h] == ':'
    ensures m.Some? ==> AllDigits(s[h + 1..m.value.end])
  {
    if h < |s| && s[h] == ':' then
      match FirstMatch(s[h + 1..], MinuteAlternatives)
      case Some(k) =>
        if 0 < k then
          assert s[h + 1..h + 1 + k] == s[h + 1..][..k];
          Some(TimeMatch(h, h + 1 + k))
        else None
      case None => None
    else None
  }

  /**
   * `re.match` of `(?P<H>alts):(?P<M>…)` at the start of `s`: the first hour alternative that the
   * rest of the pattern can follow wins; otherwise the engine backtracks to the next one.
   */
  function MatchHourThen(s: string, alts: seq<Alternative>): (m: Option<TimeMatch>)
    requires DigitsOnly(alts)
    ensures m.Some? ==> 0 < m.value.hourEnd < m.value.end <= |s| && s[m.value.hourEnd] == ':'
    ensures m.Some? ==> AllDigits(s[..m.value.hourEnd]) && AllDigits(s[m.value.hourEnd + 1..m.value.end])
  {
    if alts == [] then None
    else
      var h := |alts[0]|;
      assert DigitsOnly(alts[1..]) by {
        forall i, j | 0 <= i < |alts[1..]| && 0 <= j < |alts[1..][i]|
          ensures '0' <= alts[1..][i][j].lo && alts[1..][i][j].hi <= '9'
        {
          assert alts[1..][i] == alts[i + 1];
        }
      }
      if 0 < h && MatchesPrefix(s, alts[0]) && AfterHour(s, h).Some? then
        assert forall j :: 0 <= j < h ==> '0' <= alts[0][j].lo && alts[0][j].hi <= '9';
        AfterHour(s, h)
      else MatchHourThen(s, alts[1..])
  }

  /**
   * `datetime.strptime(s, "%H:%M")`: the time when the regex matches the whole string, None where
   * Python raises ValueError ("does not match format" or "unconverted data remains").
   */
  function Strptime(s: string): Option<TimeOfDay>
  {
    match MatchHourThen(s, HourAlternatives)
    case None => None
    case Some(m) =>
      if m.end != |s| then None
      else Some(TimeOfDay(Decimal(s[..m.hourEnd]), Decimal(s[m.hourEnd + 1..m.end])))
  }

  // ---------------------------------------------------------------------------------------------
  // What the format accepts, stated without the regex.

  /**
   * `s` is an hour of `k` digits (k is 1 or 2), a ':', and a minute of one or two digits, with the
   * hour at most 23 and the minute at most 59.
   */
  predicate TimeLiteral(s: string, k: nat)
  {
    && 1 <= k <= 2
    && k + 2 <= |s| <= k + 3
    && s[k] == ':'
    && AllDigits(s[..k])
    && AllDigits(s[k + 1..])
    && Decimal(s[..k]) <= 23
    && Decimal(s[k + 1..]) <= 59
  }

  /** The time a literal denotes. */
  function LiteralTime(s: string, k: nat): TimeOfDay
    requires TimeLiteral(s, k)
  {
    TimeOfDay(Decimal(s[..k]), Decimal(s[k + 1..]))
  }

  /** A one- or two-digit field: its value, through the digit values. */
  lemma SmallDecimal(t: string)
    requires 1 <= |t| <= 2 && AllDigits(t)
    ensures |t| == 1 ==> Decimal(t) == DigitValue(t[0])
    ensures |t| == 2 ==> Decimal(t) == 10 * DigitValue(t[0]) + DigitValue(t[1])
  {
    if |t| == 1 {
      assert t[..0] == [];
    } else {
      DecimalOfTwo(t);
    }
  }

  /** The minute group matches exactly the one- or two-digit minutes up to 59, taking two digits when it can. */
  lemma MinuteGroup(t: string)
    ensures FirstMatch(t, MinuteAlternatives).Some? <==> 1 <= |t| && IsDigit(t[0])
    ensures FirstMatch(t, MinuteAlternatives) == Some(2) <==> 2 <= |t| && AllDigits(t[..2]) && Decimal(t[..2]) <= 59
    ensures FirstMatch(t, MinuteAlternatives).Some? ==> 1 <= FirstMatch(t, MinuteAlternatives).value <= 2
  {
    var alts := MinuteAlternatives;
    assert alts[1..] == [[Digit]] && alts[1..][1..] == [];
    if 2 <= |t| && AllDigits(t[..2]) {
      SmallDecimal(t[..2]);
    }
  }

  /** Facts about a string whose field after position `k` is one or two digits up to 59. */
  lemma MinuteField(s: string, k: nat)
    requires k < |s|
    ensures var t := s[k..]; var m := FirstMatch(t, MinuteAlternatives);
      (k + 1 <= |s| <= k + 2 && AllDigits(t) && Decimal(t) <= 59) <==> (m.Some? && k + m.value == |s|)
  {
    var t := s[k..];
    MinuteGroup(t);
    if |t| >= 2 {
      assert t[..2] == t[..2][..2];
      if |t| == 2 {
        assert t[..2] == t;
      }
    }
    if |t| == 1 {
      assert AllDigits(t) <==> IsDigit(t[0]);
      if IsDigit(t[0]) {
        SmallDecimal(t);
      }
    }
  }

  /** The hour group's three alternatives, tried in order. */
  lemma HourAlternativesInOrder(s: string)
    ensures MatchHourThen(s, HourAlternatives) ==
      if MatchesPrefix(s, HourAlternatives[0]) && AfterHour(s, 2).Some? then AfterHour(s, 2)
      else if MatchesPrefix(s, HourAlternatives[1]) && AfterHour(s, 2).Some? then AfterHour(s, 2)
      else if MatchesPrefix(s, HourAlternatives[2]) && AfterHour(s, 1).Some? then AfterHour(s, 1)
      else None
  {
    var h := HourAlternatives;
    assert h[1..] == [[CharClass('0', '1'), Digit], [Digit]];
    assert h[1..][1..] == [[Digit]];
    assert h[1..][1..][1..] == [];
    assert |h[0]| == 2 && |h[1]| == 2 && |h[2]| == 1;
    assert MatchHourThen(s, h[1..][1..][1..]) == None;
    assert MatchHourThen(s, h[1..][1..]) ==
      if MatchesPrefix(s, h[2]) && AfterHour(s, 1).Some? then AfterHour(s, 1) else None;
    assert MatchHourThen(s, h[1..]) ==
      if MatchesPrefix(s, h[1]) && AfterHour(s, 2).Some? then AfterHour(s, 2) else MatchHourThen(s, h[1..][1..]);
  }

  /** The two-digit alternatives `2[0-3]` and `[0-1]\d` together take exactly the two-digit hours up to 23. */
  lemma TwoDigitHour(s: string)
    ensures MatchesPrefix(s, HourAlternatives[0]) || MatchesPrefix(s, HourAlternatives[1]) <==>
      2 <= |s| && AllDigits(s[..2]) && Decimal(s[..2]) <= 23
  {
    if 2 <= |s| && AllDigits(s[..2]) {
      SmallDecimal(s[..2]);
      assert s[..2][0] == s[0] && s[..2][1] == s[1];
    }
    assert 2 <= |s| && AllDigits(s[..2]) ==> IsDigit(s[0]) && IsDigit(s[1]) by {
      if 2 <= |s| && AllDigits(s[..2]) {
        assert s[..2][0] == s[0] && s[..2][1] == s[1];
      }
    }
  }

  /** The one-digit alternative `\d` takes any single digit, whose value is at most 9. */
  lemma OneDigitHour(s: string)
    ensures MatchesPrefix(s, HourAlternatives[2]) <==> 1 <= |s| && AllDigits(s[..1])
    ensures MatchesPrefix(s, HourAlternatives[2]) ==> Decimal(s[..1]) <= 23
  {
    if 1 <= |s| {
      assert s[..1][0] == s[0];
      if IsDigit(s[0]) {
        SmallDecimal(s[..1]);
      }
    }
  }

  /** The rest of the pattern after an hour of `k` characters reaches the end exactly for a valid minute field. */
  lemma AfterHourToEnd(s: string, k: nat)
    ensures (AfterHour(s, k).Some? && AfterHour(s, k).value.end == |s|) <==>
      (k < |s| && s[k] == ':' && k + 2 <= |s| <= k + 3 && AllDigits(s[k + 1..]) && Decimal(s[k + 1..]) <= 59)
  {
    if k < |s| && s[k] == ':' {
      MinuteGroup(s[k + 1..]);
      if k + 1 < |s| {
        MinuteField(s, k + 1);
      }
    }
  }

  /** `strptime` reads a literal as the time it denotes. */
  lemma StrptimeReadsLiteral(s: string, k: nat)
    requires TimeLiteral(s, k)
    ensures Strptime(s) == Some(LiteralTime(s, k))
  {
    HourAlternativesInOrder(s);
    TwoDigitHour(s);
    OneDigitHour(s);
    AfterHourToEnd(s, k);
    assert s[k + 1..|s|] == s[k + 1..];
    if k == 1 {
      assert s[..2][1] == ':';
    } else {
      assert s[..2][1] == s[1];
      AfterHourToEnd(s, 1);
    }
  }

  /** `strptime` accepts nothing but literals. */
  lemma StrptimeOnlyLiterals(s: string)
    ensures Strptime(s).Some? ==> TimeLiteral(s, 1) || TimeLiteral(s, 2)
  {
    HourAlternativesInOrder(s);
    TwoDigitHour(s);
    OneDigitHour(s);
    AfterHourToEnd(s, 1);
    AfterHourToEnd(s, 2);
  }

  /**
   * `strptime(s, "%H:%M")` accepts exactly the literals of one- or two-digit hours up to 23 and
   * one- or two-digit minutes up to 59, and reads the time they denote.
   */
  lemma StrptimeAcceptsLiterals(s: string)
    ensures Strptime(s).Some? <==> TimeLiteral(s, 1) || TimeLiteral(s, 2)
    ensures forall k :: TimeLiteral(s, k) ==> Strptime(s) == Some(LiteralTime(s, k))
  {
    StrptimeOnlyLiterals(s);
    forall k | TimeLiteral(s, k) ensures Strptime(s) == Some(LiteralTime(s, k)) {
      StrptimeReadsLiteral(s, k);
    }
  }

  // ---------------------------------------------------------------------------------------------
  // `hour, minute = map(int, time_str.split(":"))` and `CronTrigger(hour=hour, minute=minute)`.

  /**
   * The hour and minute `schedule_user_job` builds its trigger from, None where it raises: the
   * string does not split into exactly two fields, a field is not a number, or the trigger
   * rejects an hour above 23 or a minute above 59.
   */
  function CronFields(time: string): (t: Option<TimeOfDay>)
    ensures t.Some? ==> ValidTime(t.value)
  {
    var parts := Split(time, ':');
    if |parts| != 2 then None
    else
      match (ParseInt(parts[0]), ParseInt(parts[1]))
      case (Some(h), Some(m)) => if h <= 23 && m <= 59 then Some(TimeOfDay(h, m)) else None
      case _ => None
  }

  /**
   * `s` is a non-empty run of digits, ':' at position `k`, and another non-empty run of digits,
   * of values at most 23 and 59; unlike `TimeLiteral`, the runs may be of any length.
   */
  predicate CronLiteral(s: string, k: nat)
  {
    && 0 < k < |s| - 1
    && s[k] == ':'
    && AllDigits(s[..k])
    && AllDigits(s[k + 1..])
    && Decimal(s[..k]) <= 23
    && Decimal(s[k + 1..]) <= 59
  }

  /** The trigger path reads a colon-separated pair of digit runs within range as the numbers they spell. */
  lemma CronReadsLiteral(s: string, k: nat)
    requires CronLiteral(s, k)
    ensures CronFields(s) == Some(TimeOfDay(Decimal(s[..k]), Decimal(s[k + 1..])))
  {
    assert ':' !in s[..k] && ':' !in s[k + 1..];
    assert s == s[..k] + [':'] + s[k + 1..];
    SplitAfterPiece(s[..k], ':', s[k + 1..]);
    SplitWithoutSeparator(s[k + 1..], ':');
  }

  /** The trigger path accepts nothing else: its first field ends at a ':' that makes a literal. */
  lemma CronOnlyLiterals(s: string)
    ensures CronFields(s).Some? ==> CronLiteral(s, |Split(s, ':')[0]|)
  {
    var parts := Split(s, ':');
    if CronFields(s).Some? {
      var k := |parts[0]|;
      assert parts[1..] == [parts[1]];
      assert Join(parts, ':') == parts[0] + [':'] + Join(parts[1..], ':');
      assert s == parts[0] + [':'] + parts[1];
      assert s[..k] == parts[0] && s[k + 1..] == parts[1];
    }
  }

  /**
   * The trigger path accepts exactly the colon-separated pairs of digit runs within range, and
   * reads the numbers they spell.
   */
  lemma CronFieldsAcceptsLiterals(s: string)
    ensures CronFields(s).Some? <==> exists k :: CronLiteral(s, k)
    ensures forall k: nat :: CronLiteral(s, k) ==> CronFields(s) == Some(TimeOfDay(Decimal(s[..k]), Decimal(s[k + 1..])))
  {
    forall k: nat | CronLiteral(s, k) ensures CronFields(s) == Some(TimeOfDay(Decimal(s[..k]), Decimal(s[k + 1..]))) {
      CronReadsLiteral(s, k);
    }
    CronOnlyLiterals(s);
  }

  /** Whatever `strptime` accepts, the trigger path accepts too, with the same hour and minute. */
  lemma StrptimeAgreesWithCron(s: string)
    requires Strptime(s).Some?
    ensures CronFields(s) == Strptime(s)
  {
    StrptimeOnlyLiterals(s);
    var k := if TimeLiteral(s, 1) then 1 else 2;
    StrptimeReadsLiteral(s, k);
    assert CronLiteral(s, k);
    CronReadsLiteral(s, k);
  }

  /** A time written as two digits, ':', two digits, within range, passes both readings alike. */
  lemma TwoDigitTime(s: string)
    requires |s| == 5 && s[2] == ':' && IsDigit(s[0]) && IsDigit(s[1]) && IsDigit(s[3]) && IsDigit(s[4])
    requires 10 * DigitValue(s[0]) + DigitValue(s[1]) <= 23 && 10 * DigitValue(s[3]) + DigitValue(s[4]) <= 59
    ensures Strptime(s) == Some(TimeOfDay(10 * DigitValue(s[0]) + DigitValue(s[1]), 10 * DigitValue(s[3]) + DigitValue(s[4])))
    ensures CronFields(s) == Strptime(s)
  {
    SmallDecimal(s[..2]);
    SmallDecimal(s[3..]);
    assert s[..2][0] == s[0] && s[..2][1] == s[1] && s[3..][0] == s[3] && s[3..][1] == s[4];
    assert TimeLiteral(s, 2);
    StrptimeReadsLiteral(s, 2);
    StrptimeAgreesWithCron(s);
  }

  /** The default time "10:00" that `start` registers passes both readings as ten o'clock. */
  lemma DefaultTimeAccepted()
    ensures Strptime("10:00") == Some(TimeOfDay(10, 0))
    ensures CronFields("10:00") == Some(TimeOfDay(10, 0))
  {
    TwoDigitTime("10:00");
  }

  /** "09:30" passes the validation and is scheduled at half past nine. */
  lemma HalfPastNineAccepted()
    ensures Strptime("09:30") == Some(TimeOfDay(9, 30))
    ensures CronFields("09:30") == Some(TimeOfDay(9, 30))
  {
    TwoDigitTime("09:30");
  }

  /** Without a ':' at position 1 or 2 there is no hour group, and `strptime` refuses the string. */
  lemma NoColonAfterHourRejected(s: string)
    requires !(1 < |s| && s[1] == ':') && !(2 < |s| && s[2] == ':')
    ensures Strptime(s) == None
  {
    StrptimeOnlyLiterals(s);
  }

  /** "25:00" is refused by the validation: no hour alternative followed by ':' matches "25". */
  lemma HourAboveRangeRejected()
    ensures Strptime("25:00") == None
  {
    var s := "25:00";
    assert s[..2] == "25" && s[1] != ':';
    SmallDecimal("25");
    StrptimeOnlyLiterals(s);
  }

  /** The trigger reads "007:05" as 07:05: its fields are plain decimals. */
  lemma PaddedHourScheduled()
    ensures CronFields("007:05") == Some(TimeOfDay(7, 5))
  {
    var s := "007:05";
    assert s[..3] == "007" && s[4..] == "05";
    assert "007"[..2] == "00" && "00"[..1] == "0" && "0"[..0] == [];
    SmallDecimal("05");
    CronReadsLiteral(s, 3);
  }

  /**
   * A stored time with a three-digit hour is refused by the validation but accepted by the
   * trigger path; only a time read from the users file can take that route.
   */
  lemma PaddedHourOnlyByTrigger()
    ensures Strptime("007:05") == None
    ensures CronFields("007:05") == Some(TimeOfDay(7, 5))
  {
    NoColonAfterHourRejected("007:05");
    PaddedHourScheduled();
  }
}
