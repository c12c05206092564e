/**
 * The 12-hour time the history shows for an entry: `entry.time` is split on
 * ':', both fields go through Number, and the result is printed as
 * `h:mm am` / `h:mm pm`.
 */
module Clock {
  import opened Wrappers
  import opened Decimal
  import opened Strings

  /** `hour % 12 === 0 ? 12 : hour % 12`, printed; NaN prints as "NaN". */
  function HourText(hour: Option<nat>): string
  {
    match hour
    case None => "NaN"
    case Some(h) => NatToString(if h % 12 == 0 then 12 else h % 12)
  }

  /** `minute.toString().padStart(2, "0")`. */
  function MinuteText(minute: Option<nat>): string
  {
    match minute
    case None => "NaN"
    case Some(m) => PadStart(NatToString(m), 2, '0')
  }

  /** `hour >= 12 ? "pm" : "am"`; NaN >= 12 is false. */
  function Meridiem(hour: Option<nat>): string
  {
    if hour.Some? && hour.value >= 12 then "pm" else "am"
  }

  function FormatClock(hour: Option<nat>, minute: Option<nat>): string
  {
    HourText(hour) + ":" + MinuteText(minute) + " " + Meridiem(hour)
  }

  /** The 12-hour text of an entry time. A time without ':' has no minute
      field; the history requires every time to have one, since the source
      fails there calling toString on undefined, and the NaN text given here
      for the missing field is never shown. */
  function FormatTime(time: string): string
  {
    var fields := Split(time, ':');
    FormatClock(ToNumber(fields[0]), if |fields| >= 2 then ToNumber(fields[1]) else None)
  }

  /** A printed time holds no `$`: digits, "NaN", ':', ' ', "am" and "pm". */
  lemma FormatClockIsPlain(hour: Option<nat>, minute: Option<nat>)
    ensures '$' !in FormatClock(hour, minute)
  {
    if hour.Some? {
      HourTextValue(hour.value);
      DigitsExclude(HourText(hour), '$');
    }
    if minute.Some? {
      MinuteTextValue(minute.value);
      DigitsExclude(MinuteText(minute), '$');
    }
  }

  lemma FormatTimeIsPlain()
    ensures forall t :: '$' !in FormatTime(t)
  {
    forall t
      ensures '$' !in FormatTime(t)
    {
      var fields := Split(t, ':');
      FormatClockIsPlain(ToNumber(fields[0]), if |fields| >= 2 then ToNumber(fields[1]) else None);
    }
  }

  /** Reads `h:mm am` / `h:mm pm` back into a 24-hour (hour, minute) pair. */
  function ReadTwelveHour(s: string): Option<(nat, nat)>
  {
    var fields := Split(s, ':');
    if |fields| != 2 then None
    else
      var rest := Split(fields[1], ' ');
      if |rest| != 2 then None
      else
        var h, m, suffix := fields[0], rest[0], rest[1];
        if !IsDigits(h) || |h| == 0 || !IsDigits(m) || |m| < 2 then None
        else if Value(h) < 1 || 12 < Value(h) then None
        else if suffix == "am" then Some((Value(h) % 12, Value(m)))
        else if suffix == "pm" then Some((Value(h) % 12 + 12, Value(m)))
        else None
  }

  lemma DigitsExclude(s: string, c: char)
    requires IsDigits(s) && !IsDigit(c)
    ensures c !in s
  {
  }

  /** The displayed hour is a numeral from 1 to 12 with the same remainder
      modulo 12 as the hour, without a leading zero. */
  lemma HourTextValue(h: nat)
    ensures IsDigits(HourText(Some(h))) && |HourText(Some(h))| >= 1
    ensures 1 <= Value(HourText(Some(h))) <= 12
    ensures Value(HourText(Some(h))) % 12 == h % 12
    ensures |HourText(Some(h))| > 1 ==> HourText(Some(h))[0] != '0'
  {
    ValueOfNatToString(if h % 12 == 0 then 12 else h % 12);
  }

  /** The displayed minute has at least two digits and denotes the minute. */
  lemma MinuteTextValue(m: nat)
    ensures IsDigits(MinuteText(Some(m))) && |MinuteText(Some(m))| >= 2
    ensures Value(MinuteText(Some(m))) == m
  {
    var s := NatToString(m);
    var r := MinuteText(Some(m));
    PadStartShape(s, 2, '0');
    ValueOfNatToString(m);
    if |s| < 2 {
      assert r == "0" + s;
      LeadingZeroValue(s);
    }
  }

  /** The fields of a 12-hour text are found again by splitting on ':' and ' '. */
  lemma ReadFields(hh: string, mm: string, suffix: string)
    requires IsDigits(hh) && |hh| >= 1 && 1 <= Value(hh) <= 12
    requires IsDigits(mm) && |mm| >= 2
    requires suffix == "am" || suffix == "pm"
    ensures ReadTwelveHour(hh + ":" + mm + " " + suffix)
         == Some((Value(hh) % 12 + (if suffix == "pm" then 12 else 0), Value(mm)))
  {
    assert ':' !in suffix && ' ' !in suffix;
    SplitClockText(hh, mm, suffix);
    var fields := Split(hh + ":" + mm + " " + suffix, ':');
    assert fields[0] == hh && fields[1] == mm + " " + suffix;
    var rest := Split(fields[1], ' ');
    assert rest[0] == mm && rest[1] == suffix;
  }

  lemma SplitClockText(hh: string, mm: string, suffix: string)
    requires IsDigits(hh) && IsDigits(mm) && ':' !in suffix
    ensures Split(hh + ":" + mm + " " + suffix, ':') == [hh, mm + " " + suffix]
    ensures Split(mm + " " + suffix, ' ') == [mm, suffix] || ' ' in suffix
  {
    DigitsExclude(hh, ':');
    DigitsExclude(mm, ':');
    DigitsExclude(mm, ' ');
    var tail := mm + " " + suffix;
    assert ':' !in tail;
    assert hh + ":" + mm + " " + suffix == hh + [':'] + tail;
    SplitPair(hh, tail, ':');
    if ' ' !in suffix {
      assert tail == mm + [' '] + suffix;
      SplitPair(mm, suffix, ' ');
    }
  }

  /** Reading the 12-hour text back gives the hour modulo 12, plus 12 exactly
      when the suffix is pm, and the minute. */
  lemma ReadFormatClock(h: nat, m: nat)
    ensures ReadTwelveHour(FormatClock(Some(h), Some(m)))
         == Some((h % 12 + (if h >= 12 then 12 else 0), m))
  {
    HourTextValue(h);
    MinuteTextValue(m);
    ReadFields(HourText(Some(h)), MinuteText(Some(m)), Meridiem(Some(h)));
  }

  /** For an hour of the day (0 to 23) the 12-hour text determines the time. */
  lemma TwentyFourHourRoundTrip(h: nat, m: nat)
    requires h < 24
    ensures ReadTwelveHour(FormatClock(Some(h), Some(m))) == Some((h, m))
  {
    ReadFormatClock(h, m);
    HourOfDay(h);
  }

  /** An hour of the day is its remainder modulo 12, plus 12 in the afternoon. */
  lemma HourOfDay(h: nat)
    requires h < 24
    ensures h % 12 + (if h >= 12 then 12 else 0) == h
  {
    if h >= 12 {
      assert h == 12 + (h - 12);
    }
  }

  /** A well-formed 24-hour time `HH:MM`. */
  predicate WellFormedTime(t: string)
  {
    |t| == 5 && t[2] == ':' && IsDigits(t[..2]) && IsDigits(t[3..]) &&
    Value(t[..2]) < 24 && Value(t[3..]) < 60
  }

  function Hours(t: string): nat
    requires WellFormedTime(t)
  {
    Value(t[..2])
  }

  function Minutes(t: string): nat
    requires WellFormedTime(t)
  {
    Value(t[3..])
  }

  lemma SplitWellFormedTime(t: string)
    requires WellFormedTime(t)
    ensures Split(t, ':') == [t[..2], t[3..]]
  {
    DigitsExclude(t[..2], ':');
    DigitsExclude(t[3..], ':');
    assert t == t[..2] + [':'] + t[3..];
    SplitPair(t[..2], t[3..], ':');
  }

  /** The 12-hour text of a well-formed time reads back as that time. */
  lemma FormatTimeRoundTrip(t: string)
    requires WellFormedTime(t)
    ensures ReadTwelveHour(FormatTime(t)) == Some((Hours(t), Minutes(t)))
  {
    SplitWellFormedTime(t);
    TwentyFourHourRoundTrip(Hours(t), Minutes(t));
  }

  /** Character (code-point) order on well-formed `HH:MM` times is chronological order, so
      the source's localeCompare sorts a day's entries by time of day. */
  lemma TimeOrderIsChronological(t1: string, t2: string)
    requires WellFormedTime(t1) && WellFormedTime(t2)
    ensures LexLe(t1, t2) <==> 60 * Hours(t1) + Minutes(t1) <= 60 * Hours(t2) + Minutes(t2)
  {
    assert t1 == t1[..2] + [':'] + t1[3..];
    assert t2 == t2[..2] + [':'] + t2[3..];
    LexLeDropCommon(t1[..2], t2[..2], ':', t1[3..], t2[3..]);
    ValueConcat(t1[..2], t1[3..]);
    ValueConcat(t2[..2], t2[3..]);
    DigitsOrderIsLexicographic(t1[..2] + t1[3..], t2[..2] + t2[3..]);
  }

  /** A well-formed time is printed from its hour and minute values. */
  lemma FormatWellFormedTime(t: string)
    requires WellFormedTime(t)
    ensures FormatTime(t) == FormatClock(Some(Hours(t)), Some(Minutes(t)))
  {
    SplitWellFormedTime(t);
  }

  lemma MidnightIsTwelveAm()
    ensures FormatClock(Some(0), Some(0)) == "12:00 am"
  {
  }

  lemma NoonIsTwelvePm()
    ensures FormatClock(Some(12), Some(0)) == "12:00 pm"
  {
  }

  lemma AfternoonHasNoLeadingZero()
    ensures FormatClock(Some(13), Some(5)) == "1:05 pm"
  {
  }

  lemma MorningKeepsItsHour()
    ensures FormatClock(Some(10), Some(0)) == "10:00 am"
  {
  }

  /** A field that is not a number prints as NaN, and the hour falls on the
      "am" side, as `NaN >= 12` is false. */
  lemma NotANumberHour(m: nat)
    ensures FormatClock(None, Some(m)) == "NaN:" + MinuteText(Some(m)) + " am"
  {
  }
}
