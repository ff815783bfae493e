/** CQL timestamps and dates as text, the reader that undoes it, and exactly when the text has the form of
    section 5.6 of RFC 3339. */
module TimestampText {
  import opened Basics
  import opened DecimalText
  import opened CivilCalendar

  const DAY_MILLIS: int := 86_400_000

  datatype Clock = Clock(hour: int, minute: int, second: int, millis: int)

  function ClockOf(dayMillis: int): Clock {
    var seconds := dayMillis / 1000;
    Clock(seconds / 3600, seconds / 60 % 60, seconds % 60, dayMillis % 1000)
  }

  predicate ValidClock(t: Clock) {
    0 <= t.hour < 24 && 0 <= t.minute < 60 && 0 <= t.second < 60 && 0 <= t.millis < 1000
  }

  function ClockMillis(t: Clock): int {
    ((t.hour * 60 + t.minute) * 60 + t.second) * 1000 + t.millis
  }

  lemma ClockIsRight(dayMillis: int)
    requires 0 <= dayMillis < DAY_MILLIS
    ensures ValidClock(ClockOf(dayMillis)) && ClockMillis(ClockOf(dayMillis)) == dayMillis
  {
    var seconds := dayMillis / 1000;
    assert 0 <= seconds < 86_400 && dayMillis == 1000 * seconds + dayMillis % 1000;
    SplitSeconds(seconds);
  }

  lemma SplitSeconds(seconds: int)
    requires 0 <= seconds < 86_400
    ensures seconds == 3600 * (seconds / 3600) + 60 * (seconds / 60 % 60) + seconds % 60
    ensures 0 <= seconds / 3600 < 24
  {
    var minutes := seconds / 60;
    assert seconds == 60 * minutes + seconds % 60;
    assert minutes == 60 * (minutes / 60) + minutes % 60;
    assert minutes / 60 == seconds / 3600;
  }

  /** The fields of `format_timestamp`. */
  function FieldsOf(millis: int): (Date, Clock) {
    (CivilFromDays(millis / DAY_MILLIS), ClockOf(millis % DAY_MILLIS))
  }

  function MillisOf(c: Date, t: Clock): int
    requires 1 <= c.month <= 12
  {
    DaysFromCivil(c) * DAY_MILLIS + ClockMillis(t)
  }

  /** Every instant, before the epoch too, gets fields in range that recombine to it. */
  lemma FieldsAreExact(millis: int)
    ensures var (c, t) := FieldsOf(millis);
            ValidDate(c) && ValidClock(t) && MillisOf(c, t) == millis
  {
    hide CivilFromDays, DaysFromCivil, ClockOf, ClockMillis;
    CivilIsRight(millis / DAY_MILLIS);
    ClockIsRight(millis % DAY_MILLIS);
  }

  // ---- text -------------------------------------------------------------------------------------------

  function Two(n: int): string
    requires 0 <= n
  {
    PadNat(n, 2)
  }

  /** Everything between the year and the fraction. */
  function Middle(month: nat, day: nat, hour: nat, minute: nat, second: nat): string {
    "-" + Two(month) + "-" + Two(day) + "T" + Two(hour) + ":" + Two(minute) + ":" + Two(second)
  }

  function TimestampOf(c: Date, t: Clock): string
    requires ValidDate(c) && ValidClock(t)
  {
    PadInt(c.year, 4) + Middle(c.month, c.day, t.hour, t.minute, t.second) +
    if t.millis == 0 then "Z" else "." + PadNat(t.millis, 3) + "Z"
  }

  function FormatTimestamp(millis: int): string {
    FieldsAreExact(millis);
    var (c, t) := FieldsOf(millis);
    TimestampOf(c, t)
  }

  /** Day numbers of CQL dates count from 2^31 days before the epoch. */
  function FormatDate(days: nat): string {
    CivilIsRight(days - 0x8000_0000);
    var c := CivilFromDays(days - 0x8000_0000);
    PadInt(c.year, 4) + "-" + Two(c.month) + "-" + Two(c.day)
  }

  // ---- the reader -------------------------------------------------------------------------------------

  /** `-MM-DDTHH:MM:SS` */
  function ReadMiddle(s: string): Option<(int, int, int, int, int)> {
    if |s| != 15 || s[0] != '-' || s[3] != '-' || s[6] != 'T' || s[9] != ':' || s[12] != ':' then None
    else
      var month, day := ReadInt(s[1..3]), ReadInt(s[4..6]);
      var hour, minute, second := ReadInt(s[7..9]), ReadInt(s[10..12]), ReadInt(s[13..15]);
      if month.None? || day.None? || hour.None? || minute.None? || second.None? then None
      else Some((month.value, day.value, hour.value, minute.value, second.value))
  }

  function ReadInstant(body: string, millis: Option<int>): Option<int> {
    if |body| < 16 || millis.None? then None
    else
      var year := ReadInt(body[..|body| - 15]);
      var middle := ReadMiddle(body[|body| - 15..]);
      if year.None? || middle.None? || !(1 <= middle.value.0 <= 12) then None
      else
        var (month, day, hour, minute, second) := middle.value;
        Some(MillisOf(Date(year.value, month, day), Clock(hour, minute, second, millis.value)))
  }

  function ReadTimestamp(s: string): Option<int> {
    if |s| < 20 || s[|s| - 1] != 'Z' then None
    else if s[|s| - 5] == '.' then ReadInstant(s[..|s| - 5], ReadInt(s[|s| - 4..|s| - 1]))
    else ReadInstant(s[..|s| - 1], Some(0))
  }

  lemma TwoReads(n: int)
    requires 0 <= n < 100
    ensures |Two(n)| == 2 && ReadInt(Two(n)) == Some(n) && AllDigits(Two(n))
  {
    assert Pow10(2) == 100 by { assert Pow10(1) == 10; }
    PrintNatLength(n, 2);
    PadNatReads(n, 2);
    ReadPadInt(n, 2);
    hide PadNat, ReadInt, PrintNat;
  }

  lemma MiddleReads(month: nat, day: nat, hour: nat, minute: nat, second: nat)
    requires month < 100 && day < 100 && hour < 100 && minute < 100 && second < 100
    ensures var s := Middle(month, day, hour, minute, second);
            && |s| == 15 && IsDigit(s[11]) && ReadMiddle(s) == Some((month, day, hour, minute, second))
  {
    hide Two, ReadInt;
    TwoReads(month);
    TwoReads(day);
    TwoReads(hour);
    TwoReads(minute);
    TwoReads(second);
    MiddleSlices(Two(month), Two(day), Two(hour), Two(minute), Two(second));
  }

  lemma MiddleSlices(month: string, day: string, hour: string, minute: string, second: string)
    requires |month| == 2 && |day| == 2 && |hour| == 2 && |minute| == 2 && |second| == 2
    ensures var s := "-" + month + "-" + day + "T" + hour + ":" + minute + ":" + second;
            && |s| == 15 && s[0] == '-' && s[3] == '-' && s[6] == 'T' && s[9] == ':' && s[12] == ':'
            && s[1..3] == month && s[4..6] == day && s[7..9] == hour && s[10..12] == minute && s[13..15] == second
            && s[11] == minute[1]
  {
  }

  lemma InstantReads(c: Date, t: Clock)
    requires ValidDate(c) && ValidClock(t)
    ensures var body := PadInt(c.year, 4) + Middle(c.month, c.day, t.hour, t.minute, t.second);
            |body| >= 19 && IsDigit(body[|body| - 4]) && ReadInstant(body, Some(t.millis)) == Some(MillisOf(c, t))
  {
    hide PadInt, Middle, ReadMiddle, ReadInt, MillisOf;
    var middle := Middle(c.month, c.day, t.hour, t.minute, t.second);
    assert c.day <= 31;
    MiddleReads(c.month, c.day, t.hour, t.minute, t.second);
    ReadPadInt(c.year, 4);
    YearWidth(c.year);
    var body := PadInt(c.year, 4) + middle;
    assert body[..|body| - 15] == PadInt(c.year, 4) && body[|body| - 15..] == middle;
    assert body[|body| - 4] == middle[11];
    assert Date(c.year, c.month, c.day) == c && Clock(t.hour, t.minute, t.second, t.millis) == t;
  }

  lemma YearWidth(year: int)
    ensures |PadInt(year, 4)| >= 4
  {
    hide PadNat;
    PadNatReads(if year < 0 then -year else year, if year < 0 then 3 else 4);
  }

  /** Reading the text of an instant gives the instant back, so printing is injective. */
  lemma TimestampReadsBack(millis: int)
    ensures ReadTimestamp(FormatTimestamp(millis)) == Some(millis)
  {
    hide FieldsOf, PadInt, Middle, ReadInstant, ReadInt, MillisOf, DaysInMonth;
    FieldsAreExact(millis);
    var (c, t) := FieldsOf(millis);
    InstantReads(c, t);
    var body := PadInt(c.year, 4) + Middle(c.month, c.day, t.hour, t.minute, t.second);
    var s := FormatTimestamp(millis);
    if t.millis == 0 {
      assert s == body + "Z" && s[..|s| - 1] == body && s[|s| - 5] == body[|body| - 4];
    } else {
      MillisRead(t);
      var fraction := PadNat(t.millis, 3);
      assert s == body + "." + fraction + "Z";
      assert s[|s| - 5] == '.' && s[..|s| - 5] == body && s[|s| - 4..|s| - 1] == fraction;
    }
  }

  lemma MillisRead(t: Clock)
    requires ValidClock(t)
    ensures |PadNat(t.millis, 3)| == 3 && ReadInt(PadNat(t.millis, 3)) == Some(t.millis)
  {
    assert Pow10(3) == 1000 by { assert Pow10(1) == 10 && Pow10(2) == 100; }
    PrintNatLength(t.millis, 3);
    PadNatReads(t.millis, 3);
    ReadPadInt(t.millis, 3);
  }

  /** `year-MM-DD` */
  function ReadDate(s: string): Option<Date> {
    if |s| < 7 || s[|s| - 6] != '-' || s[|s| - 3] != '-' then None
    else
      var year, month, day := ReadInt(s[..|s| - 6]), ReadInt(s[|s| - 5..|s| - 3]), ReadInt(s[|s| - 2..]);
      if year.None? || month.None? || day.None? then None else Some(Date(year.value, month.value, day.value))
  }

  /** A printed date reads back as the date of its day number, so dates print injectively as well. */
  lemma DateReadsBack(days: nat)
    ensures ReadDate(FormatDate(days)) == Some(CivilFromDays(days - 0x8000_0000))
  {
    hide CivilFromDays, DaysFromCivil, PadInt, Two, ReadInt;
    CivilIsRight(days - 0x8000_0000);
    var c := CivilFromDays(days - 0x8000_0000);
    var s := FormatDate(days);
    assert c.day <= 31;
    TwoReads(c.month);
    TwoReads(c.day);
    ReadPadInt(c.year, 4);
    YearWidth(c.year);
    assert s[..|s| - 6] == PadInt(c.year, 4);
    assert s[|s| - 5..|s| - 3] == Two(c.month) && s[|s| - 2..] == Two(c.day);
    assert Date(c.year, c.month, c.day) == c;
  }

  // ---- RFC 3339 -----------------------------------------------------------------------------------------

  /** `date-time` of section 5.6 with a `Z` offset: four year digits, then fixed two-digit fields and an
      optional fraction. */
  predicate IsDateTime(s: string) {
    && |s| >= 20
    && AllDigits(s[..4])
    && s[4] == '-' && AllDigits(s[5..7]) && s[7] == '-' && AllDigits(s[8..10])
    && s[10] == 'T' && AllDigits(s[11..13]) && s[13] == ':' && AllDigits(s[14..16])
    && s[16] == ':' && AllDigits(s[17..19])
    && s[|s| - 1] == 'Z'
    && (|s| > 20 ==> |s| > 21 && s[19] == '.' && AllDigits(s[20..|s| - 1]))
  }

  /** How the year comes out: four digits, a sign, or a fifth digit. */
  lemma YearText(year: int)
    ensures var text := PadInt(year, 4);
            && |text| >= 4
            && (0 <= year <= 9999 ==> |text| == 4 && AllDigits(text))
            && (year < 0 ==> text[0] == '-')
            && (year > 9999 ==> |text| > 4 && IsDigit(text[4]))
  {
    YearWidth(year);
    if year >= 0 {
      PadNatReads(year, 4);
      assert Pow10(4) == 10_000 by { assert Pow10(1) == 10 && Pow10(2) == 100 && Pow10(3) == 1000; }
      hide PadNat, PrintNat, NatValue;
      if year <= 9999 {
        PrintNatLength(year, 4);
      } else {
        ValueBound(PadNat(year, 4));
      }
    }
  }

  lemma {:induction false} ValueBound(s: string)
    requires AllDigits(s)
    ensures NatValue(s) < Pow10(|s|)
    decreases |s|
  {
    if s != "" {
      ValueBound(s[..|s| - 1]);
    }
  }

  lemma MiddleForm(month: nat, day: nat, hour: nat, minute: nat, second: nat)
    requires month < 100 && day < 100 && hour < 100 && minute < 100 && second < 100
    ensures var s := Middle(month, day, hour, minute, second);
            && |s| == 15 && s[0] == '-' && s[3] == '-' && s[6] == 'T' && s[9] == ':' && s[12] == ':'
            && AllDigits(s[1..3]) && AllDigits(s[4..6]) && AllDigits(s[7..9])
            && AllDigits(s[10..12]) && AllDigits(s[13..15])
  {
    hide Two, AllDigits;
    TwoReads(month);
    TwoReads(day);
    TwoReads(hour);
    TwoReads(minute);
    TwoReads(second);
    MiddleSlices(Two(month), Two(day), Two(hour), Two(minute), Two(second));
  }

  lemma TailIsFixed(month: nat, day: nat, hour: nat, minute: nat, second: nat, year: string, tail: string)
    requires month < 100 && day < 100 && hour < 100 && minute < 100 && second < 100
    requires |year| == 4 && AllDigits(year)
    requires tail == "Z" || exists f: string :: f != "" && AllDigits(f) && tail == "." + f + "Z"
    ensures IsDateTime(year + Middle(month, day, hour, minute, second) + tail)
  {
    hide Middle, IsDigit;
    var middle := Middle(month, day, hour, minute, second);
    MiddleForm(month, day, hour, minute, second);
    var s := year + middle + tail;
    assert s[..4] == year && s[4..19] == middle && s[19..] == tail;
    MiddleInPlace(s, middle);
    if tail != "Z" {
      var f: string :| f != "" && AllDigits(f) && tail == "." + f + "Z";
      assert s[20..|s| - 1] == f && s[19] == '.';
    }
  }

  lemma MiddleInPlace(s: string, middle: string)
    requires |s| >= 19 && |middle| == 15 && s[4..19] == middle
    ensures s[4] == middle[0] && s[7] == middle[3] && s[10] == middle[6] && s[13] == middle[9] && s[16] == middle[12]
    ensures s[5..7] == middle[1..3] && s[8..10] == middle[4..6] && s[11..13] == middle[7..9]
    ensures s[14..16] == middle[10..12] && s[17..19] == middle[13..15]
  {
    SliceOfSlice(s, 4, 19, 1, 3);
    SliceOfSlice(s, 4, 19, 4, 6);
    SliceOfSlice(s, 4, 19, 7, 9);
    SliceOfSlice(s, 4, 19, 10, 12);
    SliceOfSlice(s, 4, 19, 13, 15);
  }

  lemma SliceOfSlice(s: string, a: nat, b: nat, i: nat, j: nat)
    requires i <= j <= b - a && b <= |s|
    ensures s[a..b][i..j] == s[a + i..a + j]
  {
    var left, right := s[a..b][i..j], s[a + i..a + j];
    assert |left| == |right|;
    assert forall k | 0 <= k < |left| :: left[k] == s[a..b][i + k] == s[a + (i + k)] == right[k];
  }

  /** The text of an instant has that form if and only if its year has at most four digits and no sign. */
  lemma TimestampFormIff(millis: int)
    ensures IsDateTime(FormatTimestamp(millis)) <==> 0 <= CivilFromDays(millis / DAY_MILLIS).year <= 9999
  {
    hide CivilFromDays, ClockOf, PadInt, PadNat, Middle, IsDateTime;
    FieldsAreExact(millis);
    var (c, t) := FieldsOf(millis);
    YearText(c.year);
    var tail := if t.millis == 0 then "Z" else "." + PadNat(t.millis, 3) + "Z";
    var middle := Middle(c.month, c.day, t.hour, t.minute, t.second);
    assert c.day <= 31;
    MillisRead(t);
    PadNatReads(t.millis, 3);
    assert FormatTimestamp(millis) == PadInt(c.year, 4) + middle + tail;
    if 0 <= c.year <= 9999 {
      TailIsFixed(c.month, c.day, t.hour, t.minute, t.second, PadInt(c.year, 4), tail);
    } else {
      LongYearIsNoDateTime(PadInt(c.year, 4), middle + tail);
      assert PadInt(c.year, 4) + middle + tail == PadInt(c.year, 4) + (middle + tail);
    }
  }

  lemma LongYearIsNoDateTime(year: string, rest: string)
    requires |year| >= 4 && (year[0] == '-' || (|year| > 4 && IsDigit(year[4])))
    ensures !IsDateTime(year + rest)
  {
    var s := year + rest;
    if |s| >= 20 {
      assert s[0] == year[0] && s[..4][0] == s[0];
      assert |year| > 4 ==> s[4] == year[4];
    }
  }

  /** A fraction of three digits is printed exactly for an instant between two seconds. */
  lemma FractionIff(millis: int)
    ensures var text := FormatTimestamp(millis);
            && |text| >= 5
            && (text[|text| - 5] == '.' <==> millis % 1000 != 0)
            && text[|text| - 1] == 'Z'
  {
    hide CivilFromDays, PadInt, PadNat, Middle, ReadInstant, MillisOf, DaysInMonth;
    FieldsAreExact(millis);
    var (c, t) := FieldsOf(millis);
    InstantReads(c, t);
    var body := PadInt(c.year, 4) + Middle(c.month, c.day, t.hour, t.minute, t.second);
    var text := FormatTimestamp(millis);
    assert t.millis == millis % 1000 by {
      MillisOfDay(millis);
    }
    if t.millis == 0 {
      assert text == body + "Z" && text[|text| - 5] == body[|body| - 4];
    } else {
      MillisRead(t);
      assert text == body + "." + PadNat(t.millis, 3) + "Z";
    }
  }

  lemma MillisOfDay(millis: int)
    ensures millis % DAY_MILLIS % 1000 == millis % 1000
  {
    var day, rest := millis / DAY_MILLIS, millis % DAY_MILLIS;
    assert millis == DAY_MILLIS * day + rest;
    RemainderIs(millis, 86_400 * day + rest / 1000, rest % 1000);
  }

  lemma RemainderIs(x: int, q: int, r: int)
    requires x == 1000 * q + r && 0 <= r < 1000
    ensures x % 1000 == r
  {
  }

  /** `full-date` of section 5.6. */
  predicate IsFullDate(s: string) {
    |s| == 10 && AllDigits(s[..4]) && s[4] == '-' && AllDigits(s[5..7]) && s[7] == '-' && AllDigits(s[8..10])
  }

  /** A date is printed in that form if and only if its year has at most four digits and no sign. */
  lemma DateFormIff(days: nat)
    ensures IsFullDate(FormatDate(days)) <==> 0 <= CivilFromDays(days - 0x8000_0000).year <= 9999
  {
    hide CivilFromDays, DaysFromCivil, PadInt, Two;
    CivilIsRight(days - 0x8000_0000);
    var c := CivilFromDays(days - 0x8000_0000);
    YearText(c.year);
    assert c.day <= 31;
    TwoReads(c.month);
    TwoReads(c.day);
    var year, text := PadInt(c.year, 4), FormatDate(days);
    assert text == year + "-" + Two(c.month) + "-" + Two(c.day);
    if 0 <= c.year <= 9999 {
      assert text[..4] == year && text[5..7] == Two(c.month) && text[8..10] == Two(c.day);
    } else {
      assert text[0] == year[0] && (|text| >= 4 ==> text[..4][0] == text[0]);
      assert c.year > 9999 ==> text[4] == year[4];
    }
  }
}
