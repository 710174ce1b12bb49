/** The stamps read back: the Gregorian calendar in closed form, and the instant a stamp stands for. */
module IsoReading {
  import opened TextOrder
  import opened IsoTime

  // ------------------------------------------------------------------ the calendar

  const DAYS_BEFORE_MONTH := [0, 31, 59, 90, 120, 151, 181, 212, 243, 273, 304, 334]

  /** Days from the first of January of year one, in the proleptic Gregorian calendar. */
  function DayNumber(year: int, month: int, day: int): int
    requires 1 <= month <= 12
  {
    var y := year - 1;
    var leap := if year % 400 == 0 then true else if year % 100 == 0 then false else year % 4 == 0;
    365 * y + y / 4 - y / 100 + y / 400 + DAYS_BEFORE_MONTH[month - 1] + (if leap && month > 2 then 1 else 0) + day - 1
  }

  lemma {:induction false} YearsPass(year: int)
    requires year >= 1
    ensures year / 4 == (year - 1) / 4 + (if year % 4 == 0 then 1 else 0)
    ensures year / 100 == (year - 1) / 100 + (if year % 100 == 0 then 1 else 0)
    ensures year / 400 == (year - 1) / 400 + (if year % 400 == 0 then 1 else 0)
    ensures year % 400 == 0 ==> year % 100 == 0
    ensures year % 100 == 0 ==> year % 4 == 0
  {}

  predicate IsDate(d: Date) { d.year >= 1 && 1 <= d.month <= 12 && 1 <= d.day <= DaysIn(d.year, d.month) }

  lemma {:induction false} NextMonth(year: nat, month: nat)
    requires year >= 1 && 1 <= month < 12
    ensures DayNumber(year, month + 1, 1) == DayNumber(year, month, 1) + DaysIn(year, month)
  {
    YearsPass(year);
  }

  lemma {:induction false} NextYear(year: nat)
    requires year >= 1
    ensures DayNumber(year + 1, 1, 1) == DayNumber(year, 12, 1) + 31
  {
    YearsPass(year);
  }

  lemma {:induction false} DayInMonth(year: int, month: int, day: int)
    requires 1 <= month <= 12
    ensures DayNumber(year, month, day) == DayNumber(year, month, 1) + day - 1
  {}

  lemma {:induction false} NextDayNumber(d: Date)
    requires IsDate(d)
    ensures IsDate(NextDay(d))
    ensures DayNumber(NextDay(d).year, NextDay(d).month, NextDay(d).day) == DayNumber(d.year, d.month, d.day) + 1
  {
    DayInMonth(d.year, d.month, d.day);
    if d.day < DaysIn(d.year, d.month) { DayInMonth(d.year, d.month, d.day + 1); }
    else if d.month < 12 { NextMonth(d.year, d.month); }
    else { NextYear(d.year); }
  }

  /** The date some days after the start is the date whose day number is that many higher. */
  lemma {:induction false} CalendarMeaning(days: nat)
    ensures var d := DateAfter(days);
      IsDate(d) && DayNumber(d.year, d.month, d.day) == DayNumber(2026, 1, 2) + days
  {
    if days > 0 {
      CalendarMeaning(days - 1);
      NextDayNumber(DateAfter(days - 1));
    }
  }

  // ------------------------------------------------------------------ reading a stamp

  /** The microseconds from 2026-01-02 09:00 UTC to the instant a stamp names, field by field. */
  function Read(s: string): int
    requires |s| >= 26 || (|s| == 25 && s[19] != '.')
    requires 1 <= ValueOf(s[5..7]) <= 12
  {
    var days := DayNumber(ValueOf(s[0..4]), ValueOf(s[5..7]), ValueOf(s[8..10])) - DayNumber(2026, 1, 2);
    var seconds := ValueOf(s[11..13]) * 3600 + ValueOf(s[14..16]) * 60 + ValueOf(s[17..19]) - 32_400;
    var micros := if s[19] == '.' then ValueOf(s[20..26]) else 0;
    (days * 86_400 + seconds) * 1_000_000 + micros
  }

  /** Where the separators stand, and the zone at the end. */
  predicate IsStamp(s: string) {
    && (|s| == 25 || (|s| == 32 && s[19] == '.'))
    && s[4] == '-' && s[7] == '-' && s[10] == 'T' && s[13] == ':' && s[16] == ':'
    && s[|s| - 6..] == "+00:00"
  }

  lemma {:induction false} PadValue(n: nat, width: nat)
    requires n < Power10(width)
    ensures ValueOf(Pad(n, width)) == n
  {
    if width > 0 {
      PadValue(n / 10, width - 1);
      assert Pad(n, width)[..width - 1] == Pad(n / 10, width - 1);
    }
  }

  lemma {:induction false} DateFields(d: Date)
    ensures var s := DateText(d);
      && |s| == 10 && s[4] == '-' && s[7] == '-'
      && s[0..4] == Pad(d.year, 4) && s[5..7] == Pad(d.month, 2) && s[8..10] == Pad(d.day, 2)
  {
  }

  lemma {:induction false} TimeFields(second: nat)
    ensures var s := TimeText(second);
      && |s| == 8 && s[2] == ':' && s[5] == ':'
      && s[0..2] == Pad(second / 3600, 2) && s[3..5] == Pad(second / 60 % 60, 2) && s[6..8] == Pad(second % 60, 2)
  {
  }

  lemma {:induction false} FractionFields(micros: nat)
    ensures var s := Fraction(micros);
      && |s| == (if micros == 0 then 6 else 13) && s[|s| - 6..] == "+00:00"
      && (micros == 0 ==> s[0] == '+') && (micros != 0 ==> s[0] == '.' && s[1..7] == Pad(micros, 6))
  {
  }

  /** Slices of a stamp are slices of its parts. */
  lemma {:induction false} PartsOf(date: string, time: string, fraction: string)
    requires |date| == 10 && |time| == 8 && |fraction| >= 6
    ensures var s := (date + ("T" + time)) + fraction;
      && |s| == 19 + |fraction|
      && s[4] == date[4] && s[7] == date[7] && s[10] == 'T' && s[13] == time[2] && s[16] == time[5]
      && s[0..4] == date[0..4] && s[5..7] == date[5..7] && s[8..10] == date[8..10]
      && s[11..13] == time[0..2] && s[14..16] == time[3..5] && s[17..19] == time[6..8]
      && s[19] == fraction[0] && s[|s| - 6..] == fraction[|fraction| - 6..]
      && (|fraction| >= 7 ==> s[20..26] == fraction[1..7])
  {
  }

  /** The fields of a stamp, each as it was padded. */
  lemma {:induction false} StampFields(t: nat)
    ensures var s, d, second, micros := Stamp(t), DateAfter(Second(t) / DAY), Second(t) % DAY, t % MICROS;
      && IsStamp(s)
      && s[0..4] == Pad(d.year, 4) && s[5..7] == Pad(d.month, 2) && s[8..10] == Pad(d.day, 2)
      && s[11..13] == Pad(second / 3600, 2) && s[14..16] == Pad(second / 60 % 60, 2) && s[17..19] == Pad(second % 60, 2)
      && (s[19] == '.' <==> micros != 0) && (micros != 0 ==> s[20..26] == Pad(micros, 6))
  {
    var d, second, micros := DateAfter(Second(t) / DAY), Second(t) % DAY, t % MICROS;
    DateFields(d);
    TimeFields(second);
    FractionFields(micros);
    PartsOf(DateText(d), TimeText(second), Fraction(micros));
  }

  /** A stamp reads back as the instant it was printed for. */
  lemma {:induction false} StampReadsBack(t: nat)
    requires Printable(t)
    ensures IsStamp(Stamp(t)) && 1 <= ValueOf(Stamp(t)[5..7]) <= 12 && Read(Stamp(t)) == t
  {
    CalendarMeaning(Second(t) / DAY);
    StampFields(t);
    FieldValues(DateAfter(Second(t) / DAY), Second(t) % DAY, t % MICROS);
    TimeAddsUp(t);
  }

  lemma {:induction false} FieldValues(d: Date, second: nat, micros: nat)
    requires IsDate(d) && d.year <= 9999 && second < DAY && micros < MICROS
    ensures ValueOf(Pad(d.year, 4)) == d.year && ValueOf(Pad(d.month, 2)) == d.month && ValueOf(Pad(d.day, 2)) == d.day
    ensures ValueOf(Pad(second / 3600, 2)) == second / 3600
    ensures ValueOf(Pad(second / 60 % 60, 2)) == second / 60 % 60 && ValueOf(Pad(second % 60, 2)) == second % 60
    ensures ValueOf(Pad(micros, 6)) == micros
  {
    Powers();
    PadValue(d.year, 4);
    PadValue(d.month, 2);
    PadValue(d.day, 2);
    PadValue(second / 3600, 2);
    PadValue(second / 60 % 60, 2);
    PadValue(second % 60, 2);
    PadValue(micros, 6);
  }

  lemma {:induction false} TimeAddsUp(t: nat)
    ensures var day, second := Second(t) / DAY, Second(t) % DAY;
      (day * 86_400 + (second / 3600 * 3600 + second / 60 % 60 * 60 + second % 60 - 32_400)) * 1_000_000 + t % MICROS
        == t
  {
    var second := Second(t) % DAY;
    assert second == 60 * (second / 60) + second % 60;
    assert second / 60 == 60 * (second / 3600) + second / 60 % 60;
    assert Second(t) == DAY * (Second(t) / DAY) + second;
  }
}
