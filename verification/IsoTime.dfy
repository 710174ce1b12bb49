/** ISO 8601 text of instants from the stream's start on, and why sorting the text sorts the time. */
module IsoTime {
  import opened TextOrder

  const MICROS := 1_000_000
  const DAY := 86_400

  /** The replay starts at 2026-01-02 09:00:00 UTC; instants are microseconds since then. */
  const START_DATE := Date(2026, 1, 2)
  const START_SECOND := 9 * 3600

  datatype Date = Date(year: nat, month: nat, day: nat)

  predicate Leap(year: nat) { year % 4 == 0 && (year % 100 != 0 || year % 400 == 0) }

  function DaysIn(year: nat, month: nat): nat {
    if month == 2 then (if Leap(year) then 29 else 28)
    else if month == 4 || month == 6 || month == 9 || month == 11 then 30 else 31
  }

  function NextDay(d: Date): Date {
    if d.day < DaysIn(d.year, d.month) then d.(day := d.day + 1)
    else if d.month < 12 then Date(d.year, d.month + 1, 1)
    else Date(d.year + 1, 1, 1)
  }

  function DateAfter(days: nat): (d: Date)
    ensures 1 <= d.month <= 12 && 1 <= d.day <= 31
  {
    if days == 0 then START_DATE else NextDay(DateAfter(days - 1))
  }

  function Power10(n: nat): nat { if n == 0 then 1 else 10 * Power10(n - 1) }

  function Digit(n: nat): char
    requires n < 10
  {
    n as char + '0'
  }

  /** The last `width` decimal digits of `n`, zero-padded. */
  function Pad(n: nat, width: nat): (s: string)
    ensures |s| == width
  {
    if width == 0 then "" else Pad(n / 10, width - 1) + [Digit(n % 10)]
  }

  function DateText(d: Date): string { Pad(d.year, 4) + ("-" + (Pad(d.month, 2) + ("-" + Pad(d.day, 2)))) }

  function TimeText(second: nat): string
  {
    Pad(second / 3600, 2) + (":" + (Pad(second / 60 % 60, 2) + (":" + Pad(second % 60, 2))))
  }

  function Second(t: nat): nat { t / MICROS + START_SECOND }

  /** Whole seconds print no fraction. */
  function Fraction(micros: nat): string { (if micros == 0 then "" else "." + Pad(micros, 6)) + "+00:00" }

  function Stamp(t: nat): string {
    (DateText(DateAfter(Second(t) / DAY)) + ("T" + TimeText(Second(t) % DAY))) + Fraction(t % MICROS)
  }

  /** The years Python's datetime can print in four digits. */
  predicate Printable(t: nat) { DateAfter(Second(t) / DAY).year <= 9999 }

  // ------------------------------------------------------------------ order of the parts

  lemma {:induction false} PadOrder(a: nat, b: nat, width: nat)
    requires a < b < Power10(width)
    ensures Before(Pad(a, width), Pad(b, width))
    decreases width
  {
    if a / 10 < b / 10 {
      PadOrder(a / 10, b / 10, width - 1);
      PrefixDecides(Pad(a / 10, width - 1), Pad(b / 10, width - 1), [Digit(a % 10)], [Digit(b % 10)]);
    } else {
      FirstDifference(Pad(a / 10, width - 1), [Digit(a % 10)], [Digit(b % 10)]);
    }
  }

  lemma {:induction false} PadThen(a: nat, b: nat, width: nat, s: string, t: string)
    requires a < b < Power10(width)
    ensures Before(Pad(a, width) + s, Pad(b, width) + t)
  {
    PadOrder(a, b, width);
    PrefixDecides(Pad(a, width), Pad(b, width), s, t);
  }

  lemma {:induction false} Powers()
    ensures Power10(2) == 100 && Power10(4) == 10_000 && Power10(6) == 1_000_000
  {
    assert Power10(1) == 10;
    assert Power10(2) == 100;
    assert Power10(3) == 1000;
    assert Power10(4) == 10_000;
    assert Power10(5) == 100_000;
  }

  predicate Earlier(d: Date, e: Date) {
    d.year < e.year || (d.year == e.year && (d.month < e.month || (d.month == e.month && d.day < e.day)))
  }

  lemma {:induction false} DatesAdvance(m: nat, n: nat)
    requires m < n
    ensures Earlier(DateAfter(m), DateAfter(n)) && DateAfter(m).year <= DateAfter(n).year
    decreases n
  {
    if m < n - 1 { DatesAdvance(m, n - 1); }
  }

  lemma {:induction false} DateTextOrder(d: Date, e: Date)
    requires Earlier(d, e) && e.year <= 9999 && d.month <= 12 && e.month <= 12 && d.day <= 31 && e.day <= 31
    ensures Before(DateText(d), DateText(e))
  {
    Powers();
    var dm, em := Pad(d.month, 2) + ("-" + Pad(d.day, 2)), Pad(e.month, 2) + ("-" + Pad(e.day, 2));
    if d.year < e.year {
      PadThen(d.year, e.year, 4, "-" + dm, "-" + em);
    } else {
      FirstDifference(Pad(d.year, 4), "-" + dm, "-" + em);
      FirstDifference("-", dm, em);
      if d.month < e.month {
        PadThen(d.month, e.month, 2, "-" + Pad(d.day, 2), "-" + Pad(e.day, 2));
      } else {
        FirstDifference(Pad(d.month, 2), "-" + Pad(d.day, 2), "-" + Pad(e.day, 2));
        FirstDifference("-", Pad(d.day, 2), Pad(e.day, 2));
        PadOrder(d.day, e.day, 2);
      }
    }
  }

  lemma {:induction false} TimeTextOrder(a: nat, b: nat)
    requires a < b < DAY
    ensures Before(TimeText(a), TimeText(b))
  {
    Powers();
    var am, bm := Pad(a / 60 % 60, 2) + (":" + Pad(a % 60, 2)), Pad(b / 60 % 60, 2) + (":" + Pad(b % 60, 2));
    if a / 3600 < b / 3600 {
      PadThen(a / 3600, b / 3600, 2, ":" + am, ":" + bm);
    } else {
      FirstDifference(Pad(a / 3600, 2), ":" + am, ":" + bm);
      FirstDifference(":", am, bm);
      SameHour(a, b);
      if a / 60 % 60 < b / 60 % 60 {
        PadThen(a / 60 % 60, b / 60 % 60, 2, ":" + Pad(a % 60, 2), ":" + Pad(b % 60, 2));
      } else {
        FirstDifference(Pad(a / 60 % 60, 2), ":" + Pad(a % 60, 2), ":" + Pad(b % 60, 2));
        FirstDifference(":", Pad(a % 60, 2), Pad(b % 60, 2));
        PadOrder(a % 60, b % 60, 2);
      }
    }
  }

  lemma {:induction false} SameHour(a: nat, b: nat)
    requires a < b && a / 3600 == b / 3600
    ensures a / 60 % 60 < b / 60 % 60 || (a / 60 % 60 == b / 60 % 60 && a % 60 < b % 60)
  {
    var h := a / 3600;
    assert a / 60 / 60 == h && b / 60 / 60 == h;
    assert a / 60 == 60 * h + a / 60 % 60 && b / 60 == 60 * h + b / 60 % 60;
    assert a == 60 * (a / 60) + a % 60 && b == 60 * (b / 60) + b % 60;
  }

  lemma {:induction false} FractionOrder(a: nat, b: nat)
    requires a < b < MICROS
    ensures Before(Fraction(a), Fraction(b))
  {
    Powers();
    if a == 0 {
      assert "" + "+00:00" == "+00:00";
      assert '+' < '.';
      assert Fraction(a)[0] == '+' && Fraction(b)[0] == '.';
    } else {
      assert ("." + Pad(a, 6)) + "+00:00" == "." + (Pad(a, 6) + "+00:00");
      assert ("." + Pad(b, 6)) + "+00:00" == "." + (Pad(b, 6) + "+00:00");
      FirstDifference(".", Pad(a, 6) + "+00:00", Pad(b, 6) + "+00:00");
      PadThen(a, b, 6, "+00:00", "+00:00");
    }
  }

  function WholeSecond(second: nat): (s: string)
    ensures |s| == 19
  {
    DateText(DateAfter(second / DAY)) + ("T" + TimeText(second % DAY))
  }

  lemma {:induction false} WholeSecondOrder(a: nat, b: nat)
    requires a < b && DateAfter(b / DAY).year <= 9999
    ensures Before(WholeSecond(a), WholeSecond(b))
  {
    var d, e := DateAfter(a / DAY), DateAfter(b / DAY);
    if a / DAY < b / DAY {
      DatesAdvance(a / DAY, b / DAY);
      DateTextOrder(d, e);
      PrefixDecides(DateText(d), DateText(e), "T" + TimeText(a % DAY), "T" + TimeText(b % DAY));
    } else {
      assert a / DAY == b / DAY;
      FirstDifference(DateText(d), "T" + TimeText(a % DAY), "T" + TimeText(b % DAY));
      FirstDifference("T", TimeText(a % DAY), TimeText(b % DAY));
      TimeTextOrder(a % DAY, b % DAY);
    }
  }

  // ------------------------------------------------------------------ main result

  lemma {:induction false} EarlierPrintsBefore(s: nat, t: nat)
    requires s < t && Printable(t)
    ensures Before(Stamp(s), Stamp(t))
  {
    if Second(s) < Second(t) {
      WholeSecondOrder(Second(s), Second(t));
      PrefixDecides(WholeSecond(Second(s)), WholeSecond(Second(t)), Fraction(s % MICROS), Fraction(t % MICROS));
    } else {
      assert s / MICROS == t / MICROS;
      FirstDifference(WholeSecond(Second(s)), Fraction(s % MICROS), Fraction(t % MICROS));
      FractionOrder(s % MICROS, t % MICROS);
    }
  }

  /** Text order is time order, although whole seconds print without a fraction. */
  lemma {:induction false} TextOrderIsTimeOrder(s: nat, t: nat)
    requires Printable(s) && Printable(t)
    ensures Before(Stamp(s), Stamp(t)) <==> s < t
    ensures Stamp(s) == Stamp(t) <==> s == t
  {
    if s < t {
      EarlierPrintsBefore(s, t);
      NotBoth(Stamp(s), Stamp(t));
    } else if t < s {
      EarlierPrintsBefore(t, s);
      NotBoth(Stamp(s), Stamp(t));
    } else {
      NotBoth(Stamp(s), Stamp(t));
    }
  }
}
