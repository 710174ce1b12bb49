/** What a schedule holds, event by event and field by field, and when the generator refuses. */
module StreamEvents {
  import opened IsoReading
  import opened IsoTime
  import opened Relational
  import opened Rounding
  import opened StableSort
  import opened StreamProfile
  import opened StreamSchedule

  // ------------------------------------------------------------------ one event

  /** Sequence number `s` stands at `position` in `window`: plain windows of the baseline size before and behind
      the burst window, which is as many times longer. */
  predicate Stands(c: Config, s: int, window: int, position: int) {
    var before, burst := c.burstWindow * c.baseline, c.baseline * c.burstMultiplier;
    if s < before then 0 <= position < c.baseline && s == window * c.baseline + position
    else if s < before + burst then window == c.burstWindow && position == s - before
    else
      && window > c.burstWindow && 0 <= position < c.baseline
      && s == before + burst + (window - c.burstWindow - 1) * c.baseline + position
  }

  /** How many seconds an event happened before it was ingested. */
  function SecondsLate(c: Config, d: Draws, s: nat): int
    requires c.maxLateness > 0 && c.maxOutOfOrder > 0
  {
    if s in d.late then s % c.maxLateness + 1
    else if s in d.outOfOrder then s % c.maxOutOfOrder + 1
    else 0
  }

  /** Every field of an event, from its sequence number, its window and the draws; a copy is ingested and
      created half a second after its original and is otherwise the same. */
  ghost predicate Describes(c: Config, d: Draws, e: Event, window: int, position: int)
    requires c.maxLateness > 0 && c.maxOutOfOrder > 0
  {
    var ingest := window * (c.windowSeconds * 1_000_000) + position;
    && Stands(c, e.sequence, window, position)
    && e.ingest == ingest + (if e.isDuplicate then 500_000 else 0)
    && e.created == e.ingest
    && e.eventTime == ingest - SecondsLate(c, d, e.sequence) * 1_000_000
    && (e.isBurst <==> 0 <= e.sequence - c.burstWindow * c.baseline < c.baseline * c.burstMultiplier)
    && (e.isLate <==> e.sequence in d.late) && (e.isOutOfOrder <==> e.sequence in d.outOfOrder)
  }

  lemma {:induction false} SlotStands(c: Config, s: nat)
    requires ValidConfig(c)
    ensures Stands(c, s, SlotOf(c, s).window, SlotOf(c, s).position)
    ensures SlotOf(c, s).window == c.burstWindow
            <==> 0 <= s - c.burstWindow * c.baseline < c.baseline * c.burstMultiplier
  {
    if s < BeforeBurst(c) {
      Parts(s, c.baseline);
      QuotientAtLeast(s, c.baseline, c.burstWindow);
    } else if s >= BeforeBurst(c) + BurstSize(c) {
      Parts(s - BeforeBurst(c) - BurstSize(c), c.baseline);
    }
  }

  lemma {:induction false} OriginalIsDescribed(c: Config, d: Draws, s: nat)
    requires ValidConfig(c)
    ensures var slot := SlotOf(c, s);
      && Describes(c, d, Original(c, d, s), slot.window, slot.position)
      && Describes(c, d, Repeated(Original(c, d, s)), slot.window, slot.position)
  {
    SlotStands(c, s);
  }

  // ------------------------------------------------------------------ the schedule

  lemma {:induction false} EventOfSchedule(c: Config, d: Draws, e: Event) returns (i: nat)
    requires Samples(c, d) && Generated(c, d).Schedule? && e in Generated(c, d).events
    ensures i < |Emitted(c, d)| && Emitted(c, d)[i] == e
  {
    SortedKeepsAll(KeyBefore, Emitted(c, d));
    assert e in multiset(Generated(c, d).events);
    assert e in Emitted(c, d);
    i :| 0 <= i < |Emitted(c, d)| && Emitted(c, d)[i] == e;
  }

  /** Every event of a schedule is an original or the copy of a drawn one, with the fields it should have. */
  lemma {:induction false} EventMeaning(c: Config, d: Draws, e: Event) returns (window: int, position: int)
    requires Samples(c, d) && Generated(c, d).Schedule? && e in Generated(c, d).events
    ensures e.sequence < Unique(c) && (e.isDuplicate ==> e.sequence in d.duplicates)
    ensures c.maxLateness > 0 && c.maxOutOfOrder > 0 && Describes(c, d, e, window, position)
  {
    var i := EventOfSchedule(c, d, e);
    EmittedAt(c, d, i);
    OriginalIsDescribed(c, d, e.sequence);
    window, position := SlotOf(c, e.sequence).window, SlotOf(c, e.sequence).position;
  }

  /** And nothing is missing: each sequence number has its original, each drawn one its copy, and the schedule
      has exactly the configured number of events. */
  lemma {:induction false} ScheduleIsComplete(c: Config, d: Draws, s: nat)
    requires Samples(c, d) && Generated(c, d).Schedule?
    ensures var events := Generated(c, d).events;
      && |events| == c.events
      && (s < c.events - |d.duplicates| ==> exists e :: e in events && e.sequence == s && !e.isDuplicate)
      && (s in d.duplicates ==> exists e :: e in events && e.sequence == s && e.isDuplicate)
  {
    DuplicatesAreFewer(c);
    SameSize(c, d);
    if s < Unique(c) { EmittedIsListed(c, d, s); }
    if s in d.duplicates {
      var k :| 0 <= k < |d.duplicates| && d.duplicates[k] == s;
      EmittedIsListed(c, d, Unique(c) + k);
    }
  }

  lemma {:induction false} SameSize(c: Config, d: Draws)
    requires Samples(c, d) && Generated(c, d).Schedule?
    ensures |Generated(c, d).events| == |Emitted(c, d)|
  {
    SortedKeepsAll(KeyBefore, Emitted(c, d));
    assert |Generated(c, d).events| == |multiset(Generated(c, d).events)|;
    assert |Emitted(c, d)| == |multiset(Emitted(c, d))|;
  }

  lemma {:induction false} EmittedIsListed(c: Config, d: Draws, i: nat)
    requires Samples(c, d) && Generated(c, d).Schedule? && i < |Emitted(c, d)|
    ensures Emitted(c, d)[i] in Generated(c, d).events
    ensures i < Unique(c) ==> Emitted(c, d)[i].sequence == i && !Emitted(c, d)[i].isDuplicate
    ensures i >= Unique(c) ==>
              Emitted(c, d)[i].sequence == d.duplicates[i - Unique(c)] && Emitted(c, d)[i].isDuplicate
  {
    EmittedAt(c, d, i);
    SortedKeepsAll(KeyBefore, Emitted(c, d));
    assert Emitted(c, d)[i] in multiset(Emitted(c, d));
  }

  // ------------------------------------------------------------------ refusals

  /** What the configuration must satisfy. */
  predicate Accepted(c: Config) {
    && !(c.events <= 0) && !(c.windowSeconds <= 0) && !(c.baseline <= 0)
    && !(c.burstWindow < 0) && !(c.burstMultiplier <= 1)
    && !(c.lateRate < 0.0 || 1.0 <= c.lateRate) && !(c.duplicateRate < 0.0 || 1.0 <= c.duplicateRate)
    && !(c.outOfOrderRate < 0.0 || 1.0 <= c.outOfOrderRate)
    && !(c.maxLateness <= 0) && !(c.maxOutOfOrder <= 0)
    && !(c.events <= c.burstWindow * c.baseline + c.baseline * c.burstMultiplier)
  }

  lemma {:induction false} AcceptedIff(c: Config)
    ensures Accepted(c) <==> ValidConfig(c)
  {}

  /** How many duplicates are asked for. */
  function Asked(c: Config): int { RoundHalfEven(Product(c.events, c.duplicateRate)) }

  function Product(n: int, rate: real): real { rate * n as real }

  lemma {:induction false} ShareIsProduct(n: int, rate: real)
    ensures Share(n, rate) == Product(n, rate)
  {}

  lemma {:induction false} AskedIs(c: Config)
    ensures DuplicateCount(c) == Asked(c) && Unique(c) == c.events - Asked(c)
  {
    ShareIsProduct(c.events, c.duplicateRate);
  }

  /** An instant the calendar cannot hold: printed after 9999, or happening before year one. */
  predicate OffCalendar(e: Event) { DateAfter(Second(e.ingest) / 86_400).year > 9999 || BeforeYearOne(e.eventTime) }

  lemma {:induction false} OffCalendarIff(e: Event)
    ensures OffCalendar(e) <==> !InRange(e)
  {
    StartInSeconds();
  }

  /** Which outcome a configuration and its draws have: refused, more duplicates asked for than originals left,
      or some instant outside the years one to 9999. */
  lemma {:induction false} OutcomeMeaning(c: Config, d: Draws)
    ensures Generated(c, d).ConfigRejected? <==> !Accepted(c)
    ensures Generated(c, d).TooFewToDuplicate? <==> Accepted(c) && 2 * Asked(c) > c.events
    ensures Generated(c, d).OutOfRange?
       <==> Accepted(c) && 2 * Asked(c) <= c.events && ValidConfig(c) && exists e ::
         e in Emitted(c, d) && OffCalendar(e)
  {
    AcceptedIff(c);
    AskedIs(c);
    if Accepted(c) {
      forall e ensures OffCalendar(e) <==> !InRange(e) { OffCalendarIff(e); }
      AllInRangeIff(Emitted(c, d));
    }
  }

  lemma {:induction false} AllInRangeIff(events: seq<Event>)
    ensures AllInRange(events) <==> !exists e :: e in events && !InRange(e)
  {
    if e :| e in events && !InRange(e) {
      var i :| 0 <= i < |events| && events[i] == e;
    }
  }

  /** The instant lies before the first of January of year one. */
  predicate BeforeYearOne(t: int) {
    t < (DayNumber(1, 1, 1) - DayNumber(2026, 1, 2)) * 86_400_000_000 - 32_400_000_000
  }

  lemma {:induction false} StartInSeconds()
    ensures (DayNumber(1, 1, 1) - DayNumber(2026, 1, 2)) * 86_400_000_000 - 32_400_000_000
         == -SECONDS_BEFORE_START * MICROS
  {}

  /** The draws are samples of the rounded shares. */
  lemma {:induction false} DrawnNumbers(c: Config, d: Draws)
    requires Samples(c, d)
    ensures |d.duplicates| == Asked(c)
    ensures |d.late| == Smaller(RoundHalfEven(Product(c.events - Asked(c), c.lateRate)), c.events - Asked(c))
    ensures |d.outOfOrder|
         == Smaller(RoundHalfEven(Product(c.events - Asked(c), c.outOfOrderRate)), c.events - Asked(c))
  {
    AskedIs(c);
    FlaggedIs(Unique(c), c.lateRate);
    FlaggedIs(Unique(c), c.outOfOrderRate);
  }

  lemma {:induction false} FlaggedIs(n: int, rate: real)
    ensures Flagged(n, rate) == Smaller(RoundHalfEven(Product(n, rate)), n)
  {
    ShareIsProduct(n, rate);
  }

  function Smaller(a: int, b: int): int { if b < a then b else a }
}
