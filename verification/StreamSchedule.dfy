/** The replay schedule of the stream generator: windows, lateness, repeated events and the sorted list.
    Instants are microseconds since the schedule's start; rates are exact reals. */
module StreamSchedule {
  import opened IsoTime
  import opened Relational
  import opened Rounding
  import opened StableSort
  import opened TextOrder

  const DUPLICATE_SHIFT := 500_000
  /** Seconds from the first instant a datetime can hold to the schedule's start. */
  const SECONDS_BEFORE_START := 63_902_941_200

  datatype Config = Config(
    events: int, windowSeconds: int, baseline: int, burstWindow: int, burstMultiplier: int,
    lateRate: real, duplicateRate: real, outOfOrderRate: real, maxLateness: int, maxOutOfOrder: int)

  datatype Slot = Slot(window: nat, position: nat)

  datatype Event = Event(
    sequence: nat, ingest: nat, created: nat, eventTime: int,
    isBurst: bool, isLate: bool, isOutOfOrder: bool, isDuplicate: bool)

  /** What the random generator picked: which sequences are flagged, and which originals are repeated. */
  datatype Draws = Draws(late: set<nat>, outOfOrder: set<nat>, duplicates: seq<nat>)

  datatype Outcome = ConfigRejected | TooFewToDuplicate | OutOfRange | Schedule(events: seq<Event>)

  // ------------------------------------------------------------------ configuration

  predicate IsRate(x: real) { 0.0 <= x < 1.0 }

  function BeforeBurst(c: Config): int { c.burstWindow * c.baseline }
  function BurstSize(c: Config): int { c.baseline * c.burstMultiplier }
  function Span(c: Config): int { c.windowSeconds * MICROS }

  predicate ValidConfig(c: Config) {
    && c.events > 0 && c.windowSeconds > 0 && c.baseline > 0
    && c.burstWindow >= 0 && c.burstMultiplier > 1
    && IsRate(c.lateRate) && IsRate(c.duplicateRate) && IsRate(c.outOfOrderRate)
    && c.maxLateness > 0 && c.maxOutOfOrder > 0
    && c.events > BeforeBurst(c) + BurstSize(c)
  }

  function Share(n: int, rate: real): real { n as real * rate }

  function RoundedShare(n: int, rate: real): int { RoundHalfEven(Share(n, rate)) }

  function DuplicateCount(c: Config): int { RoundedShare(c.events, c.duplicateRate) }
  function Unique(c: Config): int { c.events - DuplicateCount(c) }

  function Flagged(count: int, rate: real): int {
    var n := RoundedShare(count, rate);
    if n < count then n else count
  }

  ghost predicate AllBelow(xs: set<nat>, n: int) { forall x | x in xs :: x < n }

  /** Samples without replacement, of the requested sizes. */
  ghost predicate ValidDraws(c: Config, d: Draws) {
    && AllBelow(d.late, Unique(c)) && |d.late| == Flagged(Unique(c), c.lateRate)
    && AllBelow(d.outOfOrder, Unique(c)) && |d.outOfOrder| == Flagged(Unique(c), c.outOfOrderRate)
    && |d.duplicates| == DuplicateCount(c) && NoRepeat(d.duplicates)
    && forall i | 0 <= i < |d.duplicates| :: d.duplicates[i] < Unique(c)
  }

  ghost predicate Samples(c: Config, d: Draws) {
    ValidConfig(c) && DuplicateCount(c) <= Unique(c) && ValidDraws(c, d)
  }

  lemma {:induction false} ShareIsBounded(n: int, rate: real)
    requires n >= 0 && IsRate(rate)
    ensures 0.0 <= Share(n, rate) <= n as real
  {
    Scaled(n as real, rate);
  }

  lemma {:induction false} Scaled(x: real, rate: real)
    requires x >= 0.0 && IsRate(rate)
    ensures 0.0 <= x * rate <= x
  {
    assert x * rate + x * (1.0 - rate) == x;
  }

  lemma {:induction false} RoundedBelow(x: real, n: int)
    requires 0.0 <= x <= n as real
    ensures 0 <= RoundHalfEven(x) <= n
  {
    var m := RoundHalfEven(x);
    assert (m - n) as real <= 0.5 && m as real >= -0.5;
  }

  lemma {:induction false} ShareIsSmall(n: int, rate: real)
    requires n >= 0 && IsRate(rate)
    ensures 0 <= RoundedShare(n, rate) <= n
  {
    ShareIsBounded(n, rate);
    RoundedBelow(Share(n, rate), n);
  }

  lemma {:induction false} DuplicatesAreFewer(c: Config)
    requires ValidConfig(c)
    ensures 0 <= DuplicateCount(c) <= c.events
  {
    ShareIsSmall(c.events, c.duplicateRate);
  }

  // ------------------------------------------------------------------ one event

  function SlotOf(c: Config, sequence: nat): Slot
    requires ValidConfig(c)
  {
    if sequence < BeforeBurst(c) then Slot(sequence / c.baseline, sequence % c.baseline)
    else if sequence < BeforeBurst(c) + BurstSize(c) then Slot(c.burstWindow, sequence - BeforeBurst(c))
    else
      var after := sequence - BeforeBurst(c) - BurstSize(c);
      Slot(c.burstWindow + 1 + after / c.baseline, after % c.baseline)
  }

  function Instant(c: Config, slot: Slot): nat
    requires ValidConfig(c)
  {
    slot.window * Span(c) + slot.position
  }

  function Lateness(c: Config, d: Draws, sequence: nat): nat
    requires ValidConfig(c)
  {
    if sequence in d.late then 1 + sequence % c.maxLateness
    else if sequence in d.outOfOrder then 1 + sequence % c.maxOutOfOrder
    else 0
  }

  function Original(c: Config, d: Draws, sequence: nat): Event
    requires ValidConfig(c)
  {
    var slot := SlotOf(c, sequence);
    var ingest := Instant(c, slot);
    Event(sequence, ingest, ingest, ingest - Lateness(c, d, sequence) * MICROS,
          slot.window == c.burstWindow, sequence in d.late, sequence in d.outOfOrder, false)
  }

  function Repeated(e: Event): Event {
    e.(ingest := e.ingest + DUPLICATE_SHIFT, created := e.ingest + DUPLICATE_SHIFT, isDuplicate := true)
  }

  predicate InRange(e: Event) { Printable(e.ingest) && -SECONDS_BEFORE_START * MICROS <= e.eventTime }

  predicate AllInRange(events: seq<Event>) { forall i | 0 <= i < |events| :: InRange(events[i]) }

  // ------------------------------------------------------------------ the whole list

  function Originals(c: Config, d: Draws, n: nat): (r: seq<Event>)
    requires ValidConfig(c)
    ensures |r| == n
  {
    if n == 0 then [] else Originals(c, d, n - 1) + [Original(c, d, n - 1)]
  }

  lemma {:induction false} OriginalsAt(c: Config, d: Draws, n: nat, s: nat)
    requires ValidConfig(c) && s < n
    ensures Originals(c, d, n)[s] == Original(c, d, s)
  {
    if s < n - 1 { OriginalsAt(c, d, n - 1, s); }
  }

  function Copies(c: Config, d: Draws, duplicates: seq<nat>): (r: seq<Event>)
    requires ValidConfig(c)
    ensures |r| == |duplicates|
  {
    if duplicates == [] then []
    else Copies(c, d, duplicates[..|duplicates| - 1]) + [Repeated(Original(c, d, duplicates[|duplicates| - 1]))]
  }

  lemma {:induction false} CopiesAt(c: Config, d: Draws, duplicates: seq<nat>, i: nat)
    requires ValidConfig(c) && i < |duplicates|
    ensures Copies(c, d, duplicates)[i] == Repeated(Original(c, d, duplicates[i]))
  {
    if i < |duplicates| - 1 { CopiesAt(c, d, duplicates[..|duplicates| - 1], i); }
  }

  function Emitted(c: Config, d: Draws): seq<Event>
    requires ValidConfig(c)
  {
    (if Unique(c) < 0 then [] else Originals(c, d, Unique(c))) + Copies(c, d, d.duplicates)
  }

  /** The sort key: ISO text of the ingest time, originals before duplicates. */
  predicate KeyBefore(a: Event, b: Event) {
    Before(Stamp(a.ingest), Stamp(b.ingest)) || (Stamp(a.ingest) == Stamp(b.ingest) && !a.isDuplicate && b.isDuplicate)
  }

  function Generated(c: Config, d: Draws): Outcome {
    if !ValidConfig(c) then ConfigRejected
    else if DuplicateCount(c) > Unique(c) then TooFewToDuplicate
    else if !AllInRange(Emitted(c, d)) then OutOfRange
    else Schedule(Sorted(KeyBefore, Emitted(c, d)))
  }

  lemma {:induction false} OneMoreInRange(events: seq<Event>, e: Event)
    requires AllInRange(events) && InRange(e)
    ensures AllInRange(events + [e])
  {}

  /** One event outside the calendar decides the outcome. */
  lemma {:induction false} OriginalOverflows(c: Config, d: Draws, sequence: nat)
    requires ValidConfig(c) && DuplicateCount(c) <= Unique(c) && sequence < Unique(c)
    requires !InRange(Original(c, d, sequence))
    ensures Generated(c, d) == OutOfRange
  {
    OriginalsAt(c, d, Unique(c), sequence);
    assert Emitted(c, d)[sequence] == Original(c, d, sequence);
  }

  lemma {:induction false} CopyOverflows(c: Config, d: Draws, i: nat)
    requires ValidConfig(c) && DuplicateCount(c) <= Unique(c) && i < |d.duplicates|
    requires !InRange(Repeated(Original(c, d, d.duplicates[i])))
    ensures Generated(c, d) == OutOfRange
  {
    CopiesAt(c, d, d.duplicates, i);
    var k := |Emitted(c, d)| - |d.duplicates| + i;
    assert Emitted(c, d)[k] == Copies(c, d, d.duplicates)[i];
  }

  /** The three branches at the head of the first loop. */
  method PlaceSequence(c: Config, sequence: nat) returns (window: nat, position: nat)
    requires ValidConfig(c)
    ensures Slot(window, position) == SlotOf(c, sequence)
  {
    var beforeBurst, burstSize := c.burstWindow * c.baseline, c.baseline * c.burstMultiplier;
    if sequence < beforeBurst {
      window, position := sequence / c.baseline, sequence % c.baseline;
    } else if sequence < beforeBurst + burstSize {
      window, position := c.burstWindow, sequence - beforeBurst;
    } else {
      var after := sequence - beforeBurst - burstSize;
      window, position := c.burstWindow + 1 + after / c.baseline, after % c.baseline;
    }
  }

  /** One pass of the first loop. */
  method MakeEvent(c: Config, d: Draws, sequence: nat) returns (event: Event)
    requires ValidConfig(c)
    ensures event == Original(c, d, sequence)
  {
    var window, position := PlaceSequence(c, sequence);
    var ingest := window * Span(c) + position;
    var lateness := 0;
    if sequence in d.late {
      lateness := 1 + sequence % c.maxLateness;
    } else if sequence in d.outOfOrder {
      lateness := 1 + sequence % c.maxOutOfOrder;
    }
    assert ingest == Instant(c, SlotOf(c, sequence));
    assert lateness == Lateness(c, d, sequence);
    event := Event(sequence, ingest, ingest, ingest - lateness * MICROS,
                   window == c.burstWindow, sequence in d.late, sequence in d.outOfOrder, false);
  }

  /** The first loop: every original, unless one of them leaves the calendar. */
  method MakeOriginals(c: Config, d: Draws, uniqueCount: nat) returns (events: seq<Event>, inRange: bool)
    requires ValidConfig(c) && DuplicateCount(c) <= Unique(c) == uniqueCount
    ensures inRange ==> events == Originals(c, d, uniqueCount) && AllInRange(events)
    ensures !inRange ==> Generated(c, d) == OutOfRange
  {
    events := [];
    for sequence := 0 to uniqueCount
      invariant events == Originals(c, d, sequence) && AllInRange(events)
    {
      var event := MakeEvent(c, d, sequence);
      if !InRange(event) {
        OriginalOverflows(c, d, sequence);
        return events, false;
      }
      OneMoreInRange(events, event);
      events := events + [event];
    }
    return events, true;
  }

  /** The second loop: a copy for each sampled original. */
  method AddDuplicates(c: Config, d: Draws, originals: seq<Event>) returns (events: seq<Event>, inRange: bool)
    requires ValidConfig(c) && DuplicateCount(c) <= Unique(c) == |originals| && ValidDraws(c, d)
    requires originals == Originals(c, d, |originals|) && AllInRange(originals)
    ensures inRange ==> events == originals + Copies(c, d, d.duplicates) && AllInRange(events)
    ensures !inRange ==> Generated(c, d) == OutOfRange
  {
    events := originals;
    for i := 0 to |d.duplicates|
      invariant events == originals + Copies(c, d, d.duplicates[..i]) && AllInRange(events)
    {
      OriginalsAt(c, d, |originals|, d.duplicates[i]);
      var duplicate := Repeated(events[d.duplicates[i]]);
      if !InRange(duplicate) {
        CopyOverflows(c, d, i);
        return events, false;
      }
      assert d.duplicates[..i + 1][..i] == d.duplicates[..i];
      OneMoreInRange(events, duplicate);
      events := events + [duplicate];
    }
    assert d.duplicates[..|d.duplicates|] == d.duplicates;
    return events, true;
  }

  method GenerateStreamEvents(c: Config, d: Draws) returns (o: Outcome)
    requires ValidConfig(c) && DuplicateCount(c) <= Unique(c) ==> ValidDraws(c, d)
    ensures o == Generated(c, d)
  {
    if !ValidConfig(c) { return ConfigRejected; }
    var duplicateCount := DuplicateCount(c);
    var uniqueCount := c.events - duplicateCount;
    if duplicateCount > uniqueCount { return TooFewToDuplicate; }
    DuplicatesAreFewer(c);
    var events, inRange := MakeOriginals(c, d, uniqueCount);
    if !inRange { return OutOfRange; }
    events, inRange := AddDuplicates(c, d, events);
    if !inRange { return OutOfRange; }
    return Schedule(Sorted(KeyBefore, events));
  }

  // ------------------------------------------------------------------ the emitted order

  /** Time order, with an original ahead of a copy ingested at the same instant. */
  function TimeRank(e: Event): int { 2 * e.ingest + (if e.isDuplicate then 1 else 0) }

  lemma {:induction false} KeyIsTime(a: Event, b: Event)
    requires Printable(a.ingest) && Printable(b.ingest)
    ensures KeyBefore(a, b) <==> TimeRank(a) < TimeRank(b)
  {
    TextOrderIsTimeOrder(a.ingest, b.ingest);
  }

  /** The emitted list holds every original and every copy, in ingest-time order: although the sort
      compares text, and whole seconds print no fraction, no event comes before an earlier one.
      Events of one rank stay in the order they were appended. */
  lemma {:induction false} ScheduleIsInTimeOrder(c: Config, d: Draws, rank: int)
    requires Generated(c, d).Schedule?
    ensures var events := Generated(c, d).events;
      && InOrder(TimeRank, events)
      && multiset(events) == multiset(Emitted(c, d))
      && Ranked(TimeRank, rank, events) == Ranked(TimeRank, rank, Emitted(c, d))
  {
    var events := Emitted(c, d);
    forall a, b | a in events && b in events ensures KeyBefore(a, b) <==> TimeRank(a) < TimeRank(b) {
      var i :| 0 <= i < |events| && events[i] == a;
      var j :| 0 <= j < |events| && events[j] == b;
      assert InRange(events[i]) && InRange(events[j]);
      KeyIsTime(a, b);
    }
    SortedInOrder(KeyBefore, TimeRank, events, rank);
    SortedKeepsAll(KeyBefore, events);
  }

  // ------------------------------------------------------------------ lateness

  /** A flagged event is between one second and its limit late, late winning over out of order;
      any other event happens when it is ingested, and a copy keeps its original's event time. */
  lemma {:induction false} LatenessIsBounded(c: Config, d: Draws, s: nat)
    requires ValidConfig(c)
    ensures var late := Original(c, d, s).ingest - Original(c, d, s).eventTime;
      && (s in d.late ==> MICROS <= late <= c.maxLateness * MICROS)
      && (s !in d.late && s in d.outOfOrder ==> MICROS <= late <= c.maxOutOfOrder * MICROS)
      && (s !in d.late && s !in d.outOfOrder ==> late == 0)
      && Repeated(Original(c, d, s)).ingest - Repeated(Original(c, d, s)).eventTime == late + DUPLICATE_SHIFT
  {
    assert 0 <= s % c.maxLateness < c.maxLateness && 0 <= s % c.maxOutOfOrder < c.maxOutOfOrder;
  }
}
