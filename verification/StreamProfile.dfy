/** The profiler's window counts, and when they give back the windows the generator scheduled. */
module StreamProfile {
  import opened IsoTime
  import opened Rounding
  import opened StableSort
  import opened StreamSchedule

  // ------------------------------------------------------------------ the profiler

  datatype Counts = NoEvents | PerWindow(counts: map<int, nat>)

  function Earliest(events: seq<Event>): (t: nat)
    requires events != []
    ensures forall e | e in events :: t <= e.ingest
    ensures exists e | e in events :: t == e.ingest
  {
    var rest := events[..|events| - 1];
    var last := events[|events| - 1];
    assert events == rest + [last];
    if rest == [] || last.ingest < Earliest(rest) then last.ingest else Earliest(rest)
  }

  /** The window the profiler puts an event in. */
  function WindowAt(c: Config, start: nat, e: Event): int
    requires ValidConfig(c)
  {
    (e.ingest - start) / Span(c)
  }

  function CountAt(c: Config, start: nat, events: seq<Event>, w: int): nat
    requires ValidConfig(c)
  {
    if events == [] then 0
    else CountAt(c, start, events[..|events| - 1], w) + (if WindowAt(c, start, events[|events| - 1]) == w then 1 else 0)
  }

  method WindowCounts(c: Config, events: seq<Event>) returns (r: Counts)
    requires ValidConfig(c)
    ensures r.NoEvents? <==> events == []
    ensures r.PerWindow? ==> forall w ::
      && (w in r.counts <==> CountAt(c, Earliest(events), events, w) > 0)
      && (w in r.counts ==> r.counts[w] == CountAt(c, Earliest(events), events, w))
  {
    if events == [] { return NoEvents; }
    var start := Earliest(events);
    var counts: map<int, nat> := map[];
    for i := 0 to |events|
      invariant forall w ::
        && (w in counts <==> CountAt(c, start, events[..i], w) > 0)
        && (w in counts ==> counts[w] == CountAt(c, start, events[..i], w))
    {
      var w := (events[i].ingest - start) / (c.windowSeconds * MICROS);
      assert w == WindowAt(c, start, events[i]);
      assert events[..i + 1][..i] == events[..i];
      counts := counts[w := (if w in counts then counts[w] else 0) + 1];
    }
    assert events[..|events|] == events;
    return PerWindow(counts);
  }

  // ------------------------------------------------------------------ windows as intervals of sequences

  /** First sequence number of window `w`, and how many it holds. */
  function First(c: Config, w: nat): int {
    if w <= c.burstWindow then w * c.baseline
    else BeforeBurst(c) + BurstSize(c) + (w - c.burstWindow - 1) * c.baseline
  }

  function Size(c: Config, w: nat): int { if w == c.burstWindow then BurstSize(c) else c.baseline }

  lemma {:induction false} BurstIsLarger(c: Config)
    requires ValidConfig(c)
    ensures BurstSize(c) >= 2 * c.baseline && BeforeBurst(c) >= 0 && Span(c) > 0
    ensures c.burstWindow > 0 ==> BeforeBurst(c) >= c.baseline
  {
    assert c.baseline * (c.burstMultiplier - 2) >= 0;
    assert c.burstWindow > 0 ==> (c.burstWindow - 1) * c.baseline >= 0;
  }

  lemma {:induction false} Parts(s: nat, b: int)
    requires b > 0
    ensures s == (s / b) * b + s % b && 0 <= s % b < b && s / b >= 0
  {
  }

  lemma {:induction false} MultiplesCompare(p: int, rest: int, b: int, q: int)
    requires 0 <= rest < b
    ensures p * b + rest >= q * b <==> p >= q
  {
    MultipleNotNegative(p - q, b);
    MultipleNotNegative(q - 1 - p, b);
  }

  lemma {:induction false} MultipleNotNegative(d: int, b: int)
    requires b >= 0
    ensures d >= 0 ==> d * b >= 0
  {}

  lemma {:induction false} QuotientAtLeast(s: nat, b: int, q: int)
    requires b > 0
    ensures s >= q * b <==> s / b >= q
  {
    Parts(s, b);
    MultiplesCompare(s / b, s % b, b, q);
  }

  lemma {:induction false} SlotInWindow(c: Config, s: nat)
    requires ValidConfig(c)
    ensures var slot := SlotOf(c, s); s == First(c, slot.window) + slot.position && slot.position < Size(c, slot.window)
  {
    if s < BeforeBurst(c) {
      Parts(s, c.baseline);
      QuotientAtLeast(s, c.baseline, c.burstWindow);
    } else if s >= BeforeBurst(c) + BurstSize(c) {
      Parts(s - BeforeBurst(c) - BurstSize(c), c.baseline);
    }
  }

  lemma {:induction false} WindowsFollow(c: Config, v: nat, w: nat)
    requires ValidConfig(c) && v < w
    ensures First(c, v) + Size(c, v) <= First(c, w)
    decreases w
  {
    if v < w - 1 {
      WindowsFollow(c, v, w - 1);
      BurstIsLarger(c);
    }
    NextWindow(c, w - 1);
  }

  lemma {:induction false} NextWindow(c: Config, w: nat)
    requires ValidConfig(c)
    ensures First(c, w) + Size(c, w) == First(c, w + 1)
  {
    if w < c.burstWindow {
      assert w * c.baseline + c.baseline == (w + 1) * c.baseline;
    } else if w > c.burstWindow {
      assert (w - c.burstWindow - 1) * c.baseline + c.baseline == (w - c.burstWindow) * c.baseline;
    }
  }

  /** The three branches of the scheduler cut the sequence numbers into consecutive windows. */
  lemma {:induction false} WindowIsInterval(c: Config, s: nat, w: nat)
    requires ValidConfig(c)
    ensures SlotOf(c, s).window == w <==> First(c, w) <= s < First(c, w) + Size(c, w)
  {
    SlotInWindow(c, s);
    var v := SlotOf(c, s).window;
    if v < w { WindowsFollow(c, v, w); }
    if w < v { WindowsFollow(c, w, v); }
  }

  // ------------------------------------------------------------------ recovery of one event

  function WindowOf(c: Config, e: Event): nat
    requires ValidConfig(c)
  {
    SlotOf(c, e.sequence).window
  }

  function Shift(e: Event): nat { if e.isDuplicate then DUPLICATE_SHIFT else 0 }

  predicate Recovered(c: Config, e: Event)
    requires ValidConfig(c)
  {
    WindowAt(c, 0, e) == WindowOf(c, e)
  }

  predicate Scheduled(c: Config, e: Event)
    requires ValidConfig(c)
  {
    e.ingest == Instant(c, SlotOf(c, e.sequence)) + Shift(e)
  }

  /** An event's window comes back exactly when its position, plus the shift of a copy, fits in it. */
  lemma {:induction false} RecoveredIff(c: Config, e: Event)
    requires ValidConfig(c) && Scheduled(c, e)
    ensures Recovered(c, e) <==> SlotOf(c, e.sequence).position + Shift(e) < Span(c)
  {
    var slot := SlotOf(c, e.sequence);
    BurstIsLarger(c);
    QuotientAtLeast(e.ingest, Span(c), slot.window);
    QuotientAtLeast(e.ingest, Span(c), slot.window + 1);
    assert (slot.window + 1) * Span(c) == slot.window * Span(c) + Span(c);
    assert e.ingest - 0 == e.ingest;
  }

  lemma {:induction false} EmittedAt(c: Config, d: Draws, i: nat)
    requires Samples(c, d) && i < |Emitted(c, d)|
    ensures var e := Emitted(c, d)[i];
      && Scheduled(c, e) && e.sequence < Unique(c)
      && (i < Unique(c) ==> e == Original(c, d, i))
      && (i >= Unique(c) ==> e == Repeated(Original(c, d, d.duplicates[i - Unique(c)])))
  {
    DuplicatesAreFewer(c);
    if i < Unique(c) {
      OriginalsAt(c, d, Unique(c), i);
    } else {
      CopiesAt(c, d, d.duplicates, i - Unique(c));
    }
  }

  /** The first event is ingested at the start, so the profiler's own start is the schedule's. */
  lemma {:induction false} ProfileStartsAtZero(c: Config, d: Draws)
    requires Samples(c, d) && Generated(c, d).Schedule?
    ensures Generated(c, d).events != [] && Earliest(Generated(c, d).events) == 0
  {
    var events := Generated(c, d).events;
    DuplicatesAreFewer(c);
    EmittedAt(c, d, 0);
    SortedKeepsAll(KeyBefore, Emitted(c, d));
    var e := Original(c, d, 0);
    FirstAtZero(c);
    assert e.ingest == 0;
    assert Emitted(c, d)[0] in multiset(Emitted(c, d));
    assert e in multiset(events);
    assert e in events;
  }

  lemma {:induction false} FirstAtZero(c: Config)
    requires ValidConfig(c)
    ensures SlotOf(c, 0) == Slot(0, 0)
  {
    BurstIsLarger(c);
    if c.burstWindow == 0 {
      assert BeforeBurst(c) == 0;
    } else {
      QuotientAtLeast(0, c.baseline, 1);
      Parts(0, c.baseline);
    }
  }

  // ------------------------------------------------------------------ recovery of every event

  /** The largest number of originals in one window. */
  function Fullest(c: Config): int {
    var baseline := if Unique(c) < c.baseline then Unique(c) else c.baseline;
    var burst := if Unique(c) - BeforeBurst(c) < BurstSize(c) then Unique(c) - BeforeBurst(c) else BurstSize(c);
    if c.burstWindow == 0 || (Unique(c) > BeforeBurst(c) && burst > baseline) then burst else baseline
  }

  /** Copies of the fullest window's last original must still land inside the window. */
  predicate Fits(c: Config) {
    Fullest(c) + (if DuplicateCount(c) > 0 then DUPLICATE_SHIFT else 0) <= Span(c)
  }

  lemma {:induction false} PositionBound(c: Config, s: nat)
    requires ValidConfig(c) && s < Unique(c)
    ensures SlotOf(c, s).position < Fullest(c)
  {
    SlotInWindow(c, s);
    BurstIsLarger(c);
    var w := SlotOf(c, s).window;
    assert 0 * c.baseline == 0;
    if w > 0 { WindowsFollow(c, 0, w); }
    if w > c.burstWindow {
      WindowsFollow(c, c.burstWindow, w);
    }
  }

  lemma {:induction false} BoundIsReached(c: Config) returns (s: nat)
    requires ValidConfig(c) && Unique(c) > 0
    ensures s < Unique(c) && SlotOf(c, s).position == Fullest(c) - 1
  {
    BurstIsLarger(c);
    if c.burstWindow == 0 || Fullest(c) > c.baseline {
      s := BeforeBurst(c) + Fullest(c) - 1;
      WindowIsInterval(c, s, c.burstWindow);
    } else {
      s := Fullest(c) - 1;
      assert 0 * c.baseline == 0;
      WindowIsInterval(c, s, 0);
    }
    SlotInWindow(c, s);
  }

  lemma {:induction false} FitsRecovers(c: Config, d: Draws, i: nat)
    requires Samples(c, d) && Fits(c) && i < |Emitted(c, d)|
    ensures Recovered(c, Emitted(c, d)[i])
  {
    EmittedAt(c, d, i);
    var e := Emitted(c, d)[i];
    DuplicatesAreFewer(c);
    PositionBound(c, e.sequence);
    assert e.isDuplicate ==> DuplicateCount(c) > 0;
    RecoveredIff(c, e);
  }

  ghost function Upto(n: nat): set<nat> { if n == 0 then {} else Upto(n - 1) + {n - 1} }

  lemma {:induction false} UptoCount(n: nat)
    ensures |Upto(n)| == n && AllBelow(Upto(n), n)
  {
    if n > 0 {
      UptoCount(n - 1);
      assert n - 1 !in Upto(n - 1);
    }
  }

  /** `s` first, then 0, 1, 2, ... without `s`. */
  function Starting(s: nat, k: nat): (r: seq<nat>)
    ensures |r| == k && (k > 0 ==> r[0] == s)
    ensures forall j | 0 < j < k :: r[j] == if j - 1 < s then j - 1 else j
  {
    if k == 0 then [] else if k == 1 then [s] else Starting(s, k - 1) + [if k - 2 < s then k - 2 else k - 1]
  }

  lemma {:induction false} FlaggedIsSmall(n: nat, rate: real)
    requires IsRate(rate)
    ensures 0 <= Flagged(n, rate) <= n
  {
    ShareIsSmall(n, rate);
  }

  lemma {:induction false} SomeDraws(c: Config, s: nat) returns (d: Draws)
    requires ValidConfig(c) && DuplicateCount(c) <= Unique(c) && s < Unique(c)
    ensures Samples(c, d) && (DuplicateCount(c) > 0 ==> d.duplicates[0] == s)
  {
    DuplicatesAreFewer(c);
    FlaggedIsSmall(Unique(c), c.lateRate);
    FlaggedIsSmall(Unique(c), c.outOfOrderRate);
    UptoCount(Flagged(Unique(c), c.lateRate));
    UptoCount(Flagged(Unique(c), c.outOfOrderRate));
    d := Draws(Upto(Flagged(Unique(c), c.lateRate)), Upto(Flagged(Unique(c), c.outOfOrderRate)),
               Starting(s, DuplicateCount(c)));
  }

  lemma {:induction false} UnfitLosesAWindow(c: Config) returns (d: Draws, i: nat)
    requires ValidConfig(c) && DuplicateCount(c) <= Unique(c) && !Fits(c)
    ensures Samples(c, d) && i < |Emitted(c, d)| && !Recovered(c, Emitted(c, d)[i])
  {
    DuplicatesAreFewer(c);
    var s := BoundIsReached(c);
    d := SomeDraws(c, s);
    i := if DuplicateCount(c) > 0 then Unique(c) else s;
    EmittedAt(c, d, i);
    RecoveredIff(c, Emitted(c, d)[i]);
  }

  ghost predicate AlwaysRecovered(c: Config)
    requires ValidConfig(c)
  {
    forall d, i | Samples(c, d) && 0 <= i < |Emitted(c, d)| :: Recovered(c, Emitted(c, d)[i])
  }

  /** The profiler inverts the scheduler, for every choice the random generator can make, exactly when
      the fullest window and the shift of a copy fit in the window length. This is about the events as they
      are built, before an instant beyond the calendar can make the generator raise. */
  lemma {:induction false} ProfilerInvertsIff(c: Config)
    requires ValidConfig(c) && DuplicateCount(c) <= Unique(c)
    ensures AlwaysRecovered(c) <==> Fits(c)
  {
    if Fits(c) {
      forall d, i | Samples(c, d) && 0 <= i < |Emitted(c, d)| ensures Recovered(c, Emitted(c, d)[i]) {
        FitsRecovers(c, d, i);
      }
    } else {
      var d, i := UnfitLosesAWindow(c);
      assert !Recovered(c, Emitted(c, d)[i]);
    }
  }

  // ------------------------------------------------------------------ schedules inside the calendar

  /** Even the end of the last window, shifted, can be printed, and no lateness reaches before year one. */
  predicate StaysInCalendar(c: Config)
    requires ValidConfig(c)
  {
    && Unique(c) > 0 && Span(c) > 0 && Fullest(c) >= 0
    && Printable(SlotOf(c, Unique(c) - 1).window * Span(c) + Fullest(c) + DUPLICATE_SHIFT)
    && c.maxLateness <= SECONDS_BEFORE_START && c.maxOutOfOrder <= SECONDS_BEFORE_START
  }

  lemma {:induction false} EarlierIsPrintable(t: nat, u: nat)
    requires t <= u && Printable(u)
    ensures Printable(t)
  {
    assert t / MICROS <= u / MICROS;
    assert Second(t) / DAY <= Second(u) / DAY;
    if Second(t) / DAY < Second(u) / DAY { DatesAdvance(Second(t) / DAY, Second(u) / DAY); }
  }

  lemma {:induction false} WindowsAscend(c: Config, s: nat, t: nat)
    requires ValidConfig(c) && s <= t
    ensures SlotOf(c, s).window <= SlotOf(c, t).window
  {
    var v, w := SlotOf(c, s).window, SlotOf(c, t).window;
    SlotInWindow(c, s);
    SlotInWindow(c, t);
    if w < v { WindowsFollow(c, w, v); }
  }

  lemma {:induction false} InstantBound(c: Config, s: nat)
    requires ValidConfig(c) && s < Unique(c)
    ensures Instant(c, SlotOf(c, s)) <= SlotOf(c, Unique(c) - 1).window * Span(c) + Fullest(c)
  {
    WindowsAscend(c, s, Unique(c) - 1);
    PositionBound(c, s);
    BurstIsLarger(c);
    LaterSlot(SlotOf(c, s).window, SlotOf(c, Unique(c) - 1).window, Span(c), SlotOf(c, s).position, Fullest(c));
  }

  lemma {:induction false} LaterSlot(v: nat, w: nat, span: int, p: int, q: int)
    requires v <= w && span >= 0 && p <= q
    ensures v * span + p <= w * span + q
  {
    assert (w - v) * span >= 0;
  }

  lemma {:induction false} LatenessBound(c: Config, d: Draws, s: nat)
    requires ValidConfig(c) && c.maxLateness <= SECONDS_BEFORE_START && c.maxOutOfOrder <= SECONDS_BEFORE_START
    ensures Lateness(c, d, s) <= SECONDS_BEFORE_START
  {
    assert s % c.maxLateness < c.maxLateness && s % c.maxOutOfOrder < c.maxOutOfOrder;
  }

  lemma {:induction false} OriginalInCalendar(c: Config, d: Draws, s: nat)
    requires ValidConfig(c) && StaysInCalendar(c) && s < Unique(c)
    ensures InRange(Original(c, d, s)) && InRange(Repeated(Original(c, d, s)))
  {
    InstantBound(c, s);
    LatenessBound(c, d, s);
    var last := SlotOf(c, Unique(c) - 1).window * Span(c) + Fullest(c) + DUPLICATE_SHIFT;
    EarlierIsPrintable(Instant(c, SlotOf(c, s)), last);
    EarlierIsPrintable(Instant(c, SlotOf(c, s)) + DUPLICATE_SHIFT, last);
  }

  /** Such a configuration is scheduled whatever the random generator picks. */
  lemma {:induction false} InCalendarSchedules(c: Config, d: Draws)
    requires Samples(c, d) && StaysInCalendar(c)
    ensures Generated(c, d).Schedule?
  {
    DuplicatesAreFewer(c);
    forall i | 0 <= i < |Emitted(c, d)| ensures InRange(Emitted(c, d)[i]) {
      EmittedAt(c, d, i);
      OriginalInCalendar(c, d, if i < Unique(c) then i else d.duplicates[i - Unique(c)]);
    }
  }

  ghost predicate ScheduledRecovered(c: Config)
    requires ValidConfig(c)
  {
    forall d, i | Samples(c, d) && Generated(c, d).Schedule? && 0 <= i < |Emitted(c, d)| ::
                Recovered(c, Emitted(c, d)[i])
  }

  /** The same for the schedules the generator really returns: fitting is always enough, and inside the
      calendar nothing less is. */
  lemma {:induction false} ScheduleInvertsIff(c: Config)
    requires ValidConfig(c) && DuplicateCount(c) <= Unique(c)
    ensures Fits(c) ==> ScheduledRecovered(c)
    ensures StaysInCalendar(c) && ScheduledRecovered(c) ==> Fits(c)
  {
    ProfilerInvertsIff(c);
    if StaysInCalendar(c) && !Fits(c) {
      var d, i := UnfitLosesAWindow(c);
      InCalendarSchedules(c, d);
      assert !Recovered(c, Emitted(c, d)[i]);
    }
  }

  /** For one schedule, whatever the calendar: everything is recovered exactly when the fullest window fits and
      each drawn copy lands in its original's window. */
  lemma {:induction false} DrawnRecoveredIff(c: Config, d: Draws)
    requires Samples(c, d)
    ensures (forall i | 0 <= i < |Emitted(c, d)| :: Recovered(c, Emitted(c, d)[i]))
       <==> Fullest(c) <= Span(c)
            && forall k | 0 <= k < |d.duplicates| :: SlotOf(c, d.duplicates[k]).position + DUPLICATE_SHIFT < Span(c)
  {
    DuplicatesAreFewer(c);
    var events, n := Emitted(c, d), Unique(c);
    forall i | 0 <= i < |events|
      ensures Recovered(c, events[i]) <==> SlotOf(c, events[i].sequence).position + Shift(events[i]) < Span(c)
    {
      EmittedAt(c, d, i);
      RecoveredIff(c, events[i]);
    }
    if forall i | 0 <= i < |events| :: Recovered(c, events[i]) {
      var s := BoundIsReached(c);
      EmittedAt(c, d, s);
      assert Recovered(c, events[s]);
      forall k | 0 <= k < |d.duplicates| ensures SlotOf(c, d.duplicates[k]).position + DUPLICATE_SHIFT < Span(c) {
        EmittedAt(c, d, n + k);
        assert Recovered(c, events[n + k]);
      }
    } else {
      var i :| 0 <= i < |events| && !Recovered(c, events[i]);
      EmittedAt(c, d, i);
      if i < n { PositionBound(c, i); }
    }
  }

  /** A valid configuration, inside the calendar, whose burst of 1.2 million events, a microsecond apart, runs
      out of its one-second window. */
  lemma {:induction false} UnfitScheduleExists() returns (c: Config, d: Draws, i: nat)
    ensures ValidConfig(c) && Samples(c, d) && StaysInCalendar(c) && !Fits(c)
    ensures Generated(c, d).Schedule? && i < |Emitted(c, d)| && !Recovered(c, Emitted(c, d)[i])
  {
    c := Config(1_200_001, 1, 600_000, 0, 2, 0.0, 0.0, 0.0, 1, 1);
    RoundingIsUnique(Share(c.events, 0.0), 0);
    assert DuplicateCount(c) == 0;
    assert Fullest(c) == 1_200_000 && Span(c) == 1_000_000;
    assert SlotOf(c, Unique(c) - 1).window == 1;
    FirstDay(SlotOf(c, Unique(c) - 1).window * Span(c) + Fullest(c) + DUPLICATE_SHIFT);
    d, i := UnfitLosesAWindow(c);
    InCalendarSchedules(c, d);
  }

  // ------------------------------------------------------------------ counts per window

  function Tally(c: Config, events: seq<Event>, w: int, copies: bool): nat
    requires ValidConfig(c)
  {
    if events == [] then 0
    else
      var e := events[|events| - 1];
      Tally(c, events[..|events| - 1], w, copies)
      + (if WindowAt(c, 0, e) == w && e.isDuplicate == copies then 1 else 0)
  }

  lemma {:induction false} CountIsBothTallies(c: Config, events: seq<Event>, w: int)
    requires ValidConfig(c)
    ensures CountAt(c, 0, events, w) == Tally(c, events, w, false) + Tally(c, events, w, true)
  {
    if events != [] { CountIsBothTallies(c, events[..|events| - 1], w); }
  }

  lemma {:induction false} TallyOfBoth(c: Config, xs: seq<Event>, ys: seq<Event>, w: int, copies: bool)
    requires ValidConfig(c)
    ensures Tally(c, xs + ys, w, copies) == Tally(c, xs, w, copies) + Tally(c, ys, w, copies)
  {
    if ys == [] {
      assert xs + ys == xs;
    } else {
      TallyOfBoth(c, xs, ys[..|ys| - 1], w, copies);
      assert (xs + ys)[..|xs + ys| - 1] == xs + ys[..|ys| - 1];
    }
  }

  lemma {:induction false} TallyIgnoresOrder(c: Config, xs: seq<Event>, ys: seq<Event>, w: int, copies: bool)
    requires ValidConfig(c) && multiset(xs) == multiset(ys)
    ensures Tally(c, xs, w, copies) == Tally(c, ys, w, copies)
    decreases |xs|
  {
    assert |multiset(xs)| == |xs| && |multiset(ys)| == |ys|;
    if xs != [] {
      var rest, x := xs[..|xs| - 1], xs[|xs| - 1];
      assert xs == rest + [x];
      assert x in multiset(ys);
      var j :| 0 <= j < |ys| && ys[j] == x;
      var others := ys[..j] + ys[j + 1..];
      assert ys == ys[..j] + [x] + ys[j + 1..];
      assert multiset(ys) == multiset(ys[..j]) + multiset{x} + multiset(ys[j + 1..]);
      assert multiset(rest) == multiset(xs) - multiset{x};
      assert multiset(others) == multiset(ys) - multiset{x};
      TallyIgnoresOrder(c, rest, others, w, copies);
      TallyOfBoth(c, ys[..j], ys[j + 1..], w, copies);
      TallyOfBoth(c, ys[..j] + [x], ys[j + 1..], w, copies);
      TallyOfBoth(c, ys[..j], [x], w, copies);
      TallyOfBoth(c, rest, [x], w, copies);
    }
  }

  /** How many of the first `n` sequence numbers lie in a stretch. */
  function InStretch(n: int, first: int, size: int): int {
    if n <= first then 0 else if n - first < size then n - first else size
  }

  /** How many of the first `n` originals window `w` holds. */
  function Held(c: Config, n: int, w: nat): int { InStretch(n, First(c, w), Size(c, w)) }

  lemma {:induction false} FirstIsNatural(c: Config, w: nat)
    requires ValidConfig(c)
    ensures First(c, w) >= 0
  {
    BurstIsLarger(c);
    assert 0 * c.baseline == 0;
    if w > 0 { WindowsFollow(c, 0, w); }
  }

  lemma {:induction false} EmittedWindow(c: Config, d: Draws, i: nat)
    requires Samples(c, d) && Fits(c) && i < |Emitted(c, d)|
    ensures WindowAt(c, 0, Emitted(c, d)[i]) == WindowOf(c, Emitted(c, d)[i])
  {
    FitsRecovers(c, d, i);
  }

  lemma {:induction false} OriginalWindow(c: Config, d: Draws, s: nat)
    requires Samples(c, d) && Fits(c) && s < Unique(c)
    ensures WindowAt(c, 0, Original(c, d, s)) == SlotOf(c, s).window
  {
    EmittedAt(c, d, s);
    EmittedWindow(c, d, s);
  }

  lemma {:induction false} CopyWindow(c: Config, d: Draws, i: nat)
    requires Samples(c, d) && Fits(c) && i < |d.duplicates|
    ensures WindowAt(c, 0, Repeated(Original(c, d, d.duplicates[i]))) == SlotOf(c, d.duplicates[i]).window
  {
    DuplicatesAreFewer(c);
    EmittedAt(c, d, Unique(c) + i);
    EmittedWindow(c, d, Unique(c) + i);
  }

  lemma {:induction false} OriginalsTally(c: Config, d: Draws, n: nat, w: nat, first: nat, size: nat)
    requires ValidConfig(c)
    requires forall s: nat | s < n :: SlotOf(c, s).window == w <==> first <= s < first + size
    requires forall s: nat | s < n :: WindowAt(c, 0, Original(c, d, s)) == SlotOf(c, s).window
    ensures Tally(c, Originals(c, d, n), w, false) == InStretch(n, first, size)
    ensures Tally(c, Originals(c, d, n), w, true) == 0
  {
    if n > 0 {
      OriginalsTally(c, d, n - 1, w, first, size);
      OneMore(c, Originals(c, d, n - 1), Original(c, d, n - 1), w, false);
      OneMore(c, Originals(c, d, n - 1), Original(c, d, n - 1), w, true);
    }
  }

  lemma {:induction false} AllOriginalsTally(c: Config, d: Draws, w: nat)
    requires Samples(c, d) && Fits(c)
    ensures Tally(c, Originals(c, d, Unique(c)), w, false) == Held(c, Unique(c), w)
    ensures Tally(c, Originals(c, d, Unique(c)), w, true) == 0
  {
    FirstIsNatural(c, w);
    BurstIsLarger(c);
    forall s: nat | s < Unique(c) ensures SlotOf(c, s).window == w <==> First(c, w) <= s < First(c, w) + Size(c, w) {
      WindowIsInterval(c, s, w);
    }
    forall s: nat | s < Unique(c) ensures WindowAt(c, 0, Original(c, d, s)) == SlotOf(c, s).window {
      OriginalWindow(c, d, s);
    }
    OriginalsTally(c, d, Unique(c), w, First(c, w), Size(c, w));
  }

  lemma {:induction false} OneMore(c: Config, events: seq<Event>, e: Event, w: nat, copies: bool)
    requires ValidConfig(c)
    ensures Tally(c, events + [e], w, copies)
         == Tally(c, events, w, copies) + (if WindowAt(c, 0, e) == w && e.isDuplicate == copies then 1 else 0)
  {
    assert (events + [e])[..|events|] == events;
  }

  lemma {:induction false} OneMoreCopy(c: Config, events: seq<Event>, copy: Event, w: nat)
    requires ValidConfig(c) && copy.isDuplicate
    ensures Tally(c, events + [copy], w, true)
         == Tally(c, events, w, true) + (if WindowAt(c, 0, copy) == w then 1 else 0)
    ensures Tally(c, events + [copy], w, false) == Tally(c, events, w, false)
  {
    OneMore(c, events, copy, w, true);
    OneMore(c, events, copy, w, false);
  }

  /** How many drawn duplicates copy an original of window `w`. */
  function Drawn(c: Config, duplicates: seq<nat>, w: nat): nat
    requires ValidConfig(c)
  {
    if duplicates == [] then 0
    else (if SlotOf(c, duplicates[|duplicates| - 1]).window == w then 1 else 0)
         + Drawn(c, duplicates[..|duplicates| - 1], w)
  }

  lemma {:induction false} DrawnGrows(c: Config, duplicates: seq<nat>, k: nat, w: nat)
    requires ValidConfig(c) && k < |duplicates|
    ensures Drawn(c, duplicates[..k + 1], w)
         == Drawn(c, duplicates[..k], w) + (if SlotOf(c, duplicates[k]).window == w then 1 else 0)
  {
    assert duplicates[..k + 1][..k] == duplicates[..k];
  }

  lemma {:induction false} CopiesGrow(c: Config, d: Draws, k: nat)
    requires ValidConfig(c) && k < |d.duplicates|
    ensures Copies(c, d, d.duplicates[..k + 1])
         == Copies(c, d, d.duplicates[..k]) + [Repeated(Original(c, d, d.duplicates[k]))]
  {
    assert d.duplicates[..k + 1][..k] == d.duplicates[..k];
  }

  lemma {:induction false} CopiesTally(c: Config, d: Draws, k: nat, w: nat)
    requires Samples(c, d) && Fits(c) && k <= |d.duplicates|
    ensures Tally(c, Copies(c, d, d.duplicates[..k]), w, true) == Drawn(c, d.duplicates[..k], w)
    ensures Tally(c, Copies(c, d, d.duplicates[..k]), w, false) == 0
  {
    if k > 0 {
      CopiesTally(c, d, k - 1, w);
      DrawnGrows(c, d.duplicates, k - 1, w);
      CopiesGrow(c, d, k - 1);
      CopyWindow(c, d, k - 1);
      OneMoreCopy(c, Copies(c, d, d.duplicates[..k - 1]), Repeated(Original(c, d, d.duplicates[k - 1])), w);
    }
  }

  lemma {:induction false} EmittedTally(c: Config, d: Draws, w: nat)
    requires Samples(c, d) && Fits(c)
    ensures Tally(c, Emitted(c, d), w, false) == Held(c, Unique(c), w)
    ensures Tally(c, Emitted(c, d), w, true) == Drawn(c, d.duplicates, w)
  {
    DuplicatesAreFewer(c);
    assert d.duplicates[..|d.duplicates|] == d.duplicates;
    AllOriginalsTally(c, d, w);
    CopiesTally(c, d, |d.duplicates|, w);
    TallyOfBoth(c, Originals(c, d, Unique(c)), Copies(c, d, d.duplicates), w, false);
    TallyOfBoth(c, Originals(c, d, Unique(c)), Copies(c, d, d.duplicates), w, true);
  }

  /** What the profiler counts: each window holds its consecutive stretch of originals and the copies
      drawn from it. */
  lemma {:induction false} ProfileMeaning(c: Config, d: Draws, w: nat)
    requires Samples(c, d) && Fits(c) && Generated(c, d).Schedule?
    ensures var events := Generated(c, d).events;
      && events != []
      && Tally(c, events, w, false) == Held(c, Unique(c), w)
      && Tally(c, events, w, true) == Drawn(c, d.duplicates, w)
      && CountAt(c, Earliest(events), events, w) == Held(c, Unique(c), w) + Drawn(c, d.duplicates, w)
  {
    var events := Generated(c, d).events;
    SortedKeepsAll(KeyBefore, Emitted(c, d));
    EmittedTally(c, d, w);
    TallyIgnoresOrder(c, events, Emitted(c, d), w, false);
    TallyIgnoresOrder(c, events, Emitted(c, d), w, true);
    ProfileStartsAtZero(c, d);
    CountIsBothTallies(c, events, w);
  }

  /** A window before the burst holds exactly the baseline count of originals, and the burst window
      the baseline times the multiplier, exactly when enough originals were left to fill it. */
  lemma {:induction false} WindowIsFullIff(c: Config, d: Draws, w: nat)
    requires Samples(c, d) && Fits(c) && Generated(c, d).Schedule? && w <= c.burstWindow
    ensures Tally(c, Generated(c, d).events, w, false)
         == (if w < c.burstWindow then c.baseline else c.baseline * c.burstMultiplier)
       <==> c.events - DuplicateCount(c) >= First(c, w) + Size(c, w)
  {
    ProfileMeaning(c, d, w);
    BurstIsLarger(c);
  }

  /** Validation compares the requirement with all events, not with the originals, so a valid
      configuration can leave the burst short: here 49 originals instead of 100. */
  lemma {:induction false} BurstCanFallShort() returns (c: Config, d: Draws)
    ensures ValidConfig(c) && Fits(c) && c.baseline * c.burstMultiplier == 100
    ensures Samples(c, d) && Generated(c, d).Schedule?
    ensures Tally(c, Generated(c, d).events, c.burstWindow, false) == 49
  {
    c := Config(131, 60, 10, 3, 10, 0.0, 0.4, 0.0, 1, 1);
    assert Share(131, 0.4) == 52.4;
    RoundingIsUnique(Share(131, 0.4), 52);
    assert DuplicateCount(c) == 52;
    d := SomeDraws(c, 0);
    forall i | 0 <= i < |Emitted(c, d)| ensures InRange(Emitted(c, d)[i]) {
      EmittedAt(c, d, i);
      SmallEventInRange(c, d, if i < Unique(c) then i else d.duplicates[i - Unique(c)]);
    }
    ProfileMeaning(c, d, 3);
  }

  /** Everything in the first fifteen hours is on the first day, and one second late is late enough
      for nothing to precede the calendar. */
  lemma {:induction false} SmallEventInRange(c: Config, d: Draws, s: nat)
    requires c == Config(131, 60, 10, 3, 10, 0.0, 0.4, 0.0, 1, 1) && ValidConfig(c) && s < 79
    ensures InRange(Original(c, d, s)) && InRange(Repeated(Original(c, d, s)))
  {
    var slot := SlotOf(c, s);
    assert slot.window <= 3 && slot.position < 100;
    assert Lateness(c, d, s) <= 1;
    var t := Instant(c, slot);
    assert t <= 180 * MICROS + 99;
    FirstDay(t);
    FirstDay(t + DUPLICATE_SHIFT);
  }

  lemma {:induction false} FirstDay(t: nat)
    requires t < 50_000 * MICROS
    ensures Printable(t)
  {
    assert Second(t) / DAY == 0;
    assert DateAfter(0) == START_DATE;
  }
}
