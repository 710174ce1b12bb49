/** The slowly changing company dimension: raw company rows are compressed to one row per change of a
    tracked column, with validity intervals. A window over a ticker is described by what it selects:
    `lag` is the newest earlier row, `lead` the oldest later one. */
module CompanyHistory {
  import opened Relational

  datatype Version = Version(ticker: string, createdTs: int, industry: Cell<string>, sector: Cell<string>,
                             exchange: Cell<string>, delisted: Cell<bool>)

  datatype DimRow = DimRow(ticker: string, industry: Cell<string>, sector: Cell<string>, exchange: Cell<string>,
                           delisted: bool, validFrom: int, validTo: Cell<int>, isCurrent: bool)

  /** What the dimension shows of the tracked columns: a null delisted flag reads as false. */
  datatype Tracked = Tracked(industry: Cell<string>, sector: Cell<string>, exchange: Cell<string>, delisted: bool)

  function OrFalse(flag: Cell<bool>): bool { flag.Val? && flag.v }

  function View(v: Version): Tracked { Tracked(v.industry, v.sector, v.exchange, v.delisted == Val(true)) }
  function DimView(d: DimRow): Tracked { Tracked(d.industry, d.sector, d.exchange, d.delisted) }

  function UpperChar(c: char): char { if 'a' <= c <= 'z' then c - 'a' + 'A' else c }
  function Upper(s: string): string { seq(|s|, i requires 0 <= i < |s| => UpperChar(s[i])) }

  /** Upper-casing replaces the twenty-six small letters by their capitals and nothing else. */
  lemma {:induction false} UpperMeaning(s: string, i: nat)
    requires i < |s|
    ensures |Upper(s)| == |s|
    ensures Upper(s)[i] as int == if 97 <= s[i] as int <= 122 then s[i] as int - 32 else s[i] as int
  {}

  /** The assumptions on the silver table: tickers already upper case, one row per (ticker, created_ts). */
  ghost predicate Clean(rows: set<Version>) {
    && (forall r | r in rows :: Upper(r.ticker) == r.ticker)
    && (forall a, b | a in rows && b in rows && a.ticker == b.ticker && a.createdTs == b.createdTs :: a == b)
  }

  // ------------------------------------------------------------------ windows

  ghost predicate IsNewest(rows: set<Version>, r: Version) {
    r in rows && forall q | q in rows :: q.createdTs <= r.createdTs
  }

  ghost predicate IsOldest(rows: set<Version>, r: Version) {
    r in rows && forall q | q in rows :: r.createdTs <= q.createdTs
  }

  lemma {:induction false} NewestExists(rows: set<Version>) returns (r: Version)
    requires rows != {}
    ensures IsNewest(rows, r)
    decreases |rows|
  {
    r :| r in rows;
    if rows != {r} {
      var q := NewestExists(rows - {r});
      if q.createdTs > r.createdTs { r := q; }
    }
  }

  lemma {:induction false} OldestExists(rows: set<Version>) returns (r: Version)
    requires rows != {}
    ensures IsOldest(rows, r)
    decreases |rows|
  {
    r :| r in rows;
    if rows != {r} {
      var q := OldestExists(rows - {r});
      if q.createdTs < r.createdTs { r := q; }
    }
  }

  ghost function Newest(rows: set<Version>): (r: Version)
    requires rows != {}
    ensures IsNewest(rows, r)
  {
    assert exists r :: IsNewest(rows, r) by { var r := NewestExists(rows); }
    var r :| IsNewest(rows, r); r
  }

  ghost function Oldest(rows: set<Version>): (r: Version)
    requires rows != {}
    ensures IsOldest(rows, r)
  {
    assert exists r :: IsOldest(rows, r) by { var r := OldestExists(rows); }
    var r :| IsOldest(rows, r); r
  }

  function Earlier(rows: set<Version>, r: Version): set<Version> {
    set q | q in rows && q.ticker == r.ticker && q.createdTs < r.createdTs
  }

  /** Partitioned by the ticker after upper-casing, as the second window is. */
  function Later(rows: set<Version>, r: Version): set<Version> {
    set q | q in rows && Upper(q.ticker) == Upper(r.ticker) && q.createdTs > r.createdTs
  }

  ghost function Lag(rows: set<Version>, r: Version): Cell<Version> {
    if Earlier(rows, r) == {} then Null else Val(Newest(Earlier(rows, r)))
  }

  // ------------------------------------------------------------------ the builder

  function IsNull<T>(c: Cell<T>): Truth { Lift(c.Null?) }

  /** The change test in SQL's logic: comparing with null is unknown, and unknown does not pass a filter. */
  function Changed(prev: Cell<Version>, cur: Version): Truth {
    var industry := if prev.Null? then Null else prev.v.industry;
    var sector := if prev.Null? then Null else prev.v.sector;
    var exchange := if prev.Null? then Null else prev.v.exchange;
    var delisted := if prev.Null? then Null else prev.v.delisted;
    Or(Or(Or(Or(Or(Or(Or(
      IsNull(industry), NotEqual(industry, cur.industry)),
      IsNull(sector)), NotEqual(sector, cur.sector)),
      IsNull(exchange)), NotEqual(exchange, cur.exchange)),
      IsNull(delisted)), NotEqual(delisted, cur.delisted))
  }

  ghost function Kept(rows: set<Version>): set<Version> {
    set r | r in rows && Changed(Lag(rows, r), r) == Yes
  }

  ghost function ToDim(kept: set<Version>, r: Version): DimRow {
    var validTo := if Later(kept, r) == {} then Null else Val(Oldest(Later(kept, r)).createdTs);
    DimRow(Upper(r.ticker), r.industry, r.sector, r.exchange, OrFalse(r.delisted), r.createdTs, validTo, validTo.Null?)
  }

  ghost function BuildDim(rows: set<Version>): set<DimRow> {
    set r | r in Kept(rows) :: ToDim(Kept(rows), r)
  }

  // ------------------------------------------------------------------ as-of reads

  ghost predicate HasHistory(rows: set<Version>, ticker: string, t: int) {
    exists r :: r in rows && r.ticker == ticker && r.createdTs <= t
  }

  /** The raw row in force for a ticker at time t. */
  ghost predicate InForce(rows: set<Version>, ticker: string, t: int, r: Version) {
    && r in rows && r.ticker == ticker && r.createdTs <= t
    && forall q | q in rows && q.ticker == ticker && q.createdTs <= t :: q.createdTs <= r.createdTs
  }

  predicate Covers(d: DimRow, ticker: string, t: int) {
    d.ticker == ticker && d.validFrom <= t && (d.validTo.Null? || t < d.validTo.v)
  }

  /** `c` shows something else than its predecessor but the filter drops it. */
  ghost predicate SilentDrop(rows: set<Version>, c: Version) {
    c in rows && Lag(rows, c).Val? && Changed(Lag(rows, c), c) != Yes && View(Lag(rows, c).v) != View(c)
  }

  /** `c` shows the same as its predecessor but the filter keeps it. */
  ghost predicate RedundantKeep(rows: set<Version>, c: Version) {
    c in Kept(rows) && Lag(rows, c).Val? && View(Lag(rows, c).v) == View(c)
  }

  /** The dimension gives the same tracked columns as the raw table at every time. */
  ghost predicate KeepsHistory(rows: set<Version>) {
    forall ticker, t, r, d | InForce(rows, ticker, t, r) && d in BuildDim(rows) && Covers(d, ticker, t) ::
                DimView(d) == View(r)
  }

  // ------------------------------------------------------------------ which kept row stands for a raw row

  ghost predicate StandsFor(rows: set<Version>, k: Version, c: Version) {
    && k in Kept(rows) && k.ticker == c.ticker && k.createdTs <= c.createdTs
    && forall q | q in Kept(rows) && q.ticker == c.ticker && q.createdTs <= c.createdTs :: q.createdTs <= k.createdTs
  }

  /** Every raw row has a newest kept row at or before it; without silent drops they show the same. */
  lemma {:induction false} Representative(rows: set<Version>, c: Version) returns (k: Version)
    requires Clean(rows) && c in rows
    ensures StandsFor(rows, k, c)
    ensures (forall q | q in rows && q.ticker == c.ticker && q.createdTs <= c.createdTs :: !SilentDrop(rows, q)) ==>
              View(k) == View(c)
    decreases |Earlier(rows, c)|
  {
    if c in Kept(rows) {
      k := c;
    } else {
      var p := Lag(rows, c).v;
      assert Earlier(rows, p) < Earlier(rows, c) by { assert p in Earlier(rows, c) && p !in Earlier(rows, p); }
      SubsetSmaller(Earlier(rows, p), Earlier(rows, c));
      k := Representative(rows, p);
      forall q | q in Kept(rows) && q.ticker == c.ticker && q.createdTs <= c.createdTs
        ensures q.createdTs <= k.createdTs
      {
        if q.createdTs < c.createdTs { assert q in Earlier(rows, c); }
      }
    }
  }

  lemma {:induction false} SubsetSmaller<T>(a: set<T>, b: set<T>)
    requires a < b
    ensures |a| < |b|
  {
    var extra := b - a;
    assert b == a + extra && extra != {};
    assert |b| == |a| + |extra|;
  }

  lemma {:induction false} LaterIsSameTicker(rows: set<Version>, r: Version, q: Version)
    requires Clean(rows) && r in rows
    ensures q in Later(Kept(rows), r) <==> q in Kept(rows) && q.ticker == r.ticker && q.createdTs > r.createdTs
  {}

  /** The dim row of a kept row covers exactly the times up to the next kept row of the ticker. */
  lemma {:induction false} CoversIff(rows: set<Version>, k: Version, ticker: string, t: int)
    requires Clean(rows) && k in Kept(rows)
    ensures Covers(ToDim(Kept(rows), k), ticker, t)
       <==> k.ticker == ticker && k.createdTs <= t
            && forall q | q in Kept(rows) && q.ticker == ticker && q.createdTs <= t :: q.createdTs <= k.createdTs
  {
    var later := Later(Kept(rows), k);
    forall q ensures q in later <==> q in Kept(rows) && q.ticker == k.ticker && q.createdTs > k.createdTs {
      LaterIsSameTicker(rows, k, q);
    }
    if later != {} {
      var next := Oldest(later);
      assert next in later;
    }
  }

  // ------------------------------------------------------------------ what the builder writes

  /** The raw row just before `r`: of its ticker, earlier, and none of its ticker lies between. */
  ghost predicate Precedes(rows: set<Version>, p: Version, r: Version) {
    && p in rows && p.ticker == r.ticker && p.createdTs < r.createdTs
    && forall q | q in rows && q.ticker == r.ticker && q.createdTs < r.createdTs :: q.createdTs <= p.createdTs
  }

  /** A row is kept if it is its ticker's first, if its predecessor lacks a tracked value, or if it has a value
      that differs from its predecessor's. */
  lemma {:induction false} KeptIff(rows: set<Version>, r: Version)
    requires Clean(rows) && r in rows
    ensures r in Kept(rows)
       <==> forall p | Precedes(rows, p, r) ::
              || p.industry == Null || p.sector == Null || p.exchange == Null || p.delisted == Null
              || (r.industry != Null && r.industry != p.industry) || (r.sector != Null && r.sector != p.sector)
              || (r.exchange != Null && r.exchange != p.exchange) || (r.delisted != Null && r.delisted != p.delisted)
  {
    forall p ensures Precedes(rows, p, r) <==> Lag(rows, r) == Val(p) { LagIff(rows, r, p); }
    if Lag(rows, r).Val? { ChangedIff(Lag(rows, r).v, r); }
  }

  lemma {:induction false} ChangedIff(p: Version, r: Version)
    ensures Changed(Val(p), r) == Yes
       <==> || p.industry == Null || p.sector == Null || p.exchange == Null || p.delisted == Null
            || (r.industry != Null && r.industry != p.industry) || (r.sector != Null && r.sector != p.sector)
            || (r.exchange != Null && r.exchange != p.exchange) || (r.delisted != Null && r.delisted != p.delisted)
  {
  }

  lemma {:induction false} LagIff(rows: set<Version>, r: Version, p: Version)
    requires Clean(rows) && r in rows
    ensures Precedes(rows, p, r) <==> Lag(rows, r) == Val(p)
  {
    var earlier := Earlier(rows, r);
    if Precedes(rows, p, r) {
      assert p in earlier;
      var n := Newest(earlier);
      assert n in rows && n.createdTs == p.createdTs && n.ticker == p.ticker;
    }
    if Lag(rows, r) == Val(p) { assert p in earlier; }
  }

  /** The dim row of a kept row, column by column: its values, a missing delisted flag read as false, valid from
      its own time to the next kept row of its ticker, current if there is none. */
  lemma {:induction false} DimRowMeaning(rows: set<Version>, r: Version)
    requires Clean(rows) && r in Kept(rows)
    ensures var d := ToDim(Kept(rows), r);
      && d in BuildDim(rows)
      && d.ticker == r.ticker && d.industry == r.industry && d.sector == r.sector && d.exchange == r.exchange
      && (d.delisted <==> r.delisted == Val(true)) && d.validFrom == r.createdTs
      && (d.isCurrent <==> d.validTo == Null)
      && (d.validTo == Null <==> forall q | q in Kept(rows) && q.ticker == r.ticker :: q.createdTs <= r.createdTs)
      && (d.validTo != Null ==>
            && d.validTo.v > r.createdTs
            && (exists q :: q in Kept(rows) && q.ticker == r.ticker && q.createdTs == d.validTo.v)
            && forall q | q in Kept(rows) && q.ticker == r.ticker && q.createdTs > r.createdTs ::
                 d.validTo.v <= q.createdTs)
  {
    var later := Later(Kept(rows), r);
    forall q ensures q in later <==> q in Kept(rows) && q.ticker == r.ticker && q.createdTs > r.createdTs {
      LaterIsSameTicker(rows, r, q);
    }
    if later != {} {
      var next := Oldest(later);
      assert next in later;
    }
  }

  // ------------------------------------------------------------------ main results

  lemma {:induction false} SomeRowCovers(rows: set<Version>, ticker: string, t: int)
    requires Clean(rows) && HasHistory(rows, ticker, t)
    ensures exists d :: d in BuildDim(rows) && Covers(d, ticker, t)
  {
    var past := set q | q in rows && q.ticker == ticker && q.createdTs <= t;
    var first :| first in rows && first.ticker == ticker && first.createdTs <= t;
    assert first in past;
    var c := Newest(past);
    var k := Representative(rows, c);
    CoversIff(rows, k, ticker, t);
    assert ToDim(Kept(rows), k) in BuildDim(rows);
  }

  lemma {:induction false} AtMostOneCovers(rows: set<Version>, ticker: string, t: int, d: DimRow, e: DimRow)
    requires Clean(rows) && d in BuildDim(rows) && e in BuildDim(rows)
    requires Covers(d, ticker, t) && Covers(e, ticker, t)
    ensures HasHistory(rows, ticker, t) && d == e
  {
    var k :| k in Kept(rows) && d == ToDim(Kept(rows), k);
    var l :| l in Kept(rows) && e == ToDim(Kept(rows), l);
    CoversIff(rows, k, ticker, t);
    CoversIff(rows, l, ticker, t);
  }

  /** The intervals tile the time line: from a ticker's first raw row on, exactly one dim row covers
      each moment, and before it none does. */
  lemma {:induction false} IntervalsTile(rows: set<Version>, ticker: string, t: int)
    requires Clean(rows)
    ensures HasHistory(rows, ticker, t) <==> exists d :: d in BuildDim(rows) && Covers(d, ticker, t)
    ensures forall d, e | d in BuildDim(rows) && e in BuildDim(rows) && Covers(d, ticker, t) && Covers(e, ticker, t) ::
                d == e
  {
    if HasHistory(rows, ticker, t) { SomeRowCovers(rows, ticker, t); }
    forall d, e | d in BuildDim(rows) && e in BuildDim(rows) && Covers(d, ticker, t) && Covers(e, ticker, t)
      ensures HasHistory(rows, ticker, t) && d == e
    {
      AtMostOneCovers(rows, ticker, t, d, e);
    }
  }

  /** Every ticker with history has exactly one current dim row, and it is the last one. */
  lemma {:induction false} OneCurrentRow(rows: set<Version>, ticker: string)
    requires Clean(rows) && HasRow(rows, ticker)
    ensures exists d :: d in BuildDim(rows) && d.ticker == ticker && d.isCurrent
    ensures forall d, e | d in BuildDim(rows) && e in BuildDim(rows) && d.ticker == ticker && e.ticker == ticker
                          && d.isCurrent
              :: e.validFrom <= d.validFrom && (e.isCurrent ==> e == d)
  {
    var all := set q | q in rows && q.ticker == ticker;
    var some :| some in rows && some.ticker == ticker;
    assert some in all;
    var c := Newest(all);
    var k := Representative(rows, c);
    forall q | q in Kept(rows) && q.ticker == ticker ensures q.createdTs <= k.createdTs { assert q in all; }
    LaterEmpty(rows, k);
    assert ToDim(Kept(rows), k) in BuildDim(rows);
    forall d, e | d in BuildDim(rows) && e in BuildDim(rows) && d.ticker == ticker && e.ticker == ticker && d.isCurrent
      ensures e.validFrom <= d.validFrom && (e.isCurrent ==> e == d)
    {
      CurrentIsLast(rows, d, e);
    }
  }

  ghost predicate HasRow(rows: set<Version>, ticker: string) {
    exists r :: r in rows && r.ticker == ticker
  }

  lemma {:induction false} CurrentIsLast(rows: set<Version>, d: DimRow, e: DimRow)
    requires Clean(rows) && d in BuildDim(rows) && e in BuildDim(rows) && d.ticker == e.ticker && d.isCurrent
    ensures e.validFrom <= d.validFrom && (e.isCurrent ==> e == d)
  {
    var a :| a in Kept(rows) && d == ToDim(Kept(rows), a);
    var b :| b in Kept(rows) && e == ToDim(Kept(rows), b);
    LaterIsSameTicker(rows, a, b);
    LaterIsSameTicker(rows, b, a);
  }

  lemma {:induction false} LaterEmpty(rows: set<Version>, k: Version)
    requires Clean(rows) && k in Kept(rows) && forall q | q in Kept(rows) && q.ticker == k.ticker ::
                q.createdTs <= k.createdTs
    ensures Later(Kept(rows), k) == {}
  {}

  /** The dim row covering a moment comes from the kept row standing for the raw row in force. */
  lemma {:induction false} CoveringRow(
      rows: set<Version>, ticker: string, t: int, r: Version, d: DimRow)
    returns (k: Version)
    requires Clean(rows) && InForce(rows, ticker, t, r) && d in BuildDim(rows) && Covers(d, ticker, t)
    ensures StandsFor(rows, k, r) && d == ToDim(Kept(rows), k)
  {
    k :| k in Kept(rows) && d == ToDim(Kept(rows), k);
    CoversIff(rows, k, ticker, t);
  }

  lemma {:induction false} OneStandsFor(rows: set<Version>, k: Version, l: Version, c: Version)
    requires Clean(rows) && StandsFor(rows, k, c) && StandsFor(rows, l, c)
    ensures k == l
  {}

  /** Compression loses no history exactly when no row is silently dropped. */
  lemma {:induction false} KeepsHistoryIff(rows: set<Version>)
    requires Clean(rows)
    ensures KeepsHistory(rows) <==> forall c :: !SilentDrop(rows, c)
  {
    if forall c :: !SilentDrop(rows, c) {
      forall ticker, t, r, d | InForce(rows, ticker, t, r) && d in BuildDim(rows) && Covers(d, ticker, t)
        ensures DimView(d) == View(r)
      {
        var k := CoveringRow(rows, ticker, t, r, d);
        var l := Representative(rows, r);
        OneStandsFor(rows, k, l, r);
      }
    } else {
      var bad := set c | c in rows && SilentDrop(rows, c);
      var drop :| SilentDrop(rows, drop);
      assert drop in bad;
      var c := Oldest(bad);
      FirstDropShows(rows, c);
    }
  }

  /** At a ticker's silently dropped row the dimension still shows its predecessor. */
  lemma {:induction false} FirstDropShows(rows: set<Version>, c: Version)
    requires Clean(rows) && SilentDrop(rows, c)
    requires forall q | q in rows && SilentDrop(rows, q) :: c.createdTs <= q.createdTs
    ensures !KeepsHistory(rows)
  {
    var p := Lag(rows, c).v;
    var k := Representative(rows, p);
    assert View(k) == View(p);
    assert StandsFor(rows, k, c) by {
      forall q | q in Kept(rows) && q.ticker == c.ticker && q.createdTs <= c.createdTs
        ensures q.createdTs <= k.createdTs
      {
        if q.createdTs < c.createdTs { assert q in Earlier(rows, c); }
      }
    }
    CoversIff(rows, k, c.ticker, c.createdTs);
    var d := ToDim(Kept(rows), k);
    assert d in BuildDim(rows) && Covers(d, c.ticker, c.createdTs) && InForce(rows, c.ticker, c.createdTs, c);
  }

  /** In column terms: a drop is silent exactly when the predecessor is null-free, the new row agrees
      wherever it has a value, and a visible column went to null (or the delisted flag from true to null). */
  lemma {:induction false} SilentDropIff(rows: set<Version>, c: Version)
    requires c in rows && Lag(rows, c).Val?
    ensures var p := Lag(rows, c).v;
            SilentDrop(rows, c)
            <==> (&& p.industry.Val? && p.sector.Val? && p.exchange.Val? && p.delisted.Val?
                  && (c.industry.Null? || c.industry == p.industry) && (c.sector.Null? || c.sector == p.sector)
                  && (c.exchange.Null? || c.exchange == p.exchange) && (c.delisted.Null? || c.delisted == p.delisted)
                  && (c.industry.Null? || c.sector.Null? || c.exchange.Null?
                      || (c.delisted.Null? && p.delisted.v)))
  {}

  /** No dim row shows the same as the one before it. */
  ghost predicate NeighboursDiffer(rows: set<Version>) {
    forall d, e | d in BuildDim(rows) && e in BuildDim(rows) && d.ticker == e.ticker && d.validTo == Val(e.validFrom) ::
                DimView(d) != DimView(e)
  }

  /** When history is kept, two adjacent dim rows show the same exactly at a redundantly kept row. */
  lemma {:induction false} NeighboursDifferIff(rows: set<Version>)
    requires Clean(rows) && KeepsHistory(rows)
    ensures NeighboursDiffer(rows) <==> forall c :: !RedundantKeep(rows, c)
  {
    KeepsHistoryIff(rows);
    var kept := Kept(rows);
    if forall c :: !RedundantKeep(rows, c) {
      forall d, e | d in BuildDim(rows) && e in BuildDim(rows) && d.ticker == e.ticker && d.validTo == Val(e.validFrom)
        ensures DimView(d) != DimView(e)
      {
        NeighboursOf(rows, d, e);
      }
    } else {
      var c :| RedundantKeep(rows, c);
      RedundantNeighbours(rows, c);
    }
  }

  lemma {:induction false} NeighboursOf(rows: set<Version>, d: DimRow, e: DimRow)
    requires Clean(rows) && (forall c :: !SilentDrop(rows, c)) && (forall c :: !RedundantKeep(rows, c))
    requires d in BuildDim(rows) && e in BuildDim(rows) && d.ticker == e.ticker && d.validTo == Val(e.validFrom)
    ensures DimView(d) != DimView(e)
  {
    var kept := Kept(rows);
    var a :| a in kept && d == ToDim(kept, a);
    var b :| b in kept && e == ToDim(kept, b);
    assert a in Earlier(rows, b) by { assert Oldest(Later(kept, a)) in Later(kept, a); }
    PreviousShows(rows, a, b);
    assert !RedundantKeep(rows, b);
  }

  lemma {:induction false} RedundantNeighbours(rows: set<Version>, c: Version)
    requires Clean(rows) && (forall q :: !SilentDrop(rows, q)) && RedundantKeep(rows, c)
    ensures !NeighboursDiffer(rows)
  {
    var kept, p := Kept(rows), Lag(rows, c).v;
    assert p in Earlier(rows, c);
    var k := Representative(rows, p);
    NextKept(rows, k, p, c);
    var d, e := ToDim(kept, k), ToDim(kept, c);
    assert d in BuildDim(rows) && e in BuildDim(rows);
    assert d.ticker == e.ticker && d.validTo == Val(e.validFrom) && DimView(d) == DimView(e);
  }

  lemma {:induction false} PreviousShows(rows: set<Version>, a: Version, b: Version)
    requires Clean(rows) && a in Kept(rows) && b in Kept(rows) && a in Earlier(rows, b)
    requires ToDim(Kept(rows), a).validTo == Val(b.createdTs) && forall c :: !SilentDrop(rows, c)
    ensures View(a) == View(Lag(rows, b).v)
  {
    var p := Lag(rows, b).v;
    var k := Representative(rows, p);
    assert StandsFor(rows, a, p) by {
      forall q | q in Kept(rows) && q.ticker == p.ticker && q.createdTs <= p.createdTs
        ensures q.createdTs <= a.createdTs
      {
        LaterIsSameTicker(rows, a, q);
      }
    }
    OneStandsFor(rows, a, k, p);
  }

  lemma {:induction false} NextKept(rows: set<Version>, k: Version, p: Version, c: Version)
    requires Clean(rows) && c in Kept(rows) && Lag(rows, c) == Val(p) && StandsFor(rows, k, p)
    ensures ToDim(Kept(rows), k).validTo == Val(c.createdTs)
  {
    LaterIsSameTicker(rows, k, c);
    var next := Oldest(Later(Kept(rows), k));
    LaterIsSameTicker(rows, k, next);
    assert next.createdTs < c.createdTs ==> next in Earlier(rows, c);
  }

  lemma {:induction false} ChangedShows(p: Version, c: Version)
    requires p.industry.Val? && p.sector.Val? && p.exchange.Val? && p.delisted.Val?
    requires c.industry.Val? && c.sector.Val? && c.exchange.Val? && c.delisted.Val?
    ensures Changed(Val(p), c) == Yes ==> View(p) != View(c)
  {
    assert p.delisted == Val(p.delisted.v) && c.delisted == Val(c.delisted.v);
    assert (p.delisted == Val(true)) == p.delisted.v && (c.delisted == Val(true)) == c.delisted.v;
  }

  /** With null-free tracked columns nothing is dropped silently and nothing is kept redundantly. */
  lemma {:induction false} NullFreeHistory(rows: set<Version>)
    requires Clean(rows)
    requires forall r | r in rows :: r.industry.Val? && r.sector.Val? && r.exchange.Val? && r.delisted.Val?
    ensures KeepsHistory(rows) && NeighboursDiffer(rows)
  {
    forall c | c in rows && Lag(rows, c).Val? ensures !SilentDrop(rows, c) && !RedundantKeep(rows, c) {
      assert Lag(rows, c).v in Earlier(rows, c) && Lag(rows, c).v in rows;
      var p := Lag(rows, c).v;
      ChangedShows(p, c);
      SilentDropIff(rows, c);
    }
    KeepsHistoryIff(rows);
    NeighboursDifferIff(rows);
  }

  /** Two rows of a ticker, the industry going from a value to null: the later row is dropped, and the
      dimension keeps showing the old industry. */
  lemma {:induction false} NullChangeIsLost() returns (rows: set<Version>)
    ensures Clean(rows) && !KeepsHistory(rows)
  {
    var a := Version("A", 1, Val("Steel"), Val("Materials"), Val("HNX"), Val(false));
    var b := Version("A", 2, Null, Val("Materials"), Val("HNX"), Val(false));
    rows := {a, b};
    assert Upper("A") == "A";
    assert Earlier(rows, b) == {a};
    assert Newest({a}) == a;
    SilentDropIff(rows, b);
    KeepsHistoryIff(rows);
  }
}
