/** The benchmark query in its two forms: one group-by with distinct counts, and the rewrite with
    `max_by`, per-company pre-aggregation and salted partial sums. Row order, group order and
    tie-breaks are whatever the engine delivers, so both plans are relations to their results. */
module SparkPlans {
  import opened Relational
  import opened SchemaAlignment
  import opened TextOrder

  datatype Company = Company(ticker: Cell<string>, createdTs: Cell<int>, sector: Cell<string>)

  datatype Statement = Statement(ticker: Cell<string>, reportPeriod: Cell<string>, createdTs: Cell<int>,
                                 sourceRecordId: Cell<string>, totalAssets: Cell<int>)

  /** The columns of the joined table that the aggregation reads. Assets are decimal(38,2) cents. */
  datatype Joined = Joined(sector: string, ticker: string, sourceRecordId: Cell<string>, totalAssets: Cell<int>)

  /** The additive measures carried through the stages. */
  datatype Tally = Tally(companies: int, statements: int, sourceIds: int, totalAssets: Cell<int>)

  datatype PerCompany = PerCompany(sector: string, ticker: string, salt: Cell<int>, tally: Tally)
  datatype Partial = Partial(sector: string, salt: Cell<int>, tally: Tally)
  datatype ReportRow = ReportRow(sector: string, tally: Tally)

  // ------------------------------------------------------------------ keys and columns

  function CompanyKey(c: Company): Cell<string> { c.ticker }
  function CompanyTs(c: Company): Cell<int> { c.createdTs }
  function BlankCompany(k: Cell<string>): Company { Company(k, Null, Null) }

  function StatementKey(s: Statement): (Cell<string>, Cell<string>) { (s.ticker, s.reportPeriod) }
  function StatementTs(s: Statement): Cell<int> { s.createdTs }
  function BlankStatement(k: (Cell<string>, Cell<string>)): Statement { Statement(k.0, k.1, Null, Null, Null) }

  function TextCell(r: Record, name: string): Cell<string> {
    if name in r && r[name].Val? && r[name].v.Text? then Val(r[name].v.s) else Null
  }

  function NumberCell(r: Record, name: string): Cell<int> {
    if name in r && r[name].Val? && r[name].v.Number? then Val(r[name].v.n) else Null
  }

  function ReadStatement(r: Record): Statement {
    Statement(TextCell(r, "ticker"), TextCell(r, "report_period"), NumberCell(r, "created_ts"),
              TextCell(r, "source_record_id"), NumberCell(r, "total_assets"))
  }

  function ReadStatements(records: seq<Record>): seq<Statement> {
    seq(|records|, i requires 0 <= i < |records| => ReadStatement(records[i]))
  }

  // ------------------------------------------------------------------ SQL aggregates

  /** SUM skips nulls and is null when there is nothing left to add. */
  function AddCells(a: Cell<int>, b: Cell<int>): Cell<int> {
    if a.Null? then b else if b.Null? then a else Val(a.v + b.v)
  }

  function Plus(a: Tally, b: Tally): Tally {
    Tally(a.companies + b.companies, a.statements + b.statements, a.sourceIds + b.sourceIds,
          AddCells(a.totalAssets, b.totalAssets))
  }

  const ZERO := Tally(0, 0, 0, Null)

  function Sum<T>(rows: seq<T>, measure: T -> Tally): Tally {
    if rows == [] then ZERO else Plus(measure(rows[0]), Sum(rows[1..], measure))
  }

  function Having<T(!new), K(==)>(rows: seq<T>, key: T -> K, k: K): (kept: seq<T>)
    ensures forall r :: r in kept <==> r in rows && key(r) == k
  {
    if rows == [] then []
    else if key(rows[0]) == k then [rows[0]] + Having(rows[1..], key, k) else Having(rows[1..], key, k)
  }

  /** `keys` lists the groups of `rows`, each once, in the order the shuffle happens to emit them. */
  ghost predicate Enumerates<T(!new), K(!new)>(keys: seq<K>, rows: seq<T>, key: T -> K) {
    NoRepeat(keys) && forall k :: k in keys <==> Present(rows, key, k)
  }

  function RowSector(j: Joined): string { j.sector }
  function RowCompany(j: Joined): (string, string) { (j.sector, j.ticker) }
  function RowTally(j: Joined): Tally {
    Tally(0, 1, if j.sourceRecordId.Val? then 1 else 0, j.totalAssets)
  }

  function CompanySector(p: PerCompany): string { p.sector }
  function CompanySalt(p: PerCompany): (string, Cell<int>) { (p.sector, p.salt) }
  function CompanyTally(p: PerCompany): Tally { p.tally.(companies := 1) }

  function PartialSector(p: Partial): string { p.sector }
  function PartialTally(p: Partial): Tally { p.tally }

  // ------------------------------------------------------------------ the join both plans share

  function SectorOrUnknown(sector: Cell<string>): string { if sector.Val? then sector.v else "Unknown" }

  function JoinOne(s: Statement, companies: seq<Company>): seq<Joined> {
    if companies == [] then []
    else
      (if Equal(s.ticker, companies[0].ticker) == Yes
       then [Joined(SectorOrUnknown(companies[0].sector), s.ticker.v, s.sourceRecordId, s.totalAssets)] else [])
      + JoinOne(s, companies[1..])
  }

  function InnerJoin(statements: seq<Statement>, companies: seq<Company>): seq<Joined> {
    if statements == [] then [] else JoinOne(statements[0], companies) + InnerJoin(statements[1..], companies)
  }

  // ------------------------------------------------------------------ baseline aggregation

  function BaselineRow(rows: seq<Joined>, sector: string): ReportRow {
    var mine := Having(rows, RowSector, sector);
    ReportRow(sector, Tally(|set j | j in mine :: j.ticker|,
                            |mine|,
                            |set j | j in mine && j.sourceRecordId.Val? :: j.sourceRecordId.v|,
                            Sum(mine, RowTally).totalAssets))
  }

  function BaselineReport(rows: seq<Joined>, sectors: seq<string>): (report: seq<ReportRow>)
    ensures |report| == |sectors|
  {
    seq(|sectors|, i requires 0 <= i < |sectors| => BaselineRow(rows, sectors[i]))
  }

  // ------------------------------------------------------------------ optimized aggregation

  /** Stage one: per (sector, ticker), with the salt column added. */
  function PerCompanyStage(rows: seq<Joined>, salt: string -> Cell<int>,
      keys: seq<(string, string)>): (out: seq<PerCompany>)
    ensures |out| == |keys|
    ensures forall i | 0 <= i < |keys| :: out[i].sector == keys[i].0 && out[i].ticker == keys[i].1
  {
    if keys == [] then []
    else [PerCompany(keys[0].0, keys[0].1, salt(keys[0].1), Sum(Having(rows, RowCompany, keys[0]), RowTally))]
         + PerCompanyStage(rows, salt, keys[1..])
  }

  /** Stage two: per (sector, salt). A per-company row counts one company. */
  function PartialStage(rows: seq<PerCompany>, keys: seq<(string, Cell<int>)>): (out: seq<Partial>)
  {
    if keys == [] then []
    else [Partial(keys[0].0, keys[0].1, Sum(Having(rows, CompanySalt, keys[0]), CompanyTally))]
         + PartialStage(rows, keys[1..])
  }

  /** Stage three: per sector. */
  function FinalStage(rows: seq<Partial>, sectors: seq<string>): (out: seq<ReportRow>)
    ensures |out| == |sectors|
    ensures forall i | 0 <= i < |sectors| ::
                out[i] == ReportRow(sectors[i], Sum(Having(rows, PartialSector, sectors[i]), PartialTally))
  {
    if sectors == [] then []
    else [ReportRow(sectors[0], Sum(Having(rows, PartialSector, sectors[0]), PartialTally))]
         + FinalStage(rows, sectors[1..])
  }

  // ------------------------------------------------------------------ grouping adds nothing up twice

  function Except<T(!new), K(==)>(rows: seq<T>, key: T -> K, k: K): (kept: seq<T>)
    ensures forall r :: r in kept <==> r in rows && key(r) != k
  {
    if rows == [] then []
    else if key(rows[0]) != k then [rows[0]] + Except(rows[1..], key, k) else Except(rows[1..], key, k)
  }

  /** The sum over those groups whose key starts with `sector`. */
  function SumGroups<T(!new), L(==)>(
      rows: seq<T>, key: T -> (string, L), keys: seq<(string, L)>, sector: string,
      measure: T -> Tally): Tally {
    if keys == [] then ZERO
    else
      var rest := SumGroups(rows, key, keys[1..], sector, measure);
      if keys[0].0 == sector then Plus(Sum(Having(rows, key, keys[0]), measure), rest) else rest
  }

  lemma {:induction false} PlusRegroups(a: Tally, b: Tally, c: Tally)
    ensures Plus(a, Plus(b, c)) == Plus(Plus(a, b), c) == Plus(b, Plus(a, c))
  {}

  lemma {:induction false} SplitSum<T(!new), L>(
      rows: seq<T>, key: T -> (string, L), sectorOf: T -> string, k: (string, L), sector: string, measure: T -> Tally)
    requires forall r :: sectorOf(r) == key(r).0
    ensures Sum(Having(rows, sectorOf, sector), measure)
         == if k.0 == sector then Plus(Sum(Having(rows, key, k), measure),
                                       Sum(Having(Except(rows, key, k), sectorOf, sector), measure))
            else Sum(Having(Except(rows, key, k), sectorOf, sector), measure)
  {
    if rows != [] {
      SplitSum(rows[1..], key, sectorOf, k, sector, measure);
      SplitStep(rows, key, sectorOf, k, sector, measure);
    }
  }

  lemma {:induction false} SplitStep<T(!new), L>(
      rows: seq<T>, key: T -> (string, L), sectorOf: T -> string, k: (string, L), sector: string, measure: T -> Tally)
    requires rows != [] && sectorOf(rows[0]) == key(rows[0]).0
    requires var tail := rows[1..];
             Sum(Having(tail, sectorOf, sector), measure)
             == if k.0 == sector then Plus(Sum(Having(tail, key, k), measure),
                                           Sum(Having(Except(tail, key, k), sectorOf, sector), measure))
                else Sum(Having(Except(tail, key, k), sectorOf, sector), measure)
    ensures Sum(Having(rows, sectorOf, sector), measure)
         == if k.0 == sector then Plus(Sum(Having(rows, key, k), measure),
                                       Sum(Having(Except(rows, key, k), sectorOf, sector), measure))
            else Sum(Having(Except(rows, key, k), sectorOf, sector), measure)
  {
    var head, tail := rows[0], rows[1..];
    var m, mine, others := measure(head), Having(tail, key, k), Having(Except(tail, key, k), sectorOf, sector);
    PlusRegroups(m, Sum(mine, measure), Sum(others, measure));
    if key(head) == k {
      assert Except(rows, key, k) == Except(tail, key, k);
      assert Having(rows, key, k) == [head] + mine;
      SumCons(head, mine, measure);
    } else {
      assert Except(rows, key, k) == [head] + Except(tail, key, k);
      HavingCons(head, Except(tail, key, k), sectorOf, sector);
      assert Having(rows, key, k) == mine;
      SumCons(head, others, measure);
    }
    SumCons(head, Having(tail, sectorOf, sector), measure);
  }

  lemma {:induction false} SumCons<T>(head: T, tail: seq<T>, measure: T -> Tally)
    ensures Sum([head] + tail, measure) == Plus(measure(head), Sum(tail, measure))
  {
    assert ([head] + tail)[1..] == tail;
  }

  lemma {:induction false} HavingCons<T(!new), K>(head: T, tail: seq<T>, key: T -> K, k: K)
    ensures Having([head] + tail, key, k) == if key(head) == k then [head] + Having(tail, key, k)
                                                                    else Having(tail, key, k)
  {
    assert ([head] + tail)[1..] == tail;
  }

  lemma {:induction false} OtherGroups<T(!new), K>(rows: seq<T>, key: T -> K, k: K, other: K)
    requires k != other
    ensures Having(Except(rows, key, other), key, k) == Having(rows, key, k)
  {
    if rows != [] { OtherGroups(rows[1..], key, k, other); }
  }

  lemma {:induction false} SumGroupsWithout<T(!new), L>(
      rows: seq<T>, key: T -> (string, L), keys: seq<(string, L)>, sector: string, measure: T -> Tally,
      other: (string, L))
    requires other !in keys
    ensures SumGroups(Except(rows, key, other), key, keys, sector, measure)
            == SumGroups(rows, key, keys, sector, measure)
  {
    if keys != [] {
      OtherGroups(rows, key, keys[0], other);
      SumGroupsWithout(rows, key, keys[1..], sector, measure, other);
    }
  }

  /** Grouping finer than the sector and adding the groups back up gives the sector's own sum,
      whatever the finer key is and in whatever order the groups arrive. */
  lemma {:induction false} Regroup<T(!new), L(!new)>(
      rows: seq<T>, key: T -> (string, L), sectorOf: T -> string, keys: seq<(string, L)>,
      sector: string, measure: T -> Tally)
    requires forall r :: sectorOf(r) == key(r).0
    requires Enumerates(keys, rows, key)
    ensures SumGroups(rows, key, keys, sector, measure) == Sum(Having(rows, sectorOf, sector), measure)
    decreases |keys|
  {
    if keys == [] {
      assert forall r | r in rows :: Present(rows, key, key(r));
      assert forall i | 0 <= i < |rows| :: rows[i] in rows;
    } else {
      var left := Except(rows, key, keys[0]);
      assert Enumerates(keys[1..], left, key) by {
        forall k ensures k in keys[1..] <==> Present(left, key, k) {
          assert k in keys <==> Present(rows, key, k);
          assert k in keys[1..] <==> k in keys && k != keys[0];
        }
      }
      Regroup(left, key, sectorOf, keys[1..], sector, measure);
      SumGroupsWithout(rows, key, keys[1..], sector, measure, keys[0]);
      SplitSum(rows, key, sectorOf, keys[0], sector, measure);
    }
  }

  // ------------------------------------------------------------------ sums do not see the order

  lemma {:induction false} ZeroFirst(x: Tally)
    ensures Plus(ZERO, x) == x
  {
  }

  lemma {:induction false} SumEmptyFirst<T>(b: seq<T>, measure: T -> Tally)
    ensures Sum([] + b, measure) == Plus(Sum([], measure), Sum(b, measure))
  {
    assert [] + b == b;
    ZeroFirst(Sum(b, measure));
  }

  lemma {:induction false} SumFirst<T>(a: seq<T>, b: seq<T>, measure: T -> Tally)
    requires a != []
    ensures Sum(a + b, measure) == Plus(measure(a[0]), Sum(a[1..] + b, measure))
    ensures Sum(a, measure) == Plus(measure(a[0]), Sum(a[1..], measure))
  {
    assert (a + b)[1..] == a[1..] + b;
  }

  lemma {:induction false} SumConcat<T>(a: seq<T>, b: seq<T>, measure: T -> Tally)
    ensures Sum(a + b, measure) == Plus(Sum(a, measure), Sum(b, measure))
  {
    if a == [] {
      SumEmptyFirst(b, measure);
    } else {
      SumConcat(a[1..], b, measure);
      SumFirst(a, b, measure);
      PlusRegroups(measure(a[0]), Sum(a[1..], measure), Sum(b, measure));
    }
  }

  lemma {:induction false} SumShuffled<T>(a: seq<T>, b: seq<T>, measure: T -> Tally)
    requires multiset(a) == multiset(b)
    ensures Sum(a, measure) == Sum(b, measure)
    decreases |a|
  {
    if a == [] {
      assert |multiset(b)| == 0;
    } else {
      var j, front, back := Extract(a, b);
      SumConcat(front, [b[j]] + back, measure);
      SumConcat(front, back, measure);
      assert ([b[j]] + back)[1..] == back;
      SumShuffled(a[1..], front + back, measure);
    }
  }

  lemma {:induction false} WithoutFirst<T>(a: seq<T>)
    requires a != []
    ensures multiset(a) == multiset{a[0]} + multiset(a[1..])
  {
    assert a == [a[0]] + a[1..];
  }

  /** Find the first element of `a` in its shuffle `b` and take it out of both. */
  lemma {:induction false} Extract<T>(a: seq<T>, b: seq<T>) returns (j: nat, front: seq<T>, back: seq<T>)
    requires multiset(a) == multiset(b) && a != []
    ensures j < |b| && b[j] == a[0] && front == b[..j] && back == b[j + 1..] && b == front + ([b[j]] + back)
    ensures multiset(a[1..]) == multiset(front + back)
  {
    assert a[0] in multiset(a);
    assert a[0] in b;
    j :| 0 <= j < |b| && b[j] == a[0];
    front, back := b[..j], b[j + 1..];
    assert b == front + ([b[j]] + back);
    WithoutFirst(a);
    WithoutOne(b, j);
  }

  lemma {:induction false} WithoutOne<T>(a: seq<T>, i: nat)
    requires i < |a|
    ensures multiset(a[..i] + a[i + 1..]) == multiset(a) - multiset{a[i]}
  {
    assert a == a[..i] + [a[i]] + a[i + 1..];
  }

  lemma {:induction false} HavingConcat<T(!new), K>(a: seq<T>, b: seq<T>, key: T -> K, k: K)
    ensures Having(a + b, key, k) == Having(a, key, k) + Having(b, key, k)
  {
    if a == [] {
      assert a + b == b;
    } else {
      assert (a + b)[1..] == a[1..] + b;
      HavingConcat(a[1..], b, key, k);
    }
  }

  lemma {:induction false} HavingShuffled<T(!new), K>(a: seq<T>, b: seq<T>, key: T -> K, k: K)
    requires multiset(a) == multiset(b)
    ensures multiset(Having(a, key, k)) == multiset(Having(b, key, k))
    decreases |a|
  {
    if a == [] {
      assert |multiset(b)| == 0;
    } else {
      var j, front, back := Extract(a, b);
      HavingConcat(front, [b[j]] + back, key, k);
      HavingConcat(front, back, key, k);
      assert ([b[j]] + back)[1..] == back;
      HavingShuffled(a[1..], front + back, key, k);
    }
  }

  // ------------------------------------------------------------------ a run of each plan

  /** The engine's free choices in one run of the baseline plan. */
  datatype BaselineRun = BaselineRun(companies: seq<Company>, statements: seq<Statement>, sectors: seq<string>) {
    function Rows(): seq<Joined> { InnerJoin(statements, companies) }
    function Report(): seq<ReportRow> { BaselineReport(Rows(), sectors) }

    ghost predicate Of(companyTable: seq<Company>, statementTable: Frame)
      requires statementTable.Valid()
    {
      && WindowLatest(companyTable, CompanyKey, CompanyTs, companies)
      && WindowLatest(ReadStatements(Records(BaselineAlignment(statementTable))), StatementKey, StatementTs, statements)
      && Enumerates(sectors, Rows(), RowSector) && Ascending(sectors)
    }
  }

  datatype OptimizedRun = OptimizedRun(companies: seq<Company>, statements: seq<Statement>,
                                       companyGroups: seq<(string, string)>,
                                       saltGroups: seq<(string, Cell<int>)>, sectors: seq<string>) {
    function Rows(): seq<Joined> { InnerJoin(statements, companies) }
    function Companies(salt: string -> Cell<int>): seq<PerCompany> { PerCompanyStage(Rows(), salt, companyGroups) }
    function Partials(salt: string -> Cell<int>): seq<Partial> { PartialStage(Companies(salt), saltGroups) }
    function Report(salt: string -> Cell<int>): seq<ReportRow> { FinalStage(Partials(salt), sectors) }

    ghost predicate Of(companyTable: seq<Company>, statementTable: Frame, salt: string -> Cell<int>) {
      && MaxByLatest(companyTable, CompanyKey, CompanyTs, BlankCompany, companies)
      && MaxByLatest(ReadStatements(Records(OptimizedAlignment(statementTable))), StatementKey, StatementTs,
                     BlankStatement, statements)
      && Enumerates(companyGroups, Rows(), RowCompany)
      && Enumerates(saltGroups, Companies(salt), CompanySalt)
      && Enumerates(sectors, Partials(salt), PartialSector) && Ascending(sectors)
    }
  }

  /** No non-null source record id occurs twice in one sector of the joined table. */
  ghost predicate SourceIdsDistinct(rows: seq<Joined>) {
    forall sector :: NoRepeat(Ids(Having(rows, RowSector, sector)))
  }

  // ------------------------------------------------------------------ the joined tables agree

  lemma {:induction false} JoinOneIsLookup(s: Statement, companies: seq<Company>)
    requires UniqueKeys(companies, CompanyKey)
    ensures |JoinOne(s, companies)| <= 1
    ensures forall j :: j in JoinOne(s, companies)
              <==> exists c :: c in companies && s.ticker.Val? && c.ticker == s.ticker
                               && j == Joined(SectorOrUnknown(c.sector), s.ticker.v, s.sourceRecordId, s.totalAssets)
  {
    if companies != [] {
      var tail := companies[1..];
      assert companies == [companies[0]] + tail;
      JoinOneIsLookup(s, tail);
      assert forall c | c in tail :: CompanyKey(c) != CompanyKey(companies[0]);
      if JoinOne(s, tail) != [] {
        assert JoinOne(s, tail)[0] in JoinOne(s, tail);
        var c :| c in tail && s.ticker.Val? && c.ticker == s.ticker;
        assert CompanyKey(companies[0]) != s.ticker;
      }
    }
  }

  lemma {:induction false} JoinOneShuffled(s: Statement, a: seq<Company>, b: seq<Company>)
    requires UniqueKeys(a, CompanyKey) && UniqueKeys(b, CompanyKey) && multiset(a) == multiset(b)
    ensures JoinOne(s, a) == JoinOne(s, b)
  {
    var x, y := JoinOne(s, a), JoinOne(s, b);
    LookupMoves(s, a, b);
    LookupMoves(s, b, a);
    if |x| == 1 { assert x[0] in y; }
    if |y| == 1 { assert y[0] in x; }
  }

  lemma {:induction false} LookupMoves(s: Statement, a: seq<Company>, b: seq<Company>)
    requires UniqueKeys(a, CompanyKey) && UniqueKeys(b, CompanyKey) && multiset(a) == multiset(b)
    ensures |JoinOne(s, a)| <= 1 && forall j | j in JoinOne(s, a) :: j in JoinOne(s, b)
  {
    JoinOneIsLookup(s, a);
    JoinOneIsLookup(s, b);
    forall j | j in JoinOne(s, a) ensures j in JoinOne(s, b) {
      var c :| c in a && s.ticker.Val? && c.ticker == s.ticker
               && j == Joined(SectorOrUnknown(c.sector), s.ticker.v, s.sourceRecordId, s.totalAssets);
      assert c in multiset(b);
    }
  }

  lemma {:induction false} JoinConcat(a: seq<Statement>, b: seq<Statement>, companies: seq<Company>)
    ensures InnerJoin(a + b, companies) == InnerJoin(a, companies) + InnerJoin(b, companies)
  {
    if a == [] {
      assert a + b == b;
    } else {
      assert (a + b)[1..] == a[1..] + b;
      JoinConcat(a[1..], b, companies);
    }
  }

  lemma {:induction false} JoinShuffled(
      a: seq<Statement>, b: seq<Statement>, companies: seq<Company>, shuffled: seq<Company>)
    requires multiset(a) == multiset(b) && multiset(companies) == multiset(shuffled)
    requires UniqueKeys(companies, CompanyKey) && UniqueKeys(shuffled, CompanyKey)
    ensures multiset(InnerJoin(a, companies)) == multiset(InnerJoin(b, shuffled))
    decreases |a|
  {
    if a == [] {
      assert |multiset(b)| == 0;
    } else {
      var j, front, back := Extract(a, b);
      JoinConcat(front, [b[j]] + back, shuffled);
      JoinConcat(front, back, shuffled);
      assert ([b[j]] + back)[1..] == back;
      JoinOneShuffled(a[0], companies, shuffled);
      JoinShuffled(a[1..], front + back, companies, shuffled);
    }
  }

  // ------------------------------------------------------------------ the stages add up

  lemma {:induction false} PartialSums(rows: seq<PerCompany>, keys: seq<(string, Cell<int>)>, sector: string)
    ensures Sum(Having(PartialStage(rows, keys), PartialSector, sector), PartialTally)
         == SumGroups(rows, CompanySalt, keys, sector, CompanyTally)
  {
    if keys != [] {
      var head, tail := Partial(keys[0].0, keys[0].1, Sum(Having(rows, CompanySalt, keys[0]), CompanyTally)),
                        PartialStage(rows, keys[1..]);
      PartialSums(rows, keys[1..], sector);
      HavingCons(head, tail, PartialSector, sector);
      SumCons(head, Having(tail, PartialSector, sector), PartialTally);
    }
  }

  lemma {:induction false} CompanyStep(head: PerCompany, tail: seq<PerCompany>, sector: string)
    ensures CompanyTotal([head] + tail, sector)
         == if head.sector == sector then Plus(head.tally.(companies := 1), CompanyTotal(tail, sector))
                                          else CompanyTotal(tail, sector)
  {
    HavingCons(head, tail, CompanySector, sector);
    SumCons(head, Having(tail, CompanySector, sector), CompanyTally);
  }

  function CompanyTotal(rows: seq<PerCompany>, sector: string): Tally {
    Sum(Having(rows, CompanySector, sector), CompanyTally)
  }

  lemma {:induction false} PerCompanySums(
      rows: seq<Joined>, salt: string -> Cell<int>, keys: seq<(string, string)>, sector: string)
    ensures CompanyTotal(PerCompanyStage(rows, salt, keys), sector)
         == SumGroups(rows, RowCompany, keys, sector, RowTally).(companies := |Having(keys, KeySector, sector)|)
  {
    if keys == [] {
      assert PerCompanyStage(rows, salt, keys) == [];
    } else {
      var group := Sum(Having(rows, RowCompany, keys[0]), RowTally);
      var head, tail := PerCompany(keys[0].0, keys[0].1, salt(keys[0].1), group),
                        PerCompanyStage(rows, salt, keys[1..]);
      var rest, n := SumGroups(rows, RowCompany, keys[1..], sector, RowTally), |Having(keys[1..], KeySector, sector)|;
      assert PerCompanyStage(rows, salt, keys) == [head] + tail;
      PerCompanySums(rows, salt, keys[1..], sector);
      CompanyStep(head, tail, sector);
      assert CompanyTotal([head] + tail, sector)
          == if keys[0].0 == sector then Plus(group.(companies := 1), rest.(companies := n)) else rest.(companies := n);
      assert SumGroups(rows, RowCompany, keys, sector, RowTally) == if keys[0].0 == sector then Plus(group, rest)
                else rest;
      assert |Having(keys, KeySector, sector)| == n + if keys[0].0 == sector then 1 else 0;
    }
  }

  function KeySector(k: (string, string)): string { k.0 }

  lemma {:induction false} RowsNoCompanies(rows: seq<Joined>)
    ensures Sum(rows, RowTally).companies == 0 && Sum(rows, RowTally).statements == |rows|
  {
    if rows != [] { RowsNoCompanies(rows[1..]); }
  }

  // ------------------------------------------------------------------ distinct counts

  function Tickers(keys: seq<(string, string)>): (ts: seq<string>)
    ensures |ts| == |keys| && forall i | 0 <= i < |keys| :: ts[i] == keys[i].1
  {
    seq(|keys|, i requires 0 <= i < |keys| => keys[i].1)
  }

  lemma {:induction false} HavingDistinct(keys: seq<(string, string)>, sector: string)
    requires NoRepeat(keys)
    ensures NoRepeat(Tickers(Having(keys, KeySector, sector)))
  {
    if keys != [] {
      var tail := Having(keys[1..], KeySector, sector);
      HavingDistinct(keys[1..], sector);
      if keys[0].0 == sector {
        forall j | 0 <= j < |tail| ensures tail[j].1 != keys[0].1 {
          assert tail[j] in tail;
          var i :| 0 <= i < |keys[1..]| && keys[1..][i] == tail[j];
          assert keys[0] != keys[i + 1];
        }
        assert Tickers(Having(keys, KeySector, sector)) == [keys[0].1] + Tickers(tail);
      } else {
        assert Having(keys, KeySector, sector) == tail;
      }
    }
  }

  /** The number of (sector, ticker) groups of a sector is its number of distinct tickers. */
  lemma {:induction false} CompanyGroupsAreTickers(rows: seq<Joined>, keys: seq<(string, string)>, sector: string)
    requires Enumerates(keys, rows, RowCompany)
    ensures |Having(keys, KeySector, sector)| == |set j | j in Having(rows, RowSector, sector) :: j.ticker|
  {
    var mine, wanted := Having(keys, KeySector, sector), set j | j in Having(rows, RowSector, sector) :: j.ticker;
    HavingDistinct(keys, sector);
    DistinctCount(Tickers(mine));
    forall t ensures t in Tickers(mine) <==> t in wanted {
      if t in Tickers(mine) {
        var i :| 0 <= i < |mine| && Tickers(mine)[i] == t;
        assert mine[i] in keys && Present(rows, RowCompany, mine[i]);
        var j :| j in rows && RowCompany(j) == mine[i];
      }
      if t in wanted {
        var j :| j in Having(rows, RowSector, sector) && j.ticker == t;
        assert Present(rows, RowCompany, (sector, t));
        assert (sector, t) in mine;
        var i :| 0 <= i < |mine| && mine[i] == (sector, t);
        assert Tickers(mine)[i] == t;
      }
    }
    assert (set t | t in Tickers(mine)) == wanted;
  }

  function Ids(rows: seq<Joined>): seq<string> {
    if rows == [] then []
    else if rows[0].sourceRecordId.Val? then [rows[0].sourceRecordId.v] + Ids(rows[1..]) else Ids(rows[1..])
  }

  lemma {:induction false} IdsCounted(rows: seq<Joined>)
    ensures Sum(rows, RowTally).sourceIds == |Ids(rows)|
  {
    if rows != [] { IdsCounted(rows[1..]); }
  }

  lemma {:induction false} IdsMembers(rows: seq<Joined>, id: string)
    ensures id in Ids(rows) <==> exists j :: j in rows && j.sourceRecordId == Val(id)
  {
    if rows != [] {
      var tail := rows[1..];
      assert rows == [rows[0]] + tail;
      IdsMembers(tail, id);
      assert forall j :: j in rows <==> j == rows[0] || j in tail;
      assert id in Ids(rows) <==> rows[0].sourceRecordId == Val(id) || id in Ids(tail);
    }
  }

  /** The values `count(distinct ...)` counts are those among the ids of any shuffle. */
  lemma {:induction false} SameIds(ours: seq<Joined>, mine: seq<Joined>)
    requires multiset(ours) == multiset(mine)
    ensures (set j | j in ours && j.sourceRecordId.Val? :: j.sourceRecordId.v) == (set id | id in Ids(mine))
  {
    assert forall j :: j in ours <==> j in multiset(ours);
    assert forall j :: j in mine <==> j in multiset(mine);
    forall id ensures id in Ids(mine) <==> exists j :: j in mine && j.sourceRecordId == Val(id) {
      IdsMembers(mine, id);
    }
  }

  // ------------------------------------------------------------------ one sector, both plans

  function OptimizedTally(run: OptimizedRun, salt: string -> Cell<int>, sector: string): Tally {
    Sum(Having(run.Partials(salt), PartialSector, sector), PartialTally)
  }

  /** What the three salted stages compute for a sector, whatever the salt and the group orders. */
  lemma {:induction false} StagesCompute(run: OptimizedRun, salt: string -> Cell<int>, sector: string)
    requires Enumerates(run.companyGroups, run.Rows(), RowCompany)
    requires Enumerates(run.saltGroups, run.Companies(salt), CompanySalt)
    ensures var mine := Having(run.Rows(), RowSector, sector);
            OptimizedTally(run, salt, sector)
            == Tally(|set j | j in mine :: j.ticker|, |mine|, |Ids(mine)|, Sum(mine, RowTally).totalAssets)
  {
    var rows, mine := run.Rows(), Having(run.Rows(), RowSector, sector);
    PartialSums(run.Companies(salt), run.saltGroups, sector);
    Regroup(run.Companies(salt), CompanySalt, CompanySector, run.saltGroups, sector, CompanyTally);
    PerCompanySums(rows, salt, run.companyGroups, sector);
    Regroup(rows, RowCompany, RowSector, run.companyGroups, sector, RowTally);
    CompanyGroupsAreTickers(rows, run.companyGroups, sector);
    RowsNoCompanies(mine);
    IdsCounted(mine);
  }

  /** The baseline's row for a sector against the same quantities: only the id column can differ. */
  lemma {:induction false} BaselineComputes(rows: seq<Joined>, shuffled: seq<Joined>, sector: string)
    requires multiset(rows) == multiset(shuffled)
    ensures var mine, base := Having(shuffled, RowSector, sector), BaselineRow(rows, sector).tally;
            && base == Tally(|set j | j in mine :: j.ticker|, |mine|, base.sourceIds, Sum(mine, RowTally).totalAssets)
            && base.sourceIds <= |Ids(mine)|
            && (base.sourceIds == |Ids(mine)| <==> NoRepeat(Ids(mine)))
  {
    var ours, mine := Having(rows, RowSector, sector), Having(shuffled, RowSector, sector);
    HavingShuffled(rows, shuffled, RowSector, sector);
    SumShuffled(ours, mine, RowTally);
    assert |ours| == |multiset(ours)| == |mine|;
    assert forall j :: j in ours <==> j in multiset(ours);
    assert forall j :: j in mine <==> j in multiset(mine);
    assert (set j | j in ours :: j.ticker) == (set j | j in mine :: j.ticker);
    SameIds(ours, mine);
    DistinctCount(Ids(mine));
  }

  // ------------------------------------------------------------------ the rewrite preserves the report

  lemma {:induction false} RunsShareRows(
      companyTable: seq<Company>, statementTable: Frame,
      salt: string -> Cell<int>, base: BaselineRun, opt: OptimizedRun)
    requires statementTable.Valid() && base.Of(companyTable, statementTable)
             && opt.Of(companyTable, statementTable, salt)
    requires AllSettled(companyTable, CompanyKey, CompanyTs, BlankCompany)
    requires AllSettled(ReadStatements(Records(BaselineAlignment(statementTable))), StatementKey, StatementTs,
                        BlankStatement)
    ensures multiset(base.Rows()) == multiset(opt.Rows())
  {
    AlignmentsAgree(statementTable);
    var aligned := ReadStatements(Records(BaselineAlignment(statementTable)));
    LatestAgree(companyTable, CompanyKey, CompanyTs, BlankCompany, base.companies, opt.companies);
    LatestAgree(aligned, StatementKey, StatementTs, BlankStatement, base.statements, opt.statements);
    JoinShuffled(base.statements, opt.statements, base.companies, opt.companies);
  }

  /** Both plans report on the same sectors, in the same order. */
  lemma {:induction false} RunsShareSectors(
      rows: seq<Joined>, salt: string -> Cell<int>, base: BaselineRun, opt: OptimizedRun)
    requires multiset(base.Rows()) == multiset(opt.Rows())
    requires Enumerates(base.sectors, base.Rows(), RowSector) && Ascending(base.sectors)
    requires Enumerates(opt.companyGroups, opt.Rows(), RowCompany)
    requires Enumerates(opt.saltGroups, opt.Companies(salt), CompanySalt)
    requires Enumerates(opt.sectors, opt.Partials(salt), PartialSector) && Ascending(opt.sectors)
    ensures base.sectors == opt.sectors
  {
    forall s ensures s in base.sectors <==> s in opt.sectors {
      StagesKeepSectors(opt, salt, s);
      assert forall j :: j in base.Rows() <==> j in multiset(base.Rows());
      assert forall j :: j in opt.Rows() <==> j in multiset(opt.Rows());
      assert Present(base.Rows(), RowSector, s) <==> Present(opt.Rows(), RowSector, s);
    }
    AscendingIsUnique(base.sectors, opt.sectors);
  }

  lemma {:induction false} PartialSectors(rows: seq<PerCompany>, keys: seq<(string, Cell<int>)>, sector: string)
    ensures Present(PartialStage(rows, keys), PartialSector, sector) <==> exists k :: k in keys && k.0 == sector
  {
    if keys != [] {
      PartialSectors(rows, keys[1..], sector);
      var head, tail := Partial(keys[0].0, keys[0].1, Sum(Having(rows, CompanySalt, keys[0]), CompanyTally)),
                        PartialStage(rows, keys[1..]);
      assert PartialStage(rows, keys) == [head] + tail;
      assert keys == [keys[0]] + keys[1..];
      assert head in PartialStage(rows, keys);
      assert forall p | p in tail :: p in PartialStage(rows, keys);
    }
  }

  lemma {:induction false} StagesKeepSectors(run: OptimizedRun, salt: string -> Cell<int>, sector: string)
    requires Enumerates(run.companyGroups, run.Rows(), RowCompany)
    requires Enumerates(run.saltGroups, run.Companies(salt), CompanySalt)
    ensures Present(run.Partials(salt), PartialSector, sector) <==> Present(run.Rows(), RowSector, sector)
  {
    PartialSectors(run.Companies(salt), run.saltGroups, sector);
    var companies := run.Companies(salt);
    if Present(run.Rows(), RowSector, sector) {
      var j :| j in run.Rows() && j.sector == sector;
      assert Present(run.Rows(), RowCompany, RowCompany(j));
      var i :| 0 <= i < |run.companyGroups| && run.companyGroups[i] == RowCompany(j);
      assert companies[i] in companies && companies[i].sector == sector;
      assert Present(companies, CompanySalt, CompanySalt(companies[i]));
      assert CompanySalt(companies[i]) in run.saltGroups;
    }
    if Present(run.Partials(salt), PartialSector, sector) {
      var k :| k in run.saltGroups && k.0 == sector;
      assert Present(companies, CompanySalt, k);
      var p :| p in companies && CompanySalt(p) == k;
      var i :| 0 <= i < |companies| && companies[i] == p;
      assert run.companyGroups[i] in run.companyGroups;
      assert Present(run.Rows(), RowCompany, run.companyGroups[i]);
    }
  }

  /** The rewrite theorem. On settled inputs every run of the optimized plan reports the same sectors,
      company counts, statement counts and asset sums as every run of the baseline, for every salt;
      its source id count is never smaller, and the two reports are equal exactly when no source
      record id occurs twice in a sector. */
  lemma {:induction false} RewritePreservesReport(
      companyTable: seq<Company>, statementTable: Frame,
      salt: string -> Cell<int>, base: BaselineRun, opt: OptimizedRun)
    requires statementTable.Valid() && base.Of(companyTable, statementTable)
             && opt.Of(companyTable, statementTable, salt)
    requires AllSettled(companyTable, CompanyKey, CompanyTs, BlankCompany)
    requires AllSettled(ReadStatements(Records(BaselineAlignment(statementTable))), StatementKey, StatementTs,
                        BlankStatement)
    ensures |base.Report()| == |opt.Report(salt)|
    ensures forall i | 0 <= i < |base.Report()| ::
              && base.Report()[i].sector == opt.Report(salt)[i].sector
              && base.Report()[i].tally == opt.Report(salt)[i].tally.(sourceIds := base.Report()[i].tally.sourceIds)
              && base.Report()[i].tally.sourceIds <= opt.Report(salt)[i].tally.sourceIds
    ensures base.Report() == opt.Report(salt) <==> SourceIdsDistinct(opt.Rows())
  {
    RunsShareRows(companyTable, statementTable, salt, base, opt);
    RunsShareSectors(base.Rows(), salt, base, opt);
    var sectors := base.sectors;
    forall i | 0 <= i < |sectors|
      ensures base.Report()[i].sector == opt.Report(salt)[i].sector == sectors[i]
      ensures base.Report()[i].tally == opt.Report(salt)[i].tally.(sourceIds := base.Report()[i].tally.sourceIds)
      ensures base.Report()[i].tally.sourceIds <= opt.Report(salt)[i].tally.sourceIds
      ensures base.Report()[i] == opt.Report(salt)[i] <==> NoRepeat(Ids(Having(opt.Rows(), RowSector, sectors[i])))
    {
      SectorAgrees(salt, base, opt, i);
    }
    ReportsEqualIff(salt, base, opt);
  }

  lemma {:induction false} SectorAgrees(salt: string -> Cell<int>, base: BaselineRun, opt: OptimizedRun, i: nat)
    requires multiset(base.Rows()) == multiset(opt.Rows()) && base.sectors == opt.sectors && i < |base.sectors|
    requires Enumerates(opt.companyGroups, opt.Rows(), RowCompany)
    requires Enumerates(opt.saltGroups, opt.Companies(salt), CompanySalt)
    ensures base.Report()[i].sector == opt.Report(salt)[i].sector == base.sectors[i]
    ensures base.Report()[i].tally == opt.Report(salt)[i].tally.(sourceIds := base.Report()[i].tally.sourceIds)
    ensures base.Report()[i].tally.sourceIds <= opt.Report(salt)[i].tally.sourceIds
    ensures base.Report()[i] == opt.Report(salt)[i] <==> NoRepeat(Ids(Having(opt.Rows(), RowSector, base.sectors[i])))
  {
    StagesCompute(opt, salt, base.sectors[i]);
    BaselineComputes(base.Rows(), opt.Rows(), base.sectors[i]);
  }

  lemma {:induction false} NoSectorNoRows(
      rows: seq<Joined>, shuffled: seq<Joined>, sectors: seq<string>, sector: string)
    requires multiset(rows) == multiset(shuffled) && Enumerates(sectors, rows, RowSector) && sector !in sectors
    ensures Having(shuffled, RowSector, sector) == []
  {
    var left := Having(shuffled, RowSector, sector);
    assert left == [] || left[0] in left;
    assert !Present(rows, RowSector, sector);
    forall j ensures j !in left {
      assert j in multiset(shuffled) <==> j in rows;
    }
  }

  lemma {:induction false} ReportsEqualIff(salt: string -> Cell<int>, base: BaselineRun, opt: OptimizedRun)
    requires |base.Report()| == |opt.Report(salt)| == |base.sectors|
    requires forall i | 0 <= i < |base.sectors| ::
               base.Report()[i] == opt.Report(salt)[i]
               <==> NoRepeat(Ids(Having(opt.Rows(), RowSector, base.sectors[i])))
    requires multiset(base.Rows()) == multiset(opt.Rows()) && Enumerates(base.sectors, base.Rows(), RowSector)
    ensures base.Report() == opt.Report(salt) <==> SourceIdsDistinct(opt.Rows())
  {
    if forall i | 0 <= i < |base.sectors| :: base.Report()[i] == opt.Report(salt)[i] {
      forall sector ensures NoRepeat(Ids(Having(opt.Rows(), RowSector, sector))) {
        if sector in base.sectors {
          var i :| 0 <= i < |base.sectors| && base.sectors[i] == sector;
        } else {
          NoSectorNoRows(base.Rows(), opt.Rows(), base.sectors, sector);
        }
      }
    }
  }

  // ------------------------------------------------------------------ in terms of the input tables

  function StatementIds(statements: seq<Statement>): (ids: seq<string>)
    ensures forall id :: id in ids <==> exists s :: s in statements && s.sourceRecordId == Val(id)
  {
    if statements == [] then []
    else if statements[0].sourceRecordId.Val? then [statements[0].sourceRecordId.v] + StatementIds(statements[1..])
                                                   else StatementIds(statements[1..])
  }

  /** Each kept statement joins at most one company, so distinct ids stay distinct. */
  lemma {:induction false} DistinctIdsStayDistinct(statements: seq<Statement>, companies: seq<Company>, sector: string)
    requires NoRepeat(StatementIds(statements)) && UniqueKeys(companies, CompanyKey)
    ensures NoRepeat(Ids(Having(InnerJoin(statements, companies), RowSector, sector)))
    ensures forall id | id in Ids(Having(InnerJoin(statements, companies), RowSector, sector)) ::
                id in StatementIds(statements)
  {
    if statements != [] {
      RestIdsDistinct(statements);
      DistinctIdsStayDistinct(statements[1..], companies, sector);
      var mine := JoinedInSector(statements, companies, sector);
      var rest := Having(InnerJoin(statements[1..], companies), RowSector, sector);
      if mine == [] {
        assert mine + rest == rest;
        assert forall id | id in StatementIds(statements[1..]) :: id in StatementIds(statements);
      } else {
        IdsOfJoinStep(statements, mine[0], rest, sector);
      }
    }
  }

  lemma {:induction false} RestIdsDistinct(statements: seq<Statement>)
    requires statements != [] && NoRepeat(StatementIds(statements))
    ensures NoRepeat(StatementIds(statements[1..]))
  {
    if statements[0].sourceRecordId.Val? { assert StatementIds(statements[1..]) == StatementIds(statements)[1..]; }
  }

  /** What the first statement contributes to a sector: at most one row, with its own id. */
  lemma {:induction false} JoinedInSector(
      statements: seq<Statement>, companies: seq<Company>, sector: string)
    returns (mine: seq<Joined>)
    requires statements != [] && UniqueKeys(companies, CompanyKey)
    ensures Having(InnerJoin(statements, companies), RowSector, sector)
         == mine + Having(InnerJoin(statements[1..], companies), RowSector, sector)
    ensures mine == [] || (mine == [mine[0]] && mine[0].sourceRecordId == statements[0].sourceRecordId)
  {
    var head := JoinOne(statements[0], companies);
    JoinOneIsLookup(statements[0], companies);
    HavingConcat(head, InnerJoin(statements[1..], companies), RowSector, sector);
    mine := Having(head, RowSector, sector);
    if head != [] {
      assert head == [head[0]] && head[0] in head;
      assert mine == if head[0].sector == sector then head else [];
    }
  }

  lemma {:induction false} IdsOfJoinStep(statements: seq<Statement>, j: Joined, tail: seq<Joined>, sector: string)
    requires statements != [] && NoRepeat(StatementIds(statements)) && j.sourceRecordId == statements[0].sourceRecordId
    requires NoRepeat(Ids(tail)) && forall id | id in Ids(tail) :: id in StatementIds(statements[1..])
    ensures NoRepeat(Ids([j] + tail)) && NoRepeat(Ids([] + tail))
    ensures forall id | id in Ids([j] + tail) || id in Ids([] + tail) :: id in StatementIds(statements)
  {
    assert ([j] + tail)[1..] == tail && [] + tail == tail;
    var ids, rest := StatementIds(statements), StatementIds(statements[1..]);
    if j.sourceRecordId.Val? {
      assert ids == [j.sourceRecordId.v] + rest;
      forall i | 0 <= i < |rest| ensures rest[i] != j.sourceRecordId.v {
        assert ids[0] != ids[i + 1];
      }
    }
  }

  // ------------------------------------------------------------------ both plans always have a result

  lemma {:induction false} GroupsExist<T(!new), K(!new)>(rows: seq<T>, key: T -> K) returns (keys: seq<K>)
    ensures Enumerates(keys, rows, key)
  {
    keys := KeysExist(rows, key);
  }

  lemma {:induction false} SectorsExist<T(!new)>(rows: seq<T>, key: T -> string) returns (sectors: seq<string>)
    ensures Enumerates(sectors, rows, key) && Ascending(sectors)
  {
    var keys := KeysExist(rows, key);
    sectors := ListingExists(keys);
    forall i, j | 0 <= i < j < |sectors| ensures sectors[i] != sectors[j] {
      assert Before(sectors[i], sectors[j]);
      NotBoth(sectors[i], sectors[j]);
    }
  }

  /** For every pair of input tables and every salt there are runs of both plans, so the comparison
      above is about results that exist. */
  lemma {:induction false} RunsExist(companyTable: seq<Company>, statementTable: Frame, salt: string -> Cell<int>)
    returns (base: BaselineRun, opt: OptimizedRun)
    requires statementTable.Valid()
    ensures base.Of(companyTable, statementTable) && opt.Of(companyTable, statementTable, salt)
  {
    var c1, c2 := LatestExist(companyTable, CompanyKey, CompanyTs, BlankCompany);
    var s1, _ := LatestExist(ReadStatements(Records(BaselineAlignment(statementTable))), StatementKey, StatementTs,
                             BlankStatement);
    var _, s2 := LatestExist(ReadStatements(Records(OptimizedAlignment(statementTable))), StatementKey, StatementTs,
                             BlankStatement);
    var sectors := SectorsExist(InnerJoin(s1, c1), RowSector);
    base := BaselineRun(c1, s1, sectors);
    var companyGroups := GroupsExist(InnerJoin(s2, c2), RowCompany);
    var companies := PerCompanyStage(InnerJoin(s2, c2), salt, companyGroups);
    var saltGroups := GroupsExist(companies, CompanySalt);
    var finals := SectorsExist(PartialStage(companies, saltGroups), PartialSector);
    opt := OptimizedRun(c2, s2, companyGroups, saltGroups, finals);
  }
}
