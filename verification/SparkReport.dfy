/** What the two reports say, column by column, of the rows their plans keep: plain counts and integer sums
    over the statements that meet a sector, without the aggregates of the plans. */
module SparkReport {
  import opened Relational
  import opened SchemaAlignment
  import opened SparkPlans
  import opened TextOrder

  // ------------------------------------------------------------------ the vocabulary

  /** The statement's ticker has a company of this sector. */
  ghost predicate Meets(s: Statement, companies: seq<Company>, sector: string) {
    && s.ticker.Val?
    && exists c :: c in companies && c.ticker == s.ticker && sector == if c.sector == Null then "Unknown"
              else c.sector.v
  }

  ghost function SectorStatements(statements: seq<Statement>, companies: seq<Company>, sector: string): seq<Statement> {
    if statements == [] then []
    else (if Meets(statements[0], companies, sector) then [statements[0]] else [])
         + SectorStatements(statements[1..], companies, sector)
  }

  /** The values that are not null, in order. */
  function Values<T>(cells: seq<Cell<T>>): seq<T> {
    if cells == [] then [] else (if cells[0] == Null then [] else [cells[0].v]) + Values(cells[1..])
  }

  function Total(xs: seq<int>): int { if xs == [] then 0 else xs[0] + Total(xs[1..]) }

  function Amounts(statements: seq<Statement>): seq<int> {
    Values(seq(|statements|, i requires 0 <= i < |statements| => statements[i].totalAssets))
  }

  function IdList(statements: seq<Statement>): seq<string> {
    Values(seq(|statements|, i requires 0 <= i < |statements| => statements[i].sourceRecordId))
  }

  ghost function DistinctTickers(statements: seq<Statement>): set<Cell<string>> { set s | s in statements :: s.ticker }

  ghost function DistinctIds(statements: seq<Statement>): set<string> { set id | id in IdList(statements) }

  /** Every column but the id count. */
  ghost predicate Says(row: ReportRow, mine: seq<Statement>) {
    && row.tally.companies == |DistinctTickers(mine)|
    && row.tally.statements == |mine|
    && row.tally.totalAssets == if Amounts(mine) == [] then Null else Val(Total(Amounts(mine)))
  }

  // ------------------------------------------------------------------ the joined rows of a sector

  function RowOf(s: Statement, sector: string): Joined
    requires s.ticker.Val?
  {
    Joined(sector, s.ticker.v, s.sourceRecordId, s.totalAssets)
  }

  ghost predicate RowsOf(joined: seq<Joined>, mine: seq<Statement>, sector: string) {
    && |joined| == |mine|
    && forall i | 0 <= i < |mine| :: mine[i].ticker.Val? && joined[i] == RowOf(mine[i], sector)
  }

  lemma {:induction false} OwnRows(s: Statement, companies: seq<Company>, sector: string)
    requires UniqueKeys(companies, CompanyKey)
    ensures Having(JoinOne(s, companies), RowSector, sector)
         == if Meets(s, companies, sector) then [RowOf(s, sector)] else []
  {
    JoinOneIsLookup(s, companies);
    var row := JoinOne(s, companies);
    var mine := Having(row, RowSector, sector);
    assert |mine| <= |row| by { HavingShorter(row, sector); }
    assert mine == [] || (mine == [mine[0]] && mine[0] in mine);
    if Meets(s, companies, sector) {
      var c :| c in companies && c.ticker == s.ticker && sector == if c.sector == Null then "Unknown" else c.sector.v;
      assert RowOf(s, sector) in row;
      assert RowOf(s, sector) in mine;
    }
  }

  lemma {:induction false} HavingShorter(rows: seq<Joined>, sector: string)
    ensures |Having(rows, RowSector, sector)| <= |rows|
  {
    if rows != [] { HavingShorter(rows[1..], sector); }
  }

  lemma {:induction false} JoinedAre(statements: seq<Statement>, companies: seq<Company>, sector: string)
    requires UniqueKeys(companies, CompanyKey)
    ensures RowsOf(Having(InnerJoin(statements, companies), RowSector, sector),
                   SectorStatements(statements, companies, sector), sector)
  {
    if statements != [] {
      JoinedAre(statements[1..], companies, sector);
      HavingConcat(JoinOne(statements[0], companies), InnerJoin(statements[1..], companies), RowSector, sector);
      OwnRows(statements[0], companies, sector);
      RowsOfMore(statements[0], Meets(statements[0], companies, sector),
                 Having(InnerJoin(statements[1..], companies), RowSector, sector),
                 SectorStatements(statements[1..], companies, sector), sector);
    }
  }

  lemma {:induction false} RowsOfMore(
      s: Statement, meets: bool, joined: seq<Joined>, mine: seq<Statement>, sector: string)
    requires RowsOf(joined, mine, sector) && (meets ==> s.ticker.Val?)
    ensures RowsOf((if meets then [RowOf(s, sector)] else []) + joined, (if meets then [s] else []) + mine, sector)
  {
  }

  // ------------------------------------------------------------------ sums and counts of those rows

  lemma {:induction false} TailRows(joined: seq<Joined>, mine: seq<Statement>, sector: string)
    requires RowsOf(joined, mine, sector) && mine != []
    ensures RowsOf(joined[1..], mine[1..], sector)
    ensures Amounts(mine) == Values([mine[0].totalAssets]) + Amounts(mine[1..])
    ensures IdList(mine) == Values([mine[0].sourceRecordId]) + IdList(mine[1..])
  {
    var amounts := seq(|mine|, i requires 0 <= i < |mine| => mine[i].totalAssets);
    var ids := seq(|mine|, i requires 0 <= i < |mine| => mine[i].sourceRecordId);
    assert amounts[1..] == seq(|mine| - 1, i requires 0 <= i < |mine| - 1 => mine[1..][i].totalAssets);
    assert ids[1..] == seq(|mine| - 1, i requires 0 <= i < |mine| - 1 => mine[1..][i].sourceRecordId);
    OneValue(mine[0].totalAssets);
    OneValue(mine[0].sourceRecordId);
  }

  lemma {:induction false} OneValue<T>(c: Cell<T>)
    ensures Values([c]) == if c == Null then [] else [c.v]
  {
    assert [c][1..] == [];
  }

  lemma {:induction false} TotalStep(first: seq<int>, rest: seq<int>)
    requires |first| <= 1
    ensures Total(first + rest) == (if first == [] then 0 else first[0]) + Total(rest)
  {
    if first == [] { assert first + rest == rest; } else { assert (first + rest)[1..] == rest; }
  }

  lemma {:induction false} SumIsTotal(joined: seq<Joined>, mine: seq<Statement>, sector: string)
    requires RowsOf(joined, mine, sector)
    ensures Sum(joined, RowTally).totalAssets == if Amounts(mine) == [] then Null else Val(Total(Amounts(mine)))
  {
    if mine != [] {
      TailRows(joined, mine, sector);
      SumIsTotal(joined[1..], mine[1..], sector);
      OneValue(mine[0].totalAssets);
      TotalStep(Values([mine[0].totalAssets]), Amounts(mine[1..]));
      assert joined[0].totalAssets == mine[0].totalAssets;
    }
  }

  lemma {:induction false} IdsAre(joined: seq<Joined>, mine: seq<Statement>, sector: string)
    requires RowsOf(joined, mine, sector)
    ensures Ids(joined) == IdList(mine)
  {
    if mine != [] {
      TailRows(joined, mine, sector);
      IdsAre(joined[1..], mine[1..], sector);
      OneValue(mine[0].sourceRecordId);
    }
  }

  lemma {:induction false} TickersAre(joined: seq<Joined>, mine: seq<Statement>, sector: string)
    requires RowsOf(joined, mine, sector)
    ensures |set j | j in joined :: j.ticker| == |DistinctTickers(mine)|
  {
    var names, cells := set j | j in joined :: j.ticker, DistinctTickers(mine);
    forall t ensures t in names <==> Val(t) in cells {
      if t in names {
        var i :| 0 <= i < |joined| && joined[i].ticker == t;
        assert mine[i] in mine && mine[i].ticker == Val(t);
      }
      if Val(t) in cells {
        var i :| 0 <= i < |mine| && mine[i].ticker == Val(t);
        assert joined[i] in joined;
      }
    }
    forall c | c in cells ensures c.Val? {
      var i :| 0 <= i < |mine| && mine[i].ticker == c;
    }
    SameSize(names, cells);
  }

  lemma {:induction false} SameSize<T>(values: set<T>, cells: set<Cell<T>>)
    requires forall v :: v in values <==> Val(v) in cells
    requires forall c | c in cells :: c.Val?
    ensures |values| == |cells|
    decreases |values|
  {
    if values == {} {
      assert cells == {};
    } else {
      var v :| v in values;
      SameSize(values - {v}, cells - {Val(v)});
    }
  }

  // ------------------------------------------------------------------ the reports

  /** The baseline's report: for each sector the distinct tickers, the number of statements, the distinct
      non-null ids and the integer sum of the non-null amounts, null when there is none. */
  lemma {:induction false} BaselineReportMeaning(
      companyTable: seq<Company>, statementTable: Frame, base: BaselineRun, i: nat)
    requires statementTable.Valid() && base.Of(companyTable, statementTable) && i < |base.Report()|
    ensures var row := base.Report()[i];
      var mine := SectorStatements(base.statements, base.companies, row.sector);
      Says(row, mine) && row.tally.sourceIds == |DistinctIds(mine)|
  {
    var sector := base.sectors[i];
    var joined, mine := Having(base.Rows(), RowSector, sector),
                        SectorStatements(base.statements, base.companies, sector);
    JoinedAre(base.statements, base.companies, sector);
    SumIsTotal(joined, mine, sector);
    TickersAre(joined, mine, sector);
    IdsAre(joined, mine, sector);
    SameIds(joined, joined);
  }

  /** The rewrite's report, for every salt and every order of its groups: the same columns, with the ids
      counted as often as they occur. */
  lemma {:induction false} OptimizedReportMeaning(
      companyTable: seq<Company>, statementTable: Frame, salt: string -> Cell<int>, opt: OptimizedRun, i: nat)
    requires opt.Of(companyTable, statementTable, salt) && i < |opt.Report(salt)|
    ensures var row := opt.Report(salt)[i];
      var mine := SectorStatements(opt.statements, opt.companies, row.sector);
      Says(row, mine) && row.tally.sourceIds == |IdList(mine)|
  {
    var sector := opt.sectors[i];
    var joined, mine := Having(opt.Rows(), RowSector, sector), SectorStatements(opt.statements, opt.companies, sector);
    StagesCompute(opt, salt, sector);
    JoinedAre(opt.statements, opt.companies, sector);
    SumIsTotal(joined, mine, sector);
    TickersAre(joined, mine, sector);
    IdsAre(joined, mine, sector);
  }

  lemma {:induction false} MeetsMeansRows(
      statements: seq<Statement>, companies: seq<Company>, sector: string)
    requires UniqueKeys(companies, CompanyKey)
    ensures Present(InnerJoin(statements, companies), RowSector, sector)
            <==> exists s :: s in statements && Meets(s, companies, sector)
  {
    if statements != [] {
      var tail := statements[1..];
      assert statements == [statements[0]] + tail;
      MeetsMeansRows(tail, companies, sector);
      OwnRows(statements[0], companies, sector);
      var own := JoinOne(statements[0], companies);
      assert Present(own, RowSector, sector) <==> Having(own, RowSector, sector) != [] by {
        if Present(own, RowSector, sector) {
          var j :| j in own && j.sector == sector;
          assert j in Having(own, RowSector, sector);
        }
        if Having(own, RowSector, sector) != [] { assert Having(own, RowSector, sector)[0] in own; }
      }
      assert forall j :: j in own + InnerJoin(tail, companies) <==> j in own || j in InnerJoin(tail, companies);
    }
  }

  /** The baseline reports exactly the sectors some kept statement meets ... */
  lemma {:induction false} BaselineSectors(
      companyTable: seq<Company>, statementTable: Frame, base: BaselineRun, sector: string)
    requires statementTable.Valid() && base.Of(companyTable, statementTable)
    ensures sector in base.sectors <==> exists s :: s in base.statements && Meets(s, base.companies, sector)
  {
    MeetsMeansRows(base.statements, base.companies, sector);
  }

  /** ... once each and in ascending order. */
  lemma {:induction false} BaselineOrder(companyTable: seq<Company>, statementTable: Frame, base: BaselineRun)
    requires statementTable.Valid() && base.Of(companyTable, statementTable)
    ensures |base.Report()| == |base.sectors|
    ensures forall i | 0 <= i < |base.sectors| :: base.Report()[i].sector == base.sectors[i]
    ensures forall i, j | 0 <= i < j < |base.sectors| :: Before(base.sectors[i], base.sectors[j])
  {
  }

  /** The rewrite reports exactly the sectors some kept statement meets ... */
  lemma {:induction false} OptimizedSectors(
      companyTable: seq<Company>, statementTable: Frame, salt: string -> Cell<int>, opt: OptimizedRun, sector: string)
    requires opt.Of(companyTable, statementTable, salt)
    ensures sector in opt.sectors <==> exists s :: s in opt.statements && Meets(s, opt.companies, sector)
  {
    MeetsMeansRows(opt.statements, opt.companies, sector);
    StagesKeepSectors(opt, salt, sector);
  }

  /** ... once each and in ascending order. */
  lemma {:induction false} OptimizedOrder(
      companyTable: seq<Company>, statementTable: Frame, salt: string -> Cell<int>, opt: OptimizedRun)
    requires opt.Of(companyTable, statementTable, salt)
    ensures |opt.Report(salt)| == |opt.sectors|
    ensures forall i | 0 <= i < |opt.sectors| :: opt.Report(salt)[i].sector == opt.sectors[i]
    ensures forall i, j | 0 <= i < j < |opt.sectors| :: Before(opt.sectors[i], opt.sectors[j])
  {
  }

  // ------------------------------------------------------------------ the kept rows

  lemma {:induction false} KeptPosition<R(!new), K(!new)>(rows: seq<R>, key: R -> K, kept: seq<R>, q: R)
    returns (i: nat)
    requires UniqueKeys(kept, key) && SameKeys(rows, key, kept) && q in rows
    ensures i < |kept| && key(kept[i]) == key(q)
    ensures forall j | 0 <= j < |kept| && key(kept[j]) == key(q) :: j == i
  {
    assert Present(rows, key, key(q)) && Present(kept, key, key(q));
    var r :| r in kept && key(r) == key(q);
    i :| 0 <= i < |kept| && kept[i] == r;
  }

  lemma {:induction false} OnlyPosition(kept: seq<Statement>, q: Statement, i: nat)
    requires forall j | 0 <= j < |kept| && StatementKey(kept[j]) == StatementKey(q) :: j == i
    ensures forall j | 0 <= j < |kept| && kept[j].ticker == q.ticker && kept[j].reportPeriod == q.reportPeriod :: j == i
  {
    forall j | 0 <= j < |kept| && kept[j].ticker == q.ticker && kept[j].reportPeriod == q.reportPeriod ensures j == i {
      assert StatementKey(kept[j]) == StatementKey(q);
    }
  }

  lemma {:induction false} RowOneIsNewest<R(!new), K(!new)>(rows: seq<R>, key: R -> K, ts: R -> Cell<int>, r: R, q: R)
    requires IsRowNumberOne(rows, key, ts, r) && q in rows && key(q) == key(r) && ts(q).Val?
    ensures ts(r).Val? && ts(q).v <= ts(r).v
  {
    assert !Newer(ts(q), ts(r));
  }

  lemma {:induction false} MaxByIsNewest<R(!new), K>(
      rows: seq<R>, key: R -> K, ts: R -> Cell<int>, blank: K -> R, r: R, q: R)
    requires IsMaxBy(rows, key, ts, blank, r) && q in rows && key(q) == key(r)
    ensures ts(q).Val? ==> r in rows && ts(r).Val? && ts(q).v <= ts(r).v
    ensures ts(r).Null? ==> r == blank(key(r))
  {
  }

  /** Of the rows of a ticker and period the baseline keeps exactly one, and no other has a later timestamp; a
      row without one is kept only where none of them has one. */
  lemma {:induction false} BaselineStatement(
      companyTable: seq<Company>, statementTable: Frame, base: BaselineRun, q: Statement)
    returns (i: nat)
    requires statementTable.Valid() && base.Of(companyTable, statementTable)
    requires q in ReadStatements(Records(BaselineAlignment(statementTable)))
    ensures i < |base.statements|
    ensures var s := base.statements[i];
      && s in ReadStatements(Records(BaselineAlignment(statementTable)))
      && s.ticker == q.ticker && s.reportPeriod == q.reportPeriod
      && (q.createdTs.Val? ==> s.createdTs.Val? && q.createdTs.v <= s.createdTs.v)
    ensures forall j | 0 <= j < |base.statements| && base.statements[j].ticker == q.ticker
                       && base.statements[j].reportPeriod == q.reportPeriod :: j == i
  {
    var aligned := ReadStatements(Records(BaselineAlignment(statementTable)));
    i := KeptPosition(aligned, StatementKey, base.statements, q);
    var s := base.statements[i];
    assert s in base.statements && IsRowNumberOne(aligned, StatementKey, StatementTs, s);
    if q.createdTs.Val? { RowOneIsNewest(aligned, StatementKey, StatementTs, s, q); }
    OnlyPosition(base.statements, q, i);
  }

  lemma {:induction false} BaselineCompany(
      companyTable: seq<Company>, statementTable: Frame, base: BaselineRun, q: Company)
    returns (i: nat)
    requires statementTable.Valid() && base.Of(companyTable, statementTable) && q in companyTable
    ensures i < |base.companies|
    ensures var c := base.companies[i];
      && c in companyTable && c.ticker == q.ticker
      && (q.createdTs.Val? ==> c.createdTs.Val? && q.createdTs.v <= c.createdTs.v)
    ensures forall j | 0 <= j < |base.companies| && base.companies[j].ticker == q.ticker :: j == i
  {
    i := KeptPosition(companyTable, CompanyKey, base.companies, q);
    var c := base.companies[i];
    assert c in base.companies && IsRowNumberOne(companyTable, CompanyKey, CompanyTs, c);
    if q.createdTs.Val? { RowOneIsNewest(companyTable, CompanyKey, CompanyTs, c, q); }
    forall j | 0 <= j < |base.companies| && base.companies[j].ticker == q.ticker ensures j == i {
      assert CompanyKey(base.companies[j]) == CompanyKey(q);
    }
  }

  /** The rewrite keeps exactly one as well: among the rows with a timestamp none is later, and where no row has
      one, what is kept has the ticker and the period and is null in all else. */
  lemma {:induction false} OptimizedStatement(
      companyTable: seq<Company>, statementTable: Frame, salt: string -> Cell<int>, opt: OptimizedRun, q: Statement)
    returns (i: nat)
    requires opt.Of(companyTable, statementTable, salt)
    requires q in ReadStatements(Records(OptimizedAlignment(statementTable)))
    ensures i < |opt.statements|
    ensures var s := opt.statements[i];
      && s.ticker == q.ticker && s.reportPeriod == q.reportPeriod
      && (q.createdTs.Val? ==>
            s in ReadStatements(Records(OptimizedAlignment(statementTable)))
            && s.createdTs.Val? && q.createdTs.v <= s.createdTs.v)
      && (s.createdTs.Null? ==> s == Statement(q.ticker, q.reportPeriod, Null, Null, Null))
    ensures forall j | 0 <= j < |opt.statements| && opt.statements[j].ticker == q.ticker
                       && opt.statements[j].reportPeriod == q.reportPeriod :: j == i
  {
    var aligned := ReadStatements(Records(OptimizedAlignment(statementTable)));
    i := KeptPosition(aligned, StatementKey, opt.statements, q);
    var s := opt.statements[i];
    assert s in opt.statements && IsMaxBy(aligned, StatementKey, StatementTs, BlankStatement, s);
    MaxByIsNewest(aligned, StatementKey, StatementTs, BlankStatement, s, q);
    OnlyPosition(opt.statements, q, i);
  }

  lemma {:induction false} OptimizedCompany(
      companyTable: seq<Company>, statementTable: Frame, salt: string -> Cell<int>, opt: OptimizedRun, q: Company)
    returns (i: nat)
    requires opt.Of(companyTable, statementTable, salt) && q in companyTable
    ensures i < |opt.companies|
    ensures var c := opt.companies[i];
      && c.ticker == q.ticker
      && (q.createdTs.Val? ==> c in companyTable && c.createdTs.Val? && q.createdTs.v <= c.createdTs.v)
      && (c.createdTs.Null? ==> c == Company(q.ticker, Null, Null))
    ensures forall j | 0 <= j < |opt.companies| && opt.companies[j].ticker == q.ticker :: j == i
  {
    i := KeptPosition(companyTable, CompanyKey, opt.companies, q);
    var c := opt.companies[i];
    assert c in opt.companies && IsMaxBy(companyTable, CompanyKey, CompanyTs, BlankCompany, c);
    MaxByIsNewest(companyTable, CompanyKey, CompanyTs, BlankCompany, c, q);
    forall j | 0 <= j < |opt.companies| && opt.companies[j].ticker == q.ticker ensures j == i {
      assert CompanyKey(opt.companies[j]) == CompanyKey(q);
    }
  }

  // ------------------------------------------------------------------ reading the table

  function TextOf(c: Cell<string>): Cell<Value> { if c == Null then Null else Val(Text(c.v)) }
  function NumberOf(c: Cell<int>): Cell<Value> { if c == Null then Null else Val(Number(c.v)) }

  /** A statement as a record of the table, under the table's column names. */
  function RecordFor(s: Statement, others: Record): Record {
    others + map["ticker" := TextOf(s.ticker), "report_period" := TextOf(s.reportPeriod),
                 "created_ts" := NumberOf(s.createdTs), "source_record_id" := TextOf(s.sourceRecordId),
                 "total_assets" := NumberOf(s.totalAssets)]
  }

  /** Every column is read from where it was written, whatever the other columns hold. */
  lemma {:induction false} ReadsWhatIsWritten(s: Statement, others: Record)
    ensures ReadStatement(RecordFor(s, others)) == s
  {}
}
