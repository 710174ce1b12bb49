/** Two input tables on which the baseline and the optimized benchmark plan report different id counts:
    one source record id that two quarters of a company share. */
module SparkRepeatedIds {
  import opened Relational
  import opened SchemaAlignment
  import opened SparkPlans

  const COLUMNS := ["ticker", "report_period", "created_ts", "source_record_id", "total_assets", VERSION]

  function RowOf(period: string, ts: int, assets: int): seq<Cell<Value>> {
    [Val(Text("A")), Val(Text(period)), Val(Number(ts)), Val(Text("x")), Val(Number(assets)), Val(Number(2))]
  }

  function StatementOf(period: string, ts: int, assets: int): Statement {
    Statement(Val("A"), Val(period), Val(ts), Val("x"), Val(assets))
  }

  const STATEMENTS := Frame(COLUMNS, [RowOf("2025Q1", 1, 5), RowOf("2025Q2", 2, 7)])
  const COMPANIES := [Company(Val("A"), Val(1), Val("Retail"))]

  // ------------------------------------------------------------------ general steps

  /** The only row of a stamped key is kept. */
  lemma {:induction false} OnlyRowKept<R(!new), K(!new)>(
      rows: seq<R>, key: R -> K, ts: R -> Cell<int>, blank: K -> R, kept: seq<R>, r: R)
    requires MaxByLatest(rows, key, ts, blank, kept)
    requires r in rows && ts(r).Val? && forall q | q in rows && key(q) == key(r) :: q == r
    ensures r in kept
  {
    assert Present(rows, key, key(r)) && Present(kept, key, key(r));
    var q :| q in kept && key(q) == key(r);
    assert IsMaxBy(rows, key, ts, blank, q);
  }

  lemma {:induction false} TailIds(rows: seq<Joined>)
    requires rows != [] && NoRepeat(Ids(rows))
    ensures NoRepeat(Ids(rows[1..]))
    ensures rows[0].sourceRecordId.Val? ==> rows[0].sourceRecordId.v !in Ids(rows[1..])
  {
    var rest := Ids(rows[1..]);
    if rows[0].sourceRecordId.Val? {
      var ids := Ids(rows);
      assert ids == [rows[0].sourceRecordId.v] + rest;
      forall i | 0 <= i < |rest| ensures rest[i] != ids[0] { assert ids[0] != ids[i + 1]; }
      forall i, j | 0 <= i < j < |rest| ensures rest[i] != rest[j] { assert ids[i + 1] != ids[j + 1]; }
    }
  }

  /** Where no id repeats, rows with the same id are the same row. */
  lemma {:induction false} IdsSeparate(rows: seq<Joined>, a: Joined, b: Joined)
    requires NoRepeat(Ids(rows)) && a in rows && b in rows
    requires a.sourceRecordId.Val? && a.sourceRecordId == b.sourceRecordId
    ensures a == b
  {
    var tail := rows[1..];
    assert rows == [rows[0]] + tail;
    TailIds(rows);
    IdsMembers(tail, a.sourceRecordId.v);
    if a in tail && b in tail { IdsSeparate(tail, a, b); }
  }

  lemma {:induction false} JoinedIn(statements: seq<Statement>, companies: seq<Company>, s: Statement, j: Joined)
    requires s in statements && j in JoinOne(s, companies)
    ensures j in InnerJoin(statements, companies)
  {
    assert statements == [statements[0]] + statements[1..];
    if s != statements[0] { JoinedIn(statements[1..], companies, s, j); }
  }

  // ------------------------------------------------------------------ reading the two tables

  lemma {:induction false} StatementsValid()
    ensures STATEMENTS.Valid()
  {
    assert forall i, j | 0 <= i < j < |COLUMNS| :: COLUMNS[i] != COLUMNS[j];
  }

  lemma {:induction false} CellAt(row: seq<Cell<Value>>, i: nat)
    requires |row| == |COLUMNS| && i < |COLUMNS|
    ensures CellOf(COLUMNS, row, COLUMNS[i]) == row[i] && COLUMNS[i] in COLUMNS
  {
    StatementsValid();
    PositionIn(COLUMNS, i);
  }

  lemma {:induction false} Filtered()
    ensures FilterVersion(STATEMENTS, 1).rows == [] && FilterVersion(STATEMENTS, 2).rows == STATEMENTS.rows
  {
    var a, b := RowOf("2025Q1", 1, 5), RowOf("2025Q2", 2, 7);
    CellAt(a, 5);
    CellAt(b, 5);
    assert [a, b][1..] == [b] && [b][1..] == [];
    assert KeepRows(COLUMNS, [b], 1) == [] && KeepRows(COLUMNS, [b], 2) == [b];
  }

  lemma {:induction false} TwoRecords()
    ensures STATEMENTS.Valid() && |Records(BaselineAlignment(STATEMENTS))| == 2
  {
    StatementsValid();
    Filtered();
    assert |BaselineAlignment(STATEMENTS).rows| == 2;
  }

  lemma {:induction false} RecordAt(i: nat)
    requires i < 2 && STATEMENTS.Valid()
    ensures i < |Records(BaselineAlignment(STATEMENTS))|
    ensures Records(BaselineAlignment(STATEMENTS))[i] == map c | c in COLUMNS :: CellOf(COLUMNS, STATEMENTS.rows[i], c)
  {
    TwoRecords();
    Filtered();
    PositionStack(FilterVersion(STATEMENTS, 1), FilterVersion(STATEMENTS, 2), EVOLVED_FIELDS, i);
  }

  lemma {:induction false} ReadAt(record: Record, period: string, ts: int, assets: int)
    requires record == map c | c in COLUMNS :: CellOf(COLUMNS, RowOf(period, ts, assets), c)
    ensures ReadStatement(record) == StatementOf(period, ts, assets)
  {
    var row := RowOf(period, ts, assets);
    CellAt(row, 0);
    CellAt(row, 1);
    CellAt(row, 2);
    CellAt(row, 3);
    CellAt(row, 4);
  }

  lemma {:induction false} StatementAt(i: nat, period: string, ts: int, assets: int)
    requires i < 2 && STATEMENTS.rows[i] == RowOf(period, ts, assets) && STATEMENTS.Valid()
    ensures i < |Records(BaselineAlignment(STATEMENTS))|
    ensures ReadStatement(Records(BaselineAlignment(STATEMENTS))[i]) == StatementOf(period, ts, assets)
  {
    RecordAt(i);
    ReadAt(Records(BaselineAlignment(STATEMENTS))[i], period, ts, assets);
  }

  lemma {:induction false} StatementsRead()
    ensures STATEMENTS.Valid()
    ensures ReadStatements(Records(BaselineAlignment(STATEMENTS)))
         == [StatementOf("2025Q1", 1, 5), StatementOf("2025Q2", 2, 7)]
  {
    TwoRecords();
    StatementAt(0, "2025Q1", 1, 5);
    StatementAt(1, "2025Q2", 2, 7);
    ReadBoth(Records(BaselineAlignment(STATEMENTS)), StatementOf("2025Q1", 1, 5), StatementOf("2025Q2", 2, 7));
  }

  lemma {:induction false} ReadBoth(records: seq<Record>, a: Statement, b: Statement)
    requires |records| == 2 && ReadStatement(records[0]) == a && ReadStatement(records[1]) == b
    ensures ReadStatements(records) == [a, b]
  {
  }

  // ------------------------------------------------------------------ the reports differ

  lemma {:induction false} JoinedRow(statements: seq<Statement>, companies: seq<Company>, s: Statement)
    requires UniqueKeys(companies, CompanyKey) && COMPANIES[0] in companies && s in statements && s.ticker == Val("A")
    ensures Joined("Retail", "A", s.sourceRecordId, s.totalAssets) in InnerJoin(statements, companies)
  {
    JoinOneIsLookup(s, companies);
    JoinedIn(statements, companies, s, Joined("Retail", "A", s.sourceRecordId, s.totalAssets));
  }

  lemma {:induction false} BothSettleAndStay(read: seq<Statement>, kept: seq<Statement>)
    requires read == [StatementOf("2025Q1", 1, 5), StatementOf("2025Q2", 2, 7)]
    requires MaxByLatest(read, StatementKey, StatementTs, BlankStatement, kept)
    ensures AllSettled(read, StatementKey, StatementTs, BlankStatement)
    ensures StatementOf("2025Q1", 1, 5) in kept && StatementOf("2025Q2", 2, 7) in kept
  {
    DistinctTimestampsSettle(read, StatementKey, StatementTs, BlankStatement);
    assert read[0] in read && read[1] in read;
    OnlyRowKept(read, StatementKey, StatementTs, BlankStatement, kept, read[0]);
    OnlyRowKept(read, StatementKey, StatementTs, BlankStatement, kept, read[1]);
  }

  lemma {:induction false} CompanySettlesAndStays(kept: seq<Company>)
    requires MaxByLatest(COMPANIES, CompanyKey, CompanyTs, BlankCompany, kept)
    ensures AllSettled(COMPANIES, CompanyKey, CompanyTs, BlankCompany)
    ensures COMPANIES[0] in kept && UniqueKeys(kept, CompanyKey)
  {
    DistinctTimestampsSettle(COMPANIES, CompanyKey, CompanyTs, BlankCompany);
    assert COMPANIES[0] in COMPANIES;
    OnlyRowKept(COMPANIES, CompanyKey, CompanyTs, BlankCompany, kept, COMPANIES[0]);
  }

  /** On these tables every run of the baseline reports another source id count than every run of the
      optimized plan. */
  lemma {:induction false} RepeatedIdDiffers(salt: string -> Cell<int>, base: BaselineRun, opt: OptimizedRun)
    requires STATEMENTS.Valid() && base.Of(COMPANIES, STATEMENTS) && opt.Of(COMPANIES, STATEMENTS, salt)
    ensures base.Report() != opt.Report(salt)
  {
    StatementsRead();
    AlignmentsAgree(STATEMENTS);
    ReportsDiffer(salt, STATEMENTS, base, opt);
  }

  lemma {:induction false} ReportsCanDiffer(salt: string -> Cell<int>) returns (base: BaselineRun, opt: OptimizedRun)
    ensures STATEMENTS.Valid() && base.Of(COMPANIES, STATEMENTS) && opt.Of(COMPANIES, STATEMENTS, salt)
    ensures base.Report() != opt.Report(salt)
  {
    StatementsValid();
    base, opt := RunsExist(COMPANIES, STATEMENTS, salt);
    RepeatedIdDiffers(salt, base, opt);
  }

  lemma {:induction false} ReportsDiffer(salt: string -> Cell<int>, statements: Frame, base: BaselineRun,
      opt: OptimizedRun)
    requires statements.Valid() && base.Of(COMPANIES, statements) && opt.Of(COMPANIES, statements, salt)
    requires Records(BaselineAlignment(statements)) == Records(OptimizedAlignment(statements))
    requires ReadStatements(Records(BaselineAlignment(statements)))
          == [StatementOf("2025Q1", 1, 5), StatementOf("2025Q2", 2, 7)]
    ensures base.Report() != opt.Report(salt)
  {
    BothSettleAndStay(ReadStatements(Records(BaselineAlignment(statements))), opt.statements);
    CompanySettlesAndStays(opt.companies);
    RewritePreservesReport(COMPANIES, statements, salt, base, opt);
    JoinedRow(opt.statements, opt.companies, StatementOf("2025Q1", 1, 5));
    JoinedRow(opt.statements, opt.companies, StatementOf("2025Q2", 2, 7));
    RepeatsInRetail(opt.Rows());
  }

  lemma {:induction false} RepeatsInRetail(rows: seq<Joined>)
    requires Joined("Retail", "A", Val("x"), Val(5)) in rows && Joined("Retail", "A", Val("x"), Val(7)) in rows
    ensures !SourceIdsDistinct(rows)
  {
    var mine := Having(rows, RowSector, "Retail");
    if NoRepeat(Ids(mine)) {
      IdsSeparate(mine, Joined("Retail", "A", Val("x"), Val(5)), Joined("Retail", "A", Val("x"), Val(7)));
    }
  }
}
