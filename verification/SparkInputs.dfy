/** When the two benchmark plans agree, said of their input tables alone. */
module SparkInputs {
  import opened Relational
  import opened SchemaAlignment
  import opened SparkPlans

  // ------------------------------------------------------------------ the condition

  /** A newest statement row and a newest company row that meet in a sector. */
  ghost predicate Meets(
      companyTable: seq<Company>, statements: seq<Statement>, s: Statement, c: Company, sector: string)
  {
    && IsRowNumberOne(statements, StatementKey, StatementTs, s)
    && IsRowNumberOne(companyTable, CompanyKey, CompanyTs, c)
    && s.ticker.Val? && c.ticker == s.ticker && SectorOrUnknown(c.sector) == sector
  }

  /** No two different newest statement rows share a non-null id while their tickers' newest company rows
      show the same sector. */
  ghost predicate IdsDistinctPerSector(companyTable: seq<Company>, statements: seq<Statement>) {
    forall s, t, c, d, sector |
      Meets(companyTable, statements, s, c, sector) && Meets(companyTable, statements, t, d, sector)
      && s.sourceRecordId.Val? && s.sourceRecordId == t.sourceRecordId :: s == t
  }

  // ------------------------------------------------------------------ ids of a join

  /** The statement puts its id into the sector. */
  ghost predicate Contributes(s: Statement, companies: seq<Company>, sector: string, id: string) {
    s.sourceRecordId == Val(id) && s.ticker.Val?
    && exists c :: c in companies && c.ticker == s.ticker && SectorOrUnknown(c.sector) == sector
  }

  function IdsIn(statements: seq<Statement>, companies: seq<Company>, sector: string): seq<string> {
    Ids(Having(InnerJoin(statements, companies), RowSector, sector))
  }

  lemma {:induction false} OwnRow(s: Statement, companies: seq<Company>, sector: string, mine: seq<Joined>)
    requires UniqueKeys(companies, CompanyKey) && mine == Having(JoinOne(s, companies), RowSector, sector)
    ensures |mine| <= 1
    ensures forall id :: Ids(mine) == [id] <==> Contributes(s, companies, sector, id)
    ensures |Ids(mine)| <= 1
  {
    JoinOneIsLookup(s, companies);
    var row := JoinOne(s, companies);
    if row != [] {
      assert row == [row[0]] && row[0] in row;
      assert mine == if row[0].sector == sector then row else [];
    }
    assert Ids([]) == [];
    if mine != [] {
      assert mine[0] in mine && mine[1..] == [];
      assert Ids(mine) == if mine[0].sourceRecordId.Val? then [mine[0].sourceRecordId.v] else [];
    }
    forall id ensures Ids(mine) == [id] <==> Contributes(s, companies, sector, id) {
      if Contributes(s, companies, sector, id) {
        var c :| c in companies && c.ticker == s.ticker && SectorOrUnknown(c.sector) == sector;
        assert Joined(sector, s.ticker.v, s.sourceRecordId, s.totalAssets) in row;
      }
    }
  }

  lemma {:induction false} IdsJoin(a: seq<Joined>, b: seq<Joined>)
    ensures Ids(a + b) == Ids(a) + Ids(b)
  {
    if a == [] {
      assert a + b == b;
    } else {
      IdsJoin(a[1..], b);
      assert (a + b)[0] == a[0] && (a + b)[1..] == a[1..] + b;
    }
  }

  /** The first statement's own id, if it has one in the sector, and then the rest. */
  lemma {:induction false} IdsStep(statements: seq<Statement>, companies: seq<Company>, sector: string)
    returns (own: seq<string>)
    requires statements != [] && UniqueKeys(companies, CompanyKey)
    ensures IdsIn(statements, companies, sector) == own + IdsIn(statements[1..], companies, sector)
    ensures |own| <= 1 && forall id :: own == [id] <==> Contributes(statements[0], companies, sector, id)
  {
    var head, tail := JoinOne(statements[0], companies), InnerJoin(statements[1..], companies);
    HavingConcat(head, tail, RowSector, sector);
    IdsJoin(Having(head, RowSector, sector), Having(tail, RowSector, sector));
    own := Ids(Having(head, RowSector, sector));
    OwnRow(statements[0], companies, sector, Having(head, RowSector, sector));
  }

  lemma {:induction false} IdComesFrom(statements: seq<Statement>, companies: seq<Company>, sector: string, id: string)
    requires UniqueKeys(companies, CompanyKey)
    ensures id in IdsIn(statements, companies, sector)
       <==> exists i :: 0 <= i < |statements| && Contributes(statements[i], companies, sector, id)
  {
    if statements != [] {
      var own := IdsStep(statements, companies, sector);
      var tail := statements[1..];
      IdComesFrom(tail, companies, sector, id);
      assert id in own <==> own == [id];
      if i :| 0 <= i < |statements| && Contributes(statements[i], companies, sector, id) {
        if i > 0 { assert tail[i - 1] == statements[i]; }
      }
      if i :| 0 <= i < |tail| && Contributes(tail[i], companies, sector, id) {
        assert statements[i + 1] == tail[i];
      }
    }
  }

  lemma {:induction false} HeadRepeats<T>(own: seq<T>, rest: seq<T>)
    requires |own| <= 1
    ensures NoRepeat(own + rest) <==> NoRepeat(rest) && (own == [] || own[0] !in rest)
  {
    var all := own + rest;
    if NoRepeat(all) {
      forall i, j | 0 <= i < j < |rest| ensures rest[i] != rest[j] { assert all[i + |own|] != all[j + |own|]; }
      if own != [] {
        forall i | 0 <= i < |rest| ensures rest[i] != own[0] { assert all[0] != all[i + 1]; }
      }
    }
  }

  /** No two positions put the same id into the sector. */
  ghost predicate OneEach(statements: seq<Statement>, companies: seq<Company>, sector: string) {
    forall i, j, id | 0 <= i < j < |statements| ::
      !(Contributes(statements[i], companies, sector, id) && Contributes(statements[j], companies, sector, id))
  }

  lemma {:induction false} OneEachStep(statements: seq<Statement>, companies: seq<Company>, sector: string)
    requires statements != []
    ensures OneEach(statements, companies, sector)
       <==> OneEach(statements[1..], companies, sector)
            && forall j, id | 0 <= j < |statements[1..]| ::
                 !(Contributes(statements[0], companies, sector, id)
                   && Contributes(statements[1..][j], companies, sector, id))
  {
    var tail := statements[1..];
    if OneEach(statements, companies, sector) {
      forall i, j, id | 0 <= i < j < |tail|
        ensures !(Contributes(tail[i], companies, sector, id) && Contributes(tail[j], companies, sector, id))
      {
        assert tail[i] == statements[i + 1] && tail[j] == statements[j + 1];
      }
      forall j, id | 0 <= j < |tail|
        ensures !(Contributes(statements[0], companies, sector, id) && Contributes(tail[j], companies, sector, id))
      {
        assert tail[j] == statements[j + 1];
      }
    } else {
      var i, j, id :| 0 <= i < j < |statements|
        && Contributes(statements[i], companies, sector, id) && Contributes(statements[j], companies, sector, id);
      assert statements[j] == tail[j - 1];
      if i > 0 { assert statements[i] == tail[i - 1]; }
    }
  }

  lemma {:induction false} NoRepeatIff(statements: seq<Statement>, companies: seq<Company>, sector: string)
    requires UniqueKeys(companies, CompanyKey)
    ensures NoRepeat(IdsIn(statements, companies, sector)) <==> OneEach(statements, companies, sector)
  {
    if statements != [] {
      var tail := statements[1..];
      var own := IdsStep(statements, companies, sector);
      NoRepeatIff(tail, companies, sector);
      HeadRepeats(own, IdsIn(tail, companies, sector));
      OneEachStep(statements, companies, sector);
      if own != [] {
        assert own == [own[0]];
        IdComesFrom(tail, companies, sector, own[0]);
      }
    }
  }

  // ------------------------------------------------------------------ what settled tables keep

  /** On settled input the stamped rows the aggregation keeps are exactly the newest rows. */
  lemma {:induction false} KeptIsNewest<R(!new), K(!new)>(
      rows: seq<R>, key: R -> K, ts: R -> Cell<int>, blank: K -> R, kept: seq<R>, r: R)
    requires forall k :: key(blank(k)) == k
    requires AllSettled(rows, key, ts, blank) && MaxByLatest(rows, key, ts, blank, kept)
    ensures r in kept <==> IsRowNumberOne(rows, key, ts, r)
  {
    if r in kept || IsRowNumberOne(rows, key, ts, r) {
      assert Present(rows, key, key(r)) by {
        if r in kept { assert Present(kept, key, key(r)); }
      }
      assert Present(kept, key, key(r));
      var q :| q in kept && key(q) == key(r);
      var a := NewestExists(rows, key, ts, key(r));
      SettledIff(rows, key, ts, blank, key(r));
      assert Settled(rows, key, ts, blank, key(r));
      assert IsMaxBy(rows, key, ts, blank, q) && a == q;
      if r in kept { assert IsMaxBy(rows, key, ts, blank, r); }
    }
  }

  lemma {:induction false} MeetsIffContributes(
      companyTable: seq<Company>, statements: seq<Statement>, companies: seq<Company>, kept: seq<Statement>,
      s: Statement, sector: string, id: string)
    requires AllSettled(companyTable, CompanyKey, CompanyTs, BlankCompany)
    requires AllSettled(statements, StatementKey, StatementTs, BlankStatement)
    requires MaxByLatest(companyTable, CompanyKey, CompanyTs, BlankCompany, companies)
    requires MaxByLatest(statements, StatementKey, StatementTs, BlankStatement, kept)
    ensures s in kept && Contributes(s, companies, sector, id)
       <==> s.sourceRecordId == Val(id) && exists c :: Meets(companyTable, statements, s, c, sector)
  {
    KeptIsNewest(statements, StatementKey, StatementTs, BlankStatement, kept, s);
    forall c ensures c in companies <==> IsRowNumberOne(companyTable, CompanyKey, CompanyTs, c) {
      KeptIsNewest(companyTable, CompanyKey, CompanyTs, BlankCompany, companies, c);
    }
    if s in kept && Contributes(s, companies, sector, id) {
      var c :| c in companies && c.ticker == s.ticker && SectorOrUnknown(c.sector) == sector;
      assert Meets(companyTable, statements, s, c, sector);
    }
  }

  lemma {:induction false} OneEachIff(
      companyTable: seq<Company>, statements: seq<Statement>, companies: seq<Company>, kept: seq<Statement>)
    requires AllSettled(companyTable, CompanyKey, CompanyTs, BlankCompany)
    requires AllSettled(statements, StatementKey, StatementTs, BlankStatement)
    requires MaxByLatest(companyTable, CompanyKey, CompanyTs, BlankCompany, companies)
    requires MaxByLatest(statements, StatementKey, StatementTs, BlankStatement, kept)
    ensures (forall sector :: OneEach(kept, companies, sector)) <==> IdsDistinctPerSector(companyTable, statements)
  {
    if forall sector :: OneEach(kept, companies, sector) {
      forall s, t, c, d, sector |
        Meets(companyTable, statements, s, c, sector) && Meets(companyTable, statements, t, d, sector)
        && s.sourceRecordId.Val? && s.sourceRecordId == t.sourceRecordId
        ensures s == t
      {
        var id := s.sourceRecordId.v;
        MeetsIffContributes(companyTable, statements, companies, kept, s, sector, id);
        MeetsIffContributes(companyTable, statements, companies, kept, t, sector, id);
        var i :| 0 <= i < |kept| && kept[i] == s;
        var j :| 0 <= j < |kept| && kept[j] == t;
        assert OneEach(kept, companies, sector);
      }
    }
    if IdsDistinctPerSector(companyTable, statements) {
      forall sector, i, j, id | 0 <= i < j < |kept|
        ensures !(Contributes(kept[i], companies, sector, id) && Contributes(kept[j], companies, sector, id))
      {
        MeetsIffContributes(companyTable, statements, companies, kept, kept[i], sector, id);
        MeetsIffContributes(companyTable, statements, companies, kept, kept[j], sector, id);
        assert StatementKey(kept[i]) != StatementKey(kept[j]);
      }
    }
  }

  // ------------------------------------------------------------------ main results

  /** On settled tables the plans report the same, for every run of each and every salt, exactly when no
      two newest statements of one sector share an id. */
  lemma {:induction false} RewriteEqualIff(
      companyTable: seq<Company>, statementTable: Frame,
      salt: string -> Cell<int>, base: BaselineRun, opt: OptimizedRun)
    requires statementTable.Valid() && base.Of(companyTable, statementTable)
             && opt.Of(companyTable, statementTable, salt)
    requires AllSettled(companyTable, CompanyKey, CompanyTs, BlankCompany)
    requires AllSettled(ReadStatements(Records(BaselineAlignment(statementTable))), StatementKey, StatementTs,
                        BlankStatement)
    ensures base.Report() == opt.Report(salt)
       <==> IdsDistinctPerSector(companyTable, ReadStatements(Records(BaselineAlignment(statementTable))))
  {
    RewritePreservesReport(companyTable, statementTable, salt, base, opt);
    AlignmentsAgree(statementTable);
    var read := ReadStatements(Records(BaselineAlignment(statementTable)));
    SourceIdsDistinctIff(companyTable, read, opt);
  }

  lemma {:induction false} SourceIdsDistinctIff(companyTable: seq<Company>, statements: seq<Statement>,
        opt: OptimizedRun)
    requires AllSettled(companyTable, CompanyKey, CompanyTs, BlankCompany)
    requires AllSettled(statements, StatementKey, StatementTs, BlankStatement)
    requires MaxByLatest(companyTable, CompanyKey, CompanyTs, BlankCompany, opt.companies)
    requires MaxByLatest(statements, StatementKey, StatementTs, BlankStatement, opt.statements)
    ensures SourceIdsDistinct(opt.Rows()) <==> IdsDistinctPerSector(companyTable, statements)
  {
    OneEachIff(companyTable, statements, opt.companies, opt.statements);
    forall sector
      ensures NoRepeat(Ids(Having(opt.Rows(), RowSector, sector))) <==> OneEach(opt.statements, opt.companies, sector)
    {
      NoRepeatIff(opt.statements, opt.companies, sector);
    }
  }

  /** The equality the benchmark demands, from conditions on its inputs: timestamps present and never
      repeated within a company or a (company, period), and no id shared by two newest statements. */
  lemma {:induction false} RewriteEqual(
      companyTable: seq<Company>, statementTable: Frame,
      salt: string -> Cell<int>, base: BaselineRun, opt: OptimizedRun)
    requires statementTable.Valid() && base.Of(companyTable, statementTable)
             && opt.Of(companyTable, statementTable, salt)
    requires forall c | c in companyTable :: c.createdTs.Val?
    requires forall i, j | 0 <= i < j < |companyTable| && companyTable[i].ticker == companyTable[j].ticker ::
               companyTable[i].createdTs != companyTable[j].createdTs
    requires var rows := ReadStatements(Records(BaselineAlignment(statementTable)));
             && (forall s | s in rows :: s.createdTs.Val?)
             && (forall i, j | 0 <= i < j < |rows| && StatementKey(rows[i]) == StatementKey(rows[j]) ::
                   rows[i].createdTs != rows[j].createdTs)
             && (forall s, t | IsRowNumberOne(rows, StatementKey, StatementTs, s)
                               && IsRowNumberOne(rows, StatementKey, StatementTs, t)
                               && s.sourceRecordId.Val? && s.sourceRecordId == t.sourceRecordId :: s == t)
    ensures base.Report() == opt.Report(salt)
  {
    DistinctTimestampsSettle(companyTable, CompanyKey, CompanyTs, BlankCompany);
    DistinctTimestampsSettle(ReadStatements(Records(BaselineAlignment(statementTable))), StatementKey, StatementTs,
                             BlankStatement);
    RewriteEqualIff(companyTable, statementTable, salt, base, opt);
  }
}
