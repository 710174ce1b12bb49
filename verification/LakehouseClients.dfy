/** Many clients of one table, each reading the head token, reading that snapshot, computing new contents
    and committing them against the token, while others commit and the schema evolves. */
module LakehouseClients {
  import opened Relational
  import opened LakehouseTable

  type Change = seq<Row> -> seq<Row>

  datatype Client = Idle | HasToken(token: string) | HasRows(token: string, rows: seq<Row>)

  /** A successful commit: what it did to the contents, under which schema they were stored. */
  datatype Entry = Entry(change: Change, schema: seq<string>)

  datatype State = State(table: Table, clients: map<nat, Client>, log: seq<Entry>)

  ghost predicate TokenStep(s: State, t: State, i: nat) {
    && i in s.clients && s.clients[i].Idle? && CurrentId(s.table).Val?
    && t == s.(clients := s.clients[i := HasToken(CurrentId(s.table).v)])
  }

  ghost predicate RowsStep(s: State, t: State, i: nat) {
    && i in s.clients && s.clients[i].HasToken?
    && var rows := Read(s.table, Val(s.clients[i].token));
       rows.Ok? && t == s.(clients := s.clients[i := HasRows(s.clients[i].token, rows.value)])
  }

  /** Commit new contents computed from the rows read. */
  ghost predicate ReplaceStep(hash: Hash, s: State, t: State, i: nat, change: Change) {
    && i in s.clients && s.clients[i].HasRows?
    && var (table, result) := Replace(hash, s.table, change(s.clients[i].rows), Val(s.clients[i].token));
       t == State(table, s.clients[i := Idle], if result.Ok? then s.log + [Entry(change, s.table.schema)] else s.log)
  }

  /** Append rows on top of the head the client has seen. */
  ghost predicate AppendStep(hash: Hash, s: State, t: State, i: nat, extra: seq<Row>) {
    && i in s.clients && !s.clients[i].Idle?
    && var (table, result) := Append(hash, s.table, extra, Val(s.clients[i].token));
       t == State(table, s.clients[i := Idle], if result.Ok? then s.log + [Entry(rows => rows + extra, s.table.schema)]
                                                                  else s.log)
  }

  ghost predicate EvolveStep(s: State, t: State, name: string) {
    t == s.(table := Evolve(s.table, name).0)
  }

  ghost predicate Step(hash: Hash, s: State, t: State) {
    || (exists i :: TokenStep(s, t, i))
    || (exists i :: RowsStep(s, t, i))
    || (exists i, change :: ReplaceStep(hash, s, t, i, change))
    || (exists i, extra :: AppendStep(hash, s, t, i, extra))
    || (exists name :: EvolveStep(s, t, name))
  }

  ghost predicate Run(hash: Hash, run: seq<State>) {
    && run != [] && WellFormed(hash, run[0].table) && run[0].log == []
    && (forall i | i in run[0].clients :: run[0].clients[i].Idle?)
    && forall k | 0 <= k < |run| - 1 :: Step(hash, run[k], run[k + 1])
  }

  /** The logged changes applied one after another, each result stored under its commit's schema. */
  ghost function Serial(log: seq<Entry>, rows: seq<Row>): seq<Row> {
    if log == [] then rows
    else
      var last := log[|log| - 1];
      WidenAll(last.schema, last.change(Serial(log[..|log| - 1], rows)))
  }

  // ------------------------------------------------------------------ invariant

  /** The rows a client holds are those of the snapshot its token names. */
  ghost predicate HoldsSnapshot(t: Table, c: Client) {
    && (!c.Idle? ==> t.snapshots != [])
    && (c.HasRows? ==> exists k ::
                0 <= k < |t.snapshots| && t.snapshots[k].id == c.token && t.snapshots[k].rows == c.rows)
  }

  ghost predicate Inv(hash: Hash, s: State, start: seq<Row>) {
    && WellFormed(hash, s.table) && (forall i | i in s.clients :: HoldsSnapshot(s.table, s.clients[i]))
    && Contents(s.table) == Serial(s.log, start)
  }

  lemma {:induction false} SerialGrows(log: seq<Entry>, e: Entry, rows: seq<Row>)
    ensures Serial(log + [e], rows) == WidenAll(e.schema, e.change(Serial(log, rows)))
  {
    assert (log + [e])[..|log|] == log;
  }

  lemma {:induction false} HoldsAfterCommit(t: Table, u: Table, c: Client)
    requires HoldsSnapshot(t, c) && t.snapshots <= u.snapshots
    ensures HoldsSnapshot(u, c)
  {
    if c.HasRows? {
      var k :| 0 <= k < |t.snapshots| && t.snapshots[k].id == c.token && t.snapshots[k].rows == c.rows;
      assert u.snapshots[k] == t.snapshots[k];
    }
  }

  /** A commit that passes the token check was computed from the current contents. */
  lemma {:induction false} TokenMeansCurrent(hash: Hash, t: Table, c: Client)
    requires SeparatesSequences(hash) && WellFormed(hash, t) && HoldsSnapshot(t, c) && c.HasRows?
             && CurrentId(t) == Val(c.token)
    ensures c.rows == Contents(t)
  {
    var k :| 0 <= k < |t.snapshots| && t.snapshots[k].id == c.token && t.snapshots[k].rows == c.rows;
    IdsAreDistinct(hash, t, k, |t.snapshots| - 1);
  }

  lemma {:induction false} ReplaceKeeps(hash: Hash, s: State, t: State, start: seq<Row>, i: nat, change: Change)
    requires SeparatesSequences(hash) && Inv(hash, s, start) && ReplaceStep(hash, s, t, i, change)
    ensures Inv(hash, t, start)
  {
    var c := s.clients[i];
    var rows := change(c.rows);
    CommitWellFormed(hash, s.table, rows, Val(c.token));
    forall j | j in t.clients ensures HoldsSnapshot(t.table, t.clients[j]) {
      if j != i { HoldsAfterCommit(s.table, t.table, s.clients[j]); }
    }
    if Replace(hash, s.table, rows, Val(c.token)).1.Ok? {
      TokenMeansCurrent(hash, s.table, c);
      SerialGrows(s.log, Entry(change, s.table.schema), start);
    }
  }

  lemma {:induction false} AppendKeeps(hash: Hash, s: State, t: State, start: seq<Row>, i: nat, extra: seq<Row>)
    requires Inv(hash, s, start) && AppendStep(hash, s, t, i, extra)
    ensures Inv(hash, t, start)
  {
    var token := s.clients[i].token;
    CommitWellFormed(hash, s.table, Contents(s.table) + extra, Val(token));
    forall j | j in t.clients ensures HoldsSnapshot(t.table, t.clients[j]) {
      if j != i { HoldsAfterCommit(s.table, t.table, s.clients[j]); }
    }
    if Append(hash, s.table, extra, Val(token)).1.Ok? {
      SerialGrows(s.log, t.log[|s.log|], start);
    }
  }

  lemma {:induction false} QuietStepKeeps(hash: Hash, s: State, t: State, start: seq<Row>, i: nat, name: string)
    requires SeparatesSequences(hash) && Inv(hash, s, start)
             && (TokenStep(s, t, i) || RowsStep(s, t, i) || EvolveStep(s, t, name))
    ensures Inv(hash, t, start)
  {
    if EvolveStep(s, t, name) {
      EvolveWellFormed(hash, s.table, name);
      forall j | j in t.clients
        ensures HoldsSnapshot(t.table, t.clients[j])
      {
        HoldsAfterCommit(s.table, t.table, s.clients[j]);
      }
    } else {
      forall j | j in t.clients ensures HoldsSnapshot(t.table, t.clients[j]) {
        if j != i { HoldsAfterCommit(s.table, t.table, s.clients[j]); }
        else if RowsStep(s, t, i) {
          var token := s.clients[i].token;
          var k := Find(s.table.snapshots, token);
        }
      }
    }
  }

  lemma {:induction false} StepKeeps(hash: Hash, s: State, t: State, start: seq<Row>)
    requires SeparatesSequences(hash) && Inv(hash, s, start) && Step(hash, s, t)
    ensures Inv(hash, t, start)
  {
    if i, change :| ReplaceStep(hash, s, t, i, change) {
      ReplaceKeeps(hash, s, t, start, i, change);
    } else if i, extra :| AppendStep(hash, s, t, i, extra) {
      AppendKeeps(hash, s, t, start, i, extra);
    } else if i :| TokenStep(s, t, i) {
      QuietStepKeeps(hash, s, t, start, i, "");
    } else if i :| RowsStep(s, t, i) {
      QuietStepKeeps(hash, s, t, start, i, "");
    } else {
      var name :| EvolveStep(s, t, name);
      QuietStepKeeps(hash, s, t, start, 0, name);
    }
  }

  // ------------------------------------------------------------------ main results

  /** No lost updates: after any interleaving the contents are the serial composition of exactly the
      changes whose commits succeeded, in commit order. */
  lemma {:induction false} NoLostUpdates(hash: Hash, run: seq<State>, k: nat)
    requires SeparatesSequences(hash) && Run(hash, run) && k < |run|
    ensures Inv(hash, run[k], Contents(run[0].table))
    ensures Contents(run[k].table) == Serial(run[k].log, Contents(run[0].table))
  {
    if k > 0 {
      NoLostUpdates(hash, run, k - 1);
      assert Step(hash, run[k - 1], run[k - 1 + 1]);
      StepKeeps(hash, run[k - 1], run[k], Contents(run[0].table));
    }
  }

  /** The log has one entry per snapshot added, so a commit is logged exactly when it took effect. */
  lemma {:induction false} LogCountsSnapshots(hash: Hash, run: seq<State>, k: nat)
    requires Run(hash, run) && k < |run|
    ensures |run[k].table.snapshots| == |run[0].table.snapshots| + |run[k].log|
  {
    if k > 0 {
      LogCountsSnapshots(hash, run, k - 1);
      var s, t := run[k - 1], run[k];
      assert Step(hash, run[k - 1], run[k - 1 + 1]);
      if i, change :| ReplaceStep(hash, s, t, i, change) {
      } else if i, extra :| AppendStep(hash, s, t, i, extra) {
      } else if i :| TokenStep(s, t, i) {
      } else if i :| RowsStep(s, t, i) {
      } else {
        var name :| EvolveStep(s, t, name);
      }
    }
  }

  // ------------------------------------------------------------------ why the token must be there

  /** The token read from `t` guards later writes: whatever happened in between, a write carrying it
      succeeds only on the snapshots it was read from. */
  ghost predicate TokenGuards(hash: Hash, t: Table) {
    forall ops: seq<Op>, rows: seq<Row> | Replace(hash, ApplyAll(hash, t, ops), rows, CurrentId(t)).1.Ok? ::
      ApplyAll(hash, t, ops).snapshots == t.snapshots
  }

  /** The head token guards exactly when it is not `None`: an empty table hands out `None`, which
      switches the check off, and the second of two first writers silently overwrites the first. */
  lemma {:induction false} TokenGuardsIff(hash: Hash, t: Table)
    requires SeparatesSequences(hash) && WellFormed(hash, t)
    ensures TokenGuards(hash, t) <==> t.snapshots != []
  {
    if t.snapshots == [] {
      var ops: seq<Op> := [ReplaceOp([], Null)];
      assert ops[1..] == [];
      var u := ApplyAll(hash, t, ops);
      assert u == Apply(hash, t, ops[0]);
      assert Replace(hash, u, [], CurrentId(t)).1.Ok?;
    } else {
      forall ops: seq<Op>, rows: seq<Row> | Replace(hash, ApplyAll(hash, t, ops), rows, CurrentId(t)).1.Ok?
        ensures ApplyAll(hash, t, ops).snapshots == t.snapshots
      {
        var u := ApplyAll(hash, t, ops);
        RunsOnlyAdd(hash, t, ops);
        IdsAreDistinct(hash, u, |t.snapshots| - 1, |u.snapshots| - 1);
      }
    }
  }
}
