/** A table with a chain of immutable snapshots, compare-and-swap commits and additive schema evolution. */
module LakehouseTable {
  import opened Relational
  import opened TextOrder

  type Row = map<string, Cell<string>>
  type Hash = (seq<Row>, seq<string>, nat) -> string

  datatype Snapshot = Snapshot(id: string, sequence: nat, rows: seq<Row>, schema: seq<string>, parent: Cell<string>)

  /** The state of a table; `schema` lists the columns in the order they were added. */
  datatype Table = Table(schema: seq<string>, snapshots: seq<Snapshot>)

  datatype Error = StaleSnapshot | FieldOutsideSchema | InvalidFieldName | FieldExists | UnknownSnapshot | NoKeyColumns
  datatype Result<+T> = Ok(value: T) | Err(error: Error)

  // ------------------------------------------------------------------ reading

  function CurrentId(t: Table): Cell<string> {
    if t.snapshots == [] then Null else Val(t.snapshots[|t.snapshots| - 1].id)
  }

  function Contents(t: Table): seq<Row> {
    if t.snapshots == [] then [] else t.snapshots[|t.snapshots| - 1].rows
  }

  /** The oldest snapshot carrying the id, or the length when there is none. */
  function Find(snapshots: seq<Snapshot>, id: string): (k: nat)
    ensures k <= |snapshots| && (k < |snapshots| ==> snapshots[k].id == id)
    ensures forall j | 0 <= j < k :: snapshots[j].id != id
  {
    if snapshots == [] || snapshots[0].id == id then 0 else 1 + Find(snapshots[1..], id)
  }

  /** A table without snapshots answers every read with no rows, whatever the id. */
  function Read(t: Table, id: Cell<string>): Result<seq<Row>> {
    if t.snapshots == [] then Ok([])
    else if id.Null? then Ok(Contents(t))
    else if Find(t.snapshots, id.v) < |t.snapshots| then Ok(t.snapshots[Find(t.snapshots, id.v)].rows)
    else Err(UnknownSnapshot)
  }

  // ------------------------------------------------------------------ writing

  predicate Fits(schema: seq<string>, row: Row) { forall c | c in row :: c in schema }

  predicate AllFit(schema: seq<string>, rows: seq<Row>) { forall i | 0 <= i < |rows| :: Fits(schema, rows[i]) }

  /** Missing columns become null. */
  function Widen(schema: seq<string>, row: Row): Row {
    map c | c in schema :: if c in row then row[c] else Null
  }

  function WidenAll(schema: seq<string>, rows: seq<Row>): (wide: seq<Row>)
    ensures |wide| == |rows| && forall i | 0 <= i < |rows| :: wide[i] == Widen(schema, rows[i])
  {
    seq(|rows|, i requires 0 <= i < |rows| => Widen(schema, rows[i]))
  }

  function Commit(hash: Hash, t: Table, rows: seq<Row>, expected: Cell<string>): (Table, Result<Snapshot>) {
    if expected.Val? && expected != CurrentId(t) then (t, Err(StaleSnapshot))
    else if !AllFit(t.schema, rows) then (t, Err(FieldOutsideSchema))
    else
      var wide := WidenAll(t.schema, rows);
      var n := |t.snapshots| + 1;
      var s := Snapshot(hash(wide, t.schema, n), n, wide, t.schema, CurrentId(t));
      (t.(snapshots := t.snapshots + [s]), Ok(s))
  }

  function Append(hash: Hash, t: Table, rows: seq<Row>, expected: Cell<string>): (Table, Result<Snapshot>) {
    Commit(hash, t, Contents(t) + rows, expected)
  }

  function Replace(hash: Hash, t: Table, rows: seq<Row>, expected: Cell<string>): (Table, Result<Snapshot>) {
    Commit(hash, t, rows, expected)
  }

  predicate NameStart(c: char) { 'A' <= c <= 'Z' || 'a' <= c <= 'z' || c == '_' }

  predicate ValidName(s: string) {
    s != [] && NameStart(s[0]) && forall i | 0 <= i < |s| :: NameStart(s[i]) || '0' <= s[i] <= '9'
  }

  function Evolve(t: Table, raw: string): (Table, Result<()>) {
    var name := Strip(raw);
    if !ValidName(name) then (t, Err(InvalidFieldName))
    else if name in t.schema then (t, Err(FieldExists))
    else (t.(schema := t.schema + [name]), Ok(()))
  }

  /** Names in the order they first appear. */
  function Unrepeated(names: seq<string>): (r: seq<string>)
    ensures NoRepeat(r) && forall c :: c in r <==> c in names
  {
    if names == [] then []
    else
      var before, last := Unrepeated(names[..|names| - 1]), names[|names| - 1];
      assert names == names[..|names| - 1] + [last];
      if last in before then before else before + [last]
  }

  /** The table object; every method is one critical section of its lock. */
  class LocalIcebergTable {
    const hash: Hash
    var schema: seq<string>
    var snapshots: seq<Snapshot>

    function View(): Table reads this { Table(schema, snapshots) }

    constructor (hash: Hash, schema: seq<string>)
      requires schema != [] && NoRepeat(schema)
      ensures this.hash == hash && View() == Table(schema, []) && WellFormed(hash, View())
    {
      this.hash, this.schema, this.snapshots := hash, schema, [];
    }

    /** What callers construct: repeated names count once, and no names at all are refused. */
    static method Create(hash: Hash, names: seq<string>) returns (table: LocalIcebergTable?)
      ensures table == null <==> names == []
      ensures table != null ==> fresh(table) && table.hash == hash && table.View() == Table(Unrepeated(names), [])
      ensures table != null ==> WellFormed(hash, table.View())
    {
      if names == [] { return null; }
      assert names[0] in Unrepeated(names);
      table := new LocalIcebergTable(hash, Unrepeated(names));
    }

    method CommitRows(rows: seq<Row>, expected: Cell<string>) returns (result: Result<Snapshot>)
      modifies this`snapshots
      ensures (View(), result) == Commit(hash, old(View()), rows, expected)
      ensures old(WellFormed(hash, View())) ==> WellFormed(hash, View())
    {
      ghost var before := View();
      var parent := if snapshots == [] then Null else Val(snapshots[|snapshots| - 1].id);
      if expected.Val? && expected != parent { return Err(StaleSnapshot); }
      var normalized: seq<Row> := [];
      for i := 0 to |rows|
        invariant AllFit(schema, rows[..i]) && normalized == WidenAll(schema, rows[..i])
        invariant View() == before
      {
        if !Fits(schema, rows[i]) { return Err(FieldOutsideSchema); }
        assert rows[..i + 1] == rows[..i] + [rows[i]];
        normalized := normalized + [Widen(schema, rows[i])];
      }
      assert rows[..|rows|] == rows;
      var n := |snapshots| + 1;
      var s := Snapshot(hash(normalized, schema, n), n, normalized, schema, parent);
      snapshots := snapshots + [s];
      if WellFormed(hash, before) { CommitWellFormed(hash, before, rows, expected); }
      return Ok(s);
    }

    method AppendRows(rows: seq<Row>, expected: Cell<string>) returns (result: Result<Snapshot>)
      modifies this`snapshots
      ensures (View(), result) == Append(hash, old(View()), rows, expected)
      ensures old(WellFormed(hash, View())) ==> WellFormed(hash, View())
    {
      var previous := if snapshots == [] then [] else snapshots[|snapshots| - 1].rows;
      result := CommitRows(previous + rows, expected);
    }

    method ReplaceRows(rows: seq<Row>, expected: Cell<string>) returns (result: Result<Snapshot>)
      modifies this`snapshots
      ensures (View(), result) == Replace(hash, old(View()), rows, expected)
      ensures old(WellFormed(hash, View())) ==> WellFormed(hash, View())
    {
      result := CommitRows(rows, expected);
    }

    method EvolveSchema(raw: string) returns (result: Result<()>)
      modifies this`schema
      ensures (View(), result) == Evolve(old(View()), raw)
      ensures old(WellFormed(hash, View())) ==> WellFormed(hash, View())
    {
      ghost var before := View();
      var name := Strip(raw);
      if !ValidName(name) { return Err(InvalidFieldName); }
      if name in schema { return Err(FieldExists); }
      schema := schema + [name];
      if WellFormed(hash, before) { EvolveWellFormed(hash, before, raw); }
      return Ok(());
    }

    method ReadRows(id: Cell<string>) returns (result: Result<seq<Row>>)
      ensures result == Read(View(), id)
    {
      if snapshots == [] { return Ok([]); }
      if id.Null? { return Ok(snapshots[|snapshots| - 1].rows); }
      for k := 0 to |snapshots|
        invariant forall j | 0 <= j < k :: snapshots[j].id != id.v
      {
        if snapshots[k].id == id.v {
          FindIs(snapshots, id.v, k);
          return Ok(snapshots[k].rows);
        }
      }
      assert Find(snapshots, id.v) == |snapshots|;
      return Err(UnknownSnapshot);
    }
  }

  lemma {:induction false} FindIs(snapshots: seq<Snapshot>, id: string, k: nat)
    requires k < |snapshots| && snapshots[k].id == id && forall j | 0 <= j < k :: snapshots[j].id != id
    ensures Find(snapshots, id) == k
  {}

  // ------------------------------------------------------------------ the shape of every reachable table

  /** One linear chain: numbered from one, each naming its predecessor, each row with exactly its
      snapshot's columns, each schema a prefix of every later one. */
  ghost predicate WellFormed(hash: Hash, t: Table) {
    && t.schema != [] && NoRepeat(t.schema)
    && (forall i | 0 <= i < |t.snapshots| :: Linked(hash, t.snapshots, i))
    && (forall i | 0 <= i < |t.snapshots| :: t.snapshots[i].schema <= t.schema)
    && (forall i, j | 0 <= i <= j < |t.snapshots| :: t.snapshots[i].schema <= t.snapshots[j].schema)
  }

  ghost predicate Linked(hash: Hash, snapshots: seq<Snapshot>, i: nat)
    requires i < |snapshots|
  {
    var s := snapshots[i];
    && s.sequence == i + 1
    && s.parent == (if i == 0 then Null else Val(snapshots[i - 1].id))
    && s.id == hash(s.rows, s.schema, i + 1)
    && (forall r | r in s.rows :: forall c :: c in r <==> c in s.schema)
  }

  lemma {:induction false} CommitWellFormed(hash: Hash, t: Table, rows: seq<Row>, expected: Cell<string>)
    requires WellFormed(hash, t)
    ensures WellFormed(hash, Commit(hash, t, rows, expected).0)
  {
    var (u, result) := Commit(hash, t, rows, expected);
    if result.Ok? {
      forall i | 0 <= i < |u.snapshots| ensures Linked(hash, u.snapshots, i) {
        if i < |t.snapshots| { assert Linked(hash, t.snapshots, i); }
      }
    }
  }

  lemma {:induction false} EvolveWellFormed(hash: Hash, t: Table, raw: string)
    requires WellFormed(hash, t)
    ensures WellFormed(hash, Evolve(t, raw).0)
  {
    var u := Evolve(t, raw).0;
    forall i | 0 <= i < |u.snapshots| ensures Linked(hash, u.snapshots, i) { assert Linked(hash, t.snapshots, i); }
  }

  // ------------------------------------------------------------------ what a read returns

  ghost predicate OldestWith(snapshots: seq<Snapshot>, id: string, k: int) {
    0 <= k < |snapshots| && snapshots[k].id == id && forall j | 0 <= j < k :: snapshots[j].id != id
  }

  lemma {:induction false} FoundIsOldest(snapshots: seq<Snapshot>, id: string)
    ensures Find(snapshots, id) < |snapshots| <==> exists s :: s in snapshots && s.id == id
    ensures Find(snapshots, id) < |snapshots| ==> OldestWith(snapshots, id, Find(snapshots, id))
  {
    if s :| s in snapshots && s.id == id {
      var k :| 0 <= k < |snapshots| && snapshots[k] == s;
    }
  }

  /** Nothing from an empty table, the newest rows without an id, and with an id those of the oldest snapshot
      that carries it. */
  lemma {:induction false} ReadMeaning(t: Table, id: Cell<string>)
    ensures if |t.snapshots| == 0 then Read(t, id) == Ok([])
            else if id == Null then Read(t, id) == Ok(t.snapshots[|t.snapshots| - 1].rows)
            else if exists s :: s in t.snapshots && s.id == id.v then
              exists k :: OldestWith(t.snapshots, id.v, k) && Read(t, id) == Ok(t.snapshots[k].rows)
            else Read(t, id) == Err(UnknownSnapshot)
  {
    if id.Val? { FoundIsOldest(t.snapshots, id.v); }
  }

  /** Position `i` is the first at which the name stands. */
  ghost predicate FirstAt(names: seq<string>, c: string, i: int) {
    0 <= i < |names| && names[i] == c && forall j | 0 <= j < i :: names[j] != c
  }

  /** A new table's columns stand in the order of their first mention. */
  lemma {:induction false} UnrepeatedInOrder(names: seq<string>)
    ensures forall k, l, i, j | 0 <= k < l < |Unrepeated(names)| && FirstAt(names, Unrepeated(names)[k], i)
                                && FirstAt(names, Unrepeated(names)[l], j) :: i < j
  {
    if names != [] {
      var rest, last := names[..|names| - 1], names[|names| - 1];
      UnrepeatedInOrder(rest);
      var all, before := Unrepeated(names), Unrepeated(rest);
      forall k, l, i, j | 0 <= k < l < |all| && FirstAt(names, all[k], i) && FirstAt(names, all[l], j)
        ensures i < j
      {
        assert all[k] == before[k] && before[k] in rest;
        StillFirst(rest, last, all[k], i);
        if l < |before| {
          assert before[l] in rest;
          StillFirst(rest, last, all[l], j);
        } else {
          FirstIsLast(rest, last, j);
        }
      }
    }
  }

  lemma {:induction false} FirstIsLast(rest: seq<string>, last: string, i: int)
    requires FirstAt(rest + [last], last, i) && last !in rest
    ensures i == |rest|
  {
    forall n | 0 <= n < |rest| ensures (rest + [last])[n] != last { assert (rest + [last])[n] == rest[n]; }
  }

  lemma {:induction false} StillFirst(rest: seq<string>, last: string, c: string, i: int)
    requires FirstAt(rest + [last], c, i) && c in rest
    ensures FirstAt(rest, c, i)
  {
    var n :| 0 <= n < |rest| && rest[n] == c;
    assert (rest + [last])[n] == c;
    forall j | 0 <= j < i ensures rest[j] != c { assert (rest + [last])[j] == rest[j]; }
  }

  // ------------------------------------------------------------------ what a write stores

  /** The snapshot a write of `rows` adds to `t`, cell by cell. */
  ghost predicate Stores(hash: Hash, t: Table, rows: seq<Row>, s: Snapshot) {
    && s.schema == t.schema && s.sequence == |t.snapshots| + 1
    && s.parent == (if |t.snapshots| == 0 then Null else Val(t.snapshots[|t.snapshots| - 1].id))
    && s.id == hash(s.rows, t.schema, |t.snapshots| + 1)
    && |s.rows| == |rows|
    && (forall i, c | 0 <= i < |rows| :: c in s.rows[i] <==> c in t.schema)
    && (forall i, c | 0 <= i < |rows| && c in t.schema :: s.rows[i][c] == if c in rows[i] then rows[i][c] else Null)
  }

  /** Each outcome of a write of `rows` and what it leaves. */
  ghost predicate Writes(
      hash: Hash, t: Table, rows: seq<Row>, expected: Cell<string>, u: Table, result: Result<Snapshot>) {
    var stale := expected.Val? && (t.snapshots == [] || expected.v != t.snapshots[|t.snapshots| - 1].id);
    var foreign := exists i, c :: 0 <= i < |rows| && c in rows[i] && c !in t.schema;
    if stale then u == t && result == Err(StaleSnapshot)
    else if foreign then u == t && result == Err(FieldOutsideSchema)
    else result.Ok? && u == Table(t.schema, t.snapshots + [result.value]) && Stores(hash, t, rows, result.value)
  }

  lemma {:induction false} CommitMeaning(hash: Hash, t: Table, rows: seq<Row>, expected: Cell<string>)
    ensures var (u, result) := Commit(hash, t, rows, expected); Writes(hash, t, rows, expected, u, result)
  {
    if i, c :| 0 <= i < |rows| && c in rows[i] && c !in t.schema {
      assert !Fits(t.schema, rows[i]);
    }
  }

  /** An append stores the rows of the newest snapshot and then the new ones, a replacement the new ones alone:
      every value a row has is stored under its column, every other column of the schema is null. */
  lemma {:induction false} WriteMeaning(hash: Hash, t: Table, rows: seq<Row>, expected: Cell<string>)
    ensures var (u, result) := Append(hash, t, rows, expected);
      var kept := if |t.snapshots| == 0 then [] else t.snapshots[|t.snapshots| - 1].rows;
      Writes(hash, t, kept + rows, expected, u, result)
    ensures var (u, result) := Replace(hash, t, rows, expected); Writes(hash, t, rows, expected, u, result)
  {
    CommitMeaning(hash, t, Contents(t) + rows, expected);
    CommitMeaning(hash, t, rows, expected);
  }

  /** A letter or an underscore, then letters, digits and underscores, by their code points. */
  predicate IsIdentifier(name: string) {
    && |name| > 0 && !(48 <= name[0] as int <= 57)
    && forall i | 0 <= i < |name| ::
         var n := name[i] as int; 48 <= n <= 57 || 65 <= n <= 90 || n == 95 || 97 <= n <= 122
  }

  /** What evolving does with a name: the spaces around it do not count. */
  lemma {:induction false} EvolveMeaning(t: Table, raw: string) returns (front: string, name: string, back: string)
    ensures raw == front + name + back && AllSpaces(front) && AllSpaces(back) && Trimmed(name)
    ensures Evolve(t, raw) == if !IsIdentifier(name) then (t, Err(InvalidFieldName))
                              else if name in t.schema then (t, Err(FieldExists))
                              else (Table(t.schema + [name], t.snapshots), Ok(()))
  {
    front, back := StripIsInside(raw);
    name := Strip(raw);
    StripTrims(raw);
  }

  // ------------------------------------------------------------------ runs

  datatype Op = AppendOp(rows: seq<Row>, expected: Cell<string>)
              | ReplaceOp(rows: seq<Row>, expected: Cell<string>)
              | EvolveOp(name: string)

  function Apply(hash: Hash, t: Table, op: Op): Table {
    match op
    case AppendOp(rows, expected) => Append(hash, t, rows, expected).0
    case ReplaceOp(rows, expected) => Replace(hash, t, rows, expected).0
    case EvolveOp(name) => Evolve(t, name).0
  }

  function ApplyAll(hash: Hash, t: Table, ops: seq<Op>): Table
    decreases |ops|
  {
    if ops == [] then t else ApplyAll(hash, Apply(hash, t, ops[0]), ops[1..])
  }

  /** Operations only add: snapshots and schema of the earlier table are prefixes of the later one's. */
  lemma {:induction false} RunsOnlyAdd(hash: Hash, t: Table, ops: seq<Op>)
    requires WellFormed(hash, t)
    ensures WellFormed(hash, ApplyAll(hash, t, ops))
    ensures t.snapshots <= ApplyAll(hash, t, ops).snapshots && t.schema <= ApplyAll(hash, t, ops).schema
    decreases |ops|
  {
    if ops != [] {
      var u := Apply(hash, t, ops[0]);
      match ops[0] {
        case AppendOp(rows, expected) => CommitWellFormed(hash, t, Contents(t) + rows, expected);
        case ReplaceOp(rows, expected) => CommitWellFormed(hash, t, rows, expected);
        case EvolveOp(name) => EvolveWellFormed(hash, t, name);
      }
      RunsOnlyAdd(hash, u, ops[1..]);
    }
  }

  lemma {:induction false} FindInPrefix(a: seq<Snapshot>, b: seq<Snapshot>, id: string)
    requires a <= b && Find(a, id) < |a|
    ensures Find(b, id) == Find(a, id)
  {
    FindIs(b, id, Find(a, id));
  }

  /** Time travel is stable: once the table has a snapshot, an id that can be read returns the same rows after
      any further operations, successful or not. */
  lemma {:induction false} ReadsAreStable(hash: Hash, t: Table, ops: seq<Op>, id: string)
    requires WellFormed(hash, t) && t.snapshots != [] && Read(t, Val(id)).Ok?
    ensures Read(ApplyAll(hash, t, ops), Val(id)) == Read(t, Val(id))
  {
    RunsOnlyAdd(hash, t, ops);
    FindInPrefix(t.snapshots, ApplyAll(hash, t, ops).snapshots, id);
  }

  /** Having a snapshot is exactly what it takes: a table without any answers every id with no rows, and
      the first commit, here of one empty row, changes the answer. */
  lemma {:induction false} ReadsAreStableIff(hash: Hash, t: Table, id: string)
    requires WellFormed(hash, t) && Read(t, Val(id)).Ok?
    ensures t.snapshots != [] <==> forall ops :: Read(ApplyAll(hash, t, ops), Val(id)) == Read(t, Val(id))
  {
    if t.snapshots != [] {
      forall ops ensures Read(ApplyAll(hash, t, ops), Val(id)) == Read(t, Val(id)) {
        ReadsAreStable(hash, t, ops, id);
      }
    } else {
      var rows: seq<Row> := [map[]];
      var op := AppendOp(rows, Null);
      var u := Apply(hash, t, op);
      assert [] + rows == rows;
      assert |u.snapshots| == 1 && |u.snapshots[0].rows| == 1;
      assert [op][1..] == [];
      assert ApplyAll(hash, t, [op]) == u;
      assert Read(ApplyAll(hash, t, [op]), Val(id)) != Read(t, Val(id));
    }
  }

  /** The id is computed from the sequence number among other things, so no two snapshots share one. */
  ghost predicate SeparatesSequences(hash: Hash) {
    forall r, s, n: nat, r', s', n': nat | hash(r, s, n) == hash(r', s', n') :: n == n'
  }

  lemma {:induction false} IdsAreDistinct(hash: Hash, t: Table, i: nat, j: nat)
    requires SeparatesSequences(hash) && WellFormed(hash, t) && i < |t.snapshots| && j < |t.snapshots|
             && t.snapshots[i].id == t.snapshots[j].id
    ensures i == j
  {
    assert Linked(hash, t.snapshots, i) && Linked(hash, t.snapshots, j);
  }

  /** Reading by a snapshot's id gives that snapshot's rows, at any later time. */
  lemma {:induction false} ReadsFindTheirSnapshot(hash: Hash, t: Table, ops: seq<Op>, i: nat)
    requires SeparatesSequences(hash) && WellFormed(hash, t) && i < |t.snapshots|
    ensures Read(ApplyAll(hash, t, ops), Val(t.snapshots[i].id)) == Ok(t.snapshots[i].rows)
  {
    forall j | 0 <= j < i ensures t.snapshots[j].id != t.snapshots[i].id {
      if t.snapshots[j].id == t.snapshots[i].id { IdsAreDistinct(hash, t, i, j); }
    }
    FindIs(t.snapshots, t.snapshots[i].id, i);
    ReadsAreStable(hash, t, ops, t.snapshots[i].id);
  }

  /** An append on the current head succeeds exactly when its own rows fit the schema: rows stored
      before an evolution never stand in the way, and they come out widened by nulls. */
  lemma {:induction false} AppendSucceedsIff(hash: Hash, t: Table, rows: seq<Row>, expected: Cell<string>)
    requires WellFormed(hash, t) && (expected.Null? || expected == CurrentId(t))
    ensures Append(hash, t, rows, expected).1.Ok? <==> AllFit(t.schema, rows)
    ensures AllFit(t.schema, rows) ==>
              Contents(Append(hash, t, rows, expected).0) == WidenAll(t.schema, Contents(t)) + WidenAll(t.schema, rows)
    ensures !AllFit(t.schema, rows) ==> Append(hash, t, rows, expected).0 == t
  {
    var old_ := Contents(t);
    assert AllFit(t.schema, old_) by {
      if t.snapshots != [] {
        var n := |t.snapshots| - 1;
        assert Linked(hash, t.snapshots, n) && t.snapshots[n].schema <= t.schema;
        forall i, c | 0 <= i < |old_| && c in old_[i] ensures c in t.schema {
          assert old_[i] in old_ && c in t.snapshots[n].schema;
        }
      }
    }
    assert AllFit(t.schema, old_ + rows) <==> AllFit(t.schema, rows) by {
      if AllFit(t.schema, old_ + rows) {
        forall i | 0 <= i < |rows| ensures Fits(t.schema, rows[i]) { assert (old_ + rows)[|old_| + i] == rows[i]; }
      }
    }
    assert WidenAll(t.schema, old_ + rows) == WidenAll(t.schema, old_) + WidenAll(t.schema, rows);
  }

  /** A rejected write of any kind changes nothing. */
  lemma {:induction false} RejectedChangesNothing(hash: Hash, t: Table, rows: seq<Row>, expected: Cell<string>,
      name: string)
    ensures Append(hash, t, rows, expected).1.Err? <==> Append(hash, t, rows, expected).0 == t
    ensures Replace(hash, t, rows, expected).1.Err? <==> Replace(hash, t, rows, expected).0 == t
    ensures Evolve(t, name).1.Err? <==> Evolve(t, name).0 == t
  {
    assert forall s: Snapshot :: |t.snapshots + [s]| != |t.snapshots|;
    assert |t.schema + [Strip(name)]| != |t.schema|;
  }
}
