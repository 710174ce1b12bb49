/** Merging the two physical schema versions of the statement table. Frames keep their columns in
    order, so a positional `union` over misaligned columns would be caught. */
module SchemaAlignment {
  import opened Relational

  datatype Value = Text(s: string) | Number(n: int)
  type Record = map<string, Cell<Value>>

  datatype Frame = Frame(columns: seq<string>, rows: seq<seq<Cell<Value>>>) {
    ghost predicate Valid() {
      && NoRepeat(columns)
      && (forall row | row in rows :: |row| == |columns|)
    }
  }

  const EVOLVED_FIELDS: seq<string> := ["operating_cash_flow", "retained_earnings", "statement_type"]
  const VERSION := "schema_version"

  function Position(columns: seq<string>, name: string): (i: nat)
    ensures i <= |columns|
    ensures i < |columns| ==> columns[i] == name
    ensures name in columns <==> i < |columns|
  {
    if columns == [] || columns[0] == name then 0 else 1 + Position(columns[1..], name)
  }

  function CellOf(columns: seq<string>, row: seq<Cell<Value>>, name: string): Cell<Value> {
    var i := Position(columns, name);
    if i < |columns| && i < |row| then row[i] else Null
  }

  /** What a row means: the value it holds under each column name. */
  function RecordOf(columns: seq<string>, row: seq<Cell<Value>>): Record {
    map c | c in columns :: CellOf(columns, row, c)
  }

  function Records(f: Frame): (rs: seq<Record>)
    ensures |rs| == |f.rows| && forall i | 0 <= i < |rs| :: rs[i] == RecordOf(f.columns, f.rows[i])
  {
    seq(|f.rows|, i requires 0 <= i < |f.rows| => RecordOf(f.columns, f.rows[i]))
  }

  // ------------------------------------------------------------------ dataframe operators

  function KeepRows(columns: seq<string>, rows: seq<seq<Cell<Value>>>, version: int): (kept: seq<seq<Cell<Value>>>)
    ensures forall row | row in kept :: row in rows
  {
    if rows == [] then []
    else if Equal(CellOf(columns, rows[0], VERSION), Val(Number(version))) == Yes
    then [rows[0]] + KeepRows(columns, rows[1..], version)
    else KeepRows(columns, rows[1..], version)
  }

  function FilterVersion(f: Frame, version: int): (g: Frame)
    ensures g.columns == f.columns && (f.Valid() ==> g.Valid())
  {
    f.(rows := KeepRows(f.columns, f.rows, version))
  }

  function Select(f: Frame, names: seq<string>): Frame {
    Frame(names, seq(|f.rows|, i requires 0 <= i < |f.rows| =>
                  seq(|names|, j requires 0 <= j < |names| => CellOf(f.columns, f.rows[i], names[j]))))
  }

  function Without(columns: seq<string>, dropped: seq<string>): (left: seq<string>)
    ensures forall c :: c in left <==> c in columns && c !in dropped
  {
    if columns == [] then []
    else if columns[0] in dropped then Without(columns[1..], dropped)
    else [columns[0]] + Without(columns[1..], dropped)
  }

  /** Dropping a column that is not there is a no-op, as in Spark. */
  function Drop(f: Frame, dropped: seq<string>): Frame {
    Select(f, Without(f.columns, dropped))
  }

  /** `withColumn(name, lit(None))` for a name that is not a column of the frame. */
  function WithNull(f: Frame, name: string): Frame
    requires f.Valid() && name !in f.columns
  {
    Frame(f.columns + [name], seq(|f.rows|, i requires 0 <= i < |f.rows| => f.rows[i] + [Null]))
  }

  /** Positional: the right side's column names are ignored. */
  function Union(a: Frame, b: Frame): Frame
    requires |a.columns| == |b.columns|
  {
    Frame(a.columns, a.rows + b.rows)
  }

  function UnionByName(a: Frame, b: Frame): Frame {
    var all := a.columns + Without(b.columns, a.columns);
    Frame(all, Select(a, all).rows + Select(b, all).rows)
  }

  // ------------------------------------------------------------------ the two alignments

  function NullOut(f: Frame, fields: seq<string>): (g: Frame)
    requires f.Valid()
    ensures g.Valid() && |g.rows| == |f.rows|
    decreases |fields|
  {
    if fields == [] then f
    else Renull(NullOut(f, fields[..|fields| - 1]), fields[|fields| - 1])
  }

  function Renull(f: Frame, field: string): (g: Frame)
    requires f.Valid()
    ensures g.Valid() && |g.rows| == |f.rows|
  {
    DropValid(f, [field]);
    WithNull(Drop(f, [field]), field)
  }

  /** Old rows with every field nulled, then new rows, both in the new rows' column order. */
  function StackByPosition(v1: Frame, v2: Frame, fields: seq<string>): Frame
    requires v1.Valid()
  {
    Union(Select(NullOut(v1, fields), v2.columns), Select(v2, v2.columns))
  }

  /** Old rows without the fields, then new rows, missing columns filled with null. */
  function StackByName(v1: Frame, v2: Frame, fields: seq<string>): Frame { UnionByName(Drop(v1, fields), v2) }

  function BaselineAlignment(statements: Frame): Frame
    requires statements.Valid()
  {
    StackByPosition(FilterVersion(statements, 1), FilterVersion(statements, 2), EVOLVED_FIELDS)
  }

  function OptimizedAlignment(statements: Frame): Frame {
    StackByName(FilterVersion(statements, 1), FilterVersion(statements, 2), EVOLVED_FIELDS)
  }

  lemma {:induction false} NullOutStep(f: Frame, fields: seq<string>, k: nat)
    requires f.Valid() && k < |fields|
    ensures NullOut(f, fields[..k + 1]) == Renull(NullOut(f, fields[..k]), fields[k])
  {
    assert fields[..k + 1][..k] == fields[..k];
  }

  /** The loop over the evolved fields. */
  method NullFields(f: Frame, fields: seq<string>) returns (nulled: Frame)
    requires f.Valid()
    ensures nulled == NullOut(f, fields)
  {
    nulled := f;
    for k := 0 to |fields|
      invariant nulled == NullOut(f, fields[..k])
    {
      NullOutStep(f, fields, k);
      DropValid(nulled, [fields[k]]);
      nulled := WithNull(Drop(nulled, [fields[k]]), fields[k]);
    }
    assert fields[..|fields|] == fields;
  }

  /** The manual alignment: the old rows lose and regain each evolved field in turn, then both
      versions are put into the new version's column order and stacked by position. */
  method AlignBaseline(statements: Frame) returns (aligned: Frame)
    requires statements.Valid()
    ensures aligned == BaselineAlignment(statements)
  {
    var nulled := NullFields(FilterVersion(statements, 1), EVOLVED_FIELDS);
    var newer := FilterVersion(statements, 2);
    aligned := Union(Select(nulled, newer.columns), Select(newer, newer.columns));
  }

  // ------------------------------------------------------------------ what the operators do to records

  /** The cells of a row under the given names. */
  function Picked(columns: seq<string>, row: seq<Cell<Value>>, names: seq<string>): Record {
    map c | c in names :: CellOf(columns, row, c)
  }

  lemma {:induction false} PositionIn(columns: seq<string>, i: nat)
    requires i < |columns| && NoRepeat(columns)
    ensures Position(columns, columns[i]) == i
  {
    if i > 0 {
      assert columns[0] != columns[i];
      PositionIn(columns[1..], i - 1);
    }
  }

  lemma {:induction false} SelectRecord(f: Frame, names: seq<string>, i: nat)
    requires i < |f.rows|
    ensures RecordOf(names, Select(f, names).rows[i]) == Picked(f.columns, f.rows[i], names)
  {
    forall c | c in names
      ensures CellOf(names, Select(f, names).rows[i], c) == CellOf(f.columns, f.rows[i], c)
    {
      var j := Position(names, c);
      assert names[j] == c;
    }
  }

  lemma {:induction false} WithoutDistinct(columns: seq<string>, dropped: seq<string>)
    requires NoRepeat(columns)
    ensures NoRepeat(Without(columns, dropped))
  {
    if columns != [] {
      var rest := Without(columns[1..], dropped);
      WithoutDistinct(columns[1..], dropped);
      assert columns[0] !in rest;
      assert NoRepeat([columns[0]] + rest);
    }
  }

  function Names(fields: seq<string>): set<string> {
    set c | c in fields
  }

  lemma {:induction false} DropValid(f: Frame, dropped: seq<string>)
    requires f.Valid()
    ensures Drop(f, dropped).Valid()
  {
    WithoutDistinct(f.columns, dropped);
  }

  lemma {:induction false} DropRecord(f: Frame, dropped: seq<string>, i: nat)
    requires f.Valid() && i < |f.rows|
    ensures RecordOf(Drop(f, dropped).columns, Drop(f, dropped).rows[i])
            == RecordOf(f.columns, f.rows[i]) - Names(dropped)
  {
    SelectRecord(f, Without(f.columns, dropped), i);
  }

  lemma {:induction false} PositionAppended(columns: seq<string>, name: string, c: string)
    requires name !in columns
    ensures Position(columns + [name], c) == if c in columns then Position(columns, c) else if c == name then |columns|
              else |columns| + 1
  {
    if columns != [] {
      assert (columns + [name])[1..] == columns[1..] + [name];
      if columns[0] != c { PositionAppended(columns[1..], name, c); }
    }
  }

  lemma {:induction false} NullRecord(f: Frame, name: string, i: nat)
    requires f.Valid() && name !in f.columns && i < |f.rows|
    ensures RecordOf(WithNull(f, name).columns, WithNull(f, name).rows[i])
            == RecordOf(f.columns, f.rows[i])[name := Null]
  {
    assert f.rows[i] in f.rows;
    forall c | c in f.columns + [name]
      ensures CellOf(f.columns + [name], f.rows[i] + [Null], c) == if c == name then Null
                else CellOf(f.columns, f.rows[i], c)
    {
      AppendedCell(f.columns, f.rows[i], name, c);
    }
  }

  lemma {:induction false} AppendedCell(columns: seq<string>, row: seq<Cell<Value>>, name: string, c: string)
    requires |row| == |columns| && name !in columns && c in columns + [name]
    ensures CellOf(columns + [name], row + [Null], c) == if c == name then Null else CellOf(columns, row, c)
  {
    PositionAppended(columns, name, c);
  }

  lemma {:induction false} DropThenNull(m: Record, field: string)
    ensures (m - Names([field]))[field := Null] == m[field := Null]
  {}

  lemma {:induction false} RenullRecord(f: Frame, field: string, i: nat)
    requires f.Valid() && i < |f.rows|
    ensures RecordOf(Renull(f, field).columns, Renull(f, field).rows[i])
            == RecordOf(f.columns, f.rows[i])[field := Null]
  {
    DropValid(f, [field]);
    DropRecord(f, [field], i);
    NullRecord(Drop(f, [field]), field, i);
    DropThenNull(RecordOf(f.columns, f.rows[i]), field);
  }

  function Nulls(fields: seq<string>): Record {
    map c | c in fields :: Null
  }

  lemma {:induction false} NullsGrow(m: Record, fields: seq<string>)
    requires fields != []
    ensures (m + Nulls(fields[..|fields| - 1]))[fields[|fields| - 1] := Null] == m + Nulls(fields)
  {
    assert fields == fields[..|fields| - 1] + [fields[|fields| - 1]];
  }

  /** After nulling, a row has null in every listed field and is otherwise as before. */
  lemma {:induction false} NullOutRecord(f: Frame, fields: seq<string>, i: nat)
    requires f.Valid() && i < |f.rows|
    ensures RecordOf(NullOut(f, fields).columns, NullOut(f, fields).rows[i])
            == RecordOf(f.columns, f.rows[i]) + Nulls(fields)
    decreases |fields|
  {
    if fields != [] {
      var n := |fields| - 1;
      NullOutRecord(f, fields[..n], i);
      RenullRecord(NullOut(f, fields[..n]), fields[n], i);
      NullsGrow(RecordOf(f.columns, f.rows[i]), fields);
    }
  }

  lemma {:induction false} NulledCell(f: Frame, fields: seq<string>, i: nat, c: string)
    requires f.Valid() && i < |f.rows| && c in f.columns
    ensures var nulled := NullOut(f, fields);
      CellOf(nulled.columns, nulled.rows[i], c) == if c in fields then Null else CellOf(f.columns, f.rows[i], c)
  {
    NullOutRecord(f, fields, i);
    CellOfExtended(NullOut(f, fields).columns, NullOut(f, fields).rows[i], f.columns, f.rows[i], fields, c);
  }

  lemma {:induction false} CellOfExtended(
      columns: seq<string>, row: seq<Cell<Value>>, before: seq<string>, nulled: seq<Cell<Value>>, fields: seq<string>,
      c: string)
    requires RecordOf(columns, row) == RecordOf(before, nulled) + Nulls(fields) && c in before
    ensures CellOf(columns, row, c) == if c in fields then Null else CellOf(before, nulled, c)
  {
    assert c in RecordOf(before, nulled) + Nulls(fields);
    assert c in RecordOf(columns, row);
  }

  lemma {:induction false} StrippedCell(f: Frame, fields: seq<string>, i: nat, c: string)
    requires f.Valid() && i < |f.rows| && c in f.columns
    ensures var stripped := Drop(f, fields);
      CellOf(stripped.columns, stripped.rows[i], c) == if c in fields then Null else CellOf(f.columns, f.rows[i], c)
  {
    DropRecord(f, fields, i);
    CellOfReduced(Drop(f, fields).columns, Drop(f, fields).rows[i], f.columns, f.rows[i], fields, c);
  }

  lemma {:induction false} CellOfReduced(
      columns: seq<string>, row: seq<Cell<Value>>, before: seq<string>, nulled: seq<Cell<Value>>, fields: seq<string>,
      c: string)
    requires RecordOf(columns, row) == RecordOf(before, nulled) - Names(fields) && c in before
    ensures CellOf(columns, row, c) == if c in fields then Null else CellOf(before, nulled, c)
  {
    if c in fields {
      assert c !in RecordOf(columns, row);
    } else {
      assert c in RecordOf(before, nulled) - Names(fields);
      assert c in RecordOf(columns, row);
    }
  }

  // ------------------------------------------------------------------ what the unions do to records

  lemma {:induction false} UnionRecord(a: Frame, b: Frame, names: seq<string>, i: nat)
    requires i < |a.rows| + |b.rows|
    ensures var records := Records(Union(Select(a, names), Select(b, names)));
      && |records| == |a.rows| + |b.rows|
      && records[i] == if i < |a.rows| then Picked(a.columns, a.rows[i], names)
                       else Picked(b.columns, b.rows[i - |a.rows|], names)
  {
    if i < |a.rows| { SelectRecord(a, names, i); } else { SelectRecord(b, names, i - |a.rows|); }
  }

  lemma {:induction false} PickedSame(columns: seq<string>, row: seq<Cell<Value>>, names: seq<string>, all: seq<string>)
    requires forall c :: c in names <==> c in all
    ensures Picked(columns, row, names) == Picked(columns, row, all)
  {
  }

  lemma {:induction false} UnionByNameRecord(a: Frame, b: Frame, names: seq<string>, i: nat)
    requires i < |a.rows| + |b.rows| && names == b.columns && forall c | c in a.columns :: c in names
    ensures var records := Records(UnionByName(a, b));
      && |records| == |a.rows| + |b.rows|
      && records[i] == if i < |a.rows| then Picked(a.columns, a.rows[i], names)
                       else Picked(b.columns, b.rows[i - |a.rows|], names)
  {
    var all := a.columns + Without(b.columns, a.columns);
    assert UnionByName(a, b) == Union(Select(a, all), Select(b, all));
    UnionRecord(a, b, all, i);
    if i < |a.rows| {
      PickedSame(a.columns, a.rows[i], names, all);
    } else {
      PickedSame(b.columns, b.rows[i - |a.rows|], names, all);
    }
  }

  // ------------------------------------------------------------------ the two stackings agree

  /** A row's record with the given fields nulled. */
  function Cleared(columns: seq<string>, row: seq<Cell<Value>>, fields: seq<string>): Record {
    map c | c in columns :: if c in fields then Null else CellOf(columns, row, c)
  }

  lemma {:induction false} NulledRecord(f: Frame, fields: seq<string>, i: nat)
    requires f.Valid() && i < |f.rows|
    ensures Picked(NullOut(f, fields).columns, NullOut(f, fields).rows[i], f.columns)
            == Cleared(f.columns, f.rows[i], fields)
  {
    forall c | c in f.columns
      ensures CellOf(NullOut(f, fields).columns, NullOut(f, fields).rows[i], c)
              == Cleared(f.columns, f.rows[i], fields)[c]
    {
      NulledCell(f, fields, i, c);
    }
  }

  lemma {:induction false} StrippedRecord(f: Frame, fields: seq<string>, i: nat)
    requires f.Valid() && i < |f.rows|
    ensures Picked(Drop(f, fields).columns, Drop(f, fields).rows[i], f.columns) == Cleared(f.columns, f.rows[i], fields)
  {
    forall c | c in f.columns
      ensures CellOf(Drop(f, fields).columns, Drop(f, fields).rows[i], c) == Cleared(f.columns, f.rows[i], fields)[c]
    {
      StrippedCell(f, fields, i, c);
    }
  }

  /** What a record of either stacking is. */
  function Stacked(v1: Frame, v2: Frame, fields: seq<string>, i: nat): Record
    requires i < |v1.rows| + |v2.rows|
  {
    if i < |v1.rows| then Cleared(v1.columns, v1.rows[i], fields)
    else RecordOf(v2.columns, v2.rows[i - |v1.rows|])
  }

  lemma {:induction false} PositionStack(v1: Frame, v2: Frame, fields: seq<string>, i: nat)
    requires v1.Valid() && v1.columns == v2.columns && i < |v1.rows| + |v2.rows|
    ensures var records := Records(StackByPosition(v1, v2, fields));
      |records| == |v1.rows| + |v2.rows| && records[i] == Stacked(v1, v2, fields, i)
  {
    UnionRecord(NullOut(v1, fields), v2, v2.columns, i);
    if i < |v1.rows| { NulledRecord(v1, fields, i); }
  }

  lemma {:induction false} DropNarrows(f: Frame, fields: seq<string>)
    ensures |Drop(f, fields).rows| == |f.rows| && forall c | c in Drop(f, fields).columns :: c in f.columns
  {
  }

  lemma {:induction false} ClearedByName(a: Frame, v1: Frame, v2: Frame, fields: seq<string>, i: nat)
    requires v1.columns == v2.columns && |a.rows| == |v1.rows| && i < |v1.rows| + |v2.rows|
    requires forall c | c in a.columns :: c in v2.columns
    requires i < |v1.rows| ==> Picked(a.columns, a.rows[i], v2.columns) == Cleared(v1.columns, v1.rows[i], fields)
    ensures var records := Records(UnionByName(a, v2));
      |records| == |v1.rows| + |v2.rows| && records[i] == Stacked(v1, v2, fields, i)
  {
    UnionByNameRecord(a, v2, v2.columns, i);
  }

  lemma {:induction false} NameStack(v1: Frame, v2: Frame, fields: seq<string>, i: nat)
    requires v1.Valid() && v1.columns == v2.columns && i < |v1.rows| + |v2.rows|
    ensures var records := Records(StackByName(v1, v2, fields));
      |records| == |v1.rows| + |v2.rows| && records[i] == Stacked(v1, v2, fields, i)
  {
    if i < |v1.rows| { StrippedRecord(v1, fields, i); }
    DropNarrows(v1, fields);
    ClearedByName(Drop(v1, fields), v1, v2, fields, i);
  }

  lemma {:induction false} StackingsAgree(v1: Frame, v2: Frame, fields: seq<string>)
    requires v1.Valid() && v1.columns == v2.columns
    ensures Records(StackByPosition(v1, v2, fields)) == Records(StackByName(v1, v2, fields))
  {
    var base, opt := Records(StackByPosition(v1, v2, fields)), Records(StackByName(v1, v2, fields));
    assert |base| == |v1.rows| + |v2.rows| == |opt|;
    forall i | 0 <= i < |base| ensures base[i] == opt[i] {
      PositionStack(v1, v2, fields, i);
      NameStack(v1, v2, fields, i);
    }
  }

  /** Both alignments mean the same table: the same records in the same order. */
  lemma {:induction false} AlignmentsAgree(statements: Frame)
    requires statements.Valid()
    ensures Records(BaselineAlignment(statements)) == Records(OptimizedAlignment(statements))
  {
    StackingsAgree(FilterVersion(statements, 1), FilterVersion(statements, 2), EVOLVED_FIELDS);
  }

  /** The version-one rows come first, in order, each with null in every evolved column the table has and
      its own value in every other; the version-two rows follow unchanged; rows of any other version,
      or of none, are dropped. */
  lemma {:induction false} AlignmentMeaning(statements: Frame, i: nat, c: string)
    requires statements.Valid() && c in statements.columns
    requires i < |FilterVersion(statements, 1).rows| + |FilterVersion(statements, 2).rows|
    ensures var v1, v2 := FilterVersion(statements, 1), FilterVersion(statements, 2);
      var records := Records(OptimizedAlignment(statements));
      && |records| == |v1.rows| + |v2.rows|
      && c in records[i]
      && records[i][c] == if i >= |v1.rows| then CellOf(statements.columns, v2.rows[i - |v1.rows|], c)
                          else if c in EVOLVED_FIELDS then Null
                          else CellOf(statements.columns, v1.rows[i], c)
  {
    StackMeaning(FilterVersion(statements, 1), FilterVersion(statements, 2), EVOLVED_FIELDS, i, c);
  }

  lemma {:induction false} StackMeaning(v1: Frame, v2: Frame, fields: seq<string>, i: nat, c: string)
    requires v1.Valid() && v1.columns == v2.columns && c in v1.columns && i < |v1.rows| + |v2.rows|
    ensures var records := Records(StackByName(v1, v2, fields));
      && |records| == |v1.rows| + |v2.rows|
      && c in records[i]
      && records[i][c] == if i >= |v1.rows| then CellOf(v2.columns, v2.rows[i - |v1.rows|], c)
                          else if c in fields then Null
                          else CellOf(v1.columns, v1.rows[i], c)
  {
    NameStack(v1, v2, fields, i);
  }

  /** A row is kept for a version exactly when its version cell holds that number. */
  lemma {:induction false} KeptIff(statements: Frame, version: int, row: seq<Cell<Value>>)
    ensures row in FilterVersion(statements, version).rows
       <==> row in statements.rows && CellOf(statements.columns, row, VERSION) == Val(Number(version))
  {
    KeepRowsIff(statements.columns, statements.rows, version, row);
  }

  lemma {:induction false} KeepRowsIff(
      columns: seq<string>, rows: seq<seq<Cell<Value>>>, version: int, row: seq<Cell<Value>>)
    ensures row in KeepRows(columns, rows, version)
            <==> row in rows && CellOf(columns, row, VERSION) == Val(Number(version))
  {
    if rows != [] {
      KeepRowsIff(columns, rows[1..], version, row);
      assert rows == [rows[0]] + rows[1..];
    }
  }

  // ------------------------------------------------------------------ by column position

  lemma {:induction false} CellAt(f: Frame, i: nat, j: nat)
    requires f.Valid() && i < |f.rows| && j < |f.columns|
    ensures |f.rows[i]| == |f.columns| && CellOf(f.columns, f.rows[i], f.columns[j]) == f.rows[i][j]
  {
    assert f.rows[i] in f.rows;
    PositionIn(f.columns, j);
  }

  /** Row `i` is of this version. */
  ghost predicate OfVersion(f: Frame, i: int, version: int) {
    && 0 <= i < |f.rows|
    && exists j :: 0 <= j < |f.columns| && j < |f.rows[i]| && f.columns[j] == "schema_version"
                   && f.rows[i][j] == Val(Number(version))
  }

  lemma {:induction false} OfVersionIff(f: Frame, i: nat, version: int)
    requires f.Valid() && i < |f.rows|
    ensures OfVersion(f, i, version) <==> CellOf(f.columns, f.rows[i], VERSION) == Val(Number(version))
  {
    assert f.rows[i] in f.rows;
    if j :| 0 <= j < |f.columns| && f.columns[j] == "schema_version" { CellAt(f, i, j); }
    if VERSION in f.columns {
      var j := Position(f.columns, VERSION);
      CellAt(f, i, j);
    }
  }

  /** The positions of the rows of a version, in order. */
  ghost predicate ListsVersion(f: Frame, version: int, positions: seq<int>) {
    && (forall k, l | 0 <= k < l < |positions| :: positions[k] < positions[l])
    && (forall i :: i in positions <==> OfVersion(f, i, version))
  }

  /** Filtering for a version keeps its rows, each as often as it stands in the table and in the same order. */
  lemma {:induction false} FilterMeaning(f: Frame, version: int) returns (positions: seq<int>)
    requires f.Valid()
    ensures ListsVersion(f, version, positions)
    ensures AreRows(f, FilterVersion(f, version).rows, positions)
  {
    positions := PositionsFrom(f, version, 0);
    assert f.rows[0..] == f.rows;
  }

  /** The kept ones of the rows from `n` on, and their positions. */
  ghost predicate Tracks(f: Frame, version: int, n: nat, kept: seq<seq<Cell<Value>>>, positions: seq<int>) {
    && |kept| == |positions|
    && (forall k, l | 0 <= k < l < |positions| :: positions[k] < positions[l])
    && (forall i :: i in positions <==> n <= i && OfVersion(f, i, version))
    && (forall k | 0 <= k < |positions| :: n <= positions[k] < |f.rows| && kept[k] == f.rows[positions[k]])
  }

  lemma {:induction false} PositionsFrom(f: Frame, version: int, n: nat) returns (positions: seq<int>)
    requires f.Valid() && n <= |f.rows|
    ensures Tracks(f, version, n, KeepRows(f.columns, f.rows[n..], version), positions)
    decreases |f.rows| - n
  {
    if n == |f.rows| {
      positions := [];
    } else {
      var rest := PositionsFrom(f, version, n + 1);
      OfVersionIff(f, n, version);
      assert f.rows[n..][1..] == f.rows[n + 1..] && f.rows[n..][0] == f.rows[n];
      var kept := KeepRows(f.columns, f.rows[n + 1..], version);
      if OfVersion(f, n, version) {
        positions := [n] + rest;
        TracksMore(f, version, n, kept, rest);
      } else {
        positions := rest;
        TracksLess(f, version, n, kept, rest);
      }
    }
  }

  lemma {:induction false} TracksMore(
      f: Frame, version: int, n: nat, kept: seq<seq<Cell<Value>>>, rest: seq<int>)
    requires n < |f.rows| && Tracks(f, version, n + 1, kept, rest) && OfVersion(f, n, version)
    ensures Tracks(f, version, n, [f.rows[n]] + kept, [n] + rest)
  {
    var all := [n] + rest;
    forall k, l | 0 <= k < l < |all| ensures all[k] < all[l] {
      if k > 0 { assert all[k] == rest[k - 1]; }
      assert all[l] == rest[l - 1];
    }
    forall i ensures i in all <==> n <= i && OfVersion(f, i, version) {
      assert i in all <==> i == n || i in rest;
    }
  }

  lemma {:induction false} TracksLess(
      f: Frame, version: int, n: nat, kept: seq<seq<Cell<Value>>>, rest: seq<int>)
    requires n < |f.rows| && Tracks(f, version, n + 1, kept, rest) && !OfVersion(f, n, version)
    ensures Tracks(f, version, n, kept, rest)
  {
    forall i ensures i in rest <==> n <= i && OfVersion(f, i, version) {
      assert i in rest <==> n + 1 <= i && OfVersion(f, i, version);
    }
  }

  /** Both alignments, cell by cell: first the rows of version one, in order, with null under the three evolved
      columns and their own cell under every other, then the rows of version two as they are. */
  lemma {:induction false} AlignedCells(f: Frame, i: nat, j: nat) returns (v1: seq<int>, v2: seq<int>)
    requires f.Valid() && j < |f.columns|
    ensures ListsVersion(f, 1, v1) && ListsVersion(f, 2, v2)
    ensures i < |v1| + |v2| ==>
              && |Records(OptimizedAlignment(f))| == |Records(BaselineAlignment(f))| == |v1| + |v2|
              && AlignedCell(f, Records(OptimizedAlignment(f))[i], RowAt(v1, v2, i), j, i < |v1|)
              && AlignedCell(f, Records(BaselineAlignment(f))[i], RowAt(v1, v2, i), j, i < |v1|)
  {
    v1 := FilterMeaning(f, 1);
    v2 := FilterMeaning(f, 2);
    AlignmentsAgree(f);
    if i < |v1| + |v2| { CellFromFilters(f, v1, v2, i, j); }
  }

  function RowAt(v1: seq<int>, v2: seq<int>, i: nat): int
    requires i < |v1| + |v2|
  {
    if i < |v1| then v1[i] else v2[i - |v1|]
  }

  ghost predicate AreRows(f: Frame, rows: seq<seq<Cell<Value>>>, positions: seq<int>) {
    && |rows| == |positions|
    && forall k | 0 <= k < |positions| :: 0 <= positions[k] < |f.rows| && rows[k] == f.rows[positions[k]]
  }

  lemma {:induction false} CellFromFilters(f: Frame, v1: seq<int>, v2: seq<int>, i: nat, j: nat)
    requires f.Valid() && j < |f.columns| && i < |v1| + |v2|
    requires AreRows(f, FilterVersion(f, 1).rows, v1) && AreRows(f, FilterVersion(f, 2).rows, v2)
    ensures |Records(OptimizedAlignment(f))| == |v1| + |v2|
    ensures AlignedCell(f, Records(OptimizedAlignment(f))[i], RowAt(v1, v2, i), j, i < |v1|)
  {
    AlignmentMeaning(f, i, f.columns[j]);
    OneCell(f, FilterVersion(f, 1).rows, FilterVersion(f, 2).rows, Records(OptimizedAlignment(f))[i],
            RowAt(v1, v2, i), i, j);
  }

  lemma {:induction false} OneCell(
      f: Frame, older: seq<seq<Cell<Value>>>, newer: seq<seq<Cell<Value>>>, record: Record, row: int, i: nat, j: nat)
    requires f.Valid() && j < |f.columns| && 0 <= row < |f.rows| && i < |older| + |newer|
    requires f.rows[row] == if i < |older| then older[i] else newer[i - |older|]
    requires var c := f.columns[j];
      && c in record
      && record[c] == if i >= |older| then CellOf(f.columns, newer[i - |older|], c)
                      else if c in EVOLVED_FIELDS then Null
                      else CellOf(f.columns, older[i], c)
    ensures AlignedCell(f, record, row, j, i < |older|)
  {
    CellAt(f, row, j);
  }

  /** The record has, under column `j`, the cell of this row of the table, or null if the row is an old one and
      the column is one of the three that came later. */
  ghost predicate AlignedCell(f: Frame, record: Record, row: int, j: nat, isOld: bool)
    requires j < |f.columns|
  {
    && 0 <= row < |f.rows| && |f.rows[row]| == |f.columns| && f.columns[j] in record
    && record[f.columns[j]]
       == if isOld && f.columns[j] in {"operating_cash_flow", "retained_earnings", "statement_type"} then Null
          else f.rows[row][j]
  }
}
