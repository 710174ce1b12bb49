/** Comparing two snapshots by business key. */
module SnapshotDiff {
  import opened Relational
  import opened LakehouseTable

  type Key = seq<Cell<string>>
  type Keyed = map<Key, Row>

  datatype Diff = Diff(added: seq<Row>, removed: seq<Row>, updated: seq<Row>)

  function RowKey(row: Row, columns: seq<string>): Key {
    seq(|columns|, i requires 0 <= i < |columns| => if columns[i] in row then row[columns[i]] else Null)
  }

  /** Rows by key; of rows sharing a key the last one counts. */
  function KeyedView(rows: seq<Row>, columns: seq<string>): (view: Keyed)
    ensures forall k | k in view :: RowKey(view[k], columns) == k
    ensures forall k :: k in view <==> exists r :: r in rows && RowKey(r, columns) == k
  {
    if rows == [] then map[]
    else
      var last := rows[|rows| - 1];
      assert rows == rows[..|rows| - 1] + [last];
      KeyedView(rows[..|rows| - 1], columns)[RowKey(last, columns) := last]
  }

  /** The rows a diff starts from: no start id means none. */
  function StartRows(t: Table, from: Cell<string>): Result<seq<Row>> {
    if from.Null? || from.v == "" then Ok([]) else Read(t, from)
  }

  /** The rows a diff ends at: no end id means the head. */
  function EndRows(t: Table, to: Cell<string>): Result<seq<Row>> {
    var toId := if to.Null? || to.v == "" then CurrentId(t) else to;
    if toId.Null? || toId.v == "" then Ok([]) else Read(t, toId)
  }

  function Inputs(t: Table, from: Cell<string>, to: Cell<string>, columns: seq<string>): Result<(seq<Row>, seq<Row>)> {
    var before, after := StartRows(t, from), EndRows(t, to);
    if before.Err? then Err(before.error)
    else if after.Err? then Err(after.error)
    else if columns == [] then Err(NoKeyColumns)
    else Ok((before.value, after.value))
  }

  function Lookup(view: Keyed, keys: seq<Key>): (rows: seq<Row>)
    requires forall k | k in keys :: k in view
    ensures |rows| == |keys| && forall i | 0 <= i < |keys| :: rows[i] == view[keys[i]]
  {
    seq(|keys|, i requires 0 <= i < |keys| => view[keys[i]])
  }

  /** The three key listings, each without repetition, in whatever order the sort puts them. */
  datatype Listing = Listing(added: seq<Key>, removed: seq<Key>, updated: seq<Key>) {
    ghost predicate Of(before: Keyed, after: Keyed) {
      && NoRepeat(added) && NoRepeat(removed) && NoRepeat(updated)
      && (forall k :: k in added <==> k in after && k !in before)
      && (forall k :: k in removed <==> k in before && k !in after)
      && (forall k :: k in updated <==> k in before && k in after && before[k] != after[k])
    }

    ghost function Rows(before: Keyed, after: Keyed): Diff
      requires Of(before, after)
    {
      Diff(Lookup(after, added), Lookup(before, removed), Lookup(after, updated))
    }
  }

  function RowDelta(d: Diff): int { |d.added| - |d.removed| }

  function Keys(rows: seq<Row>, columns: seq<string>): set<Key> {
    set r | r in rows :: RowKey(r, columns)
  }

  /** Replaying a diff on a keyed view: drop the removed keys, then put the added and updated rows. */
  function Patch(view: Keyed, d: Diff, columns: seq<string>): Keyed {
    (view - Keys(d.removed, columns)) + KeyedView(d.added + d.updated, columns)
  }

  // ------------------------------------------------------------------ the listed rows

  lemma {:induction false} LookupKeys(view: Keyed, keys: seq<Key>, columns: seq<string>)
    requires forall k | k in keys :: k in view
    requires forall k | k in view :: RowKey(view[k], columns) == k
    ensures forall k :: k in Keys(Lookup(view, keys), columns) <==> k in keys
  {
    var rows := Lookup(view, keys);
    forall k | k in keys ensures k in Keys(rows, columns) {
      var i :| 0 <= i < |keys| && keys[i] == k;
      assert rows[i] in rows;
    }
    forall k | k in Keys(rows, columns) ensures k in keys {
      var r :| r in rows && RowKey(r, columns) == k;
      var i :| 0 <= i < |rows| && rows[i] == r;
      assert keys[i] in keys;
    }
  }

  /** Rows looked up in a view, keyed again, are the view restricted to their keys. */
  lemma {:induction false} LookupView(view: Keyed, rows: seq<Row>, columns: seq<string>)
    requires forall r | r in rows :: RowKey(r, columns) in view && view[RowKey(r, columns)] == r
    ensures forall k | k in KeyedView(rows, columns) :: k in view && KeyedView(rows, columns)[k] == view[k]
  {
    if rows != [] {
      assert rows == rows[..|rows| - 1] + [rows[|rows| - 1]];
      LookupView(view, rows[..|rows| - 1], columns);
    }
  }

  // ------------------------------------------------------------------ main results

  lemma {:induction false} ListedFrom(view: Keyed, keys: seq<Key>, r: Row, columns: seq<string>)
    requires forall k | k in keys :: k in view
    requires forall k | k in view :: RowKey(view[k], columns) == k
    requires r in Lookup(view, keys)
    ensures RowKey(r, columns) in keys && view[RowKey(r, columns)] == r
  {
    var i :| 0 <= i < |keys| && Lookup(view, keys)[i] == r;
    assert keys[i] in keys;
  }

  /** The added and updated rows, keyed, are the new view restricted to their keys. */
  lemma {:induction false} ChangedView(view: Keyed, added: seq<Key>, updated: seq<Key>, columns: seq<string>)
    requires forall k | k in added || k in updated :: k in view
    requires forall k | k in view :: RowKey(view[k], columns) == k
    ensures var changed := KeyedView(Lookup(view, added) + Lookup(view, updated), columns);
            forall k :: (k in changed <==> k in added || k in updated) && (k in changed ==> changed[k] == view[k])
  {
    var a, u := Lookup(view, added), Lookup(view, updated);
    var rows := a + u;
    forall r | r in rows ensures RowKey(r, columns) in view && view[RowKey(r, columns)] == r {
      if r in a { ListedFrom(view, added, r, columns); } else { ListedFrom(view, updated, r, columns); }
    }
    LookupView(view, rows, columns);
    LookupKeys(view, added, columns);
    LookupKeys(view, updated, columns);
    forall k ensures k in KeyedView(rows, columns) <==> k in added || k in updated {
      KeysOfConcat(a, u, columns, k);
    }
  }

  lemma {:induction false} KeysOfConcat(a: seq<Row>, b: seq<Row>, columns: seq<string>, k: Key)
    ensures k in KeyedView(a + b, columns) <==> k in Keys(a, columns) || k in Keys(b, columns)
  {
    assert forall r :: r in a + b <==> r in a || r in b;
  }

  /** A diff is a correct patch: applied to the old keyed view it gives the new one. */
  lemma {:induction false} DiffIsPatch(from: seq<Row>, to: seq<Row>, columns: seq<string>, listing: Listing)
    requires listing.Of(KeyedView(from, columns), KeyedView(to, columns))
    ensures Patch(KeyedView(from, columns), listing.Rows(KeyedView(from, columns), KeyedView(to, columns)), columns)
            == KeyedView(to, columns)
  {
    PatchCorrect(KeyedView(from, columns), KeyedView(to, columns), columns, listing);
  }

  lemma {:induction false} PatchCorrect(before: Keyed, after: Keyed, columns: seq<string>, listing: Listing)
    requires listing.Of(before, after)
    requires forall k | k in before :: RowKey(before[k], columns) == k
    requires forall k | k in after :: RowKey(after[k], columns) == k
    ensures Patch(before, listing.Rows(before, after), columns) == after
  {
    var d := listing.Rows(before, after);
    ChangedView(after, listing.added, listing.updated, columns);
    LookupKeys(before, listing.removed, columns);
    PatchPointwise(before, after, Keys(d.removed, columns), KeyedView(d.added + d.updated, columns), listing);
  }

  lemma {:induction false} PatchPointwise(before: Keyed, after: Keyed, gone: set<Key>, changed: Keyed, listing: Listing)
    requires listing.Of(before, after)
    requires forall k :: k in gone <==> k in listing.removed
    requires forall k ::
               (k in changed <==> k in listing.added || k in listing.updated)
                 && (k in changed ==> changed[k] == after[k])
    ensures (before - gone) + changed == after
  {
    var patched := (before - gone) + changed;
    forall k ensures k in patched <==> k in after {}
    forall k | k in patched ensures patched[k] == after[k] {}
  }

  lemma {:induction false} ListOf<T>(wanted: set<T>) returns (xs: seq<T>)
    ensures NoRepeat(xs) && forall x :: x in xs <==> x in wanted
    decreases |wanted|
  {
    if wanted == {} {
      xs := [];
    } else {
      var x :| x in wanted;
      var rest := ListOf(wanted - {x});
      xs := [x] + rest;
    }
  }

  /** Any two keyed views have a diff. */
  lemma {:induction false} ListingExists(before: Keyed, after: Keyed) returns (listing: Listing)
    ensures listing.Of(before, after)
  {
    var added := ListOf(after.Keys - before.Keys);
    var removed := ListOf(before.Keys - after.Keys);
    var updated := ListOf(set k | k in before && k in after && before[k] != after[k]);
    listing := Listing(added, removed, updated);
  }

  /** No key is reported twice: added, removed and updated rows have pairwise different keys. */
  lemma {:induction false} DiffIsDisjoint(from: seq<Row>, to: seq<Row>, columns: seq<string>, listing: Listing)
    requires listing.Of(KeyedView(from, columns), KeyedView(to, columns))
    ensures var d := listing.Rows(KeyedView(from, columns), KeyedView(to, columns));
            && Keys(d.added, columns) !! Keys(d.removed, columns) !! Keys(d.updated, columns)
            && (d == Diff([], [], []) <==> KeyedView(from, columns) == KeyedView(to, columns))
  {
    var before, after := KeyedView(from, columns), KeyedView(to, columns);
    LookupKeys(before, listing.removed, columns);
    LookupKeys(after, listing.added, columns);
    LookupKeys(after, listing.updated, columns);
    var d := listing.Rows(before, after);
    if d == Diff([], [], []) {
      assert |listing.added| == |listing.removed| == |listing.updated| == 0;
      forall k ensures k in before <==> k in after {
        assert k !in listing.added && k !in listing.removed;
      }
      forall k | k in before ensures before[k] == after[k] { assert k !in listing.updated; }
    }
    if before == after {
      NoMembers(listing.added);
      NoMembers(listing.removed);
      NoMembers(listing.updated);
    }
  }

  lemma {:induction false} NoMembers<T>(xs: seq<T>)
    requires forall x :: x !in xs
    ensures xs == []
  {
    assert forall x | x in multiset(xs) :: x in xs;
    assert multiset(xs) == multiset{};
    assert |multiset(xs)| == |xs|;
  }

  lemma {:induction false} ListingSize<T>(xs: seq<T>, wanted: set<T>)
    requires NoRepeat(xs) && forall x :: x in xs <==> x in wanted
    ensures |xs| == |wanted|
  {
    DistinctCount(xs);
    assert (set x | x in xs) == wanted;
  }

  lemma {:induction false} SetDelta<T>(a: set<T>, b: set<T>)
    ensures |a - b| - |b - a| == |a| - |b|
  {
    assert a == (a - b) + (a * b) && b == (b - a) + (a * b);
    assert |a| == |a - b| + |a * b|;
    assert |b| == |b - a| + |a * b|;
  }

  /** The reported delta is the change in the number of distinct keys. */
  lemma {:induction false} RowDeltaIsKeyDelta(before: Keyed, after: Keyed, listing: Listing)
    requires listing.Of(before, after)
    ensures RowDelta(listing.Rows(before, after)) == |after| - |before|
  {
    ListingSize(listing.added, after.Keys - before.Keys);
    ListingSize(listing.removed, before.Keys - after.Keys);
    SetDelta(after.Keys, before.Keys);
    assert |after| == |after.Keys| && |before| == |before.Keys|;
  }

  /** The rows a snapshot loses to key collisions when keyed. */
  function Collapsed(rows: seq<Row>, columns: seq<string>): int { |rows| - |KeyedView(rows, columns)| }

  ghost predicate KeysUnique(rows: seq<Row>, columns: seq<string>) {
    forall i, j | 0 <= i < j < |rows| :: RowKey(rows[i], columns) != RowKey(rows[j], columns)
  }

  function KeyList(rows: seq<Row>, columns: seq<string>): (keys: seq<Key>)
    ensures |keys| == |rows| && forall i | 0 <= i < |keys| :: keys[i] == RowKey(rows[i], columns)
  {
    if rows == [] then [] else KeyList(rows[..|rows| - 1], columns) + [RowKey(rows[|rows| - 1], columns)]
  }

  lemma {:induction false} ViewHoldsKeys(rows: seq<Row>, columns: seq<string>)
    ensures KeyedView(rows, columns).Keys == set k | k in KeyList(rows, columns)
  {
    if rows != [] { ViewHoldsKeys(rows[..|rows| - 1], columns); }
  }

  lemma {:induction false} UniqueIff(rows: seq<Row>, columns: seq<string>)
    ensures NoRepeat(KeyList(rows, columns)) <==> KeysUnique(rows, columns)
  {
    var keys := KeyList(rows, columns);
    if NoRepeat(keys) {
      forall i, j | 0 <= i < j < |rows|
        ensures RowKey(rows[i], columns) != RowKey(rows[j], columns)
      {
        assert keys[i] != keys[j];
      }
    }
  }

  /** Nothing collapses exactly when business keys are unique. */
  lemma {:induction false} CollapsedIff(rows: seq<Row>, columns: seq<string>)
    ensures Collapsed(rows, columns) >= 0 && (Collapsed(rows, columns) == 0 <==> KeysUnique(rows, columns))
  {
    DistinctCount(KeyList(rows, columns));
    ViewHoldsKeys(rows, columns);
    UniqueIff(rows, columns);
    assert |KeyedView(rows, columns)| == |KeyedView(rows, columns).Keys|;
  }

  /** The delta is the change in rows exactly when both snapshots lose equally many rows to key
      collisions; in particular when business keys are unique in both. */
  lemma {:induction false} RowDeltaIff(from: seq<Row>, to: seq<Row>, columns: seq<string>, listing: Listing)
    requires listing.Of(KeyedView(from, columns), KeyedView(to, columns))
    ensures RowDelta(listing.Rows(KeyedView(from, columns), KeyedView(to, columns))) == |to| - |from|
       <==> Collapsed(from, columns) == Collapsed(to, columns)
    ensures KeysUnique(from, columns) && KeysUnique(to, columns) ==>
              RowDelta(listing.Rows(KeyedView(from, columns), KeyedView(to, columns))) == |to| - |from|
  {
    RowDeltaIsKeyDelta(KeyedView(from, columns), KeyedView(to, columns), listing);
    CollapsedIff(from, columns);
    CollapsedIff(to, columns);
  }

  // ------------------------------------------------------------------ the diff, row by row

  /** The rows hold the same values, or none, under the key columns. */
  ghost predicate SameKey(a: Row, b: Row, columns: seq<string>) {
    forall c | c in columns :: (if c in a then a[c] else Null) == (if c in b then b[c] else Null)
  }

  /** `r` is the last row of its key. */
  ghost predicate LastOfKey(rows: seq<Row>, r: Row, columns: seq<string>) {
    exists i :: 0 <= i < |rows| && rows[i] == r && forall j | i < j < |rows| :: !SameKey(rows[j], r, columns)
  }

  lemma {:induction false} SameKeyIff(a: Row, b: Row, columns: seq<string>)
    ensures SameKey(a, b, columns) <==> RowKey(a, columns) == RowKey(b, columns)
  {
    if SameKey(a, b, columns) {
      forall i | 0 <= i < |columns| ensures RowKey(a, columns)[i] == RowKey(b, columns)[i] {
        assert columns[i] in columns;
      }
    }
    if RowKey(a, columns) == RowKey(b, columns) {
      forall c | c in columns ensures (if c in a then a[c] else Null) == (if c in b then b[c] else Null) {
        var i :| 0 <= i < |columns| && columns[i] == c;
        assert RowKey(a, columns)[i] == RowKey(b, columns)[i];
      }
    }
  }

  lemma {:induction false} LastGrows(rows: seq<Row>, last: Row, r: Row, columns: seq<string>)
    ensures LastOfKey(rows + [last], r, columns)
       <==> r == last || (LastOfKey(rows, r, columns) && !SameKey(last, r, columns))
  {
    var all := rows + [last];
    if r == last { assert all[|rows|] == r; }
    if LastOfKey(all, r, columns) && r != last {
      var i :| 0 <= i < |all| && all[i] == r && forall j | i < j < |all| :: !SameKey(all[j], r, columns);
      assert all[|rows|] == last && rows[i] == r;
      forall j | i < j < |rows| ensures !SameKey(rows[j], r, columns) { assert all[j] == rows[j]; }
    }
    if LastOfKey(rows, r, columns) && !SameKey(last, r, columns) {
      var i :| 0 <= i < |rows| && rows[i] == r && forall j | i < j < |rows| :: !SameKey(rows[j], r, columns);
      assert all[i] == r;
    }
  }

  /** The keyed view holds exactly the last row of each key. */
  lemma {:induction false} ViewHoldsLast(rows: seq<Row>, columns: seq<string>, r: Row)
    ensures LastOfKey(rows, r, columns)
       <==> RowKey(r, columns) in KeyedView(rows, columns) && KeyedView(rows, columns)[RowKey(r, columns)] == r
  {
    if rows != [] {
      var rest, last := rows[..|rows| - 1], rows[|rows| - 1];
      assert rows == rest + [last];
      ViewHoldsLast(rest, columns, r);
      LastGrows(rest, last, r, columns);
      SameKeyIff(last, r, columns);
    }
  }

  lemma {:induction false} ListedIff(view: Keyed, keys: seq<Key>, r: Row, columns: seq<string>)
    requires forall k | k in keys :: k in view
    requires forall k | k in view :: RowKey(view[k], columns) == k
    ensures r in Lookup(view, keys) <==> RowKey(r, columns) in keys && view[RowKey(r, columns)] == r
  {
    if r in Lookup(view, keys) { ListedFrom(view, keys, r, columns); }
    if RowKey(r, columns) in keys && view[RowKey(r, columns)] == r {
      var i :| 0 <= i < |keys| && keys[i] == RowKey(r, columns);
      assert Lookup(view, keys)[i] == r;
    }
  }

  lemma {:induction false} HasKeyIff(rows: seq<Row>, columns: seq<string>, r: Row)
    ensures RowKey(r, columns) in KeyedView(rows, columns) <==> exists q :: q in rows && SameKey(q, r, columns)
  {
    forall q ensures SameKey(q, r, columns) <==> RowKey(q, columns) == RowKey(r, columns) { SameKeyIff(q, r, columns); }
    if q :| q in rows && SameKey(q, r, columns) { assert RowKey(q, columns) == RowKey(r, columns); }
  }

  /** Row by row: added are the last rows of new keys, removed the last rows of gone keys, updated the last rows
      of kept keys whose last row differs. */
  lemma {:induction false} DiffMeaning(
      from: seq<Row>, to: seq<Row>, columns: seq<string>, listing: Listing, r: Row)
    requires listing.Of(KeyedView(from, columns), KeyedView(to, columns))
    ensures var d := listing.Rows(KeyedView(from, columns), KeyedView(to, columns));
      && (r in d.added <==> LastOfKey(to, r, columns) && !exists q :: q in from && SameKey(q, r, columns))
      && (r in d.removed <==> LastOfKey(from, r, columns) && !exists q :: q in to && SameKey(q, r, columns))
      && (r in d.updated
          <==> LastOfKey(to, r, columns) && (exists q :: q in from && SameKey(q, r, columns))
               && !LastOfKey(from, r, columns))
  {
    var before, after := KeyedView(from, columns), KeyedView(to, columns);
    ViewHoldsLast(from, columns, r);
    ViewHoldsLast(to, columns, r);
    HasKeyIff(from, columns, r);
    HasKeyIff(to, columns, r);
    ListedIff(after, listing.added, r, columns);
    ListedIff(before, listing.removed, r, columns);
    ListedIff(after, listing.updated, r, columns);
  }

  /** What an id names: no rows in an empty table, else those of the oldest snapshot with the id, if there is one. */
  ghost predicate Names(t: Table, id: string, rows: Result<seq<Row>>) {
    if |t.snapshots| == 0 then rows == Ok([])
    else if exists s :: s in t.snapshots && s.id == id then
      exists k :: OldestWith(t.snapshots, id, k) && rows == Ok(t.snapshots[k].rows)
    else rows == Err(UnknownSnapshot)
  }

  lemma {:induction false} ReadNames(t: Table, id: string)
    ensures Names(t, id, Read(t, Val(id)))
  {
    ReadMeaning(t, Val(id));
  }

  /** Where the rows of a diff start: no start id, or an empty one, means no rows. */
  lemma {:induction false} StartMeaning(t: Table, from: Cell<string>)
    ensures if from == Null || from == Val("") then StartRows(t, from) == Ok([])
            else Names(t, from.v, StartRows(t, from))
  {
    if from.Val? { ReadNames(t, from.v); }
  }

  /** And where they end: no end id, or an empty one, means the newest snapshot's id, and no rows if that is
      missing or empty. */
  lemma {:induction false} EndMeaning(t: Table, to: Cell<string>)
    ensures if to != Null && to != Val("") then Names(t, to.v, EndRows(t, to))
            else if |t.snapshots| == 0 || t.snapshots[|t.snapshots| - 1].id == "" then EndRows(t, to) == Ok([])
            else Names(t, t.snapshots[|t.snapshots| - 1].id, EndRows(t, to))
  {
    if to != Null && to != Val("") { ReadNames(t, to.v); } else { HeadMeaning(t, to); }
  }

  lemma {:induction false} HeadMeaning(t: Table, to: Cell<string>)
    requires to == Null || to == Val("")
    ensures if |t.snapshots| == 0 || t.snapshots[|t.snapshots| - 1].id == "" then EndRows(t, to) == Ok([])
            else Names(t, t.snapshots[|t.snapshots| - 1].id, EndRows(t, to))
  {
    if t.snapshots != [] {
      var head := t.snapshots[|t.snapshots| - 1].id;
      ReadNames(t, head);
      assert CurrentId(t) == Val(head);
    }
  }

  lemma {:induction false} NamesFails(t: Table, id: string, rows: Result<seq<Row>>)
    requires Names(t, id, rows)
    ensures rows.Err? ==> rows == Err(UnknownSnapshot)
  {}

  /** A diff is refused for an unknown id, and after that for a key without columns. */
  lemma {:induction false} InputsMeaning(t: Table, from: Cell<string>, to: Cell<string>, columns: seq<string>)
    ensures Inputs(t, from, to, columns)
         == if StartRows(t, from).Err? || EndRows(t, to).Err? then Err(UnknownSnapshot)
            else if columns == [] then Err(NoKeyColumns)
            else Ok((StartRows(t, from).value, EndRows(t, to).value))
  {
    StartMeaning(t, from);
    EndMeaning(t, to);
    if from.Val? && from.v != "" { NamesFails(t, from.v, StartRows(t, from)); }
    if to.Val? && to.v != "" { NamesFails(t, to.v, EndRows(t, to)); }
    else if t.snapshots != [] && t.snapshots[|t.snapshots| - 1].id != "" {
      NamesFails(t, t.snapshots[|t.snapshots| - 1].id, EndRows(t, to));
    }
  }

  /** A diff of two recorded snapshots compares exactly the rows they were committed with, whatever was
      written or evolved since; without an end id it compares with the current contents. */
  lemma {:induction false} DiffReadsItsSnapshots(hash: Hash, t: Table, ops: seq<Op>, i: nat, j: nat,
      columns: seq<string>)
    requires SeparatesSequences(hash) && WellFormed(hash, t) && i < |t.snapshots| && j < |t.snapshots| && columns != []
    requires HashesAreText(hash)
    ensures var later := ApplyAll(hash, t, ops);
      && Inputs(later, Val(t.snapshots[i].id), Val(t.snapshots[j].id), columns)
      == Ok((t.snapshots[i].rows, t.snapshots[j].rows))
      && Inputs(later, Val(t.snapshots[i].id), Null, columns) == Ok((t.snapshots[i].rows, Contents(later)))
  {
    var later := ApplyAll(hash, t, ops);
    RunsOnlyAdd(hash, t, ops);
    ReadsFindTheirSnapshot(hash, t, ops, i);
    ReadsFindTheirSnapshot(hash, t, ops, j);
    IdIsText(hash, t, i);
    IdIsText(hash, t, j);
    HeadReads(hash, later);
  }

  ghost predicate HashesAreText(hash: Hash) { forall rows, schema, n: nat :: hash(rows, schema, n) != "" }

  lemma {:induction false} IdIsText(hash: Hash, t: Table, k: nat)
    requires HashesAreText(hash) && WellFormed(hash, t) && k < |t.snapshots|
    ensures t.snapshots[k].id != ""
  {
    assert Linked(hash, t.snapshots, k);
  }

  lemma {:induction false} HeadReads(hash: Hash, t: Table)
    requires HashesAreText(hash) && SeparatesSequences(hash) && WellFormed(hash, t) && t.snapshots != []
    ensures CurrentId(t).Val? && CurrentId(t).v != "" && Read(t, CurrentId(t)) == Ok(Contents(t))
  {
    var head := |t.snapshots| - 1;
    IdIsText(hash, t, head);
    ReadsFindTheirSnapshot(hash, t, [], head);
  }
}
