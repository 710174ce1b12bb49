/** The relational vocabulary the Spark jobs share: nullable cells, SQL's three-valued logic,
    the "newest row per key" window, and group-by whose output order is left open. */
module Relational {

  datatype Cell<+T> = Null | Val(v: T)

  /** The value of a SQL condition. A filter keeps a row only on `Yes`. */
  datatype Truth = Yes | No | Unknown

  function Lift(b: bool): Truth { if b then Yes else No }

  function Or(a: Truth, b: Truth): Truth {
    if a == Yes || b == Yes then Yes else if a == No && b == No then No else Unknown
  }

  function And(a: Truth, b: Truth): Truth {
    if a == No || b == No then No else if a == Yes && b == Yes then Yes else Unknown
  }

  function NotEqual<T(==)>(a: Cell<T>, b: Cell<T>): Truth {
    if a.Null? || b.Null? then Unknown else Lift(a.v != b.v)
  }

  function Equal<T(==)>(a: Cell<T>, b: Cell<T>): Truth {
    if a.Null? || b.Null? then Unknown else Lift(a.v == b.v)
  }

  function Less(a: Cell<real>, b: Cell<real>): Truth {
    if a.Null? || b.Null? then Unknown else Lift(a.v < b.v)
  }

  /** Descending timestamp order with nulls last: does `a` come strictly before `b`? */
  predicate Newer(a: Cell<int>, b: Cell<int>) {
    a.Val? && (b.Null? || a.v > b.v)
  }

  // ---------------------------------------------------------------- newest row per key

  ghost predicate Present<R(!new), K>(rows: seq<R>, key: R -> K, k: K) {
    exists q :: q in rows && key(q) == k
  }

  /** `r` may get `row_number() == 1` in its partition: no row of the partition is strictly newer.
      Ties are broken any way the engine likes. */
  ghost predicate IsRowNumberOne<R(!new), K>(rows: seq<R>, key: R -> K, ts: R -> Cell<int>, r: R) {
    r in rows && forall q | q in rows && key(q) == key(r) :: !Newer(ts(q), ts(r))
  }

  /** `max_by` over the same partition skips rows whose timestamp is null; when nothing is left the
      aggregate is null, which `blank` spells out as a row. */
  ghost predicate IsMaxBy<R(!new), K>(rows: seq<R>, key: R -> K, ts: R -> Cell<int>, blank: K -> R, r: R) {
    || (r in rows && ts(r).Val? && forall q | q in rows && key(q) == key(r) && ts(q).Val? :: ts(q).v <= ts(r).v)
    || (r == blank(key(r)) && Present(rows, key, key(r))
        && forall q | q in rows && key(q) == key(r) :: ts(q).Null?)
  }

  ghost predicate UniqueKeys<R, K>(kept: seq<R>, key: R -> K) {
    forall i, j | 0 <= i < j < |kept| :: key(kept[i]) != key(kept[j])
  }

  ghost predicate SameKeys<R(!new), K(!new)>(rows: seq<R>, key: R -> K, kept: seq<R>) {
    forall k :: Present(rows, key, k) <==> Present(kept, key, k)
  }

  /** A possible result of `row_number() over (partition by key order by ts desc)` filtered to 1. */
  ghost predicate WindowLatest<R(!new), K(!new)>(rows: seq<R>, key: R -> K, ts: R -> Cell<int>, kept: seq<R>) {
    && UniqueKeys(kept, key) && SameKeys(rows, key, kept)
    && forall k | k in kept :: IsRowNumberOne(rows, key, ts, k)
  }

  /** A possible result of `groupBy(key).agg(max_by(struct(...), ts))`. */
  ghost predicate MaxByLatest<R(!new), K(!new)>(
      rows: seq<R>, key: R -> K, ts: R -> Cell<int>, blank: K -> R, kept: seq<R>) {
    && UniqueKeys(kept, key) && SameKeys(rows, key, kept)
    && forall k | k in kept :: IsMaxBy(rows, key, ts, blank, k)
  }

  ghost predicate Stamped<R(!new), K>(rows: seq<R>, key: R -> K, ts: R -> Cell<int>, k: K) {
    exists q :: q in rows && key(q) == k && ts(q).Val?
  }

  /** The newest row of partition `k` is settled: either some timestamp is present and the rows tying
      for the newest one are identical, or every timestamp is null and every row is already blank. */
  ghost predicate Settled<R(!new), K>(rows: seq<R>, key: R -> K, ts: R -> Cell<int>, blank: K -> R, k: K) {
    if Stamped(rows, key, ts, k) then
      forall a, b | key(a) == k && key(b) == k && IsRowNumberOne(rows, key, ts, a)
                    && IsRowNumberOne(rows, key, ts, b) :: a == b
    else
      forall a | a in rows && key(a) == k :: a == blank(k)
  }

  /** Whatever way ties are broken, the two operators pick the same row for partition `k`. */
  ghost predicate PicksAgree<R(!new), K>(rows: seq<R>, key: R -> K, ts: R -> Cell<int>, blank: K -> R, k: K) {
    forall a, b | key(a) == k && key(b) == k && IsRowNumberOne(rows, key, ts, a) && IsMaxBy(rows, key, ts, blank, b) ::
                a == b
  }

  ghost predicate AllSettled<R(!new), K>(rows: seq<R>, key: R -> K, ts: R -> Cell<int>, blank: K -> R) {
    forall r | r in rows :: Settled(rows, key, ts, blank, key(r))
  }

  /** Every non-empty partition has a first row. */
  lemma {:induction false} NewestExists<R(!new), K>(rows: seq<R>, key: R -> K, ts: R -> Cell<int>, k: K) returns (r: R)
    requires Present(rows, key, k)
    ensures key(r) == k && IsRowNumberOne(rows, key, ts, r)
    decreases |rows|
  {
    var head, rest := rows[0], rows[1..];
    assert rows == [head] + rest;
    if Present(rest, key, k) {
      r := NewestExists(rest, key, ts, k);
      if key(head) == k && Newer(ts(head), ts(r)) { r := head; }
    } else {
      r := head;
    }
  }

  /** In a partition with some timestamp the two operators have the same candidates. */
  lemma {:induction false} StampedCandidates<R(!new), K>(
      rows: seq<R>, key: R -> K, ts: R -> Cell<int>, blank: K -> R, r: R)
    requires Stamped(rows, key, ts, key(r))
    ensures IsRowNumberOne(rows, key, ts, r) <==> IsMaxBy(rows, key, ts, blank, r)
  {
    var q :| q in rows && key(q) == key(r) && ts(q).Val?;
    if IsRowNumberOne(rows, key, ts, r) {
      assert !Newer(ts(q), ts(r));
      forall p | p in rows && key(p) == key(r) && ts(p).Val? ensures ts(p).v <= ts(r).v {
        assert !Newer(ts(p), ts(r));
      }
    }
  }

  /** Exactly when the two operators must agree on a partition. */
  lemma {:induction false} SettledIff<R(!new), K(!new)>(
      rows: seq<R>, key: R -> K, ts: R -> Cell<int>, blank: K -> R, k: K)
    requires Present(rows, key, k) && key(blank(k)) == k
    ensures Settled(rows, key, ts, blank, k) <==> PicksAgree(rows, key, ts, blank, k)
  {
    if Stamped(rows, key, ts, k) {
      forall r | key(r) == k
        ensures IsRowNumberOne(rows, key, ts, r) <==> IsMaxBy(rows, key, ts, blank, r)
      {
        StampedCandidates(rows, key, ts, blank, r);
      }
    } else {
      UnstampedIff(rows, key, ts, blank, k);
    }
  }

  lemma {:induction false} UnstampedIff<R(!new), K>(rows: seq<R>, key: R -> K, ts: R -> Cell<int>, blank: K -> R, k: K)
    requires Present(rows, key, k) && key(blank(k)) == k && !Stamped(rows, key, ts, k)
    ensures Settled(rows, key, ts, blank, k) <==> PicksAgree(rows, key, ts, blank, k)
  {
    assert IsMaxBy(rows, key, ts, blank, blank(k)) by {
      var q :| q in rows && key(q) == k;
    }
    forall b | key(b) == k && IsMaxBy(rows, key, ts, blank, b) ensures b == blank(k) {}
    forall a | a in rows && key(a) == k ensures IsRowNumberOne(rows, key, ts, a) {
      forall q | q in rows && key(q) == k ensures !Newer(ts(q), ts(a)) {}
    }
  }

  /** The usual sufficient condition: timestamps present and never repeated within a key. */
  lemma {:induction false} DistinctTimestampsSettle<R(!new), K>(
      rows: seq<R>, key: R -> K, ts: R -> Cell<int>, blank: K -> R)
    requires forall r | r in rows :: ts(r).Val?
    requires forall i, j | 0 <= i < j < |rows| && key(rows[i]) == key(rows[j]) :: ts(rows[i]) != ts(rows[j])
    ensures AllSettled(rows, key, ts, blank)
  {
    forall r | r in rows ensures Settled(rows, key, ts, blank, key(r)) {
      assert Stamped(rows, key, ts, key(r));
      forall a, b | key(a) == key(r) && key(b) == key(r)
                    && IsRowNumberOne(rows, key, ts, a) && IsRowNumberOne(rows, key, ts, b)
        ensures a == b
      {
        assert ts(a) == ts(b) by { assert !Newer(ts(a), ts(b)) && !Newer(ts(b), ts(a)); }
        var i :| 0 <= i < |rows| && rows[i] == a;
        var j :| 0 <= j < |rows| && rows[j] == b;
      }
    }
  }

  /** On settled input the two operators keep the same rows, as bags. */
  lemma {:induction false} LatestAgree<R(!new), K(!new)>(
      rows: seq<R>, key: R -> K, ts: R -> Cell<int>, blank: K -> R, byWindow: seq<R>, byMax: seq<R>)
    requires forall k :: key(blank(k)) == k
    requires AllSettled(rows, key, ts, blank)
    requires WindowLatest(rows, key, ts, byWindow) && MaxByLatest(rows, key, ts, blank, byMax)
    ensures multiset(byWindow) == multiset(byMax)
  {
    forall a | a in byWindow ensures a in byMax { WindowInMaxBy(rows, key, ts, blank, byWindow, byMax, a); }
    forall b | b in byMax ensures b in byWindow { MaxByInWindow(rows, key, ts, blank, byWindow, byMax, b); }
    SameElements(byWindow, byMax, key);
  }

  lemma {:induction false} WindowInMaxBy<R(!new), K(!new)>(rows: seq<R>, key: R -> K, ts: R -> Cell<int>, blank: K -> R,
                                        byWindow: seq<R>, byMax: seq<R>, a: R)
    requires key(blank(key(a))) == key(a) && AllSettled(rows, key, ts, blank)
    requires WindowLatest(rows, key, ts, byWindow) && MaxByLatest(rows, key, ts, blank, byMax) && a in byWindow
    ensures a in byMax
  {
    assert IsRowNumberOne(rows, key, ts, a);
    assert Present(rows, key, key(a)) && Present(byMax, key, key(a));
    var b :| b in byMax && key(b) == key(a);
    AgreeOnKey(rows, key, ts, blank, a, b);
  }

  lemma {:induction false} MaxByInWindow<R(!new), K(!new)>(rows: seq<R>, key: R -> K, ts: R -> Cell<int>, blank: K -> R,
                                        byWindow: seq<R>, byMax: seq<R>, b: R)
    requires key(blank(key(b))) == key(b) && AllSettled(rows, key, ts, blank)
    requires WindowLatest(rows, key, ts, byWindow) && MaxByLatest(rows, key, ts, blank, byMax) && b in byMax
    ensures b in byWindow
  {
    assert Present(byMax, key, key(b)) && Present(byWindow, key, key(b));
    var a :| a in byWindow && key(a) == key(b);
    AgreeOnKey(rows, key, ts, blank, a, b);
  }

  lemma {:induction false} AgreeOnKey<R(!new), K(!new)>(
      rows: seq<R>, key: R -> K, ts: R -> Cell<int>, blank: K -> R, a: R, b: R)
    requires key(blank(key(a))) == key(a) && key(a) == key(b)
    requires AllSettled(rows, key, ts, blank)
    requires IsRowNumberOne(rows, key, ts, a) && IsMaxBy(rows, key, ts, blank, b)
    ensures a == b
  {
    assert Present(rows, key, key(a));
    SettledIff(rows, key, ts, blank, key(a));
  }

  lemma {:induction false} NoRepeats<R, K>(kept: seq<R>, key: R -> K)
    requires UniqueKeys(kept, key)
    ensures forall r :: multiset(kept)[r] == if r in kept then 1 else 0
  {
    if kept != [] {
      var rest := kept[1..];
      assert kept == [kept[0]] + rest;
      NoRepeats(rest, key);
      assert forall j | 0 <= j < |rest| :: key(kept[0]) != key(rest[j]);
    }
  }

  lemma {:induction false} SameElements<R, K>(a: seq<R>, b: seq<R>, key: R -> K)
    requires UniqueKeys(a, key) && UniqueKeys(b, key)
    requires forall r :: r in a <==> r in b
    ensures multiset(a) == multiset(b)
  {
    NoRepeats(a, key);
    NoRepeats(b, key);
  }

  // ---------------------------------------------------------------- distinct counts

  ghost predicate NoRepeat<T>(xs: seq<T>) {
    forall i, j | 0 <= i < j < |xs| :: xs[i] != xs[j]
  }

  /** A list has at least as many entries as distinct entries, and as many exactly when none repeats. */
  lemma {:induction false} DistinctCount<T>(xs: seq<T>)
    ensures |set x | x in xs| <= |xs|
    ensures |set x | x in xs| == |xs| <==> NoRepeat(xs)
  {
    if xs != [] {
      var tail := xs[1..];
      DistinctCount(tail);
      var all, rest := set x | x in xs, set x | x in tail;
      assert xs == [xs[0]] + tail;
      assert all == {xs[0]} + rest;
      if xs[0] in tail {
        assert all == rest;
        var j :| 0 <= j < |tail| && tail[j] == xs[0];
        assert xs[0] == xs[j + 1];
      } else {
        assert |all| == |rest| + 1;
        if NoRepeat(tail) {
          forall i, j | 0 <= i < j < |xs| ensures xs[i] != xs[j] {
            if i == 0 { assert xs[j] == tail[j - 1]; } else { assert tail[i - 1] != tail[j - 1]; }
          }
        } else {
          var i, j :| 0 <= i < j < |tail| && tail[i] == tail[j];
          assert xs[i + 1] == xs[j + 1];
        }
      }
    }
  }

  // ---------------------------------------------------------------- every query has a result

  lemma {:induction false} KeysExist<R(!new), K(!new)>(rows: seq<R>, key: R -> K) returns (keys: seq<K>)
    ensures NoRepeat(keys) && forall k :: k in keys <==> Present(rows, key, k)
  {
    if rows == [] {
      keys := [];
    } else {
      var head, tail := rows[0], rows[1..];
      assert rows == [head] + tail;
      var rest := KeysExist(tail, key);
      keys := if key(head) in rest then rest else [key(head)] + rest;
      forall k ensures k in keys <==> Present(rows, key, k) {
        assert k in rest <==> Present(tail, key, k);
        assert Present(rows, key, k) <==> key(head) == k || Present(tail, key, k);
      }
    }
  }

  lemma {:induction false} WindowPicks<R(!new), K(!new)>(
      rows: seq<R>, key: R -> K, ts: R -> Cell<int>, keys: seq<K>)
    returns (kept: seq<R>)
    requires forall k | k in keys :: Present(rows, key, k)
    ensures |kept| == |keys| && forall i | 0 <= i < |keys| ::
                key(kept[i]) == keys[i] && IsRowNumberOne(rows, key, ts, kept[i])
  {
    if keys == [] {
      kept := [];
    } else {
      var r := NewestExists(rows, key, ts, keys[0]);
      var rest := WindowPicks(rows, key, ts, keys[1..]);
      kept := [r] + rest;
    }
  }

  lemma {:induction false} MaxByPicks<R(!new), K(!new)>(
      rows: seq<R>, key: R -> K, ts: R -> Cell<int>, blank: K -> R, keys: seq<K>)
    returns (kept: seq<R>)
    requires forall k | k in keys :: Present(rows, key, k) && key(blank(k)) == k
    ensures |kept| == |keys| && forall i | 0 <= i < |keys| ::
                key(kept[i]) == keys[i] && IsMaxBy(rows, key, ts, blank, kept[i])
  {
    if keys == [] {
      kept := [];
    } else {
      var r := NewestExists(rows, key, ts, keys[0]);
      if Stamped(rows, key, ts, keys[0]) { StampedCandidates(rows, key, ts, blank, r); } else { r := blank(keys[0]); }
      var rest := MaxByPicks(rows, key, ts, blank, keys[1..]);
      kept := [r] + rest;
    }
  }

  lemma {:induction false} PicksCover<R(!new), K(!new)>(rows: seq<R>, key: R -> K, keys: seq<K>, kept: seq<R>)
    requires NoRepeat(keys) && forall k :: k in keys <==> Present(rows, key, k)
    requires |kept| == |keys| && forall i | 0 <= i < |keys| :: key(kept[i]) == keys[i]
    ensures UniqueKeys(kept, key) && SameKeys(rows, key, kept)
  {
    forall k ensures k in keys <==> Present(kept, key, k) {
      if k in keys { var i :| 0 <= i < |keys| && keys[i] == k; assert kept[i] in kept; }
      if Present(kept, key, k) { var q :| q in kept && key(q) == k; var i :| 0 <= i < |kept| && kept[i] == q; }
    }
  }

  lemma {:induction false} LatestExist<R(!new), K(!new)>(rows: seq<R>, key: R -> K, ts: R -> Cell<int>, blank: K -> R)
    returns (byWindow: seq<R>, byMax: seq<R>)
    requires forall k :: key(blank(k)) == k
    ensures WindowLatest(rows, key, ts, byWindow) && MaxByLatest(rows, key, ts, blank, byMax)
  {
    var keys := KeysExist(rows, key);
    byWindow := WindowPicks(rows, key, ts, keys);
    PicksCover(rows, key, keys, byWindow);
    byMax := MaxByPicks(rows, key, ts, blank, keys);
    PicksCover(rows, key, keys, byMax);
  }
}
