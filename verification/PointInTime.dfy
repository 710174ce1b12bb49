/** The point-in-time feature join: every reference row is paired with the market rows of its ticker that
    are not later than it, and a window keeps the newest one. */
module PointInTime {
  import opened Relational

  datatype Reference = Reference(ticker: Cell<string>, reportPeriod: Cell<string>, eventTs: Cell<int>,
                                 columns: seq<Cell<string>>)
  datatype Market = Market(ticker: Cell<string>, eventTs: Cell<int>, features: seq<Cell<string>>)

  /** One row of the left join; `market` is null when nothing matched and every feature column is null. */
  datatype Pair = Pair(ref: Reference, market: Cell<Market>)

  type Key = (Cell<string>, Cell<string>)

  function RefKey(r: Reference): Key { (r.ticker, r.reportPeriod) }
  function PairKey(p: Pair): Key { RefKey(p.ref) }
  function FeatureTs(p: Pair): Cell<int> { if p.market.Null? then Null else p.market.v.eventTs }

  function NotLater(a: Cell<int>, b: Cell<int>): Truth {
    if a.Null? || b.Null? then Unknown else Lift(a.v <= b.v)
  }

  /** The join condition in three-valued logic; only a definite yes matches. */
  predicate Eligible(r: Reference, m: Market) {
    And(Equal(r.ticker, m.ticker), NotLater(m.eventTs, r.eventTs)) == Yes
  }

  function Matches(r: Reference, market: seq<Market>): (pairs: seq<Pair>)
    ensures forall p :: p in pairs <==> p.ref == r && p.market.Val? && p.market.v in market && Eligible(r, p.market.v)
  {
    if market == [] then []
    else if Eligible(r, market[0]) then [Pair(r, Val(market[0]))] + Matches(r, market[1..])
    else Matches(r, market[1..])
  }

  function LeftRows(r: Reference, market: seq<Market>): seq<Pair> {
    var matched := Matches(r, market);
    if matched == [] then [Pair(r, Null)] else matched
  }

  function LeftJoin(refs: seq<Reference>, market: seq<Market>): seq<Pair> {
    if refs == [] then [] else LeftRows(refs[0], market) + LeftJoin(refs[1..], market)
  }

  /** What the builder may return: any way of breaking ties in the window, rows in any order. */
  ghost predicate Unified(refs: seq<Reference>, market: seq<Market>, out: seq<Pair>) {
    WindowLatest(LeftJoin(refs, market), PairKey, FeatureTs, out)
  }

  // ------------------------------------------------------------------ the nested-loop specification

  /** The market row belongs to the reference row's ticker and was there at its time. */
  predicate KnownThen(r: Reference, m: Market) {
    r.ticker.Val? && m.ticker == r.ticker && r.eventTs.Val? && m.eventTs.Val? && m.eventTs.v <= r.eventTs.v
  }

  /** The features a reference row should get: null if no market row was known then, otherwise one that
      no other known one is later than. */
  ghost predicate PointInTimePick(r: Reference, market: seq<Market>, pick: Cell<Market>) {
    if pick.Null? then
      forall m | m in market :: !KnownThen(r, m)
    else
      && pick.v in market && KnownThen(r, pick.v)
      && forall m | m in market && KnownThen(r, m) :: m.eventTs.v <= pick.v.eventTs.v
  }

  /** No (ticker, period) repeats. */
  ghost predicate KeysDiffer(refs: seq<Reference>) {
    forall i, j | 0 <= i < j < |refs| ::
      refs[i].ticker != refs[j].ticker || refs[i].reportPeriod != refs[j].reportPeriod
  }

  /** One output row per reference row, each carrying a correct pick. */
  ghost predicate NestedLoop(refs: seq<Reference>, market: seq<Market>, out: seq<Pair>) {
    && |out| == |refs| && (forall i, j | 0 <= i < j < |out| :: out[i].ref != out[j].ref)
    && (forall r | r in refs :: exists p :: p in out && p.ref == r)
    && (forall p | p in out :: p.ref in refs && PointInTimePick(p.ref, market, p.market))
  }

  // ------------------------------------------------------------------ what the join contains

  lemma {:induction false} LeftJoinMembers(refs: seq<Reference>, market: seq<Market>, p: Pair)
    ensures p in LeftJoin(refs, market)
       <==> p.ref in refs && (if p.market.Null? then forall m | m in market :: !Eligible(p.ref, m)
                              else p.market.v in market && Eligible(p.ref, p.market.v))
  {
    if refs != [] {
      LeftJoinMembers(refs[1..], market, p);
      LeftRowsMembers(refs[0], market, p);
      assert refs == [refs[0]] + refs[1..];
    }
  }

  lemma {:induction false} LeftRowsMembers(r: Reference, market: seq<Market>, p: Pair)
    ensures p in LeftRows(r, market)
       <==> p.ref == r && (if p.market.Null? then forall m | m in market :: !Eligible(r, m)
                           else p.market.v in market && Eligible(r, p.market.v))
  {
    var matched := Matches(r, market);
    if matched == [] {
      forall m | m in market ensures !Eligible(r, m) {
        assert Pair(r, Val(m)) !in matched;
      }
    } else {
      assert matched[0] in matched;
    }
  }

  /** Every reference row survives the left join. */
  lemma {:induction false} SomePair(refs: seq<Reference>, market: seq<Market>, r: Reference) returns (p: Pair)
    requires r in refs
    ensures p in LeftJoin(refs, market) && p.ref == r
  {
    if m :| m in market && Eligible(r, m) {
      p := Pair(r, Val(m));
    } else {
      p := Pair(r, Null);
    }
    LeftJoinMembers(refs, market, p);
  }

  lemma {:induction false} KeysSurvive(refs: seq<Reference>, market: seq<Market>, k: Key)
    ensures Present(LeftJoin(refs, market), PairKey, k) <==> Present(refs, RefKey, k)
  {
    if Present(refs, RefKey, k) {
      var r :| r in refs && RefKey(r) == k;
      var p := SomePair(refs, market, r);
    }
    if Present(LeftJoin(refs, market), PairKey, k) {
      var p :| p in LeftJoin(refs, market) && PairKey(p) == k;
      LeftJoinMembers(refs, market, p);
    }
  }

  // ------------------------------------------------------------------ main results

  lemma {:induction false} EligibleIff(r: Reference, m: Market)
    ensures Eligible(r, m) <==> KnownThen(r, m)
  {}

  lemma {:induction false} KeysDifferIff(refs: seq<Reference>)
    ensures KeysDiffer(refs) <==> UniqueKeys(refs, RefKey)
  {
    if KeysDiffer(refs) {
      forall i, j | 0 <= i < j < |refs| ensures RefKey(refs[i]) != RefKey(refs[j]) {}
    } else {
      var i, j :| 0 <= i < j < |refs| && refs[i].ticker == refs[j].ticker
                  && refs[i].reportPeriod == refs[j].reportPeriod;
      assert RefKey(refs[i]) == RefKey(refs[j]);
    }
  }

  lemma {:induction false} SameReference(refs: seq<Reference>, a: Reference, b: Reference)
    requires UniqueKeys(refs, RefKey) && a in refs && b in refs && RefKey(a) == RefKey(b)
    ensures a == b
  {
    var i :| 0 <= i < |refs| && refs[i] == a;
    var j :| 0 <= j < |refs| && refs[j] == b;
  }

  /** Being first in the window is exactly being a correct point-in-time pick. */
  lemma {:induction false} FirstIffPick(refs: seq<Reference>, market: seq<Market>, p: Pair)
    requires KeysDiffer(refs) && p.ref in refs
    ensures IsRowNumberOne(LeftJoin(refs, market), PairKey, FeatureTs, p) <==> PointInTimePick(p.ref, market, p.market)
  {
    var joined := LeftJoin(refs, market);
    KeysDifferIff(refs);
    LeftJoinMembers(refs, market, p);
    forall m ensures Eligible(p.ref, m) <==> KnownThen(p.ref, m) { EligibleIff(p.ref, m); }
    if IsRowNumberOne(joined, PairKey, FeatureTs, p) && p.market.Val? {
      forall m | m in market && KnownThen(p.ref, m) ensures m.eventTs.v <= p.market.v.eventTs.v {
        LeftJoinMembers(refs, market, Pair(p.ref, Val(m)));
        assert !Newer(FeatureTs(Pair(p.ref, Val(m))), FeatureTs(p));
      }
    }
    if PointInTimePick(p.ref, market, p.market) {
      forall q | q in joined && PairKey(q) == PairKey(p) ensures !Newer(FeatureTs(q), FeatureTs(p)) {
        LeftJoinMembers(refs, market, q);
        SameReference(refs, p.ref, q.ref);
      }
    }
  }

  lemma {:induction false} MatchingCounts(refs: seq<Reference>, out: seq<Pair>)
    requires UniqueKeys(out, PairKey)
    requires forall k :: Present(refs, RefKey, k) <==> Present(out, PairKey, k)
    ensures |out| == |refs| <==> UniqueKeys(refs, RefKey)
  {
    var outKeys := seq(|out|, i requires 0 <= i < |out| => PairKey(out[i]));
    var refKeys := seq(|refs|, i requires 0 <= i < |refs| => RefKey(refs[i]));
    DistinctCount(outKeys);
    DistinctCount(refKeys);
    forall k ensures k in outKeys <==> k in refKeys {
      KeyListed(out, PairKey, outKeys, k);
      KeyListed(refs, RefKey, refKeys, k);
    }
    assert (set k | k in outKeys) == (set k | k in refKeys);
    assert NoRepeat(refKeys) <==> UniqueKeys(refs, RefKey) by {
      if NoRepeat(refKeys) {
        forall i, j | 0 <= i < j < |refs|
          ensures RefKey(refs[i]) != RefKey(refs[j])
        {
          assert refKeys[i] != refKeys[j];
        }
      }
    }
    assert NoRepeat(outKeys);
  }

  lemma {:induction false} KeyListed<R(!new), K>(rows: seq<R>, key: R -> K, keys: seq<K>, k: K)
    requires |keys| == |rows| && forall i | 0 <= i < |rows| :: keys[i] == key(rows[i])
    ensures k in keys <==> Present(rows, key, k)
  {
    if Present(rows, key, k) {
      var r :| r in rows && key(r) == k;
      var i :| 0 <= i < |rows| && rows[i] == r;
      assert keys[i] == k;
    }
    if k in keys {
      var i :| 0 <= i < |keys| && keys[i] == k;
      assert rows[i] in rows;
    }
  }

  /** The builder returns one row per reference row exactly when no (ticker, period) repeats. */
  lemma {:induction false} OneRowEachIff(refs: seq<Reference>, market: seq<Market>, out: seq<Pair>)
    requires Unified(refs, market, out)
    ensures |out| == |refs| <==> KeysDiffer(refs)
  {
    KeysDifferIff(refs);
    forall k ensures Present(refs, RefKey, k) <==> Present(out, PairKey, k) {
      KeysSurvive(refs, market, k);
    }
    MatchingCounts(refs, out);
  }

  /** With unique keys, the possible results of the join and window are exactly the results of the
      nested loop. */
  lemma {:induction false} JoinIsNestedLoop(refs: seq<Reference>, market: seq<Market>, out: seq<Pair>)
    requires KeysDiffer(refs)
    ensures Unified(refs, market, out) <==> NestedLoop(refs, market, out)
  {
    KeysDifferIff(refs);
    if Unified(refs, market, out) {
      OneRowEachIff(refs, market, out);
      forall i, j | 0 <= i < j < |out| ensures out[i].ref != out[j].ref {
        assert PairKey(out[i]) != PairKey(out[j]);
      }
      forall p | p in out ensures p.ref in refs && PointInTimePick(p.ref, market, p.market) {
        LeftJoinMembers(refs, market, p);
        FirstIffPick(refs, market, p);
      }
      forall r | r in refs ensures exists p :: p in out && p.ref == r {
        KeysSurvive(refs, market, RefKey(r));
        assert Present(refs, RefKey, RefKey(r)) && Present(out, PairKey, RefKey(r));
        var p :| p in out && PairKey(p) == RefKey(r);
        LeftJoinMembers(refs, market, p);
        SameReference(refs, r, p.ref);
      }
    }
    if NestedLoop(refs, market, out) {
      forall i, j | 0 <= i < j < |out| ensures PairKey(out[i]) != PairKey(out[j]) {
        assert out[i] in out && out[j] in out;
        if RefKey(out[i].ref) == RefKey(out[j].ref) { SameReference(refs, out[i].ref, out[j].ref); }
      }
      forall p | p in out ensures IsRowNumberOne(LeftJoin(refs, market), PairKey, FeatureTs, p) {
        FirstIffPick(refs, market, p);
      }
      forall k ensures Present(LeftJoin(refs, market), PairKey, k) <==> Present(out, PairKey, k) {
        KeysSurvive(refs, market, k);
        if Present(refs, RefKey, k) {
          var r :| r in refs && RefKey(r) == k;
          var p :| p in out && p.ref == r;
        }
      }
    }
  }

  /** The builder has a result for every pair of tables, unique keys or not. */
  lemma {:induction false} ResultExists(refs: seq<Reference>, market: seq<Market>) returns (out: seq<Pair>)
    ensures Unified(refs, market, out)
  {
    var joined := LeftJoin(refs, market);
    var keys := KeysExist(joined, PairKey);
    out := WindowPicks(joined, PairKey, FeatureTs, keys);
    PicksCover(joined, PairKey, keys, out);
  }
}
