/** Deterministic weighted routing, over exact weights; the digest that turns a key into one of the
    2^64 buckets is an input. */
module AbRouter {

  const BUCKETS := 0x1_0000_0000_0000_0000

  datatype Variant = Variant(name: string, weight: real)
  datatype Router = Router(variants: seq<Variant>, salt: string)
  datatype Decision = Decision(key: string, variant: string, bucket: real)

  datatype Error = NoVariant | NegativeWeight | NoPositiveSum
  datatype Result<+T> = Ok(value: T) | Err(error: Error)

  /** Total weight of the first `k` variants. */
  function Cumulative(variants: seq<Variant>, k: nat): real
    requires k <= |variants|
  {
    if k == 0 then 0.0 else Cumulative(variants, k - 1) + variants[k - 1].weight
  }

  function Total(variants: seq<Variant>): real { Cumulative(variants, |variants|) }

  function Scaled(variants: seq<Variant>, total: real, k: nat): (r: seq<Variant>)
    requires total > 0.0 && k <= |variants|
    ensures |r| == k && forall i | 0 <= i < k :: r[i] == Variant(variants[i].name, variants[i].weight / total)
  {
    if k == 0 then []
    else Scaled(variants, total, k - 1) + [Variant(variants[k - 1].name, variants[k - 1].weight / total)]
  }

  predicate AnyNegative(variants: seq<Variant>) { exists i | 0 <= i < |variants| :: variants[i].weight < 0.0 }

  /** The constructor and its three refusals. */
  function Create(variants: seq<Variant>, salt: string): Result<Router> {
    if variants == [] then Err(NoVariant)
    else if AnyNegative(variants) then Err(NegativeWeight)
    else if Total(variants) <= 0.0 then Err(NoPositiveSum)
    else Ok(Router(Scaled(variants, Total(variants), |variants|), salt))
  }

  predicate Normal(r: Router) {
    r.variants != [] && !AnyNegative(r.variants) && Total(r.variants) == 1.0
  }

  function Share(n: nat): real { n as real / BUCKETS as real }

  predicate BelowBy(r: Router, n: nat, k: nat)
    requires k < |r.variants|
  {
    Share(n) < Cumulative(r.variants, k + 1)
  }

  /** The variant that takes bucket `n`: the first whose cumulative weight exceeds it. */
  ghost predicate Takes(r: Router, n: nat, k: nat) {
    k < |r.variants| && BelowBy(r, n, k) && forall j | 0 <= j < k :: !BelowBy(r, n, j)
  }

  lemma {:induction false} SplitTotal(variants: seq<Variant>, total: real, k: nat)
    requires total > 0.0 && k <= |variants|
    ensures Cumulative(Scaled(variants, total, |variants|), k) * total == Cumulative(variants, k)
  {
    if k > 0 {
      SplitTotal(variants, total, k - 1);
      var before, w := Cumulative(Scaled(variants, total, |variants|), k - 1), variants[k - 1].weight;
      assert w / total * total == w;
      assert (before + w / total) * total == before * total + w / total * total;
    }
  }

  /** Every router the constructor returns has weights that are not negative and sum to exactly one. */
  lemma {:induction false} CreatedIsNormal(variants: seq<Variant>, salt: string)
    ensures Create(variants, salt).Ok? ==> Normal(Create(variants, salt).value)
    ensures Create(variants, salt).Ok? <==> variants != [] && !AnyNegative(variants) && Total(variants) > 0.0
  {
    if variants != [] && !AnyNegative(variants) && Total(variants) > 0.0 {
      var total, scaled := Total(variants), Scaled(variants, Total(variants), |variants|);
      SplitTotal(variants, total, |variants|);
      OneByScale(Total(scaled), total, Total(scaled) * total);
      forall i | 0 <= i < |scaled| ensures scaled[i].weight >= 0.0 {
        QuotientSign(variants[i].weight, total);
      }
    }
  }

  /** The sum of the weights, from the first variant on. */
  function WeightSum(variants: seq<Variant>): real {
    if variants == [] then 0.0 else variants[0].weight + WeightSum(variants[1..])
  }

  lemma {:induction false} TotalIsSum(variants: seq<Variant>)
    ensures Total(variants) == WeightSum(variants)
  {
    if variants != [] {
      TotalIsSum(variants[1..]);
      CumulativeFromFirst(variants, |variants|);
    }
  }

  lemma {:induction false} CumulativeFromFirst(variants: seq<Variant>, k: nat)
    requires 0 < k <= |variants|
    ensures Cumulative(variants, k) == variants[0].weight + Cumulative(variants[1..], k - 1)
  {
    if k > 1 {
      CumulativeFromFirst(variants, k - 1);
      assert variants[1..][k - 2] == variants[k - 1];
    }
  }

  /** The same names in the same order, each with its weight's share of the sum. */
  predicate HasShares(shares: seq<Variant>, variants: seq<Variant>, sum: real) {
    && |shares| == |variants|
    && forall i | 0 <= i < |variants| ::
         shares[i].name == variants[i].name && shares[i].weight * sum == variants[i].weight
  }

  /** The constructor's three refusals, in their order; what it accepts keeps the salt, the names in order and
      each weight's share of the sum. */
  lemma {:induction false} CreateMeaning(variants: seq<Variant>, salt: string)
    ensures var created := Create(variants, salt);
      if |variants| == 0 then created == Err(NoVariant)
      else if exists i :: 0 <= i < |variants| && variants[i].weight < 0.0 then created == Err(NegativeWeight)
      else if WeightSum(variants) <= 0.0 then created == Err(NoPositiveSum)
      else
        created.Ok? && created.value.salt == salt && HasShares(created.value.variants, variants, WeightSum(variants))
  {
    TotalIsSum(variants);
    if Create(variants, salt).Ok? { ScaledMeaning(variants, WeightSum(variants)); }
  }

  lemma {:induction false} ScaledMeaning(variants: seq<Variant>, sum: real)
    requires sum > 0.0
    ensures HasShares(Scaled(variants, sum, |variants|), variants, sum)
  {
    forall i | 0 <= i < |variants| ensures Scaled(variants, sum, |variants|)[i].weight * sum == variants[i].weight {
      ShareOfSum(variants[i].weight, sum);
    }
  }

  lemma {:induction false} ShareOfSum(w: real, sum: real)
    requires sum > 0.0
    ensures w / sum * sum == w
  {}

  lemma {:induction false} OneByScale(x: real, total: real, product: real)
    requires total > 0.0 && product == x * total && product == total
    ensures x == 1.0
  {
    assert (x - 1.0) * total == 0.0;
  }

  lemma {:induction false} QuotientSign(w: real, total: real)
    requires w >= 0.0 && total > 0.0
    ensures w / total >= 0.0
  {
  }

  lemma {:induction false} CumulativeGrows(r: Router, j: nat, k: nat)
    requires Normal(r) && j <= k <= |r.variants|
    ensures Cumulative(r.variants, j) <= Cumulative(r.variants, k)
    decreases k
  {
    if j < k {
      CumulativeGrows(r, j, k - 1);
      assert r.variants[k - 1].weight >= 0.0;
    }
  }

  lemma {:induction false} ShareBelowOne(n: nat)
    requires n < BUCKETS
    ensures 0.0 <= Share(n) < 1.0
  {
  }

  /** From variant `k` on, the first one whose cumulative weight exceeds the bucket; the last one if none does. */
  function Chosen(r: Router, n: nat, k: nat): (i: nat)
    requires r.variants != [] && k <= |r.variants|
    ensures i < |r.variants|
    decreases |r.variants| - k
  {
    if k == |r.variants| then |r.variants| - 1 else if BelowBy(r, n, k) then k else Chosen(r, n, k + 1)
  }

  method Decide(r: Router, digest: string -> nat, key: string) returns (d: Decision)
    requires r.variants != []
    ensures var n := digest(r.salt + ":" + key); d == Decision(key, r.variants[Chosen(r, n, 0)].name, Share(n))
    ensures d.bucket == digest(r.salt + ":" + key) as real / 18_446_744_073_709_551_616.0
  {
    var n := digest(r.salt + ":" + key);
    var bucket := n as real / BUCKETS as real;
    var cumulative := 0.0;
    for k := 0 to |r.variants|
      invariant cumulative == Cumulative(r.variants, k)
      invariant Chosen(r, n, 0) == Chosen(r, n, k)
    {
      cumulative := cumulative + r.variants[k].weight;
      if bucket < cumulative { return Decision(key, r.variants[k].name, bucket); }
    }
    return Decision(key, r.variants[|r.variants| - 1].name, bucket);
  }

  // ------------------------------------------------------------------ how many buckets each variant gets

  function Ceiling(x: real): (c: int)
    ensures c as real - 1.0 < x <= c as real
  {
    -(0.0 - x).Floor
  }

  /** The first bucket not below the cumulative weight of the first `k` variants. */
  function Bound(r: Router, k: nat): int
    requires k <= |r.variants|
  {
    Ceiling(Cumulative(r.variants, k) * BUCKETS as real)
  }

  lemma {:induction false} BelowIsBound(r: Router, n: nat, k: nat)
    requires k <= |r.variants|
    ensures Share(n) < Cumulative(r.variants, k) <==> n < Bound(r, k)
  {
    var c, x := Bound(r, k), Cumulative(r.variants, k) * BUCKETS as real;
    assert Share(n) < Cumulative(r.variants, k) <==> n as real < x;
    if n as real < x {
      assert (n - c) as real < 0.0;
    } else {
      assert (c - n) as real < 1.0;
    }
  }

  /** A variant takes exactly a run of consecutive buckets. */
  lemma {:induction false} TakesIsInterval(r: Router, n: nat, k: nat)
    requires Normal(r) && k < |r.variants|
    ensures Takes(r, n, k) <==> Bound(r, k) <= n < Bound(r, k + 1)
  {
    BelowIsBound(r, n, k + 1);
    BelowIsBound(r, n, k);
    if k > 0 {
      assert BelowBy(r, n, k - 1) <==> n < Bound(r, k);
      forall j | 0 <= j < k ensures BelowBy(r, n, j) ==> BelowBy(r, n, k - 1) {
        CumulativeGrows(r, j + 1, k);
      }
    } else {
      assert Cumulative(r.variants, 0) * BUCKETS as real == 0.0;
    }
  }

  ghost function Interval(a: int, b: int): (s: set<int>)
    requires a <= b
    decreases b - a
  {
    if a == b then {} else Interval(a, b - 1) + {b - 1}
  }

  lemma {:induction false} IntervalIs(a: int, b: int)
    requires a <= b
    ensures |Interval(a, b)| == b - a && forall n :: n in Interval(a, b) <==> a <= n < b
    decreases b - a
  {
    if a < b { IntervalIs(a, b - 1); }
  }

  ghost predicate AreTheBucketsOf(r: Router, k: nat, s: set<int>) {
    forall n: nat | n < BUCKETS :: n in s <==> Takes(r, n, k)
  }

  lemma {:induction false} Bounds(r: Router, k: nat)
    requires Normal(r) && k < |r.variants|
    ensures 0 <= Bound(r, k) <= Bound(r, k + 1) <= BUCKETS
    ensures Bound(r, 0) == 0 && Bound(r, |r.variants|) == BUCKETS
  {
    CumulativeGrows(r, 0, k);
    CumulativeGrows(r, k, k + 1);
    CumulativeGrows(r, k + 1, |r.variants|);
    var a, b := Cumulative(r.variants, k), Cumulative(r.variants, k + 1);
    assert a * BUCKETS as real <= b * BUCKETS as real <= BUCKETS as real;
    CeilingGrows(a * BUCKETS as real, b * BUCKETS as real);
    CeilingGrows(b * BUCKETS as real, BUCKETS as real);
    CeilingGrows(0.0, a * BUCKETS as real);
    CeilingWhole(BUCKETS);
    CeilingWhole(0);
  }

  lemma {:induction false} CeilingGrows(x: real, y: real)
    requires x <= y
    ensures Ceiling(x) <= Ceiling(y)
  {
    assert (Ceiling(x) - Ceiling(y)) as real < 1.0;
  }

  lemma {:induction false} CeilingWhole(n: int)
    ensures Ceiling(n as real) == n
  {
    assert (Ceiling(n as real) - n) as real < 1.0 && (n - Ceiling(n as real)) as real <= 0.0;
  }

  /** Of the 2^64 buckets, the number routed to a variant differs from its exact share by less than one. */
  lemma {:induction false} BucketCount(r: Router, k: nat) returns (s: set<int>)
    requires Normal(r) && k < |r.variants|
    ensures (forall n | n in s :: 0 <= n < BUCKETS) && AreTheBucketsOf(r, k, s)
    ensures |s| == Bound(r, k + 1) - Bound(r, k)
    ensures -1.0 < |s| as real - r.variants[k].weight * BUCKETS as real < 1.0
    ensures r.variants[k].weight == 0.0 ==> s == {}
  {
    Bounds(r, k);
    s := Interval(Bound(r, k), Bound(r, k + 1));
    IntervalIs(Bound(r, k), Bound(r, k + 1));
    forall n: nat | n < BUCKETS ensures n in s <==> Takes(r, n, k) { TakesIsInterval(r, n, k); }
    var a, b := Cumulative(r.variants, k) * BUCKETS as real, Cumulative(r.variants, k + 1) * BUCKETS as real;
    assert b - a == r.variants[k].weight * BUCKETS as real;
    assert |s| as real == Bound(r, k + 1) as real - Bound(r, k) as real;
  }

  /** Each bucket goes to exactly one variant, the one the loop returns: with weights that sum to one
      the last-variant fallback is never what decides. */
  lemma {:induction false} ExactlyOneTakes(r: Router, n: nat, k: nat)
    requires Normal(r) && n < BUCKETS
    ensures Takes(r, n, k) <==> k == Chosen(r, n, 0)
  {
    ShareBelowOne(n);
    assert BelowBy(r, n, |r.variants| - 1);
    ChosenIsFirst(r, n, 0);
    var i := Chosen(r, n, 0);
    assert k < |r.variants| && k < i ==> !BelowBy(r, n, k);
  }

  lemma {:induction false} ChosenIsFirst(r: Router, n: nat, k: nat)
    requires r.variants != [] && k < |r.variants| && BelowBy(r, n, |r.variants| - 1)
    ensures BelowBy(r, n, Chosen(r, n, k)) && forall j | k <= j < Chosen(r, n, k) :: !BelowBy(r, n, j)
    decreases |r.variants| - k
  {
    if !BelowBy(r, n, k) { ChosenIsFirst(r, n, k + 1); }
  }
}
