/** The rule-based distress label: a rounded Z-score and five warning signs over nullable statement
    columns. Amounts are exact reals. */
module DistressLabels {
  import opened Relational

  datatype Financials = Financials(financialSector: bool, totalAssets: Cell<real>, totalLiabilities: Cell<real>,
                                   equity: Cell<real>,
                                   currentAssets: Cell<real>, currentLiabilities: Cell<real>,
                                   retainedEarnings: Cell<real>,
                                   ebit: Cell<real>, interestExpense: Cell<real>, netIncome: Cell<real>,
                                   prevNetIncome: Cell<real>, prevQuarter: Cell<int>, quarter: Cell<int>)

  // ------------------------------------------------------------------ column arithmetic

  function Add(a: Cell<real>, b: Cell<real>): Cell<real> { if a.Null? || b.Null? then Null else Val(a.v + b.v) }
  function Sub(a: Cell<real>, b: Cell<real>): Cell<real> { if a.Null? || b.Null? then Null else Val(a.v - b.v) }
  function Scale(k: real, a: Cell<real>): Cell<real> { if a.Null? then Null else Val(k * a.v) }

  /** Division by zero is null. */
  function Div(a: Cell<real>, b: Cell<real>): Cell<real> {
    if a.Null? || b.Null? || b.v == 0.0 then Null else Val(a.v / b.v)
  }

  /** `when(guard > 0, a / guard).otherwise(null)` */
  function GuardedDiv(a: Cell<real>, guard: Cell<real>): Cell<real> {
    if Less(Val(0.0), guard) == Yes then Div(a, guard) else Null
  }

  /** Round half up at four decimals, halves going away from zero. */
  function Round4(x: real): real {
    if x >= 0.0 then (x * 10000.0 + 0.5).Floor as real / 10000.0
    else -((-x * 10000.0 + 0.5).Floor as real / 10000.0)
  }

  // ------------------------------------------------------------------ the rule

  function X4(f: Financials): Cell<real> {
    if f.totalLiabilities == Val(0.0) then Val(99.0) else Div(f.equity, f.totalLiabilities)
  }

  /** The Z-score terms that do not involve liabilities. */
  function Rest(f: Financials): Cell<real> {
    Add(Add(Scale(6.56, GuardedDiv(Sub(f.currentAssets, f.currentLiabilities), f.totalAssets)),
            Scale(3.26, GuardedDiv(f.retainedEarnings, f.totalAssets))),
        Scale(6.72, GuardedDiv(f.ebit, f.totalAssets)))
  }

  function ZScore(f: Financials): Cell<real> {
    var raw := Add(Rest(f), Scale(1.05, X4(f)));
    if raw.Null? then Null else Val(Round4(raw.v))
  }

  function Flag(t: Truth): int { if t == Yes then 1 else 0 }

  function HighDebt(f: Financials): int { Flag(Less(Val(0.8), GuardedDiv(f.totalLiabilities, f.totalAssets))) }
  function LowCurrentRatio(f: Financials): int {
    Flag(Less(GuardedDiv(f.currentAssets, f.currentLiabilities), Val(1.0)))
  }
  function NegativeEquity(f: Financials): int { Flag(Less(f.equity, Val(0.0))) }
  function WeakCoverage(f: Financials): int { Flag(Less(GuardedDiv(f.ebit, f.interestExpense), Val(1.0))) }

  function TwoQuarterLoss(f: Financials): int {
    var consecutive := if f.prevQuarter.Null? then No else if f.quarter.Null? then Unknown
              else Lift(f.quarter.v - f.prevQuarter.v == 1);
    Flag(And(And(Less(f.netIncome, Val(0.0)), Less(f.prevNetIncome, Val(0.0))), consecutive))
  }

  function Warnings(f: Financials): int {
    HighDebt(f) + LowCurrentRatio(f) + TwoQuarterLoss(f) + NegativeEquity(f) + WeakCoverage(f)
  }

  function Label(f: Financials): Cell<int> {
    if f.financialSector then Null
    else
      var z := ZScore(f);
      if z.Null? then (if Warnings(f) >= 2 then Val(1) else Null)
      else if z.v < 1.1 || Warnings(f) >= 2 then Val(1)
      else if z.v > 2.6 && Warnings(f) < 2 then Val(0)
      else Val(0)
  }

  /** The same company with other liabilities, equity being what is left of the assets. */
  function WithLiabilities(f: Financials, liabilities: real): Financials {
    f.(totalLiabilities := Val(liabilities), equity := Sub(f.totalAssets, Val(liabilities)))
  }

  // ------------------------------------------------------------------ arithmetic facts

  lemma {:induction false} FloorMonotone(x: real, y: real)
    requires x <= y
    ensures x.Floor <= y.Floor
  {}

  /** The rounded score falls below 1.1 exactly when the raw score is below the half step under it. */
  lemma {:induction false} BelowThresholdIff(x: real)
    ensures Round4(x) < 1.1 <==> x < 1.09995
  {
    if x >= 0.0 {
      var n := (x * 10000.0 + 0.5).Floor;
      assert Round4(x) < 1.1 <==> n < 11000;
    } else {
      FloorMonotone(0.5, -x * 10000.0 + 0.5);
      assert (0.5).Floor == 0;
    }
  }

  lemma {:induction false} ScaleInequality(a: real, b: real, k: real)
    requires a <= b && k >= 0.0
    ensures a * k <= b * k
  {}

  lemma {:induction false} ProductNonNegative(a: real, b: real)
    requires (a >= 0.0 && b >= 0.0) || (a <= 0.0 && b <= 0.0)
    ensures a * b >= 0.0
  {}

  lemma {:induction false} FactorNonNegative(a: real, b: real)
    requires b > 0.0 && a * b >= 0.0
    ensures a >= 0.0
  {}

  lemma {:induction false} FactorPositive(a: real, b: real)
    requires b > 0.0 && a * b > 0.0
    ensures a > 0.0
  {}

  /** Equity over liabilities does not rise with liabilities on either side of zero. */
  lemma {:induction false} EquityRatioFalls(a: real, l0: real, l1: real)
    requires a > 0.0 && l0 <= l1 && (l0 > 0.0 || l1 < 0.0)
    ensures (a - l1) / l1 <= (a - l0) / l0
  {
    var p := l0 * l1;
    assert p > 0.0;
    var gap := (a - l0) / l0 - (a - l1) / l1;
    assert gap * p == ((a - l0) / l0) * l0 * l1 - ((a - l1) / l1) * l1 * l0;
    assert ((a - l0) / l0) * l0 == a - l0 && ((a - l1) / l1) * l1 == a - l1;
    assert gap * p == a * (l1 - l0);
    ProductNonNegative(a, l1 - l0);
    FactorNonNegative(gap, p);
  }

  // ------------------------------------------------------------------ what the label means

  /** The label read off without the nested conditions. */
  lemma {:induction false} LabelMeaning(f: Financials)
    ensures Label(f) == Val(1) <==> !f.financialSector && (Warnings(f) >= 2 || (ZScore(f).Val? && ZScore(f).v < 1.1))
    ensures Label(f) == Val(0) <==> !f.financialSector && Warnings(f) < 2 && ZScore(f).Val? && ZScore(f).v >= 1.1
    ensures Label(f).Null? <==> f.financialSector || (Warnings(f) < 2 && ZScore(f).Null?)
  {}

  /** In raw terms: distressed by score means the unrounded sum is below 1.09995. */
  lemma {:induction false} DistressedIff(f: Financials)
    ensures Label(f) == Val(1)
       <==> !f.financialSector
            && (Warnings(f) >= 2 || (Rest(f).Val? && X4(f).Val? && Rest(f).v + 1.05 * X4(f).v < 1.09995))
  {
    LabelMeaning(f);
    if Rest(f).Val? && X4(f).Val? { BelowThresholdIff(Rest(f).v + 1.05 * X4(f).v); }
  }

  // ------------------------------------------------------------------ in terms of the columns

  /** Both columns have a value, and these satisfy the comparison after multiplying out a positive denominator. */
  predicate RatioOver(a: Cell<real>, b: Cell<real>, percent: int) {
    a != Null && b != Null && b.v > 0.0 && 100.0 * a.v > percent as real * b.v
  }

  predicate RatioUnderOne(a: Cell<real>, b: Cell<real>) { a != Null && b != Null && b.v > 0.0 && a.v < b.v }

  predicate Negative(a: Cell<real>) { a != Null && a.v < 0.0 }

  /** A loss in this quarter and in the one just before it. */
  predicate LossTwice(f: Financials) {
    && Negative(f.netIncome) && Negative(f.prevNetIncome)
    && f.quarter != Null && f.prevQuarter != Null && f.quarter.v == f.prevQuarter.v + 1
  }

  lemma {:induction false} QuotientAgainst(a: real, b: real, bound: real)
    requires b > 0.0
    ensures a / b > bound <==> a > bound * b
    ensures a / b < bound <==> a < bound * b
  {
    var q := a / b;
    assert q * b == a;
    if q > bound { assert (q - bound) * b > 0.0; }
    if q < bound { assert (bound - q) * b > 0.0; }
    if q == bound { assert q * b == bound * b; }
  }

  /** The five warnings without a division: debt above eighty percent of positive assets, current assets under
      positive current liabilities, two losses in a row, negative equity, earnings under a positive interest. */
  lemma {:induction false} WarningsMeaning(f: Financials)
    ensures HighDebt(f) == if RatioOver(f.totalLiabilities, f.totalAssets, 80) then 1 else 0
    ensures LowCurrentRatio(f) == if RatioUnderOne(f.currentAssets, f.currentLiabilities) then 1 else 0
    ensures TwoQuarterLoss(f) == if LossTwice(f) then 1 else 0
    ensures NegativeEquity(f) == if Negative(f.equity) then 1 else 0
    ensures WeakCoverage(f) == if RatioUnderOne(f.ebit, f.interestExpense) then 1 else 0
  {
    DebtMeaning(f);
    UnderOneMeaning(f.currentAssets, f.currentLiabilities);
    UnderOneMeaning(f.ebit, f.interestExpense);
  }

  lemma {:induction false} DebtMeaning(f: Financials)
    ensures HighDebt(f) == if RatioOver(f.totalLiabilities, f.totalAssets, 80) then 1 else 0
  {
    if f.totalLiabilities.Val? && f.totalAssets.Val? && f.totalAssets.v > 0.0 {
      QuotientAgainst(f.totalLiabilities.v, f.totalAssets.v, 0.8);
    }
  }

  lemma {:induction false} UnderOneMeaning(a: Cell<real>, b: Cell<real>)
    ensures Flag(Less(GuardedDiv(a, b), Val(1.0))) == if RatioUnderOne(a, b) then 1 else 0
  {
    if a.Val? && b.Val? && b.v > 0.0 { QuotientAgainst(a.v, b.v, 1.0); }
  }

  /** The columns the score needs are there, and total assets are positive. */
  predicate Scorable(f: Financials) {
    && f.totalAssets != Null && f.totalAssets.v > 0.0 && f.currentAssets != Null && f.currentLiabilities != Null
    && f.retainedEarnings != Null && f.ebit != Null && f.totalLiabilities != Null
    && (f.totalLiabilities.v != 0.0 ==> f.equity != Null)
  }

  /** The unrounded score: three terms over the assets, and equity over liabilities, or 99 without liabilities. */
  function RawScore(f: Financials): real
    requires Scorable(f)
  {
    var a := f.totalAssets.v;
    var x4 := if f.totalLiabilities.v == 0.0 then 99.0 else f.equity.v / f.totalLiabilities.v;
    6.56 * ((f.currentAssets.v - f.currentLiabilities.v) / a) + 3.26 * (f.retainedEarnings.v / a)
    + 6.72 * (f.ebit.v / a) + 1.05 * x4
  }

  /** The score exists exactly for the scorable rows, and is theirs rounded to four decimals. */
  lemma {:induction false} ScoreMeaning(f: Financials)
    ensures ZScore(f).Val? <==> Scorable(f)
    ensures Scorable(f) ==> RoundedTo(RawScore(f), ZScore(f).v)
  {
    if Scorable(f) {
      assert Rest(f).Val? && X4(f).Val? && Rest(f).v + 1.05 * X4(f).v == RawScore(f);
      Round4Meaning(RawScore(f));
    }
  }

  /** `r` is the ten-thousandth nearest to `x`, the one away from zero if two are equally near. */
  ghost predicate RoundedTo(x: real, r: real) {
    exists n: int :: AreNearest(x, r, n)
  }

  /** With `n` ten-thousandths in `r`. */
  predicate AreNearest(x: real, r: real, n: int) {
    var off := n as real - 10000.0 * x;
    10000.0 * r == n as real && -0.5 <= off <= 0.5 && (off == 0.5 ==> x >= 0.0) && (off == -0.5 ==> x < 0.0)
  }

  lemma {:induction false} Round4Meaning(x: real)
    ensures RoundedTo(x, Round4(x))
  {
    var n := if x >= 0.0 then (x * 10000.0 + 0.5).Floor else -((-x * 10000.0 + 0.5).Floor);
    assert 10000.0 * Round4(x) == n as real;
    assert AreNearest(x, Round4(x), n);
  }

  // ------------------------------------------------------------------ raising liabilities

  /** Which rises in liabilities can never take a distress label away, whatever the other columns hold. */
  predicate SafeRaise(assets: Cell<real>, l0: real, l1: real) {
    || assets.Null? || assets.v <= 0.0 || l0 == l1
    || l0 > 0.0 || l1 < 0.0
    || l1 > assets.v
    || (l0 == 0.0 && 100.0 * l1 >= assets.v)
  }

  lemma {:induction false} ShareRises(a: real, l0: real, l1: real)
    requires a > 0.0 && l0 <= l1
    ensures l0 / a <= l1 / a
  {
    assert (l1 / a - l0 / a) * a == l1 - l0;
    FactorNonNegative(l1 / a - l0 / a, a);
  }

  /** The warning count never falls when liabilities rise. */
  lemma {:induction false} WarningsRise(f: Financials, l0: real, l1: real)
    requires l0 <= l1
    ensures Warnings(WithLiabilities(f, l0)) <= Warnings(WithLiabilities(f, l1))
  {
    if f.totalAssets.Val? && f.totalAssets.v > 0.0 { ShareRises(f.totalAssets.v, l0, l1); }
  }

  lemma {:induction false} RestFixed(f: Financials, l0: real, l1: real)
    ensures Rest(WithLiabilities(f, l0)) == Rest(WithLiabilities(f, l1)) == Rest(f)
    ensures Rest(f).Val? ==> f.totalAssets.Val? && f.totalAssets.v > 0.0
  {}

  /** With liabilities at or above the assets' full amount two warnings fire at once. */
  lemma {:induction false} InsolventIsDistressed(f: Financials, l: real)
    requires f.totalAssets.Val? && f.totalAssets.v > 0.0 && l > f.totalAssets.v && !f.financialSector
    ensures Label(WithLiabilities(f, l)) == Val(1)
  {
    var a := f.totalAssets.v;
    assert (l / a - 1.0) * a == l - a;
    FactorPositive(l / a - 1.0, a);
  }

  /** Safe rises keep the label. */
  lemma {:induction false} SafeRaiseKeepsDistress(f: Financials, l0: real, l1: real)
    requires l0 <= l1 && SafeRaise(f.totalAssets, l0, l1) && !f.financialSector
    requires Label(WithLiabilities(f, l0)) == Val(1)
    ensures Label(WithLiabilities(f, l1)) == Val(1)
  {
    var before, after := WithLiabilities(f, l0), WithLiabilities(f, l1);
    WarningsRise(f, l0, l1);
    RestFixed(f, l0, l1);
    DistressedIff(before);
    DistressedIff(after);
    if Warnings(before) < 2 && l0 != l1 {
      var a := f.totalAssets.v;
      if l1 > a {
        InsolventIsDistressed(f, l1);
      } else if l0 > 0.0 || l1 < 0.0 {
        EquityRatioFalls(a, l0, l1);
      } else {
        CapHolds(a, l1);
      }
    }
  }

  /** From one percent of the assets on, the ratio is under the cap used for zero liabilities. */
  lemma {:induction false} CapHolds(a: real, l: real)
    requires a > 0.0 && l > 0.0
    ensures (a - l) / l <= 99.0 <==> 100.0 * l >= a
  {
    var q := (a - l) / l;
    assert q * l == a - l;
    if q <= 99.0 { ScaleInequality(q, 99.0, l); } else { assert (q - 99.0) * l > 0.0; }
  }

  /** Liabilities up, label never down: any non-financial row with positive liabilities. */
  lemma {:induction false} DistressMonotone(f: Financials, l0: real, l1: real)
    requires !f.financialSector && 0.0 < l0 <= l1
    requires Label(WithLiabilities(f, l0)) == Val(1)
    ensures Label(WithLiabilities(f, l1)) == Val(1)
  {
    SafeRaiseKeepsDistress(f, l0, l1);
  }

  // ------------------------------------------------------------------ and only those

  /** A row whose score is decided by liabilities alone: `rest` is what the other terms contribute. */
  function Probe(assets: real, rest: real): Financials {
    Financials(false, Val(assets), Null, Null, Val(0.0), Val(0.0), Val(rest / 3.26 * assets), Val(0.0), Val(0.0), Null,
               Null, Null, Null)
  }

  lemma {:induction false} Cancel(q: real, a: real)
    requires a > 0.0
    ensures (q * a) / a == q
  {}

  lemma {:induction false} ProbeRest(assets: real, rest: real)
    requires assets > 0.0
    ensures Rest(Probe(assets, rest)) == Val(rest)
  {
    var f, q := Probe(assets, rest), rest / 3.26;
    Cancel(q, assets);
    Cancel(0.0, assets);
    assert 3.26 * q == rest;
    assert f.retainedEarnings.v / assets == q;
  }

  lemma {:induction false} ProbeWarnings(assets: real, rest: real, l: real)
    requires assets > 0.0 && l <= assets
    ensures Warnings(WithLiabilities(Probe(assets, rest), l)) <= 1
  {}

  /** An unsafe rise raises the liabilities term, and some row turns from distressed to healthy. */
  lemma {:induction false} UnsafeRaiseLosesDistress(assets: real, l0: real, l1: real) returns (f: Financials)
    requires l0 <= l1 && !SafeRaise(Val(assets), l0, l1)
    ensures f.totalAssets == Val(assets) && !f.financialSector
    ensures Label(WithLiabilities(f, l0)) == Val(1) && Label(WithLiabilities(f, l1)) == Val(0)
  {
    var x0 := if l0 == 0.0 then 99.0 else (assets - l0) / l0;
    var x1 := if l1 == 0.0 then 99.0 else (assets - l1) / l1;
    UnsafeTermRises(assets, l0, l1);
    f := Probe(assets, 1.09995 - 1.05 * x1);
    ProbeRest(assets, 1.09995 - 1.05 * x1);
    ProbeWarnings(assets, 1.09995 - 1.05 * x1, l1);
    RestFixed(f, l0, l1);
    DistressedIff(WithLiabilities(f, l0));
    DistressedIff(WithLiabilities(f, l1));
    LabelMeaning(WithLiabilities(f, l1));
  }

  lemma {:induction false} UnsafeTermRises(assets: real, l0: real, l1: real)
    requires l0 <= l1 && !SafeRaise(Val(assets), l0, l1)
    ensures (if l0 == 0.0 then 99.0 else (assets - l0) / l0) < (if l1 == 0.0 then 99.0 else (assets - l1) / l1)
  {
    if l0 == 0.0 {
      CapHolds(assets, l1);
    } else {
      var q := (assets - l0) / l0;
      assert q * l0 == assets - l0;
      assert q < 0.0 by {
        if q >= 0.0 { ProductNonNegative(q, -l0); }
      }
      if l1 > 0.0 {
        var p := (assets - l1) / l1;
        assert p * l1 == assets - l1;
        FactorNonNegative(p, l1);
      }
    }
  }

  /** Exactly the safe rises keep every distress label. */
  lemma {:induction false} MonotoneIff(assets: Cell<real>, l0: real, l1: real)
    requires l0 <= l1
    ensures SafeRaise(assets, l0, l1)
       <==> forall f: Financials | f.totalAssets == assets && !f.financialSector
                                   && Label(WithLiabilities(f, l0)) == Val(1)
              :: Label(WithLiabilities(f, l1)) == Val(1)
  {
    if SafeRaise(assets, l0, l1) {
      forall f: Financials | f.totalAssets == assets && !f.financialSector && Label(WithLiabilities(f, l0)) == Val(1)
        ensures Label(WithLiabilities(f, l1)) == Val(1)
      {
        SafeRaiseKeepsDistress(f, l0, l1);
      }
    } else {
      var f := UnsafeRaiseLosesDistress(assets.v, l0, l1);
    }
  }
}
