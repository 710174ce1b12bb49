/** The distress rule in its row-by-row form, and when its labels are those of the column expressions. */
module RowLabels {
  import opened Relational
  import opened DistressLabels

  // ------------------------------------------------------------------ the rule on one row

  /** The four ratios, in the order of their weights; any denominator but zero divides. */
  function Ratios(f: Financials): seq<Cell<real>> {
    [Div(Sub(f.currentAssets, f.currentLiabilities), f.totalAssets),
     Div(f.retainedEarnings, f.totalAssets),
     Div(f.ebit, f.totalAssets),
     if f.totalLiabilities == Val(0.0) then Val(99.0) else Div(f.equity, f.totalLiabilities)]
  }

  function ZDoublePrime(f: Financials): Cell<real> {
    var r := Ratios(f);
    if Null in r then Null
    else Val(Round4(6.56 * r[0].v + 3.26 * r[1].v + 6.72 * r[2].v + 1.05 * r[3].v))
  }

  predicate Above(a: Cell<real>, bound: real) { a.Val? && a.v > bound }
  predicate Below(a: Cell<real>, bound: real) { a.Val? && a.v < bound }

  predicate IsImmediatelyPreviousQuarter(f: Financials) {
    f.quarter.Val? && f.prevQuarter.Val? && f.quarter.v - f.prevQuarter.v == 1
  }

  /** The five rules, in the order of the dictionary that holds them. */
  function WarningRules(f: Financials): seq<bool> {
    [Above(Div(f.totalLiabilities, f.totalAssets), 0.8),
     Below(Div(f.currentAssets, f.currentLiabilities), 1.0),
     Below(f.netIncome, 0.0) && Below(f.prevNetIncome, 0.0) && IsImmediatelyPreviousQuarter(f),
     Below(f.equity, 0.0),
     Below(Div(f.ebit, f.interestExpense), 1.0)]
  }

  function Count(rules: seq<bool>): nat {
    if rules == [] then 0 else (if rules[0] then 1 else 0) + Count(rules[1..])
  }

  function RowLabel(f: Financials): Cell<int> {
    if f.financialSector then Null
    else
      var z, warnings := ZDoublePrime(f), Count(WarningRules(f));
      if z.Null? then (if warnings >= 2 then Val(1) else Null)
      else if z.v < 1.1 || warnings >= 2 then Val(1)
      else Val(0)
  }

  // ------------------------------------------------------------------ when both rules agree

  predicate NotNegative(c: Cell<real>) { c.Null? || c.v >= 0.0 }

  /** The three guarded denominators. */
  predicate DenominatorsAgree(assets: Cell<real>, currentLiabilities: Cell<real>, interest: Cell<real>) {
    NotNegative(assets) && NotNegative(currentLiabilities) && NotNegative(interest)
  }

  lemma {:induction false} SameQuotient(a: Cell<real>, b: Cell<real>)
    requires NotNegative(b)
    ensures Div(a, b) == GuardedDiv(a, b)
  {}

  lemma {:induction false} CountMore(first: bool, rest: seq<bool>)
    ensures Count([first] + rest) == (if first then 1 else 0) + Count(rest)
  {
    assert ([first] + rest)[1..] == rest;
  }

  lemma {:induction false} CountFive(a: bool, b: bool, c: bool, d: bool, e: bool)
    ensures Count([a, b, c, d, e])
         == (if a then 1 else 0) + (if b then 1 else 0) + (if c then 1 else 0) + (if d then 1 else 0)
            + (if e then 1 else 0)
  {
    CountMore(e, []);
    CountMore(d, [e] + []);
    CountMore(c, [d] + ([e] + []));
    CountMore(b, [c] + ([d] + ([e] + [])));
    CountMore(a, [b] + ([c] + ([d] + ([e] + []))));
    assert [a, b, c, d, e] == [a] + ([b] + ([c] + ([d] + ([e] + []))));
  }

  lemma {:induction false} SameWarnings(f: Financials)
    requires DenominatorsAgree(f.totalAssets, f.currentLiabilities, f.interestExpense)
    ensures Count(WarningRules(f)) == Warnings(f)
  {
    SameQuotient(f.totalLiabilities, f.totalAssets);
    SameQuotient(f.currentAssets, f.currentLiabilities);
    SameQuotient(f.ebit, f.interestExpense);
    var w := WarningRules(f);
    CountFive(w[0], w[1], w[2], w[3], w[4]);
  }

  lemma {:induction false} SameScore(f: Financials)
    requires NotNegative(f.totalAssets)
    ensures ZDoublePrime(f) == ZScore(f)
  {
    SameQuotient(Sub(f.currentAssets, f.currentLiabilities), f.totalAssets);
    SameQuotient(f.retainedEarnings, f.totalAssets);
    SameQuotient(f.ebit, f.totalAssets);
    var r := Ratios(f);
    assert Null in r <==> r[0].Null? || r[1].Null? || r[2].Null? || r[3].Null?;
  }

  function Blank(assets: Cell<real>, currentLiabilities: Cell<real>, interest: Cell<real>): Financials {
    Financials(false, assets, Null, Null, Null, currentLiabilities, Null, Null, interest, Null, Null, Null, Null)
  }

  /** A row on which the two rules differ: negative equity, and a second warning that one of them does not see. */
  function Splitting(assets: Cell<real>, currentLiabilities: Cell<real>, interest: Cell<real>): Financials {
    var f := Blank(assets, currentLiabilities, interest).(equity := Val(-1.0));
    if !NotNegative(assets) then f.(totalLiabilities := assets)
    else if !NotNegative(currentLiabilities) then f.(currentAssets := Val(0.0))
    else f.(ebit := Val(0.0))
  }

  /** A row both rules call distressed: negative equity and two quarters of loss. */
  function Losing(assets: Cell<real>, currentLiabilities: Cell<real>, interest: Cell<real>): Financials {
    Blank(assets, currentLiabilities, interest).(equity := Val(-1.0), netIncome := Val(-1.0),
                                                 prevNetIncome := Val(-1.0), prevQuarter := Val(0), quarter := Val(1))
  }

  lemma {:induction false} NoScore(f: Financials)
    requires f.retainedEarnings.Null?
    ensures ZDoublePrime(f).Null? && ZScore(f).Null?
  {
    assert Ratios(f)[1] == Null;
  }

  /** With negative equity as the only sure warning, one more of the ratios decides the label. */
  lemma {:induction false} RatiosDecide(f: Financials)
    requires f.retainedEarnings.Null? && f.equity == Val(-1.0) && f.netIncome.Null? && !f.financialSector
    ensures RowLabel(f) == Val(1) <==>
              Above(Div(f.totalLiabilities, f.totalAssets), 0.8)
              || Below(Div(f.currentAssets, f.currentLiabilities), 1.0) || Below(Div(f.ebit, f.interestExpense), 1.0)
    ensures HighDebt(f) == 0 && LowCurrentRatio(f) == 0 && WeakCoverage(f) == 0 ==> Label(f).Null?
  {
    NoScore(f);
    var w := WarningRules(f);
    CountFive(w[0], w[1], w[2], w[3], w[4]);
  }

  lemma {:induction false} OwnQuotients(b: real)
    requires b != 0.0
    ensures b / b == 1.0 && 0.0 / b == 0.0
  {}

  lemma {:induction false} SplittingLabels(assets: Cell<real>, currentLiabilities: Cell<real>, interest: Cell<real>)
    requires !DenominatorsAgree(assets, currentLiabilities, interest)
    ensures var f := Splitting(assets, currentLiabilities, interest); RowLabel(f) == Val(1) && Label(f) == Null
  {
    var f := Splitting(assets, currentLiabilities, interest);
    RatiosDecide(f);
    if !NotNegative(assets) { OwnQuotients(assets.v); }
    else if !NotNegative(currentLiabilities) { OwnQuotients(currentLiabilities.v); }
    else { OwnQuotients(interest.v); }
  }

  lemma {:induction false} LosingLabels(assets: Cell<real>, currentLiabilities: Cell<real>, interest: Cell<real>)
    ensures var f := Losing(assets, currentLiabilities, interest); RowLabel(f) == Val(1) && Label(f) == Val(1)
  {
    var f := Losing(assets, currentLiabilities, interest);
    NoScore(f);
    var w := WarningRules(f);
    CountFive(w[0], w[1], w[2], w[3], w[4]);
  }

  /** The row as either rule sees it: the sector verdicts may differ. */
  function InSector(f: Financials, financial: bool): Financials { f.(financialSector := financial) }

  predicate SameDenominators(f: Financials, assets: Cell<real>, currentLiabilities: Cell<real>, interest: Cell<real>) {
    f.totalAssets == assets && f.currentLiabilities == currentLiabilities && f.interestExpense == interest
  }

  lemma {:induction false} SameLabel(f: Financials)
    requires f.financialSector || DenominatorsAgree(f.totalAssets, f.currentLiabilities, f.interestExpense)
    ensures Label(f) == RowLabel(f)
  {
    if !f.financialSector {
      SameWarnings(f);
      SameScore(f);
    }
  }

  lemma {:induction false} LabelsDiffer(p: bool, q: bool, assets: Cell<real>, currentLiabilities: Cell<real>,
                                        interest: Cell<real>) returns (f: Financials)
    requires p != q || (!p && !DenominatorsAgree(assets, currentLiabilities, interest))
    ensures SameDenominators(f, assets, currentLiabilities, interest)
    ensures Label(InSector(f, p)) != RowLabel(InSector(f, q))
  {
    if p == q {
      f := Splitting(assets, currentLiabilities, interest);
      SplittingLabels(assets, currentLiabilities, interest);
    } else {
      f := Losing(assets, currentLiabilities, interest);
      LosingLabels(assets, currentLiabilities, interest);
    }
    assert f == InSector(f, false);
  }

  /** The two rules give the same label on every row with these denominators if and only if the sector
      verdicts are the same and the row is either excluded or has no negative denominator. */
  lemma {:induction false} LabelsAgreeIff(p: bool, q: bool, assets: Cell<real>, currentLiabilities: Cell<real>,
                                          interest: Cell<real>)
    ensures p == q && (p || DenominatorsAgree(assets, currentLiabilities, interest))
       <==> forall f | SameDenominators(f, assets, currentLiabilities, interest)
              :: Label(InSector(f, p)) == RowLabel(InSector(f, q))
  {
    if p == q && (p || DenominatorsAgree(assets, currentLiabilities, interest)) {
      forall f | SameDenominators(f, assets, currentLiabilities, interest)
        ensures Label(InSector(f, p)) == RowLabel(InSector(f, q))
      {
        SameLabel(InSector(f, p));
      }
    } else {
      var f := LabelsDiffer(p, q, assets, currentLiabilities, interest);
    }
  }
}
