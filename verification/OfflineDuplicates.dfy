/** Injected company duplicates of the batch generator, and the rate they achieve. Rates are exact reals. */
module OfflineDuplicates {
  import opened Rounding

  const MINUTE := 60

  /** `createdAt` is in seconds; `entity` stands for the fields a duplicate copies unchanged. */
  datatype Company = Company(entity: int, name: string, createdAt: int, isInjected: bool)

  predicate IsRate(x: real) { 0.0 <= x < 1.0 }

  function Requested(base: nat, rate: real): real
    requires IsRate(rate)
  {
    base as real * rate / (1.0 - rate)
  }

  function DuplicateCount(base: nat, rate: real): int
    requires IsRate(rate)
  {
    if rate == 0.0 then 0 else RoundHalfEven(Requested(base, rate))
  }

  function Injected(base: nat, rate: real): int
    requires IsRate(rate)
  {
    if DuplicateCount(base, rate) < base then DuplicateCount(base, rate) else base
  }

  /** A minute later, under a new name, and marked. */
  predicate CopyOf(copy: Company, row: Company) {
    copy.entity == row.entity && copy.name == row.name + " Updated" && copy.createdAt == row.createdAt + 60
    && copy.isInjected
  }

  /** `rng.sample`: the requested number of distinct rows. */
  ghost predicate IsSample(picks: seq<nat>, count: int, size: nat) {
    && |picks| == count
    && (forall i | 0 <= i < |picks| :: picks[i] < size)
    && forall i, j | 0 <= i < j < |picks| :: picks[i] != picks[j]
  }

  lemma {:induction false} Ratio(base: nat, rate: real)
    requires IsRate(rate)
    ensures Requested(base, rate) >= 0.0
    ensures Requested(base, rate) * (1.0 - rate) == base as real * rate
    ensures rate == 0.0 ==> Requested(base, rate) == 0.0
  {
    var p, a := 1.0 - rate, base as real * rate;
    assert a >= 0.0;
    assert a / p * p == a;
  }

  lemma {:induction false} CountIsRounded(base: nat, rate: real)
    requires IsRate(rate)
    ensures DuplicateCount(base, rate) == RoundHalfEven(Requested(base, rate)) >= 0
  {
    Ratio(base, rate);
  }

  method InjectCompanyDuplicates(rows: seq<Company>, rate: real, picks: seq<nat>) returns (r: seq<Company>)
    requires IsRate(rate) && IsSample(picks, Injected(|rows|, rate), |rows|)
    ensures |r| == |rows| + Injected(|rows|, rate)
    ensures r[..|rows|] == rows
    ensures forall i | 0 <= i < |picks| :: CopyOf(r[|rows| + i], rows[picks[i]])
  {
    var count := DuplicateCount(|rows|, rate);
    if count == 0 { return rows; }
    var duplicates: seq<Company> := [];
    for i := 0 to |picks|
      invariant |duplicates| == i
      invariant forall k | 0 <= k < i :: CopyOf(duplicates[k], rows[picks[k]])
    {
      var duplicate := rows[picks[i]];
      duplicate := duplicate.(name := duplicate.name + " Updated");
      duplicate := duplicate.(createdAt := duplicate.createdAt + MINUTE);
      duplicate := duplicate.(isInjected := true);
      duplicates := duplicates + [duplicate];
    }
    return rows + duplicates;
  }

  lemma {:induction false} ShareTimesTotal(part: real, total: real)
    requires total > 0.0
    ensures part / total * total == part
  {}

  function InjectedRows(rows: seq<Company>): nat {
    if rows == [] then 0 else InjectedRows(rows[..|rows| - 1]) + (if rows[|rows| - 1].isInjected then 1 else 0)
  }

  lemma {:induction false} InjectedRowsCount(rows: seq<Company>, n: nat)
    requires n <= |rows| && forall i | 0 <= i < |rows| :: rows[i].isInjected <==> i >= n
    ensures InjectedRows(rows) == |rows| - n
  {
    if |rows| > n {
      InjectedRowsCount(rows[..|rows| - 1], n);
    } else if rows != [] {
      InjectedRowsCount(rows[..|rows| - 1], n - 1);
    }
  }

  /** Injection and measurement together: the reported rate is the share of injected rows. */
  method GenerateCompanies(base: seq<Company>, rate: real, picks: seq<nat>)
    returns (companies: seq<Company>, achieved: real)
    requires base != [] && IsRate(rate) && IsSample(picks, Injected(|base|, rate), |base|)
    requires forall i | 0 <= i < |base| :: !base[i].isInjected
    ensures |companies| == |base| + Injected(|base|, rate) && companies[..|base|] == base
    ensures forall i | 0 <= i < |picks| :: CopyOf(companies[|base| + i], base[picks[i]])
    ensures achieved == Achieved(|base|, rate)
  {
    companies := InjectCompanyDuplicates(base, rate, picks);
    var duplicateRows := 0;
    for i := 0 to |companies|
      invariant duplicateRows == InjectedRows(companies[..i])
    {
      assert companies[..i + 1][..i] == companies[..i];
      if companies[i].isInjected { duplicateRows := duplicateRows + 1; }
    }
    assert companies[..|companies|] == companies;
    forall i | 0 <= i < |companies| ensures companies[i].isInjected <==> i >= |base| {
      if i < |base| {
        assert companies[i] == companies[..|base|][i];
      } else {
        assert CopyOf(companies[|base| + (i - |base|)], base[picks[i - |base|]]);
      }
    }
    InjectedRowsCount(companies, |base|);
    achieved := duplicateRows as real / |companies| as real;
  }

  function Total(base: nat, rate: real): int
    requires IsRate(rate)
  {
    base + Injected(base, rate)
  }

  function Achieved(base: nat, rate: real): real
    requires base > 0 && IsRate(rate)
  {
    CountIsRounded(base, rate);
    Injected(base, rate) as real / Total(base, rate) as real
  }

  /** The reported rate, times all rows, is the number of injected ones. */
  lemma {:induction false} AchievedMeaning(base: nat, rate: real)
    requires base > 0 && IsRate(rate)
    ensures 0 <= Injected(base, rate) <= base
    ensures Achieved(base, rate) * (base + Injected(base, rate)) as real == Injected(base, rate) as real
  {
    CountIsRounded(base, rate);
    ShareTimesTotal(Injected(base, rate) as real, (base + Injected(base, rate)) as real);
  }

  /** Half a row's worth of error. */
  ghost predicate WithinHalfARow(base: nat, rate: real)
    requires base > 0 && IsRate(rate)
  {
    CountIsRounded(base, rate);
    var bound := (1.0 - rate) / (2.0 * Total(base, rate) as real);
    -bound <= Achieved(base, rate) - rate <= bound
  }

  /** The error, scaled by the number of rows, is the rounding (or clamping) error in duplicates. */
  lemma {:induction false} ErrorIs(base: nat, rate: real)
    requires base > 0 && IsRate(rate)
    ensures Total(base, rate) > 0
    ensures (Achieved(base, rate) - rate) * Total(base, rate) as real
         == (1.0 - rate) * (Injected(base, rate) as real - Requested(base, rate))
  {
    CountIsRounded(base, rate);
    Ratio(base, rate);
    var d, total, b := Injected(base, rate) as real, Total(base, rate) as real, base as real;
    assert total == b + d;
    assert d / total * total == d;
    assert (Achieved(base, rate) - rate) * total == d - rate * total;
    assert rate * total == rate * b + rate * d;
  }

  lemma {:induction false} Scale(x: real, k: real, y: real)
    requires k > 0.0
    ensures x <= y <==> x * k <= y * k
    ensures x <= y <==> k * x <= k * y
  {
    if x <= y { assert (y - x) * k >= 0.0; } else { assert (x - y) * k > 0.0; }
  }

  lemma {:induction false} BoundsAgree(error: real, miss: real, total: real, p: real, bound: real)
    requires total > 0.0 && p > 0.0 && error * total == p * miss && bound * total == p * 0.5
    ensures -bound <= error <= bound <==> -0.5 <= miss <= 0.5
  {
    Scale(error, total, bound);
    Scale(-bound, total, error);
    Scale(miss, p, 0.5);
    Scale(-0.5, p, miss);
    assert (-bound) * total == -(bound * total);
    assert p * -0.5 == -(p * 0.5);
  }

  /** The achieved rate is within half a row of the configured one exactly when the base rows are
      enough for the requested duplicates, up to the half that rounding forgives. */
  lemma {:induction false} RateIsCloseIff(base: nat, rate: real)
    requires base > 0 && IsRate(rate)
    ensures WithinHalfARow(base, rate) <==> base as real * rate / (1.0 - rate) <= base as real + 0.5
  {
    CountIsRounded(base, rate);
    ErrorIs(base, rate);
    var p, total := 1.0 - rate, Total(base, rate) as real;
    var error, miss := Achieved(base, rate) - rate, Injected(base, rate) as real - Requested(base, rate);
    var bound := p / (2.0 * total);
    assert bound * total == p * 0.5 by { assert p / (2.0 * total) * (2.0 * total) == p; }
    BoundsAgree(error, miss, total, p, bound);
    MissIsSmallIff(base, rate);
  }

  lemma {:induction false} MissIsSmallIff(base: nat, rate: real)
    requires IsRate(rate)
    ensures -0.5 <= Injected(base, rate) as real - Requested(base, rate) <= 0.5
       <==> Requested(base, rate) <= base as real + 0.5
  {
    CountIsRounded(base, rate);
    var x, n := Requested(base, rate), DuplicateCount(base, rate);
    if n > base {
      assert n as real >= base as real + 1.0;
    } else {
      assert n as real <= base as real;
    }
  }

  /** One company and a rate of three quarters: three duplicates are asked for, one can be made. */
  lemma {:induction false} RateCanMiss()
    ensures Achieved(1, 0.75) == 0.5 && !WithinHalfARow(1, 0.75)
  {
    assert 1 as real * 0.75 / (1.0 - 0.75) == 3.0;
    CountIsRounded(1, 0.75);
    RoundingIsUnique(3.0, 3);
    RateIsCloseIff(1, 0.75);
  }
}
