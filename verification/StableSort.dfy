/** The built-in stable sort, as insertion from the left, for any order that compares a rank. */
module StableSort {

  /** Places `e` after everything it does not precede. */
  function Placed<T>(before: (T, T) -> bool, xs: seq<T>, e: T): seq<T> {
    if xs == [] || !before(e, xs[|xs| - 1]) then xs + [e]
    else Placed(before, xs[..|xs| - 1], e) + [xs[|xs| - 1]]
  }

  function Sorted<T>(before: (T, T) -> bool, xs: seq<T>): seq<T> {
    if xs == [] then [] else Placed(before, Sorted(before, xs[..|xs| - 1]), xs[|xs| - 1])
  }

  /** On the items of `xs`, `before` compares ranks. */
  ghost predicate Ranks<T(!new)>(before: (T, T) -> bool, rank: T -> int, xs: seq<T>) {
    forall a, b | a in xs && b in xs :: before(a, b) <==> rank(a) < rank(b)
  }

  ghost predicate InOrder<T>(rank: T -> int, xs: seq<T>) {
    forall i, j | 0 <= i < j < |xs| :: rank(xs[i]) <= rank(xs[j])
  }

  ghost function Ranked<T>(rank: T -> int, r: int, xs: seq<T>): seq<T> {
    if xs == [] then []
    else Ranked(rank, r, xs[..|xs| - 1]) + (if rank(xs[|xs| - 1]) == r then [xs[|xs| - 1]] else [])
  }

  lemma {:induction false} SplitLast<T>(xs: seq<T>)
    requires xs != []
    ensures multiset(xs) == multiset(xs[..|xs| - 1]) + multiset{xs[|xs| - 1]}
    ensures forall y :: y in xs <==> y in xs[..|xs| - 1] || y == xs[|xs| - 1]
  {
    assert xs == xs[..|xs| - 1] + [xs[|xs| - 1]];
  }

  lemma {:induction false} PlacedKeepsAll<T>(before: (T, T) -> bool, xs: seq<T>, e: T)
    ensures multiset(Placed(before, xs, e)) == multiset(xs) + multiset{e}
  {
    if xs != [] && before(e, xs[|xs| - 1]) {
      PlacedKeepsAll(before, xs[..|xs| - 1], e);
      SplitLast(xs);
    }
  }

  lemma {:induction false} LastInOrder<T(!new)>(rank: T -> int, xs: seq<T>, x: T)
    requires InOrder(rank, xs) && forall y | y in xs :: rank(y) <= rank(x)
    ensures InOrder(rank, xs + [x])
  {}

  lemma {:induction false} PlacedInOrder<T(!new)>(before: (T, T) -> bool, rank: T -> int, xs: seq<T>, e: T)
    requires InOrder(rank, xs) && forall y | y in xs :: before(e, y) <==> rank(e) < rank(y)
    ensures InOrder(rank, Placed(before, xs, e))
  {
    if xs != [] {
      var rest, x := xs[..|xs| - 1], xs[|xs| - 1];
      SplitLast(xs);
      forall y | y in xs ensures rank(y) <= rank(x) {
        var i :| 0 <= i < |xs| && xs[i] == y;
      }
      if before(e, x) {
        PlacedInOrder(before, rank, rest, e);
        var placed := Placed(before, rest, e);
        PlacedKeepsAll(before, rest, e);
        forall y | y in placed ensures rank(y) <= rank(x) {
          assert y in multiset(placed);
        }
        LastInOrder(rank, placed, x);
      } else {
        LastInOrder(rank, xs, e);
      }
    }
  }

  lemma {:induction false} PlacedIsStable<T(!new)>(before: (T, T) -> bool, rank: T -> int, xs: seq<T>, e: T, r: int)
    requires forall y | y in xs :: before(e, y) <==> rank(e) < rank(y)
    ensures Ranked(rank, r, Placed(before, xs, e)) == Ranked(rank, r, xs + [e])
  {
    assert (xs + [e])[..|xs|] == xs;
    if xs != [] {
      var rest, x := xs[..|xs| - 1], xs[|xs| - 1];
      SplitLast(xs);
      if before(e, x) {
        PlacedIsStable(before, rank, rest, e, r);
        var placed := Placed(before, rest, e);
        assert (placed + [x])[..|placed|] == placed && (rest + [e])[..|rest|] == rest;
      }
    }
  }

  lemma {:induction false} SortedKeepsAll<T>(before: (T, T) -> bool, xs: seq<T>)
    ensures multiset(Sorted(before, xs)) == multiset(xs)
  {
    if xs != [] {
      SortedKeepsAll(before, xs[..|xs| - 1]);
      PlacedKeepsAll(before, Sorted(before, xs[..|xs| - 1]), xs[|xs| - 1]);
      SplitLast(xs);
    }
  }

  /** The result is in order, and items of equal rank keep their order. */
  lemma {:induction false} SortedInOrder<T(!new)>(before: (T, T) -> bool, rank: T -> int, xs: seq<T>, r: int)
    requires Ranks(before, rank, xs)
    ensures InOrder(rank, Sorted(before, xs))
    ensures Ranked(rank, r, Sorted(before, xs)) == Ranked(rank, r, xs)
  {
    if xs != [] {
      var rest, x := xs[..|xs| - 1], xs[|xs| - 1];
      SplitLast(xs);
      SortedInOrder(before, rank, rest, r);
      SortedKeepsAll(before, rest);
      var sorted := Sorted(before, rest);
      forall y | y in sorted ensures y in xs {
        assert y in multiset(sorted);
      }
      PlacedInOrder(before, rank, sorted, x);
      PlacedIsStable(before, rank, sorted, x, r);
      assert (sorted + [x])[..|sorted|] == sorted;
    }
  }
}
