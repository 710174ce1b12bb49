/** Python's built-in rounding of a number to an integer, over exact reals. */
module Rounding {

  predicate Even(n: int) { n % 2 == 0 }

  /** The nearest integer; halfway cases go to the even neighbour. */
  function RoundHalfEven(x: real): (n: int)
    ensures n as real - 0.5 <= x <= n as real + 0.5
    ensures x == n as real - 0.5 || x == n as real + 0.5 ==> Even(n)
  {
    var below := x.Floor;
    var rest := x - below as real;
    if rest < 0.5 || (rest == 0.5 && Even(below)) then below else below + 1
  }

  /** The two promises leave no other integer. */
  lemma {:induction false} RoundingIsUnique(x: real, n: int)
    requires n as real - 0.5 <= x <= n as real + 0.5
    requires x == n as real - 0.5 || x == n as real + 0.5 ==> Even(n)
    ensures n == RoundHalfEven(x)
  {
    var m := RoundHalfEven(x);
    assert -1.0 <= n as real - m as real <= 1.0;
    assert -1 <= n - m <= 1;
  }
}
