/** Python's rounding and truncation of a number, over the reals.
    `round` ties to even, `int` truncates toward zero. */
module Rounding {

  function Abs(x: real): real {
    if x < 0.0 then -x else x
  }

  function Min(x: real, y: real): real {
    if y < x then y else x
  }

  function Max(x: real, y: real): real {
    if y > x then y else x
  }

  /** `int(x)` */
  function Trunc(x: real): int {
    if x >= 0.0 then x.Floor else -((-x).Floor)
  }

  /** `round(x)`: the nearest integer, ties to the even neighbour. */
  function Round(x: real): (n: int)
    ensures n as real - 0.5 <= x <= n as real + 0.5
  {
    var below := x.Floor;
    var part := x - below as real;
    if part < 0.5 || (part == 0.5 && below % 2 == 0) then below else below + 1
  }

  /** Truncation drops the fraction, toward zero on either side. */
  lemma TruncDropsFraction(x: real)
    ensures 0.0 <= x ==> 0.0 <= Trunc(x) as real <= x < Trunc(x) as real + 1.0
    ensures x <= 0.0 ==> Trunc(x) as real - 1.0 < x <= Trunc(x) as real <= 0.0
  {}

  /** A half rounds to the even neighbour, down or up. */
  lemma HalvesRoundToEven(n: int)
    ensures Round(2.0 * n as real + 0.5) == 2 * n && Round(2.0 * n as real - 0.5) == 2 * n
  {
    assert (2.0 * n as real + 0.5).Floor == 2 * n;
    assert (2.0 * n as real - 0.5).Floor == 2 * n - 1;
  }

  lemma RoundMonotone(x: real, y: real)
    requires x <= y
    ensures Round(x) <= Round(y)
  {
    if x.Floor < y.Floor {
      assert x.Floor + 1 <= y.Floor;
    }
  }

  lemma RoundWhole(n: int)
    ensures Round(n as real) == n
  {}

  lemma RoundNegated(x: real)
    ensures Round(-x) == -Round(x)
  {
    if x == x.Floor as real {
      RoundWhole(x.Floor);
      RoundWhole(-x.Floor);
      assert -x == (-x.Floor) as real;
    } else {
      assert (-x).Floor == -x.Floor - 1;
    }
  }

  /** `round(x, 2)` */
  function Cents(x: real): (c: real)
    ensures x - 0.005 <= c <= x + 0.005
  {
    Round(100.0 * x) as real / 100.0
  }

  /** `round(x, 2)` is a whole number of cents, and keeps one. */
  lemma CentsAreWhole(x: real)
    ensures Cents(x) == Round(100.0 * x) as real / 100.0 && IsWhole(100.0 * Cents(x))
    ensures IsWhole(100.0 * x) ==> Cents(x) == x
  {
    var n := Round(100.0 * x);
    assert 100.0 * (n as real / 100.0) == n as real;
    if IsWhole(100.0 * x) {
      RoundWhole((100.0 * x).Floor);
    }
  }

  predicate IsWhole(x: real) {
    x == x.Floor as real
  }

  lemma CentsMonotone(x: real, y: real)
    requires x <= y
    ensures Cents(x) <= Cents(y)
  {
    RoundMonotone(100.0 * x, 100.0 * y);
  }

  lemma CentsNegated(x: real)
    ensures Cents(-x) == -Cents(x)
  {
    RoundNegated(100.0 * x);
    assert 100.0 * (-x) == -(100.0 * x);
  }
}
