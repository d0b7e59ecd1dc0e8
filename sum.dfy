/** The summation kata: three ways to compute 1 + 2 + ... + n, each 0 when
    n is not positive. */
module Summation {

  /** Twice the formula's numerator halves exactly: m * (m + 1) is even. */
  lemma {:induction false} ConsecutiveProductEven(m: nat)
    ensures (m * (m + 1)) % 2 == 0
  {
    if m > 0 {
      ConsecutiveProductEven(m - 1);
      assert m * (m + 1) == (m - 1) * m + 2 * m;
    }
  }

  /** `sum_to_n_formula`: Gauss's closed form on max(0, n). The division by
      two is exact, so the result is a non-negative integer. */
  function SumFormula(n: int): (r: nat)
    ensures var m := if n < 0 then 0 else n; 2 * r == m * (m + 1)
  {
    var m := if n < 0 then 0 else n;
    ConsecutiveProductEven(m);
    m * (m + 1) / 2
  }

  /** Adding the next number to the closed form gives the next closed form. */
  lemma FormulaStep(i: nat)
    ensures SumFormula(i) == SumFormula(i - 1) + i
  {
    assert 2 * SumFormula(i) == 2 * SumFormula(i - 1) + 2 * i;
  }

  /** `sum_to_n_recursive`: 0 for n <= 0, otherwise n plus the sum to n - 1.
      It terminates for every integer and agrees with the closed form. */
  function SumRecursive(n: int): (r: int)
    decreases n
    ensures r == SumFormula(n)
  {
    if n <= 0 then 0
    else
      FormulaStep(n);
      n + SumRecursive(n - 1)
  }

  /** `sum_to_n_iterative`: adds 1, 2, ..., n to a running total. Before the
      iteration for `i` the total is (i - 1) * i / 2. */
  method SumIterative(n: int) returns (sum: int)
    ensures sum == SumFormula(n)
    ensures sum == SumRecursive(n)
    ensures n <= 0 ==> sum == 0
  {
    sum := 0;
    var i := 1;
    while i <= n
      invariant 1 <= i <= (if n < 0 then 0 else n) + 1
      invariant sum == (i - 1) * i / 2
      invariant sum == SumFormula(i - 1)
    {
      FormulaStep(i);
      sum := sum + i;
      i := i + 1;
    }
  }
}
