/**
 * factorial.py: an iterative and a recursive factorial behind the same
 * input guard. Python integers are unbounded, so no overflow is modelled.
 */
module Factorial {
  import opened Wrappers

  /** The `ValueError` both functions raise. */
  datatype FactorialError = NegativeInput  // "Factorial is not defined for negative numbers"

  /** The product `lo * (lo + 1) * ... * hi`, and 1 when the range is empty. */
  function Product(lo: int, hi: int): (p: nat)
    requires 1 <= lo
    ensures p >= 1
    decreases hi - lo
  {
    if hi < lo then 1 else Product(lo, hi - 1) * hi
  }

  /**
   * `factorial_recursive`: an error for negative input, 1 for 0 and 1, and
   * `n * factorial_recursive(n - 1)` above.
   */
  function FactorialRecursive(n: int): (r: Result<nat, FactorialError>)
    ensures r.Failure? <==> n < 0
    ensures r.Failure? ==> r.error == NegativeInput
    ensures n == 0 || n == 1 ==> r == Success(1)
    decreases if n < 0 then 0 else n
  {
    if n < 0 then Failure(NegativeInput)
    else if n == 0 || n == 1 then Success(1)
    else
      var rest := FactorialRecursive(n - 1);
      Success(n * rest.value)
  }

  /** The recursive case, as a property of the results. */
  lemma RecursiveStep(n: int)
    requires n >= 2
    ensures FactorialRecursive(n).Success? && FactorialRecursive(n - 1).Success?
    ensures FactorialRecursive(n).value == n * FactorialRecursive(n - 1).value
  {
  }

  /** The recursive factorial of n is the product 2 * ... * n. */
  lemma {:induction false} RecursiveIsProduct(n: nat)
    ensures FactorialRecursive(n) == Success(Product(2, n))
  {
    if n >= 2 {
      RecursiveIsProduct(n - 1);
      assert Product(2, n) == Product(2, n - 1) * n;
    }
  }

  /**
   * `factorial_iterative`: the same guard and base cases, then
   * `result *= i` for i from 2 to n; it agrees with the recursive version on every input.
   */
  method FactorialIterative(n: int) returns (r: Result<nat, FactorialError>)
    ensures r == FactorialRecursive(n)
    ensures r.Success? ==> r.value == Product(2, n)
  {
    if n < 0 {
      return Failure(NegativeInput);
    }
    if n == 0 || n == 1 {
      return Success(1);
    }
    var result: nat := 1;
    for i := 2 to n + 1
      invariant result == Product(2, i - 1)
    {
      result := result * i;
    }
    RecursiveIsProduct(n);
    r := Success(result);
  }
}
