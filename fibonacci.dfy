/** Model of `calculate_fibonacci` from the sample project shipped with the
    code assistant. Python integers are unbounded, so the model works on `int`
    directly; there is no wrap-around to model. */
module SampleProject {

  /** The recurrence of `calculate_fibonacci`, on integer arguments: every
      argument at most 1 (zero, one and all negative numbers) is returned
      unchanged, every larger argument is the sum of the two preceding values.
      The mathematical recurrence terminates on every integer, since `n`
      shrinks on each call and every `n <= 1` stops at once; Python's
      recursion-depth limit is not modelled. */
  function CalculateFibonacci(n: int): (r: int)
    decreases n
    ensures n >= 0 ==> r >= 0
    ensures n >= 1 ==> r >= 1
  {
    if n <= 1 then n else CalculateFibonacci(n - 1) + CalculateFibonacci(n - 2)
  }

  /** Reference definition, independent of the doubly recursive shape of
      `calculate_fibonacci`: walk the pair
      (F(i), F(i + 1)) forward `k` times and keep the first component. */
  function FibStep(k: nat, a: nat, b: nat): nat
    decreases k
  {
    if k == 0 then a else FibStep(k - 1, b, a + b)
  }

  /** The textbook Fibonacci numbers, starting 0, 1, 1, 2, 3, 5, ... */
  function Fib(n: nat): nat {
    FibStep(n, 0, 1)
  }

  /** Every argument at most 1, negative ones included, comes back unchanged. */
  lemma BaseCaseReturnsArgument(n: int)
    requires n <= 1
    ensures CalculateFibonacci(n) == n
  {
  }

  /** The recurrence of `calculate_fibonacci` holds at `n` exactly when `n >= 2`: below that
      the base case returns `n`, which never equals `(n - 1) + (n - 2)`. */
  lemma RecurrenceExactlyFromTwo(n: int)
    ensures CalculateFibonacci(n) == CalculateFibonacci(n - 1) + CalculateFibonacci(n - 2) <==> n >= 2
  {
  }

  /** Starting the walk from two consecutive values of `calculate_fibonacci`
      lands `k` places further on. */
  lemma {:induction false} FibStepShift(k: nat, j: nat)
    ensures FibStep(k, CalculateFibonacci(j), CalculateFibonacci(j + 1)) == CalculateFibonacci(j + k)
    decreases k
  {
    if k > 0 {
      assert CalculateFibonacci(j + 2) == CalculateFibonacci(j) + CalculateFibonacci(j + 1);
      FibStepShift(k - 1, j + 1);
    }
  }

  /** On natural numbers `calculate_fibonacci` computes the textbook Fibonacci numbers;
      on negative numbers it returns its argument, not the negafibonacci value. */
  lemma {:induction false} AgreesWithReference(n: int)
    ensures CalculateFibonacci(n) == if n >= 0 then Fib(n) else n
  {
    if n >= 0 {
      FibStepShift(n, 0);
    }
  }

  /** The function never decreases, over all integers: the base case is the
      identity up to 1, and from 1 on every value is at least 1 and each step
      adds a non-negative amount. */
  lemma {:induction false} Monotone(m: int, n: int)
    requires m <= n
    ensures CalculateFibonacci(m) <= CalculateFibonacci(n)
    decreases n - m
  {
    if m < n && m >= 2 {
      Monotone(m, n - 1);
      assert CalculateFibonacci(n) == CalculateFibonacci(n - 1) + CalculateFibonacci(n - 2);
    }
  }

  /** From 2 on the sequence grows strictly: the next value adds one that is
      at least 1. */
  lemma StrictlyIncreasingFromTwo(n: int)
    requires n >= 2
    ensures CalculateFibonacci(n) < CalculateFibonacci(n + 1)
  {
  }

  /** The values the sample project's test asserts, and the value its entry
      point prints for 10. */
  lemma TestFibonacci()
    ensures CalculateFibonacci(0) == 0
    ensures CalculateFibonacci(1) == 1
    ensures CalculateFibonacci(5) == 5
    ensures CalculateFibonacci(10) == 55
  {
  }
}
