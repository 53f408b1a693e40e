/**
  The sum of the odd Fibonacci numbers up to a threshold (`odd_fibnacci_sum`). The sequence
  starts 1, 1, 2, 3, 5, …, so the leading 1 is met, and counted, twice.
*/
module Fibonacci {

  /** The Fibonacci numbers as the loop produces them: 1, 1, 2, 3, 5, 8, … */
  function Fib(n: nat): nat {
    if n < 2 then 1 else Fib(n - 2) + Fib(n - 1)
  }

  /** `x` if it is odd, else nothing: what one step of the loop adds to `sum`. */
  function OddPart(x: nat): nat {
    if x % 2 == 1 then x else 0
  }

  /** The total of the odd values among the first `k` Fibonacci numbers. */
  function OddPrefixSum(k: nat): nat {
    if k == 0 then 0 else OddPrefixSum(k - 1) + OddPart(Fib(k - 1))
  }

  lemma {:induction false} FibAtLeastIndex(n: nat)
    ensures Fib(n) >= n
  {
    if n >= 2 {
      FibAtLeastIndex(n - 1);
      FibAtLeastIndex(n - 2);
    }
  }

  /** From the second number on the sequence grows strictly, so the loop ends. */
  lemma FibGrows(n: nat)
    requires n >= 1
    ensures Fib(n) < Fib(n + 1)
  {
    FibAtLeastIndex(n - 1);
    assert Fib(n + 1) == Fib(n - 1) + Fib(n);
  }

  /** The first index, from `j` on, whose Fibonacci number exceeds `t`, given that none before `j` does. */
  function FirstAboveFrom(j: nat, t: nat): (k: nat)
    requires forall i :: 0 <= i < j ==> Fib(i) <= t
    ensures j <= k && Fib(k) > t
    ensures forall i :: 0 <= i < k ==> Fib(i) <= t
    decreases t + 1 - j
  {
    if Fib(j) > t then j
    else
      FibAtLeastIndex(j);
      FirstAboveFrom(j + 1, t)
  }

  /** The number of Fibonacci numbers (1, 1, 2, …) that are at most `t`. */
  function CountUpTo(t: nat): (k: nat)
    ensures Fib(k) > t
    ensures forall i :: 0 <= i < k ==> Fib(i) <= t
  {
    FirstAboveFrom(0, t)
  }

  /** What `odd_fibnacci_sum(threshold)` returns: the odd Fibonacci numbers at most `threshold`, summed. */
  function OddSumUpTo(threshold: nat): nat {
    if threshold < 1 then 0 else OddPrefixSum(CountUpTo(threshold))
  }

  /**
    Lines 1-24: `a` and `b` walk the Fibonacci numbers, and every odd `a` not above the threshold
    is added to `sum`.
  */
  method OddFibonacciSum(threshold: nat) returns (sum: nat)
    ensures sum == OddSumUpTo(threshold)
    ensures threshold < 1 ==> sum == 0
  {
    if threshold < 1 {
      return 0;
    }
    sum := 0;
    var a := 1;
    var b := 1;
    ghost var k := 0;
    while a <= threshold
      invariant a == Fib(k) && b == Fib(k + 1)
      invariant sum == OddPrefixSum(k)
      invariant forall i :: 0 <= i < k ==> Fib(i) <= threshold
      invariant k <= threshold + 1
      decreases threshold + 1 - k
    {
      FibAtLeastIndex(k);
      if a % 2 == 1 {
        sum := sum + a;
      }
      var next := a + b;
      a := b;
      b := next;
      k := k + 1;
    }
    assert k == CountUpTo(threshold) by {
      var c := CountUpTo(threshold);
      assert !(k < c) && !(c < k);
    }
  }

  /** The leading 1 is counted twice: threshold 1 gives 2. */
  lemma OneCountedTwice()
    ensures OddSumUpTo(1) == 2
  {
    assert Fib(2) == 2;
    var c := CountUpTo(1);
    assert !(c < 2) && !(c > 2);
  }

  /** The odd Fibonacci numbers up to 10 are 1, 1, 3 and 5. */
  lemma UpToTen()
    ensures OddSumUpTo(10) == 10
  {
    assert Fib(5) == 8 && Fib(6) == 13;
    var c := CountUpTo(10);
    assert !(c < 6) && !(c > 6);
  }

  lemma {:induction false} OddPrefixMonotone(i: nat, j: nat)
    requires i <= j
    ensures OddPrefixSum(i) <= OddPrefixSum(j)
  {
    if i < j {
      OddPrefixMonotone(i, j - 1);
    }
  }

  /** A higher threshold never gives a smaller sum. */
  lemma SumMonotone(t1: nat, t2: nat)
    requires t1 <= t2
    ensures OddSumUpTo(t1) <= OddSumUpTo(t2)
  {
    if t1 >= 1 {
      var c1, c2 := CountUpTo(t1), CountUpTo(t2);
      assert c2 < c1 ==> Fib(c2) <= t1;
      OddPrefixMonotone(c1, c2);
    }
  }
}
