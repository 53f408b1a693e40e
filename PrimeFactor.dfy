/**
  Largest prime factor by trial division (`find_max_prime_factor`): factors of 2 are divided out,
  then odd trial divisors from 3 while their square fits and they stay at most 1 000 000,
  and, for a cofactor of at most 1 000 000, trial division continues without that cap.
  A cofactor above 1 000 000 is taken as the answer without a primality test.
*/
module PrimeFactor {
  import opened NumberTheory

  /** The trial divisors stop at this bound in the first loop. */
  const TRIAL_CAP: nat := 1_000_000

  function Product(fs: seq<nat>): nat {
    if fs == [] then 1 else Product(fs[..|fs| - 1]) * fs[|fs| - 1]
  }

  predicate Ascending(fs: seq<nat>) {
    forall j, k :: 0 <= j < k < |fs| ==> fs[j] <= fs[k]
  }

  predicate IsPowerOfTwo(n: nat)
    decreases n
  {
    n == 1 || (n >= 2 && n % 2 == 0 && IsPowerOfTwo(n / 2))
  }

  /**
    `factors` multiply to `n` in ascending order and end with `r`;
    every factor but the last is prime.
  */
  ghost predicate Factorisation(n: nat, factors: seq<nat>, r: nat) {
    factors != [] && Product(factors) == n && Ascending(factors) && r == factors[|factors| - 1]
    && forall j :: 0 <= j < |factors| - 1 ==> IsPrime(factors[j])
  }

  /**
    What the answer `r` for `n >= 2` satisfies: it ends a factorisation of `n`, divides `n`, bounds every
    prime divisor of `n`, and is prime unless it is a cofactor above 10^12 with no divisor up to 10^6;
    for a power of two it is 2.
  */
  ghost predicate Answer(n: nat, factors: seq<nat>, r: nat) {
    && Factorisation(n, factors, r)
    && r >= 2 && Divides(r, n)
    && (forall q: nat :: IsPrime(q) && Divides(q, n) ==> q <= r)
    && (IsPrime(r) || (r > TRIAL_CAP * TRIAL_CAP && forall d :: 2 <= d <= TRIAL_CAP ==> !Divides(d, r)))
    && (n < (TRIAL_CAP + 1) * (TRIAL_CAP + 1) ==> IsPrime(r))
    && (IsPowerOfTwo(n) ==> r == 2)
  }

  /**
    The state shared by both trial loops at trial divisor `i`: the primes divided out so far
    (`removed`, ascending, none above `i`) times the odd cofactor `number` give `n`,
    `number` has no divisor in [2, i), and `maxPrime` is the last prime divided out (0 if none).
  */
  ghost predicate Trial(n: nat, number: nat, i: nat, maxPrime: nat, removed: seq<nat>) {
    && number >= 1 && number % 2 == 1
    && Product(removed) * number == n
    && (forall d :: 2 <= d < i ==> !Divides(d, number))
    && (forall j :: 0 <= j < |removed| ==> IsPrime(removed[j]) && removed[j] <= i)
    && Ascending(removed)
    && maxPrime == (if removed == [] then 0 else removed[|removed| - 1])
    && (IsPowerOfTwo(n) ==> number == 1 && forall j :: 0 <= j < |removed| ==> removed[j] == 2)
  }

  lemma ProductAppend(fs: seq<nat>, x: nat)
    ensures Product(fs + [x]) == Product(fs) * x
  {
    assert (fs + [x])[..|fs|] == fs;
  }

  /** Dividing `i` out of `number` keeps the product and the absence of small divisors. */
  lemma DivideStep(n: nat, number: nat, i: nat, removed: seq<nat>)
    requires i >= 2 && Divides(i, number) && number >= 1
    requires Product(removed) * number == n
    requires forall d :: 2 <= d < i ==> !Divides(d, number)
    ensures Product(removed + [i]) * (number / i) == n
    ensures number / i >= 1 && number / i < number
    ensures forall d :: 2 <= d < i ==> !Divides(d, number / i)
  {
    Quotient(i, number);
    var m := number / i;
    ProductAppend(removed, i);
    assert Product(removed) * number == Product(removed) * (i * m);
    assert Product(removed) * (i * m) == (Product(removed) * i) * m;
    if m == 0 {
    } else {
      MulMonotone(2, i, m);
    }
    DividesProduct(m, i);
    assert m * i == i * m;
    forall d | 2 <= d < i
      ensures !Divides(d, m)
    {
      if Divides(d, m) {
        DividesTransitive(d, m, number);
      }
    }
  }

  /** An odd number with no divisor below odd `i`, and not divisible by `i`, has none below `i + 2`. */
  lemma StepPast(number: nat, i: nat)
    requires i >= 3 && i % 2 == 1 && number % 2 == 1
    requires forall d :: 2 <= d < i ==> !Divides(d, number)
    requires !Divides(i, number)
    ensures forall d :: 2 <= d < i + 2 ==> !Divides(d, number)
  {
    if Divides(i + 1, number) {
      DividesProduct(2, (i + 1) / 2);
      DividesTransitive(2, i + 1, number);
    }
  }

  /**
    Lines 19-22 and 37-40: while `i` divides `number`, record it as `maxPrime` and divide it out;
    then step the divisor past `i`.
  */
  method RemoveFactor(n: nat, number: nat, i: nat, maxPrime: nat, ghost removed: seq<nat>)
    returns (number': nat, maxPrime': nat, ghost removed': seq<nat>)
    requires i >= 3 && i % 2 == 1 && Trial(n, number, i, maxPrime, removed)
    ensures Trial(n, number', i + 2, maxPrime', removed') && number' <= number
    ensures number' == number ==> removed' == removed && maxPrime' == maxPrime
  {
    number', maxPrime', removed' := number, maxPrime, removed;
    while number' % i == 0
      invariant Trial(n, number', i, maxPrime', removed') && number' <= number
      invariant number' == number ==> removed' == removed && maxPrime' == maxPrime
      decreases number'
    {
      DivideStep(n, number', i, removed');
      LeastDivisorPrime(i, number');
      maxPrime' := i;
      removed' := removed' + [i];
      OddQuotient(number', i);
      number' := number' / i;
    }
    StepPast(number', i);
  }

  lemma OddQuotient(number: nat, i: nat)
    requires Divides(i, number) && number % 2 == 1
    ensures (number / i) % 2 == 1
  {
    Quotient(i, number);
    var m := number / i;
    if m % 2 == 0 {
      assert number == 2 * (i * (m / 2));
      DividesProduct(2, i * (m / 2));
    }
  }

  /** Lines 10-13: dividing out the factors of 2. */
  method RemoveTwos(n: nat) returns (number: nat, maxPrime: nat, ghost removed: seq<nat>)
    requires n >= 2
    ensures Trial(n, number, 3, maxPrime, removed)
  {
    number, maxPrime, removed := n, 0, [];
    while number % 2 == 0
      invariant number >= 1 && Product(removed) * number == n
      invariant forall j :: 0 <= j < |removed| ==> removed[j] == 2
      invariant maxPrime == (if removed == [] then 0 else 2)
      invariant IsPowerOfTwo(n) ==> IsPowerOfTwo(number)
      decreases number
    {
      ProductAppend(removed, 2);
      assert Product(removed) * number == (Product(removed) * 2) * (number / 2);
      maxPrime := 2;
      removed := removed + [2];
      number := number / 2;
    }
    assert IsPrime(2);
  }

  /** The primes of a factorisation bound every prime divisor of its product by its last factor. */
  lemma {:induction false} PrimeFactorBound(fs: seq<nat>, q: nat)
    requires fs != [] && Ascending(fs) && IsPrime(q) && Divides(q, Product(fs))
    requires forall j :: 0 <= j < |fs| ==> fs[j] >= 1
    ensures q <= fs[|fs| - 1]
  {
    var init := fs[..|fs| - 1];
    var last := fs[|fs| - 1];
    Euclid(q, Product(init), last);
    if Divides(q, last) {
      DivisorAtMost(q, last);
    } else if init == [] {
      DivisorAtMost(q, 1);
    } else {
      PrimeFactorBound(init, q);
    }
  }

  lemma ProductPositive(fs: seq<nat>)
    requires forall j :: 0 <= j < |fs| ==> fs[j] >= 1
    ensures Product(fs) >= 1
  {
    if fs != [] {
      ProductPositive(fs[..|fs| - 1]);
      MulAtLeast(Product(fs[..|fs| - 1]), fs[|fs| - 1]);
    }
  }

  /** What the final state of the loops says about the answer: a factorisation ending in it, with every prime divisor of `n` at most it. */
  lemma Conclude(n: nat, factors: seq<nat>, r: nat)
    requires n >= 2 && Factorisation(n, factors, r)
    requires forall j :: 0 <= j < |factors| ==> factors[j] >= 2
    ensures r >= 2 && Divides(r, n)
    ensures forall q: nat :: IsPrime(q) && Divides(q, n) ==> q <= r
  {
    var init := factors[..|factors| - 1];
    assert factors == init + [r];
    ProductAppend(init, r);
    DividesProduct(r, Product(init));
    assert r * Product(init) == Product(init) * r;
    forall q: nat | IsPrime(q) && Divides(q, n)
      ensures q <= r
    {
      PrimeFactorBound(factors, q);
    }
  }

  /**
    `find_max_prime_factor`. Inputs 0 and 1 come back unchanged. For `n >= 2` the answer ends a
    factorisation of `n` into ascending factors whose others are prime; it divides `n` and bounds
    every prime divisor of `n`. It is prime unless it exceeds 10^12 with no divisor up to 10^6.
  */
  method FindMaxPrimeFactor(n: nat) returns (r: nat, ghost factors: seq<nat>)
    ensures n <= 1 ==> r == n
    ensures n >= 2 ==> Factorisation(n, factors, r)
    ensures n >= 2 ==> r >= 2 && Divides(r, n)
    ensures n >= 2 ==> forall q: nat :: IsPrime(q) && Divides(q, n) ==> q <= r
    ensures n >= 2 ==> IsPrime(r) || (r > TRIAL_CAP * TRIAL_CAP && forall d :: 2 <= d <= TRIAL_CAP ==> !Divides(d, r))
    ensures 2 <= n < (TRIAL_CAP + 1) * (TRIAL_CAP + 1) ==> IsPrime(r)
    ensures n >= 2 && IsPowerOfTwo(n) ==> r == 2
  {
    if n <= 1 {
      return n, [];
    }
    var number: nat, maxPrime: nat;
    ghost var removed: seq<nat>;
    number, maxPrime, removed := RemoveTwos(n);
    var i: nat;
    number, maxPrime, i, removed := CappedTrial(n, number, maxPrime, removed);
    r, factors := Finish(n, number, i, maxPrime, removed);
  }

  /**
    Lines 28-50, after the capped trial loop: a cofactor above the cap is the answer; a smaller one
    above 1 goes through uncapped trial division and what is left above 1 is the answer;
    otherwise the last prime divided out is.
  */
  method Finish(n: nat, number: nat, i: nat, maxPrime: nat, ghost removed: seq<nat>)
    returns (r: nat, ghost factors: seq<nat>)
    requires n >= 2 && 3 <= i <= TRIAL_CAP + 1 && i % 2 == 1
    requires !(i * i <= number && i <= TRIAL_CAP)
    requires Trial(n, number, i, maxPrime, removed)
    ensures Answer(n, factors, r)
  {
    var rest: nat, last: nat := number, maxPrime;
    var k: int := i;
    ghost var primes: seq<nat> := removed;
    if rest > TRIAL_CAP {
      LargeCofactor(n, rest, k, last, primes);
      last := rest;
      factors := primes + [rest];
    } else if rest > 1 {
      if k < 3 {
        k := 3;
      }
      var k';
      rest, last, k', primes := TrialDivide(n, rest, k, last, primes);
      k := k';
      if rest > 1 {
        PrimeCofactor(n, rest, k, last, primes);
        last := rest;
        factors := primes + [rest];
      } else {
        NoCofactor(n, rest, k, last, primes);
        factors := primes;
      }
    } else {
      NoCofactor(n, rest, k, last, primes);
      factors := primes;
    }
    r := last;
  }

  /** A cofactor with no divisor below `i` is at least `i`, so appending it keeps the factors ascending. */
  lemma AppendCofactor(n: nat, number: nat, i: nat, removed: seq<nat>)
    requires number >= 2 && Product(removed) * number == n
    requires forall d :: 2 <= d < i ==> !Divides(d, number)
    requires forall j :: 0 <= j < |removed| ==> IsPrime(removed[j]) && removed[j] <= i
    requires Ascending(removed)
    ensures Factorisation(n, removed + [number], number)
    ensures forall j :: 0 <= j < |removed + [number]| ==> (removed + [number])[j] >= 2
  {
    var fs := removed + [number];
    ProductAppend(removed, number);
    NoDivisorBelow(number, i);
    forall a, b | 0 <= a < b < |fs|
      ensures fs[a] <= fs[b]
    {
      assert fs[a] == removed[a];
      if b < |removed| {
        assert fs[b] == removed[b];
      }
    }
    DividesProduct(number, 1);
  }

  /** Lines 16-24: odd trial divisors from 3 while their square fits the cofactor and they stay within the cap. */
  method CappedTrial(n: nat, number: nat, maxPrime: nat, ghost removed: seq<nat>)
    returns (number': nat, maxPrime': nat, i: nat, ghost removed': seq<nat>)
    requires Trial(n, number, 3, maxPrime, removed)
    ensures 3 <= i <= TRIAL_CAP + 1 && i % 2 == 1 && !(i * i <= number' && i <= TRIAL_CAP)
    ensures Trial(n, number', i, maxPrime', removed')
  {
    number', maxPrime', removed' := number, maxPrime, removed;
    i := 3;
    while i * i <= number' && i <= TRIAL_CAP
      invariant 3 <= i <= TRIAL_CAP + 1 && i % 2 == 1
      invariant Trial(n, number', i, maxPrime', removed')
      decreases TRIAL_CAP + 1 - i
    {
      assert i != TRIAL_CAP && (i + 2) % 2 == 1;
      number', maxPrime', removed' := RemoveFactor(n, number', i, maxPrime', removed');
      i := i + 2;
    }
  }

  /** Lines 36-42: trial division without the cap, until `i * i` exceeds the cofactor. */
  method TrialDivide(n: nat, number: nat, i: nat, maxPrime: nat, ghost removed: seq<nat>)
    returns (number': nat, maxPrime': nat, i': nat, ghost removed': seq<nat>)
    requires i >= 3 && i % 2 == 1 && Trial(n, number, i, maxPrime, removed)
    ensures i' >= 3 && i' * i' > number' && Trial(n, number', i', maxPrime', removed')
  {
    number', maxPrime', i', removed' := number, maxPrime, i, removed;
    while i' * i' <= number'
      invariant i' >= 3 && i' % 2 == 1
      invariant Trial(n, number', i', maxPrime', removed')
      decreases number' + 2 - i'
    {
      SquareBound(i', number');
      number', maxPrime', removed' := RemoveFactor(n, number', i', maxPrime', removed');
      i' := i' + 2;
    }
  }

  /** Lines 28-32: a cofactor above the cap is the answer, prime when the loop ended on `i * i > number`. */
  lemma LargeCofactor(n: nat, number: nat, i: nat, maxPrime: nat, removed: seq<nat>)
    requires n >= 2 && number > TRIAL_CAP && 3 <= i <= TRIAL_CAP + 1
    requires !(i * i <= number && i <= TRIAL_CAP)
    requires Trial(n, number, i, maxPrime, removed)
    ensures Answer(n, removed + [number], number)
  {
    AppendCofactor(n, number, i, removed);
    Conclude(n, removed + [number], number);
    CofactorAtMost(n, number, removed);
    if i * i > number {
      PrimeBelowSquare(number, i);
    }
  }

  lemma CofactorAtMost(n: nat, number: nat, removed: seq<nat>)
    requires Product(removed) * number == n
    requires forall j :: 0 <= j < |removed| ==> removed[j] >= 1
    ensures number <= n
  {
    ProductPositive(removed);
    if number > 0 {
      MulAtLeast(number, Product(removed));
      assert number * Product(removed) == Product(removed) * number;
    }
  }

  /** Lines 36-47: once `i * i` exceeds a cofactor above 1, the cofactor is prime and is the answer. */
  lemma PrimeCofactor(n: nat, number: nat, i: nat, maxPrime: nat, removed: seq<nat>)
    requires n >= 2 && number >= 2 && i >= 3 && i * i > number
    requires Trial(n, number, i, maxPrime, removed)
    ensures Answer(n, removed + [number], number)
  {
    AppendCofactor(n, number, i, removed);
    Conclude(n, removed + [number], number);
    PrimeBelowSquare(number, i);
  }

  /** A cofactor of 1 leaves the last prime divided out as the answer. */
  lemma NoCofactor(n: nat, number: nat, i: nat, maxPrime: nat, removed: seq<nat>)
    requires n >= 2 && number <= 1 && Trial(n, number, i, maxPrime, removed)
    ensures Answer(n, removed, maxPrime)
  {
    assert removed != [];
    Conclude(n, removed, maxPrime);
  }
}
