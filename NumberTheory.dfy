/** Divisibility and primality on natural numbers, shared by the factorisation and the conjecture search. */
module NumberTheory {
  /** `d` is a positive divisor of `n`. */
  predicate Divides(d: nat, n: nat) {
    d > 0 && n % d == 0
  }

  /** `n` has no divisor strictly between 1 and itself. */
  predicate IsPrime(n: nat) {
    n >= 2 && forall d :: 2 <= d < n ==> !Divides(d, n)
  }

  lemma DividesProduct(d: nat, k: nat)
    requires d > 0
    ensures Divides(d, d * k)
  {
    var q := (d * k) / d;
    var r := (d * k) % d;
    assert d * k == d * q + r && 0 <= r < d;
    assert d * (k - q) == r;
    if k - q > 0 {
      MulAtLeast(d, k - q);
    }
  }

  lemma MulAtLeast(a: nat, b: nat)
    requires b >= 1
    ensures a * b >= a
  {
  }

  /** A divisor gives back the number as a product. */
  lemma Quotient(d: nat, n: nat)
    requires Divides(d, n)
    ensures n == d * (n / d)
  {
  }

  lemma DividesTransitive(a: nat, b: nat, c: nat)
    requires Divides(a, b) && Divides(b, c)
    ensures Divides(a, c)
  {
    Quotient(a, b);
    Quotient(b, c);
    assert c == a * ((b / a) * (c / b));
    DividesProduct(a, (b / a) * (c / b));
  }

  /** A common divisor of two numbers divides their difference. */
  lemma DividesDifference(d: nat, x: nat, y: nat)
    requires Divides(d, x) && Divides(d, y) && x >= y
    ensures Divides(d, x - y)
  {
    Quotient(d, x);
    Quotient(d, y);
    var s := x / d;
    var t := y / d;
    assert x - y == d * (s - t);
    DividesProduct(d, s - t);
  }

  lemma DividesMultiple(d: nat, x: nat, k: nat)
    requires Divides(d, x)
    ensures Divides(d, k * x)
  {
    Quotient(d, x);
    assert k * x == d * (k * (x / d));
    DividesProduct(d, k * (x / d));
  }

  /** A divisor of a positive number is at most the number. */
  lemma DivisorAtMost(d: nat, n: nat)
    requires Divides(d, n) && n > 0
    ensures d <= n
  {
    Quotient(d, n);
    MulAtLeast(d, n / d);
  }

  /** Euclid's lemma: a prime that divides a product divides one of the factors. */
  lemma {:induction false} Euclid(p: nat, a: nat, b: nat)
    requires IsPrime(p) && Divides(p, a * b)
    ensures Divides(p, a) || Divides(p, b)
    decreases b
  {
    if b == 0 || b == 1 {
    } else if b >= p {
      EuclidShift(p, a, b);
      Euclid(p, a, b - p);
      if Divides(p, b - p) {
        DividesLift(p, b - p);
      }
    } else {
      EuclidRemainder(p, a, b);
      Euclid(p, a, p % b);
      if Divides(p, p % b) {
        DivisorAtMost(p, p % b);
      }
    }
  }

  lemma EuclidShift(p: nat, a: nat, b: nat)
    requires p > 0 && b >= p && Divides(p, a * b)
    ensures Divides(p, a * (b - p))
  {
    DividesProduct(p, a);
    assert a * (b - p) == a * b - p * a;
    DividesDifference(p, a * b, p * a);
  }

  /** Below a prime, the remainder of the prime by `b` is positive and inherits divisibility of `a * b`. */
  lemma EuclidRemainder(p: nat, a: nat, b: nat)
    requires IsPrime(p) && 2 <= b < p && Divides(p, a * b)
    ensures 0 < p % b < b && Divides(p, a * (p % b))
  {
    assert !Divides(b, p);
    var q := p / b;
    var r := p % b;
    assert p == b * q + r;
    assert a * r == p * a - q * (a * b);
    DividesProduct(p, a);
    DividesMultiple(p, a * b, q);
    DividesDifference(p, p * a, q * (a * b));
  }

  lemma DividesLift(p: nat, x: nat)
    requires Divides(p, x)
    ensures Divides(p, x + p)
  {
    Quotient(p, x);
    assert x + p == p * (x / p + 1);
    DividesProduct(p, x / p + 1);
  }

  /** The least divisor above 1 of a number is prime. */
  lemma LeastDivisorPrime(d: nat, n: nat)
    requires d >= 2 && Divides(d, n)
    requires forall e :: 2 <= e < d ==> !Divides(e, n)
    ensures IsPrime(d)
  {
    forall e | 2 <= e < d
      ensures !Divides(e, d)
    {
      if Divides(e, d) {
        DividesTransitive(e, d, n);
      }
    }
  }

  /** A number above 1 with no divisor below `i`, where `i * i` exceeds it, is prime. */
  lemma PrimeBelowSquare(n: nat, i: nat)
    requires n >= 2 && i * i > n
    requires forall d :: 2 <= d < i ==> !Divides(d, n)
    ensures IsPrime(n)
  {
    forall d | 2 <= d < n
      ensures !Divides(d, n)
    {
      if Divides(d, n) {
        Quotient(d, n);
        var e := n / d;
        if e >= 2 {
          DividesProduct(e, d);
          assert d * e == e * d;
          SquareBelow(d, e, i, n);
        }
      }
    }
  }

  /** Of two factors of `n`, one has a square at most `n`, so it lies below any `i` with `i * i > n`. */
  lemma SquareBelow(d: nat, e: nat, i: nat, n: nat)
    requires n == d * e && i * i > n
    ensures d < i || e < i
  {
    if d >= i && e >= i {
      MulMonotone(i, d, i);
      MulMonotone(i, e, d);
    }
  }

  lemma MulMonotone(a: nat, b: nat, c: nat)
    requires a <= b
    ensures a * c <= b * c
  {
  }

  /** A number whose square fits in `n` is at most `n`. */
  lemma SquareBound(i: nat, n: nat)
    requires i >= 2 && i * i <= n
    ensures i < n
  {
    MulMonotone(2, i, i);
  }

  /** A number above 1 with no divisor below `i` is at least `i`: it divides itself. */
  lemma NoDivisorBelow(number: nat, i: nat)
    requires number >= 2 && forall d :: 2 <= d < i ==> !Divides(d, number)
    ensures number >= i
  {
    assert Divides(number, number);
  }
}
