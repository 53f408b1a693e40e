/**
  The search for odd composite numbers that are not a prime plus twice a square
  (`goldbach_conjecture`): a 6k +/- 1 wheel primality test, the test of one candidate for a
  representation p + 2k^2, and the loop over odd candidates from 9 that keeps the first two failures.
*/
module Conjecture {
  import opened Wrappers
  import opened NumberTheory
  import Text

  /** Lines 3-14: `is_prime`, trial division by 2, 3 and then 5, 7, 11, 13, ... (steps of 2 and 4). */
  method IsPrimeWheel(n: nat) returns (r: bool)
    ensures r == IsPrime(n)
  {
    if n <= 1 {
      return false;
    }
    if n <= 3 {
      assert n == 2 || n == 3;
      return true;
    }
    if n % 2 == 0 || n % 3 == 0 {
      assert Divides(2, n) || Divides(3, n);
      return false;
    }
    var i: nat, w: nat := 5, 2;
    WheelStart(n);
    while i * i <= n
      invariant i >= 5 && WheelPosition(i, w)
      invariant forall d :: 2 <= d < i ==> !Divides(d, n)
      decreases n - i
    {
      SquareBound(i, n);
      if n % i == 0 {
        assert Divides(i, n);
        return false;
      }
      WheelStep(n, i, w);
      i := i + w;
      w := 6 - w;
    }
    PrimeBelowSquare(n, i);
    return true;
  }

  /** `i` is 1 less than a multiple of 6 with the next step 2, or 1 more with the next step 4. */
  predicate WheelPosition(i: nat, w: nat) {
    (i % 6 == 5 && w == 2) || (i % 6 == 1 && w == 4)
  }

  /** A multiple of 2 or 3 that divides `n` makes 2 or 3 divide `n`. */
  lemma SmallFactorOf(n: nat, d: nat, s: nat, t: nat)
    requires s > 0 && Divides(d, n) && d == s * t
    ensures Divides(s, n)
  {
    DividesProduct(s, t);
    DividesTransitive(s, d, n);
  }

  lemma WheelStart(n: nat)
    requires n % 2 != 0 && n % 3 != 0
    ensures forall d :: 2 <= d < 5 ==> !Divides(d, n)
  {
    if Divides(4, n) {
      SmallFactorOf(n, 4, 2, 2);
    }
  }

  /** Between `i` and `i + w` only multiples of 2 or 3 are skipped. */
  lemma WheelStep(n: nat, i: nat, w: nat)
    requires n % 2 != 0 && n % 3 != 0 && !Divides(i, n)
    requires WheelPosition(i, w)
    requires forall d :: 2 <= d < i ==> !Divides(d, n)
    ensures forall d :: 2 <= d < i + w ==> !Divides(d, n)
    ensures WheelPosition(i + w, 6 - w)
  {
    WheelAdvance(i, w);
    WheelSkips(n, i, w);
    forall d | 2 <= d < i + w
      ensures !Divides(d, n)
    {
      if d > i {
        assert i < d < i + w;
      }
    }
  }

  lemma WheelAdvance(i: nat, w: nat)
    requires WheelPosition(i, w)
    ensures WheelPosition(i + w, 6 - w)
  {
    var q := i / 6;
    if w == 2 {
      assert i == 6 * q + 5;
      assert i + w == 6 * (q + 1) + 1;
    } else {
      assert i == 6 * q + 1;
      assert i + w == 6 * q + 5;
    }
  }

  /** The candidates the wheel skips after `i` are multiples of 2 or 3. */
  lemma WheelSkips(n: nat, i: nat, w: nat)
    requires n % 2 != 0 && n % 3 != 0 && WheelPosition(i, w)
    ensures forall d :: i < d < i + w ==> !Divides(d, n)
  {
    var q := i / 6;
    if w == 2 {
      assert i == 6 * q + 5;
      NotDivides(n, i + 1, 2, 3 * q + 3);
    } else {
      assert i == 6 * q + 1;
      NotDivides(n, i + 1, 2, 3 * q + 1);
      NotDivides(n, i + 2, 3, 2 * q + 1);
      NotDivides(n, i + 3, 2, 3 * q + 2);
    }
    forall d | i < d < i + w
      ensures !Divides(d, n)
    {
      assert d == i + 1 || d == i + 2 || d == i + 3;
    }
  }

  /** A multiple of 2 or 3 does not divide `n` when 2 or 3 does not. */
  lemma NotDivides(n: nat, d: nat, s: nat, t: nat)
    requires s > 0 && d == s * t && !Divides(s, n)
    ensures !Divides(d, n)
  {
    if Divides(d, n) {
      SmallFactorOf(n, d, s, t);
    }
  }

  /** The integer floor of the square root, in place of `(n as f64).sqrt().floor()`. */
  function FloorSqrt(n: nat): (k: nat)
    ensures k * k <= n < (k + 1) * (k + 1)
  {
    if n == 0 then 0
    else
      var k := FloorSqrt(n - 1);
      if (k + 1) * (k + 1) <= n then
        assert (k + 2) * (k + 2) == (k + 1) * (k + 1) + 2 * k + 3;
        k + 1
      else k
  }

  /** `n - 2 k^2` is a prime for this `k >= 1` (lines 25-27). */
  predicate Represents(n: nat, k: nat) {
    k >= 1 && 2 * (k * k) + 2 <= n && IsPrime(n - 2 * (k * k))
  }

  ghost predicate HasRepresentation(n: nat) {
    exists k :: Represents(n, k)
  }

  /** An odd candidate from 9 that is not prime and has no representation. */
  ghost predicate Counterexample(n: nat) {
    n >= 9 && n % 2 == 1 && !IsPrime(n) && !HasRepresentation(n)
  }

  /** Every `k` of a representation lies within the floor of the square root of `n`. */
  lemma SqrtCovers(n: nat, k: nat)
    requires k >= 1 && 2 * (k * k) + 2 <= n
    ensures k <= FloorSqrt(n)
  {
    RepresentationBound(n, k, FloorSqrt(n) + 1);
  }

  /** Lines 20-32: `found` is whether some `k` from 1 to the floor square root gives a prime `n - 2 k^2`. */
  method Representable(n: nat) returns (found: bool)
    ensures found <==> HasRepresentation(n)
  {
    found := false;
    var maxK := FloorSqrt(n);
    for k := 1 to maxK + 1
      invariant forall j :: 1 <= j < k ==> !Represents(n, j)
    {
      var square := k * k;
      if 2 * square <= n {
        var p := n - 2 * square;
        if p >= 2 {
          var isPrime := IsPrimeWheel(p);
          if isPrime {
            assert Represents(n, k);
            found := true;
            break;
          }
        }
      }
    }
    if !found {
      forall k | Represents(n, k)
        ensures false
      {
        SqrtCovers(n, k);
      }
    }
  }

  /** `results` are ascending counterexamples and hold every counterexample below `upTo`. */
  ghost predicate FirstCounterexamples(results: seq<nat>, upTo: nat) {
    && (forall j :: 0 <= j < |results| ==> Counterexample(results[j]) && results[j] < upTo)
    && (forall j, k :: 0 <= j < k < |results| ==> results[j] < results[k])
    && (forall m: nat :: Counterexample(m) && m < upTo ==> m in results)
  }

  /** Lines 19-34: a candidate is kept when it is not prime and has no representation. */
  method Examine(n: nat) returns (keep: bool)
    requires n >= 9 && n % 2 == 1
    ensures keep == Counterexample(n)
  {
    keep := false;
    var isPrime := IsPrimeWheel(n);
    if !isPrime {
      var found := Representable(n);
      if !found {
        keep := true;
      }
    }
  }

  /** Candidate `n` is kept exactly when it is a counterexample; the even number after it never is one. */
  lemma SearchStep(results: seq<nat>, n: nat)
    requires n >= 9 && n % 2 == 1 && FirstCounterexamples(results, n)
    ensures FirstCounterexamples(if Counterexample(n) then results + [n] else results, n + 2)
  {
    var next := if Counterexample(n) then results + [n] else results;
    forall m: nat | Counterexample(m) && m < n + 2
      ensures m in next
    {
      if m < n {
        assert m in results;
      }
    }
  }

  /** The search state also describes the counterexamples below any smaller bound above all of `results`. */
  lemma SearchBound(results: seq<nat>, upTo: nat, bound: nat)
    requires FirstCounterexamples(results, upTo) && bound <= upTo
    requires forall j :: 0 <= j < |results| ==> results[j] < bound
    ensures FirstCounterexamples(results, bound)
  {
  }

  /** Line 40: `format!("{},{}", a, b)`. */
  function RenderPair(a: nat, b: nat): string {
    Text.NatToString(a) + "," + Text.NatToString(b)
  }

  /** The rendered pair splits at its one comma into the two numbers. */
  lemma RenderPairReadBack(a: nat, b: nat)
    ensures Text.Split(RenderPair(a, b), ',') == [Text.NatToString(a), Text.NatToString(b)]
    ensures Text.DigitsValue(Text.NatToString(a)) == a && Text.DigitsValue(Text.NatToString(b)) == b
  {
    var parts := [Text.NatToString(a), Text.NatToString(b)];
    Text.NoCommaInNumeral(a);
    Text.NoCommaInNumeral(b);
    assert Text.Join(parts[1..], [',']) == Text.NatToString(b);
    assert Text.Join(parts, [',']) == RenderPair(a, b);
    Text.SplitJoin(parts, ',');
    Text.NatToStringValue(a);
    Text.NatToStringValue(b);
  }

  /**
    Lines 17-40: the odd candidates from 9 upward, keeping the non-primes without a representation
    until there are two; the answer is the first two counterexamples, in ascending order, rendered
    `a,b`. The loop ends because 5777 and 5993 are counterexamples.
  */
  method GoldbachConjecture() returns (results: seq<nat>, r: string)
    ensures |results| == 2 && FirstCounterexamples(results, results[1] + 1)
    ensures r == RenderPair(results[0], results[1])
    ensures results[1] <= 5993
  {
    var n: nat := 9;
    results := [];
    while |results| < 2
      invariant n >= 9 && n % 2 == 1 && |results| <= 2
      invariant FirstCounterexamples(results, n)
      invariant |results| == 2 ==> n == results[1] + 2
      invariant n <= 5995
      decreases 5995 - n
    {
      if n > 5993 {
        BothFound(results, n);
      }
      var keep := Examine(n);
      SearchStep(results, n);
      if keep {
        results := results + [n];
      }
      n := n + 2;
    }
    SearchBound(results, n, results[1] + 1);
    r := RenderPair(results[0], results[1]);
  }

  /** Past 5993 both known counterexamples are among `results`, so the search has found two. */
  lemma BothFound(results: seq<nat>, n: nat)
    requires FirstCounterexamples(results, n) && n > 5993
    ensures |results| >= 2
  {
    Counterexample5777();
    Counterexample5993();
    assert 5777 in results && 5993 in results;
    var i :| 0 <= i < |results| && results[i] == 5777;
    var j :| 0 <= j < |results| && results[j] == 5993;
    assert i != j;
  }

  /** A proper divisor makes a number composite. */
  lemma Composite(m: nat, d: nat)
    requires 2 <= d < m && m % d == 0
    ensures !IsPrime(m)
  {
    assert Divides(d, m);
  }

  lemma SquareModThree(k: nat)
    requires k % 3 != 0
    ensures (2 * (k * k)) % 3 == 2
  {
    var q, r := k / 3, k % 3;
    var m := 3 * q * q + 2 * q * r;
    assert k == 3 * q + r;
    assert k * k == 3 * m + r * r;
    if r == 1 {
      assert 2 * (k * k) == 3 * (2 * m) + 2;
    } else {
      assert 2 * (k * k) == 3 * (2 * m + 2) + 2;
    }
  }

  /**
    For `n` one less than a multiple of 3, every `k` that is not a multiple of 3 leaves a multiple
    of 3, and one above 3 while `k` stays within `maxK`.
  */
  lemma ThreeDividesRest(n: nat, k: nat, maxK: nat)
    requires n % 3 == 2 && k % 3 != 0 && k <= maxK && 2 * (maxK * maxK) + 4 <= n
    ensures !IsPrime(n - 2 * (k * k))
  {
    var s := 2 * (k * k);
    SquareWithin(k, maxK);
    SquareModThree(k);
    DifferenceModThree(n, s);
    Composite(n - s, 3);
  }

  lemma SquareWithin(k: nat, maxK: nat)
    requires k <= maxK
    ensures k * k <= maxK * maxK
  {
    MulMonotone(k, maxK, k);
    MulMonotone(k, maxK, maxK);
    assert k * maxK == maxK * k;
  }

  lemma DifferenceModThree(n: nat, s: nat)
    requires n % 3 == 2 && s % 3 == 2 && s <= n
    ensures (n - s) % 3 == 0
  {
    var a, b := n / 3, s / 3;
    assert n == 3 * a + 2 && s == 3 * b + 2;
    assert n - s == 3 * (a - b);
  }

  /** A `k` of a representation of `n` has `k * k <= n / 2`, hence `k < bound` when `bound * bound > n / 2`. */
  lemma RepresentationBound(n: nat, k: nat, bound: nat)
    requires 2 * (k * k) + 2 <= n && 2 * (bound * bound) > n
    ensures k < bound
  {
    if k >= bound {
      MulMonotone(bound, k, bound);
      MulMonotone(bound, k, k);
    }
  }

  /** 5777 = 53 * 109 is an odd composite with no representation: every `5777 - 2 k^2` is composite. */
  lemma Counterexample5777()
    ensures Counterexample(5777)
  {
    Composite(5777, 53);
    forall k ensures !Represents(5777, k) {
      if k >= 1 && 2 * (k * k) + 2 <= 5777 {
        RepresentationBound(5777, k, 54);
        if k % 3 != 0 {
          ThreeDividesRest(5777, k, 53);
        } else {
          var j := k / 3;
          assert 2 * (k * k) == 18 * (j * j);
          MultipleOfThree5777(j);
        }
      }
    }
  }

  /** The `k = 3 j` cases for 5777: each `5777 - 18 j^2` has a small divisor. */
  lemma MultipleOfThree5777(j: nat)
    requires 1 <= j <= 17
    ensures !IsPrime(5777 - 18 * (j * j))
  {
    if j == 1 {
      Composite(5759, 13);
    } else if j == 2 {
      Composite(5705, 5);
    } else if j == 3 {
      Composite(5615, 5);
    } else if j == 4 {
      Composite(5489, 11);
    } else if j == 5 {
      Composite(5327, 7);
    } else if j == 6 {
      Composite(5129, 23);
    } else if j == 7 {
      Composite(4895, 5);
    } else if j == 8 {
      Composite(4625, 5);
    } else if j == 9 {
      Composite(4319, 7);
    } else if j == 10 {
      Composite(3977, 41);
    } else if j == 11 {
      Composite(3599, 59);
    } else if j == 12 {
      Composite(3185, 5);
    } else if j == 13 {
      Composite(2735, 5);
    } else if j == 14 {
      Composite(2249, 13);
    } else if j == 15 {
      Composite(1727, 11);
    } else if j == 16 {
      Composite(1169, 7);
    } else if j == 17 {
      Composite(575, 5);
    }
  }

  /** 5993 = 13 * 461 is an odd composite with no representation either. */
  lemma Counterexample5993()
    ensures Counterexample(5993)
  {
    Composite(5993, 13);
    forall k ensures !Represents(5993, k) {
      if k >= 1 && 2 * (k * k) + 2 <= 5993 {
        RepresentationBound(5993, k, 55);
        if k % 3 != 0 {
          ThreeDividesRest(5993, k, 54);
        } else {
          var j := k / 3;
          assert 2 * (k * k) == 18 * (j * j);
          MultipleOfThree5993(j);
        }
      }
    }
  }

  /** The `k = 3 j` cases for 5993: each `5993 - 18 j^2` has a small divisor. */
  lemma MultipleOfThree5993(j: nat)
    requires 1 <= j <= 18
    ensures !IsPrime(5993 - 18 * (j * j))
  {
    if j == 1 {
      Composite(5975, 5);
    } else if j == 2 {
      Composite(5921, 31);
    } else if j == 3 {
      Composite(5831, 7);
    } else if j == 4 {
      Composite(5705, 5);
    } else if j == 5 {
      Composite(5543, 23);
    } else if j == 6 {
      Composite(5345, 5);
    } else if j == 7 {
      Composite(5111, 19);
    } else if j == 8 {
      Composite(4841, 47);
    } else if j == 9 {
      Composite(4535, 5);
    } else if j == 10 {
      Composite(4193, 7);
    } else if j == 11 {
      Composite(3815, 5);
    } else if j == 12 {
      Composite(3401, 19);
    } else if j == 13 {
      Composite(2951, 13);
    } else if j == 14 {
      Composite(2465, 5);
    } else if j == 15 {
      Composite(1943, 29);
    } else if j == 16 {
      Composite(1385, 5);
    } else if j == 17 {
      Composite(791, 7);
    } else if j == 18 {
      Composite(161, 7);
    }
  }
}
