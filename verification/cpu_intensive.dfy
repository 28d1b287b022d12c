/**
  The CPU-bound endpoint: one pass over 0 .. bound-1 that adds every value
  a trial-division test finds prime, plus `(i * i) % 1000` for every value.
  The service fixes the bound at one million; here it is a parameter, and
  the module CpuEndpoint fixes it.
  The float bound `int(i ** 0.5)` of the trial division is the exact
  integer square root.
 */
module CpuIntensive {

  /** The integer square root: the largest `r` with `r * r <= n`. */
  function Isqrt(n: nat): (r: nat)
    ensures r * r <= n < (r + 1) * (r + 1)
  {
    if n < 4 then (if n == 0 then 0 else 1)
    else
      var q := Isqrt(n / 4);
      IsqrtDoubling(n, q);
      if (2 * q + 1) * (2 * q + 1) <= n then 2 * q + 1 else 2 * q
  }

  /** Doubling the root of `n / 4` gives a root of `n`, give or take one. */
  lemma IsqrtDoubling(n: nat, q: nat)
    requires q * q <= n / 4 < (q + 1) * (q + 1)
    ensures (2 * q) * (2 * q) <= n < (2 * q + 2) * (2 * q + 2)
  {
    assert (2 * q) * (2 * q) == 4 * (q * q);
    assert (2 * q + 2) * (2 * q + 2) == 4 * ((q + 1) * (q + 1));
  }

  /** The service's test: above 1, and no `j` in 2 .. isqrt(i) divides `i`. */
  predicate TrialPrime(i: nat)
  {
    i > 1 && forall j :: 2 <= j <= Isqrt(i) ==> i % j != 0
  }

  /** Primality: above 1, and no `d` strictly between 1 and `i` divides `i`. */
  ghost predicate Prime(i: nat)
  {
    i > 1 && forall d :: 2 <= d < i ==> i % d != 0
  }

  /** Multiplying both sides by the same nonnegative factor keeps `<=`. */
  lemma MulMono(a: nat, b: nat, c: nat)
    requires a <= b
    ensures a * c <= b * c
  {
  }

  /** A strict inequality between multiples of a positive `c` holds of the factors. */
  lemma MulCancelLt(c: int, a: int, b: int)
    requires c > 0 && c * a < c * b
    ensures a < b
  {
  }

  /** A multiple of `c` leaves no remainder. */
  lemma ModOfMultiple(c: nat, b: nat)
    requires c > 0
    ensures (c * b) % c == 0
  {
    var q := (c * b) / c;
    var m := (c * b) % c;
    assert c * (b - q) == m;
    MulCancelLt(c, b - q, 1);
    MulCancelLt(c, -1, b - q);
  }

  /** Above 1, the integer square root lies strictly below its argument. */
  lemma IsqrtBelow(n: nat)
    requires n >= 2
    ensures Isqrt(n) < n
  {
    var r := Isqrt(n);
    MulMono(2, n, n);
    assert r * r < n * n;
  }

  /** A divisor splits its multiple exactly. */
  lemma DivExact(i: nat, d: nat)
    requires d > 0 && i % d == 0
    ensures d * (i / d) == i
  {
  }

  /** The cofactor of a divisor above isqrt(i) is a divisor of `i` between 2 and isqrt(i). */
  lemma Cofactor(i: nat, r: nat, d: nat, e: nat)
    requires i < (r + 1) * (r + 1)
    requires r + 1 <= d < i && d * e == i
    ensures 2 <= e <= r && i % e == 0
  {
    MulCancelLt(d, 1, e);
    MulMono(r + 1, d, e);
    assert e * (r + 1) < (r + 1) * (r + 1);
    MulCancelLt(r + 1, e, r + 1);
    ModOfMultiple(e, d);
  }

  /** A proper divisor of `i` has a partner divisor no larger than isqrt(i). */
  lemma SmallDivisor(i: nat, d: nat) returns (e: nat)
    requires 2 <= d < i && i % d == 0
    ensures 2 <= e <= Isqrt(i) && i % e == 0
  {
    var r := Isqrt(i);
    if d <= r {
      e := d;
    } else {
      e := i / d;
      DivExact(i, d);
      Cofactor(i, r, d, e);
    }
  }

  /** Trial division up to the integer square root decides primality exactly. */
  lemma TrialPrimeIsPrime(i: nat)
    ensures TrialPrime(i) <==> Prime(i)
  {
    if i > 1 {
      IsqrtBelow(i);
      if !Prime(i) {
        var d :| 2 <= d < i && i % d == 0;
        var e := SmallDivisor(i, d);
        assert !TrialPrime(i);
      }
    }
  }

  /** The inner loop, with the `i > 1` guard around it: true exactly when `i` is prime. */
  method TrialDivision(i: nat) returns (isPrime: bool)
    ensures isPrime <==> TrialPrime(i)
    ensures isPrime <==> Prime(i)
  {
    TrialPrimeIsPrime(i);
    if i <= 1 {
      return false;
    }
    isPrime := true;
    var limit := Isqrt(i) + 1;
    var j := 2;
    while j < limit
      invariant 2 <= j <= limit
      invariant forall k :: 2 <= k < j ==> i % k != 0
    {
      if i % j == 0 {
        isPrime := false;
        break;
      }
      j := j + 1;
    }
  }

  /** What one iteration adds: `i` when prime, and `(i * i) % 1000` always. */
  ghost function Term(i: nat): (r: nat)
  {
    (if Prime(i) then i else 0) + (i * i) % 1000
  }

  /** The accumulated result after the iterations 0 .. n-1. */
  ghost function Accumulated(n: nat): (r: nat)
  {
    if n == 0 then 0 else Accumulated(n - 1) + Term(n - 1)
  }

  /** The outer loop over `range(bound)`: the result is the sum of every iteration's term. */
  method CpuIntensiveTask(bound: nat) returns (result: nat)
    ensures result == Accumulated(bound)
  {
    result := 0;
    var i := 0;
    while i < bound
      invariant i <= bound
      invariant result == Accumulated(i)
    {
      if i > 1 {
        var isPrime := TrialDivision(i);
        if isPrime {
          result := result + i;
        }
      }
      result := result + (i * i) % 1000;
      i := i + 1;
    }
  }

  /** The first ten iterations: primes 2 + 3 + 5 + 7 and squares mod 1000 summing to 285. */
  lemma AccumulatedTen()
    ensures Accumulated(10) == 302
  {
    assert Prime(2) && Prime(3);
    assert !Prime(4) by { assert 4 % 2 == 0; }
    assert Prime(5) by {
      forall d | 2 <= d < 5 ensures 5 % d != 0 { }
    }
    assert !Prime(6) by { assert 6 % 2 == 0; }
    assert Prime(7) by {
      forall d | 2 <= d < 7 ensures 7 % d != 0 { }
    }
    assert !Prime(8) by { assert 8 % 2 == 0; }
    assert !Prime(9) by { assert 9 % 3 == 0; }
    assert Accumulated(2) == 0 + 1;
    assert Accumulated(4) == Accumulated(2) + 2 + 4 + 3 + 9;
    assert Accumulated(6) == Accumulated(4) + 16 + 5 + 25;
    assert Accumulated(8) == Accumulated(6) + 36 + 7 + 49;
    assert Accumulated(10) == Accumulated(8) + 64 + 81;
  }

  /** Iterations only ever add: the result never decreases as the bound grows. */
  lemma {:induction false} AccumulatedMonotone(m: nat, n: nat)
    requires m <= n
    ensures Accumulated(m) <= Accumulated(n)
    decreases n - m
  {
    if m < n {
      AccumulatedMonotone(m, n - 1);
    }
  }
}
