/** Three tables of primes and a free-standing test, all against one definition of prime. Integers are unbounded. */
module PrimeTables {

  ghost predicate Divides(d: int, n: int)
    requires d > 0
  {
    n % d == 0
  }

  ghost predicate Prime(n: int) {
    n >= 2 && forall d :: 2 <= d < n ==> !Divides(d, n)
  }

  // ----- Divisibility -----

  lemma MulMonotone(a: int, b: int, c: int)
    requires a <= b && c >= 0
    ensures a * c <= b * c
  {
  }

  lemma RemainderIs(x: int, d: int, q: int, r: int)
    requires d > 0 && x == q * d + r && 0 <= r < d
    ensures x % d == r
  {
    var k := x / d;
    assert (q - k) * d == q * d - k * d == x % d - r;
    if q > k {
      MulMonotone(1, q - k, d);
    } else if q < k {
      MulMonotone(q - k, -1, d);
    }
  }

  lemma Quotient(n: int, d: int) returns (k: int)
    requires d > 0 && Divides(d, n)
    ensures n == k * d
  {
    k := n / d;
  }

  lemma DividesMultiple(d: int, n: int, k: int)
    requires d > 0 && n == k * d
    ensures Divides(d, n)
  {
    RemainderIs(n, d, k, 0);
  }

  lemma MulAssociates(a: int, b: int, c: int)
    ensures a * (b * c) == (a * b) * c
  {
  }

  lemma DividesTransitively(k: int, i: int, d: int)
    requires d > 0 && i > 0 && Divides(i, k) && Divides(d, i)
    ensures Divides(d, k)
  {
    var a := Quotient(k, i);
    var b := Quotient(i, d);
    MulAssociates(a, b, d);
    DividesMultiple(d, k, a * b);
  }

  /** A proper divisor has a partner. */
  lemma Partner(n: int, d: int) returns (k: int)
    requires 2 <= d < n && Divides(d, n)
    ensures n == k * d && 2 <= k < n && Divides(k, n)
  {
    k := Quotient(n, d);
    if k <= 1 {
      MulMonotone(k, 1, d);
    } else {
      MulMonotone(2, d, k);
      DividesMultiple(k, n, d);
    }
  }

  /** No divisor up to the square root means no divisor at all. */
  lemma SquareRootSuffices(n: int, i: int)
    requires n >= 2 && i >= 2 && i * i > n
    requires forall d :: 2 <= d < i && d < n ==> !Divides(d, n)
    ensures Prime(n)
  {
    forall d | 2 <= d < n ensures !Divides(d, n) {
      if Divides(d, n) {
        var k := Partner(n, d);
        MulMonotone(i, d, i);
        MulMonotone(i, k, d);
      }
    }
  }

  // ----- Euclid -----

  function FactorialOf(n: int): (f: int)
    ensures f >= 1
    decreases n
  {
    if n <= 0 then 1 else FactorialOf(n - 1) * n
  }

  method Factorial(n: int) returns (result: int)
    ensures result == FactorialOf(n) && (n <= 1 ==> result == 1) && (n > 1 ==> result == FactorialOf(n - 1) * n)
  {
    result := 1;
    var i := 1;
    while i <= n
      invariant 1 <= i && (if n >= 0 then i <= n + 1 else i == 1)
      invariant result == FactorialOf(i - 1)
    {
      result := result * i;
      i := i + 1;
    }
  }

  lemma {:induction false} FactorialDivisible(n: int, d: int)
    requires 1 <= d <= n
    ensures Divides(d, FactorialOf(n))
    decreases n
  {
    if d == n {
      DividesMultiple(d, FactorialOf(n), FactorialOf(n - 1));
    } else {
      FactorialDivisible(n - 1, d);
      var k := Quotient(FactorialOf(n - 1), d);
      MulAssociates(n, k, d);
      DividesMultiple(d, FactorialOf(n), n * k);
    }
  }

  /** Every number from two on has a prime divisor. */
  lemma {:induction false} PrimeDivisor(n: int, d: int) returns (q: int)
    requires 2 <= d <= n && forall c :: 2 <= c < d ==> !Divides(c, n)
    ensures Prime(q) && Divides(q, n) && q >= d
    decreases n - d
  {
    if !Divides(d, n) {
      DividesMultiple(n, n, 1);
      q := PrimeDivisor(n, d + 1);
    } else {
      q := d;
      forall c | 2 <= c < d ensures !Divides(c, d) {
        if Divides(c, d) { DividesTransitively(n, d, c); }
      }
    }
  }

  /** There is a prime above every number. */
  lemma PrimeAbove(p: int) returns (q: int)
    ensures Prime(q) && q > p
  {
    var n := FactorialOf(p) + 1;
    q := PrimeDivisor(n, 2);
    if q <= p {
      FactorialDivisible(p, q);
      var k := Quotient(FactorialOf(p), q);
      RemainderIs(n, q, k, 1);
    }
  }

  // ----- Trial division -----

  /** The least prime above `p`. */
  ghost predicate NextPrime(p: int, r: int) {
    Prime(r) && r > p && forall k :: p < k < r ==> !Prime(k)
  }

  class OnTheFlyPrimeTable {
    constructor () {}

    method IsPrime(n: int) returns (b: bool)
      ensures b <==> Prime(n)
    {
      if n <= 1 { return false; }
      var i := 2;
      while i * i <= n
        invariant i >= 2 && (forall d :: 2 <= d < i && d < n ==> !Divides(d, n))
        invariant i <= n
        decreases n - i
      {
        MulMonotone(2, i, i);
        assert Divides(i, n) <==> n % i == 0;
        if n % i == 0 { return false; }
        i := i + 1;
      }
      SquareRootSuffices(n, i);
      return true;
    }

    /** Terminates because there is always another prime; for a negative `p` the loop does not even start. */
    method GetNextPrime(p: int) returns (r: int)
      ensures if p >= 0 then NextPrime(p, r) else r == -1
    {
      ghost var q := PrimeAbove(p);
      var n := p + 1;
      while n > 0
        invariant p >= 0 ==> 0 < n <= q && forall k :: p < k < n ==> !Prime(k)
        invariant p < 0 ==> n == p + 1
        decreases q - n
      {
        var b := IsPrime(n);
        if b { return n; }
        n := n + 1;
      }
      return -1;
    }
  }

  /** The free-standing test tries odd divisors only. */
  method IsPrime(n: int) returns (b: bool)
    ensures b <==> Prime(n)
  {
    if n <= 1 { return false; }
    if n % 2 == 0 {
      TwoIsPrime();
      assert Divides(2, n);
      return n == 2;
    }
    OddHasNoTwo(n);
    var i := 3;
    while true
      invariant i >= 3 && i % 2 == 1
      invariant forall d :: 2 <= d < i && d < n ==> !Divides(d, n)
      decreases n - i
    {
      QuotientIsSmall(n, i);
      if i > n / i { break; }
      assert Divides(i, n) <==> n % i == 0;
      if n % i == 0 { return false; }
      EvenDivisorNeedsEven(n, i + 1);
      i := i + 2;
    }
    SquareRootSuffices(n, i);
    return true;
  }

  /** Comparing with the quotient compares the square. */
  lemma QuotientIsSmall(n: int, i: int)
    requires n >= 3 && i >= 3
    ensures i > n / i <==> i * i > n
    ensures i <= n / i ==> i < n
  {
    var k := n / i;
    assert n == k * i + n % i;
    if i > k {
      MulMonotone(k + 1, i, i);
      assert (k + 1) * i == k * i + i;
    } else {
      MulMonotone(i, k, i);
      MulMonotone(3, i, i);
    }
  }

  lemma EvenDivisorNeedsEven(n: int, d: int)
    requires n % 2 != 0 && d > 0 && d % 2 == 0
    ensures !Divides(d, n)
  {
    if Divides(d, n) { DividesTransitively(n, d, 2); }
  }

  // ----- The sieve -----

  /** `k` has no proper divisor below `i`. */
  ghost predicate Survives(k: int, i: int) {
    k >= 2 && forall d :: 2 <= d < i && d < k ==> !Divides(d, k)
  }

  class PreCalculatedPrimeTable {
    const isPrime: array<bool>

    ghost predicate Valid()
      reads isPrime
    {
      forall k :: 0 <= k < isPrime.Length ==> (isPrime[k] <==> Prime(k))
    }

    constructor (max: int)
      requires max >= 1
      ensures Valid() && fresh(isPrime) && isPrime.Length == max + 1
    {
      isPrime := new bool[max + 1](_ => true);
      new;
      CalculatePrimesUpTo(max);
    }

    method CalculatePrimesUpTo(max: int)
      requires max >= 1 && isPrime.Length == max + 1
      requires forall k :: 0 <= k < isPrime.Length ==> isPrime[k]
      modifies isPrime
      ensures Valid()
    {
      isPrime[0] := false;
      isPrime[1] := false;
      for i := 2 to max + 1
        invariant forall k :: 0 <= k <= max ==> (isPrime[k] <==> Survives(k, i))
      {
        SievedMultiples(i);
        if !isPrime[i] { continue; }
        var j := 2 * i;
        DividesMultiple(i, j, 2);
        NoMultipleBetween(i, i);
        while j <= max
          invariant j >= 2 * i && Divides(i, j)
          invariant forall k :: 0 <= k <= max ==> (isPrime[k] <==> Survives(k, i) && !(i < k < j && Divides(i, k)))
        {
          isPrime[j] := false;
          NoMultipleBetween(i, j);
          j := j + i;
        }
      }
    }

    predicate Contains(n: int)
      reads isPrime
    {
      0 <= n < isPrime.Length && isPrime[n]
    }

    /** The least prime above `p` in the table, or -1 if there is none. */
    method GetNextPrime(p: int) returns (r: int)
      requires Valid() && p >= -1
      ensures if r == -1 then forall k :: p < k < isPrime.Length ==> !Prime(k) else NextPrime(p, r) && r < isPrime.Length
    {
      var n := p + 1;
      while n < isPrime.Length
        invariant n >= p + 1 && forall k :: p < k < n && k < isPrime.Length ==> !Prime(k)
      {
        if isPrime[n] { return n; }
        n := n + 1;
      }
      return -1;
    }
  }

  lemma NoMultipleBetween(i: int, j: int)
    requires i >= 2 && Divides(i, j)
    ensures Divides(i, j + i)
    ensures forall k :: j < k < j + i ==> !Divides(i, k)
  {
    var q := Quotient(j, i);
    DividesMultiple(i, j + i, q + 1);
    forall k | j < k < j + i ensures !Divides(i, k) {
      RemainderIs(k, i, q, k - j);
    }
  }

  /** Sieving with `i` removes its multiples, and nothing that was left if `i` itself was already removed. */
  lemma SievedMultiples(i: int)
    requires i >= 2
    ensures forall k :: Survives(k, i + 1) <==> Survives(k, i) && !(i < k && Divides(i, k))
    ensures !Survives(i, i) ==> forall k :: i < k && Divides(i, k) ==> !Survives(k, i)
  {
    if !Survives(i, i) {
      var d :| 2 <= d < i && Divides(d, i);
      forall k | i < k && Divides(i, k) ensures !Survives(k, i) {
        DividesTransitively(k, i, d);
      }
    }
  }

  // ----- The hybrid -----

  class HybridPrimeTable {
    const onTheFly: OnTheFlyPrimeTable
    const precalc: PreCalculatedPrimeTable?
    const maxPrecalculated: int

    ghost predicate Valid()
      reads if precalc != null then {precalc.isPrime} else {}
    {
      precalc != null ==> precalc.Valid() && maxPrecalculated >= 1 && precalc.isPrime.Length == maxPrecalculated + 1
    }

    constructor (forceOnTheFly: bool, maxPrecalculated: int)
      requires !forceOnTheFly ==> maxPrecalculated >= 1
      ensures Valid() && this.maxPrecalculated == maxPrecalculated && (precalc == null <==> forceOnTheFly)
    {
      onTheFly := new OnTheFlyPrimeTable();
      if forceOnTheFly {
        precalc := null;
      } else {
        precalc := new PreCalculatedPrimeTable(maxPrecalculated);
      }
      this.maxPrecalculated := maxPrecalculated;
    }

    method IsPrime(n: int) returns (b: bool)
      requires Valid()
      ensures b <==> Prime(n)
    {
      if precalc != null && n < maxPrecalculated {
        b := precalc.Contains(n);
      } else {
        b := onTheFly.IsPrime(n);
      }
    }

    /** Agrees with trial division from zero on. At -1 only the precalculated table looks above, and finds 2. */
    method GetNextPrime(p: int) returns (r: int)
      requires Valid() && (precalc != null ==> p >= -1)
      ensures p >= 0 ==> NextPrime(p, r)
      ensures p < 0 ==> r == if precalc != null && maxPrecalculated >= 2 then 2 else -1
    {
      var nextPrime := -1;
      if precalc != null && p < maxPrecalculated {
        nextPrime := precalc.GetNextPrime(p);
      }
      if p == -1 { TwoIsPrime(); }
      if nextPrime != -1 { return nextPrime; }
      r := onTheFly.GetNextPrime(p);
    }
  }

  lemma OddHasNoTwo(n: int)
    requires n % 2 != 0
    ensures forall d :: 2 <= d < 3 ==> !Divides(d, n)
  {
  }

  lemma TwoIsPrime()
    ensures Prime(2) && !Prime(0) && !Prime(1)
  {
  }

  /** There is only one next prime, so tables that meet the same contract agree. */
  lemma NextPrimeIsUnique(p: int, r: int, s: int)
    requires NextPrime(p, r) && NextPrime(p, s)
    ensures r == s
  {
  }
}
