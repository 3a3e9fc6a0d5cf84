/** The prime helpers of math.js: the sieve `primesUpTo`, the trial-division
    `largestPrimeFactor` and the prime-limit test `factorAllowed`. */
module Primes {
  import opened NumberTheory
  import opened Seqs

  /** p is the largest prime dividing n. */
  ghost predicate IsLargestPrimeFactor(p: int, n: int) {
    IsPrime(p) && Divides(p, n) && forall q :: IsPrime(q) && Divides(q, n) ==> q <= p
  }

  /** Every prime dividing n is in allow. */
  ghost predicate PrimeFactorsIn(n: int, allow: seq<int>) {
    forall q :: IsPrime(q) && Divides(q, n) ==> q in allow
  }

  predicate AllPrime(s: seq<int>) {
    forall i :: 0 <= i < |s| ==> IsPrime(s[i])
  }

  // ---------------------------------------------------------------------
  // Largest prime factor

  /** The largest prime q <= k dividing n, or 1 when there is none. */
  function LargestPrimeDivisorUpTo(n: int, k: int): (p: int)
    requires k >= 1
    ensures p == 1 || (IsPrime(p) && Divides(p, n) && p <= k)
    ensures forall q :: IsPrime(q) && Divides(q, n) && q <= k ==> q <= p
    decreases k
  {
    if k == 1 then 1
    else if IsPrime(k) && Divides(k, n) then k
    else LargestPrimeDivisorUpTo(n, k - 1)
  }

  /** The value `largestPrimeFactor` computes (math.js:87-103, index.js:29-45):
      1 for |n| <= 1, otherwise the largest prime factor of |n|. */
  function LargestPrimeFactorOf(n: int): (p: int)
    ensures p >= 1
    ensures Abs(n) <= 1 ==> p == 1
    ensures Abs(n) >= 2 ==> IsLargestPrimeFactor(p, Abs(n))
  {
    if Abs(n) <= 1 then 1
    else
      var N := Abs(n);
      LargestPrimeDivisorFound(N);
      LargestPrimeDivisorUpTo(N, N)
  }

  /** Searching down from n finds a prime, since n >= 2 has a prime divisor. */
  lemma LargestPrimeDivisorFound(n: int)
    requires n >= 2
    ensures IsLargestPrimeFactor(LargestPrimeDivisorUpTo(n, n), n)
  {
    var q := HasPrimeDivisor(n);
    DividesBound(q, n);
    forall r | IsPrime(r) && Divides(r, n)
      ensures r <= n
    {
      DividesBound(r, n);
    }
  }

  /** There is only one largest prime factor. */
  lemma LargestPrimeFactorUnique(p: int, p': int, n: int)
    requires IsLargestPrimeFactor(p, n) && IsLargestPrimeFactor(p', n)
    ensures p == p'
  {
  }

  /** Multiplying by a prime no larger than the largest prime factor keeps it. */
  lemma LargestPrimeFactorOfMultiple(n: int, q: int)
    requires n >= 2 && IsPrime(q) && q <= LargestPrimeFactorOf(n)
    ensures LargestPrimeFactorOf(q * n) == LargestPrimeFactorOf(n)
  {
    var p := LargestPrimeFactorOf(n);
    MulMonotone(q, 1, n);
    assert Abs(q * n) == q * n;
    assert Divides(p, q * n) by {
      DividesWitness(p, n);
      assert q * n == p * (q * (n / p));
      MulMod(p, q * (n / p));
    }
    forall r | IsPrime(r) && Divides(r, q * n)
      ensures r <= p
    {
      Euclid(r, q, n);
      if Divides(r, q) {
        PrimeDivisor(q, r);
      }
    }
    LargestPrimeFactorUnique(LargestPrimeFactorOf(q * n), p, q * n);
  }

  /** largestPrimeFactor (math.js:87-103, index.js:29-45), with JavaScript's
      32-bit `n | 0` left out: trial division by 2 and then by odd p while
      p * p <= n. */
  method LargestPrimeFactor(n0: int) returns (maxPrime: int)
    ensures maxPrime == LargestPrimeFactorOf(n0)
  {
    var N: int := Abs(n0);
    if N <= 1 {
      return 1;
    }
    MulMod(N, 1);
    var n;
    n, maxPrime := DivideOutAll(N, N, 2, 1);
    assert NoDivisorBelow(n, 3) by {
      assert n % 2 != 0;
    }
    var p := 3;
    while p * p <= n
      invariant 3 <= p && p % 2 == 1 && maxPrime < p
      invariant Tracked(N, n, maxPrime) && NoDivisorBelow(n, p)
      decreases N - p
    {
      MulMonotone(p, 1, p);
      n, maxPrime := DivideOutAll(N, n, p, maxPrime);
      OddSkipsEven(n, p);
      p := p + 2;
    }
    TrialDivisionDone(N, n, p, maxPrime);
    if n > 2 {
      maxPrime := n;
    }
    LargestPrimeFactorUnique(maxPrime, LargestPrimeFactorOf(n0), N);
  }

  /** The bookkeeping of the trial division: n is what is left of N, maxPrime
      the largest prime divided out so far, and every prime factor of N
      either still divides n or is at most maxPrime. */
  ghost predicate Tracked(N: int, n: int, maxPrime: int) {
    1 <= n <= N && Divides(n, N)
    && (maxPrime == 1 || (IsPrime(maxPrime) && Divides(maxPrime, N)))
    && forall q :: IsPrime(q) && Divides(q, N) ==> Divides(q, n) || q <= maxPrime
  }

  /** n has no divisor in [2, p). */
  ghost predicate NoDivisorBelow(n: int, p: int) {
    forall d :: 2 <= d < p ==> n % d != 0
  }

  /** The loops of largestPrimeFactor that divide one p (first 2, then each
      odd p) out of n as often as it goes, recording p as the largest prime
      so far. */
  method DivideOutAll(ghost N: int, n0: int, p: int, maxPrime0: int) returns (n: int, maxPrime: int)
    requires 2 <= p && maxPrime0 < p
    requires Tracked(N, n0, maxPrime0) && NoDivisorBelow(n0, p)
    ensures Tracked(N, n, maxPrime) && NoDivisorBelow(n, p)
    ensures n % p != 0 && maxPrime <= p
  {
    n, maxPrime := n0, maxPrime0;
    while n % p == 0
      invariant maxPrime <= p
      invariant Tracked(N, n, maxPrime) && NoDivisorBelow(n, p)
      decreases n
    {
      SmallestDivisorIsPrime(n, p);
      DivideOut(N, n, p, maxPrime);
      maxPrime := p;
      n := n / p;
    }
  }

  /** When p * p passes n, the answer is n if anything above 2 is left and
      the last prime divided out otherwise. */
  lemma TrialDivisionDone(N: int, n: int, p: int, maxPrime: int)
    requires N >= 2 && 3 <= p && p * p > n && maxPrime < p
    requires Tracked(N, n, maxPrime) && NoDivisorBelow(n, p)
    ensures n > 2 ==> IsLargestPrimeFactor(n, N)
    ensures n <= 2 ==> IsLargestPrimeFactor(maxPrime, N)
  {
    if n > 2 {
      LastFactorIsPrime(n, p);
      forall q | IsPrime(q) && Divides(q, N)
        ensures q <= n
      {
        if Divides(q, n) {
          DividesBound(q, n);
        }
      }
    } else {
      assert n == 1 by {
        assert n % 2 != 0;
      }
      forall q | IsPrime(q) && Divides(q, N)
        ensures q <= maxPrime
      {
        if Divides(q, n) {
          DividesBound(q, n);
        }
      }
      var q := HasPrimeDivisor(N);
    }
  }

  /** Dividing the prime p out of n keeps the loop's bookkeeping. */
  lemma DivideOut(N: int, n: int, p: int, maxPrime: int)
    requires IsPrime(p) && 1 <= n && Divides(n, N) && n % p == 0
    requires forall q :: IsPrime(q) && Divides(q, N) ==> Divides(q, n) || q <= maxPrime
    ensures 1 <= n / p < n && Divides(n / p, N) && Divides(p, N)
    ensures forall q :: IsPrime(q) && Divides(q, N) ==> Divides(q, n / p) || q <= Max(maxPrime, p)
    ensures forall d :: 2 <= d && n / p % d == 0 ==> n % d == 0
  {
    var m := n / p;
    DividesWitness(p, n);
    QuotientPositive(p, n);
    MulMonotone(m, 2, p);
    DividesMul(m, p);
    assert n == m * p;
    DividesTrans(m, n, N);
    DividesTrans(p, n, N);
    forall q | IsPrime(q) && Divides(q, N)
      ensures Divides(q, m) || q <= Max(maxPrime, p)
    {
      if Divides(q, n) && q != p {
        PrimeDividesCofactor(q, p, m);
      }
    }
    forall d | 2 <= d && m % d == 0
      ensures n % d == 0
    {
      DividesTrans(d, m, n);
    }
  }

  function Max(a: int, b: int): int {
    if a < b then b else a
  }

  /** With no divisor in [2, p) and n odd, n has none in [2, p + 2) unless p divides it. */
  lemma OddSkipsEven(n: int, p: int)
    requires 3 <= p && p % 2 == 1 && n >= 1 && n % p != 0
    requires NoDivisorBelow(n, p)
    ensures NoDivisorBelow(n, p + 2)
  {
    forall d | 2 <= d < p + 2
      ensures n % d != 0
    {
      if d == p + 1 && n % d == 0 {
        MulMod(2, (p + 1) / 2);
        assert Divides(2, d);
        DividesTrans(2, d, n);
        assert false;
      }
    }
  }

  /** What is left after trial division up to the square root is prime. */
  lemma LastFactorIsPrime(n: int, p: int)
    requires n >= 2 && p >= 2 && p * p > n
    requires forall d :: 2 <= d < p ==> n % d != 0
    ensures IsPrime(n) && n >= p
  {
    forall d | 2 <= d && d * d <= n
      ensures n % d != 0
    {
      if d >= p {
        MulMonotone(d, p, d);
        MulMonotone(p, p, d);
        assert false;
      }
    }
    PrimeBySquareRoot(n);
    if n < p {
      MulMod(n, 1);
      assert false;
    }
  }

  // ---------------------------------------------------------------------
  // Prime-limit filter

  /** factorAllowed (math.js:46-53): divide every allowed prime out of n and
      see whether 1 is left. The source assumes n >= 1 (n = 0 never leaves
      the inner loop) and passes the output of primesUpTo as allow. */
  method FactorAllowed(n: int, allow: seq<int>) returns (ok: bool)
    requires n >= 1 && AllPrime(allow)
    ensures n == 1 ==> ok
    ensures ok <==> PrimeFactorsIn(n, allow)
  {
    if n == 1 {
      NoPrimeDividesOne();
      return true;
    }
    var m := n;
    MulMod(n, 1);
    for i := 0 to |allow|
      invariant 1 <= m && Divides(m, n)
      invariant forall q :: IsPrime(q) && Divides(q, n) && q !in allow[..i] ==> Divides(q, m)
      invariant forall q :: IsPrime(q) && Divides(q, m) ==> q !in allow[..i]
    {
      var p := allow[i];
      assert allow[..i + 1] == allow[..i] + [p];
      while m % p == 0
        invariant 1 <= m && Divides(m, n)
        invariant forall q :: IsPrime(q) && Divides(q, n) && q !in allow[..i] && q != p ==> Divides(q, m)
        invariant forall q :: IsPrime(q) && Divides(q, m) ==> q !in allow[..i]
        decreases m
      {
        DividePrime(n, m, p);
        m := m / p;
      }
    }
    assert allow[..|allow|] == allow;
    ok := m == 1;
    if ok {
      NoPrimeDividesOne();
    } else {
      var q := HasPrimeDivisor(m);
      DividesTrans(q, m, n);
    }
  }

  /** No prime divides 1. */
  lemma NoPrimeDividesOne()
    ensures forall q :: IsPrime(q) ==> !Divides(q, 1)
  {
    forall q | IsPrime(q) && Divides(q, 1)
      ensures false
    {
      DividesBound(q, 1);
    }
  }

  /** One step of dividing the prime p out of m, where m divides n. */
  lemma DividePrime(n: int, m: int, p: int)
    requires IsPrime(p) && 1 <= m && Divides(m, n) && m % p == 0
    ensures 1 <= m / p < m && Divides(m / p, n)
    ensures forall q :: IsPrime(q) && Divides(q, m) && q != p ==> Divides(q, m / p)
    ensures forall q :: Divides(q, m / p) ==> Divides(q, m)
  {
    var k := m / p;
    DividesWitness(p, m);
    QuotientPositive(p, m);
    MulMonotone(k, 2, p);
    DividesMul(k, p);
    assert m == k * p;
    DividesTrans(k, m, n);
    forall q | IsPrime(q) && Divides(q, m) && q != p
      ensures Divides(q, k)
    {
      PrimeDividesCofactor(q, p, k);
    }
    forall q | Divides(q, k)
      ensures Divides(q, m)
    {
      DividesTrans(q, k, m);
    }
  }

  // ---------------------------------------------------------------------
  // Sieve of Eratosthenes

  /** The state of sieve cell k once every p' < p has been processed: k >= 2
      and no d in [2, p) with d * d <= k divides it. */
  ghost predicate Alive(k: int, p: int) {
    k >= 2 && forall d :: 2 <= d < p && d * d <= k ==> k % d != 0
  }

  /** primesUpTo (math.js:26-38), with JavaScript's `n | 0` left out: the
      primes of [2, max(2, n)] in ascending order. */
  method PrimesUpTo(n0: int) returns (ps: seq<int>)
    ensures forall x :: x in ps <==> IsPrime(x) && x <= Max(2, n0)
    ensures StrictlyAscending(ps)
  {
    var n := Max(2, n0);
    var s := new bool[n + 1](_ => true);
    s[0], s[1] := false, false;
    var p := 2;
    while p * p <= n
      invariant 2 <= p
      invariant forall k :: 0 <= k <= n ==> (s[k] <==> Alive(k, p))
      decreases n - p
    {
      MulMonotone(p, 1, p);
      if s[p] {
        CrossOut(s, p, n);
        forall k | 0 <= k <= n
          ensures s[k] <==> Alive(k, p + 1)
        {
          AliveStep(k, p);
        }
      } else {
        forall k | 0 <= k <= n
          ensures s[k] <==> Alive(k, p + 1)
        {
          AliveStep(k, p);
          if Alive(k, p) && p * p <= k && k % p == 0 {
            CompositeStruck(k, p);
          }
        }
      }
      p := p + 1;
    }
    forall k | 0 <= k <= n
      ensures s[k] <==> IsPrime(k)
    {
      AliveAtEnd(k, p, n);
    }
    ps := [];
    for i := 0 to n + 1
      invariant forall x :: x in ps <==> 0 <= x < i && IsPrime(x)
      invariant forall j :: 0 <= j < |ps| ==> ps[j] < i
      invariant StrictlyAscending(ps)
    {
      if s[i] {
        ps := ps + [i];
      }
    }
    forall x | IsPrime(x) && x <= n
      ensures x in ps
    {
    }
  }

  /** The inner loop of primesUpTo: strike p*p, p*p + p, ... up to n. */
  method CrossOut(s: array<bool>, p: int, n: int)
    requires s.Length == n + 1 && 2 <= p && p * p <= n
    modifies s
    ensures forall k :: 0 <= k <= n ==> s[k] == (old(s[k]) && !(p * p <= k && k % p == 0))
  {
    var k := p * p;
    MulMod(p, p);
    while k <= n
      invariant p * p <= k && k % p == 0
      invariant forall j :: 0 <= j <= n ==> s[j] == (old(s[j]) && !(p * p <= j < k && j % p == 0))
      decreases n - k
    {
      s[k] := false;
      ModStep(k, p);
      k := k + p;
    }
  }

  /** Between two consecutive multiples of p there is none, and k + p is one. */
  lemma ModStep(k: int, p: int)
    requires p >= 1 && k % p == 0
    ensures (k + p) % p == 0
    ensures forall j :: k < j < k + p ==> j % p != 0
  {
    var a := k / p;
    assert k == p * a;
    assert k + p == p * (a + 1);
    MulMod(p, a + 1);
    forall j | k < j < k + p
      ensures j % p != 0
    {
      if j % p == 0 {
        var b := j / p;
        assert j == p * b;
        if b <= a {
          MulMonotone(p, b, a);
        } else {
          MulMonotone(p, a + 1, b);
        }
        assert false;
      }
    }
  }

  /** Processing p strikes exactly the multiples of p from p * p on. */
  lemma AliveStep(k: int, p: int)
    requires p >= 2
    ensures Alive(k, p + 1) <==> Alive(k, p) && !(p * p <= k && k % p == 0)
  {
  }

  /** When p itself was struck, its multiples from p * p on were struck already. */
  lemma CompositeStruck(k: int, p: int)
    requires p >= 2 && !Alive(p, p) && p * p <= k && k % p == 0
    ensures !Alive(k, p)
  {
    var d :| 2 <= d < p && d * d <= p && p % d == 0;
    MulMonotone(p, 1, p);
    DividesTrans(d, p, k);
  }

  /** Once p * p passes n, the cells still alive are the primes. */
  lemma AliveAtEnd(k: int, p: int, n: int)
    requires 0 <= k <= n && 2 <= p && p * p > n
    ensures Alive(k, p) <==> IsPrime(k)
  {
    if Alive(k, p) {
      forall d | 2 <= d && d * d <= k
        ensures k % d != 0
      {
        if d >= p {
          MulMonotone(d, p, d);
          MulMonotone(p, p, d);
        }
      }
      PrimeBySquareRoot(k);
    }
    if IsPrime(k) {
      forall d | 2 <= d < p && d * d <= k
        ensures k % d != 0
      {
        MulMonotone(d, 2, d);
      }
    }
  }
}
