/** Divisibility, greatest common divisors and primes on mathematical
    integers: the facts the applet's helpers rely on. */
module NumberTheory {

  /** d is a positive divisor of n. */
  predicate Divides(d: int, n: int) {
    d > 0 && n % d == 0
  }

  predicate IsPrime(n: int) {
    n >= 2 && forall d :: 2 <= d < n ==> n % d != 0
  }

  predicate Coprime(a: int, b: int) {
    a >= 0 && b >= 0 && GcdOf(a, b) == 1
  }

  function Abs(x: int): (r: nat)
    ensures r == x || r == -x
  {
    if x < 0 then -x else x
  }

  /** Euclid's algorithm on non-negative integers, as a recursive function. */
  function GcdOf(a: int, b: int): (g: nat)
    requires a >= 0 && b >= 0
    decreases b
  {
    if b == 0 then a else GcdOf(b, a % b)
  }

  // ---------------------------------------------------------------------
  // Arithmetic helpers

  lemma MulMod(d: int, k: int)
    requires d > 0
    ensures (d * k) % d == 0
  {
    var q, r := (d * k) / d, (d * k) % d;
    assert d * k == d * q + r;
    assert r == d * (k - q);
    SmallMultipleIsZero(d, k - q);
  }

  /** The only multiple of d in [0, d) is 0. */
  lemma SmallMultipleIsZero(d: int, t: int)
    requires d > 0 && 0 <= d * t < d
    ensures t == 0
  {
    if t >= 1 {
      assert false;
    } else if t <= -1 {
      assert false;
    }
  }

  lemma MulMonotone(a: int, b: int, c: int)
    requires a >= 0 && b <= c
    ensures a * b <= a * c
  {
    assert a * c - a * b == a * (c - b);
  }

  lemma DividesWitness(d: int, n: int)
    requires Divides(d, n)
    ensures n == d * (n / d)
  {
  }

  lemma DividesMul(d: int, k: int)
    requires d > 0
    ensures Divides(d, d * k)
  {
    MulMod(d, k);
  }

  /** A divisor of a and b divides every integer combination of them. */
  lemma DividesCombination(d: int, a: int, b: int, x: int, y: int)
    requires Divides(d, a) && Divides(d, b)
    ensures Divides(d, x * a + y * b)
  {
    var p, q := a / d, b / d;
    assert a == d * p && b == d * q;
    calc {
      x * a + y * b;
      x * (d * p) + y * (d * q);
      d * (x * p + y * q);
    }
    DividesMul(d, x * p + y * q);
  }

  lemma DividesTrans(c: int, d: int, n: int)
    requires Divides(c, d) && Divides(d, n)
    ensures Divides(c, n)
  {
    var p, q := d / c, n / d;
    assert d == c * p && n == d * q;
    assert n == c * (p * q);
    DividesMul(c, p * q);
  }

  lemma DividesBound(d: int, n: int)
    requires Divides(d, n) && n > 0
    ensures d <= n
  {
    var q := n / d;
    assert n == d * q;
    assert q >= 1 by {
      if q <= 0 {
        MulMonotone(d, q, 0);
        assert false;
      }
    }
    MulMonotone(d, 1, q);
  }

  /** If d divides a and b with b > 0, it divides a % b. */
  lemma DividesMod(d: int, a: int, b: int)
    requires Divides(d, a) && Divides(d, b) && b > 0
    ensures Divides(d, a % b)
  {
    assert a % b == 1 * a + (-(a / b)) * b;
    DividesCombination(d, a, b, 1, -(a / b));
  }

  /** Dividing a multiple: if d * c divides n then c divides n / d. */
  lemma DividesQuotient(d: int, c: int, n: int)
    requires d > 0 && c > 0 && Divides(d, n) && Divides(d * c, n)
    ensures Divides(c, n / d)
  {
    var q := n / (d * c);
    assert n == (d * c) * q;
    assert n == d * (c * q);
    DividesWitness(d, n);
    assert d * (n / d) == d * (c * q);
    assert n / d == c * q;
    DividesMul(c, q);
  }

  // ---------------------------------------------------------------------
  // Greatest common divisor

  /** gcd(a, b) divides both arguments (when they are not both zero). */
  lemma {:induction false} GcdDivides(a: int, b: int)
    requires a >= 0 && b >= 0 && (a > 0 || b > 0)
    ensures GcdOf(a, b) > 0
    ensures a % GcdOf(a, b) == 0 && b % GcdOf(a, b) == 0
    decreases b
  {
    if b == 0 {
      assert GcdOf(a, b) == a;
      MulMod(a, 1);
      MulMod(a, 0);
    } else {
      var g := GcdOf(b, a % b);
      GcdDivides(b, a % b);
      assert a == (a / b) * b + 1 * (a % b);
      DividesCombination(g, b, a % b, a / b, 1);
    }
  }

  /** Every common divisor of a and b divides gcd(a, b). */
  lemma {:induction false} GcdGreatest(a: int, b: int, d: int)
    requires a >= 0 && b >= 0 && Divides(d, a) && Divides(d, b)
    ensures GcdOf(a, b) % d == 0
    decreases b
  {
    if b != 0 {
      DividesMod(d, a, b);
      GcdGreatest(b, a % b, d);
    }
  }

  /** Bezout's identity, with the coefficients computed alongside Euclid's recursion. */
  lemma {:induction false} Bezout(a: int, b: int) returns (x: int, y: int)
    requires a >= 0 && b >= 0
    ensures x * a + y * b == GcdOf(a, b)
    decreases b
  {
    if b == 0 {
      x, y := 1, 0;
    } else {
      var x', y' := Bezout(b, a % b);
      var q := a / b;
      assert a % b == a - q * b;
      x, y := y', x' - y' * q;
      BezoutStep(a, b, q, x', y');
    }
  }

  /** The coefficient update of the extended Euclidean algorithm. */
  lemma BezoutStep(a: int, b: int, q: int, x: int, y: int)
    ensures y * a + (x - y * q) * b == x * b + y * (a - q * b)
  {
  }

  /** g * x is divisible by g * h when x is divisible by h. */
  lemma ScaleDivides(g: int, h: int, x: int)
    requires g > 0 && Divides(h, x)
    ensures g * h > 0 && Divides(g * h, g * x)
  {
    var q := x / h;
    DividesWitness(h, x);
    assert g * x == (g * h) * q;
    MulMonotone(g, 1, h);
    DividesMul(g * h, q);
  }

  lemma QuotientPositive(d: int, n: int)
    requires Divides(d, n) && n > 0
    ensures n / d > 0
  {
    DividesWitness(d, n);
    if n / d <= 0 {
      MulMonotone(d, n / d, 0);
      assert false;
    }
  }

  /** Dividing two positive numbers by their gcd leaves coprime numbers. */
  lemma ReducedCoprime(a: int, b: int)
    requires a > 0 && b > 0
    ensures GcdOf(a, b) > 0
    ensures Divides(GcdOf(a, b), a) && Divides(GcdOf(a, b), b)
    ensures a / GcdOf(a, b) > 0 && b / GcdOf(a, b) > 0
    ensures GcdOf(a / GcdOf(a, b), b / GcdOf(a, b)) == 1
  {
    var g := GcdOf(a, b);
    GcdDivides(a, b);
    var a', b' := a / g, b / g;
    DividesWitness(g, a);
    DividesWitness(g, b);
    QuotientPositive(g, a);
    QuotientPositive(g, b);
    var h := GcdOf(a', b');
    GcdDivides(a', b');
    // g * h is a common divisor of a and b, hence divides g
    ScaleDivides(g, h, a');
    ScaleDivides(g, h, b');
    GcdGreatest(a, b, g * h);
    DividesBound(g * h, g);
    MulMonotone(g, 1, h);
    if h > 1 {
      MulMonotone(g, 2, h);
      assert false;
    }
  }

  // ---------------------------------------------------------------------
  // Primes

  /** The smallest divisor p >= 2 of n is prime. */
  lemma SmallestDivisorIsPrime(n: int, p: int)
    requires n >= 2 && 2 <= p && Divides(p, n)
    requires forall d :: 2 <= d < p ==> n % d != 0
    ensures IsPrime(p)
  {
    forall e | 2 <= e < p
      ensures p % e != 0
    {
      if p % e == 0 {
        DividesTrans(e, p, n);
        assert false;
      }
    }
  }

  /** Every n >= 2 has a prime divisor. */
  lemma {:induction false} HasPrimeDivisor(n: int) returns (p: int)
    requires n >= 2
    ensures IsPrime(p) && Divides(p, n)
    decreases n
  {
    if IsPrime(n) {
      p := n;
      MulMod(n, 1);
    } else {
      var d :| 2 <= d < n && n % d == 0;
      p := HasPrimeDivisor(d);
      DividesTrans(p, d, n);
    }
  }

  /** A composite n has a divisor e with e * e <= n. */
  lemma SmallDivisor(n: int, d: int) returns (e: int)
    requires 2 <= d < n && n % d == 0
    ensures 2 <= e && e * e <= n && n % e == 0
  {
    var q := n / d;
    assert n == d * q;
    if q <= 1 {
      MulMonotone(d, q, 1);
      assert false;
    }
    if d * d <= n {
      e := d;
    } else {
      e := q;
      // d * d > d * q, so d > q and q * q < q * d
      if d <= q {
        MulMonotone(d, d, q);
        assert false;
      }
      MulMonotone(q, q, d);
      MulMod(q, d);
    }
  }

  /** Primality needs divisors up to the square root only. */
  lemma PrimeBySquareRoot(n: int)
    requires n >= 2
    requires forall d :: 2 <= d && d * d <= n ==> n % d != 0
    ensures IsPrime(n)
  {
    forall d | 2 <= d < n
      ensures n % d != 0
    {
      if n % d == 0 {
        var e := SmallDivisor(n, d);
        assert false;
      }
    }
  }

  /** A prime's only divisor >= 2 is itself. */
  lemma PrimeDivisor(p: int, g: int)
    requires IsPrime(p) && Divides(g, p) && g >= 2
    ensures g == p
  {
    DividesBound(g, p);
    if g < p {
      assert false;
    }
  }

  /** Euclid's lemma: a prime dividing a product divides a factor. */
  lemma Euclid(p: int, a: int, b: int)
    requires IsPrime(p) && Divides(p, a * b)
    ensures Divides(p, a) || Divides(p, b)
  {
    if !Divides(p, a) {
      var a0 := a % p;
      var g := GcdOf(p, a0);
      GcdDivides(p, a0);
      if g != 1 {
        PrimeDivisor(p, g);
        DividesBound(g, a0);
        assert false;
      }
      var q := a / p;
      RemainderProduct(a, b, p, q, a0);
      MulMod(p, 1);
      DividesCombination(p, a * b, p, 1, -(q * b));
      CoprimeDividesProduct(p, a0, b);
    }
  }

  /** With a0 = a - q*p, the product a0*b is a*b less a multiple of p. */
  lemma RemainderProduct(a: int, b: int, p: int, q: int, a0: int)
    requires a0 == a - q * p
    ensures a0 * b == 1 * (a * b) + -(q * b) * p
  {
  }

  /** A number coprime to b that divides b * c divides c. */
  lemma CoprimeDividesProduct(a: int, b: int, c: int)
    requires a >= 1 && Coprime(a, b) && Divides(a, b * c)
    ensures Divides(a, c)
  {
    var x, y := Bezout(a, b);
    calc {
      c;
      (x * a + y * b) * c;
      (x * c) * a + y * (b * c);
    }
    MulMod(a, 1);
    DividesCombination(a, a, b * c, x * c, y);
  }

  /** A positive fraction has one representation in lowest terms. */
  lemma LowestTermsUnique(a: int, b: int, c: int, d: int)
    requires a >= 1 && b >= 1 && c >= 1 && d >= 1
    requires Coprime(a, b) && Coprime(c, d) && a * d == c * b
    ensures a == c && b == d
  {
    DividesMul(a, d);
    assert b * c == a * d;
    CoprimeDividesProduct(a, b, c);
    DividesMul(c, b);
    assert d * a == c * b;
    CoprimeDividesProduct(c, d, a);
    DividesBound(a, c);
    DividesBound(c, a);
    CancelLeft(a, b, d);
  }

  /** A positive common factor cancels from a product. */
  lemma CancelLeft(a: int, b: int, d: int)
    requires a >= 1 && a * d == a * b
    ensures b == d
  {
    if b < d {
      MulMonotone(a, b + 1, d);
      assert false;
    } else if d < b {
      MulMonotone(a, d + 1, b);
      assert false;
    }
  }

  /** q divides p * m with q, p prime and distinct: then q divides m. */
  lemma PrimeDividesCofactor(q: int, p: int, m: int)
    requires IsPrime(q) && IsPrime(p) && q != p && Divides(q, p * m)
    ensures Divides(q, m)
  {
    Euclid(q, p, m);
    if Divides(q, p) {
      PrimeDivisor(p, q);
      assert false;
    }
  }

  /** The order of the arguments does not matter to the greatest common divisor. */
  lemma GcdCommutes(a: int, b: int)
    requires a > 0 && b > 0
    ensures GcdOf(a, b) == GcdOf(b, a)
  {
    GcdDivides(a, b);
    GcdDivides(b, a);
    GcdGreatest(a, b, GcdOf(b, a));
    GcdGreatest(b, a, GcdOf(a, b));
    DividesBound(GcdOf(b, a), GcdOf(a, b));
    DividesBound(GcdOf(a, b), GcdOf(b, a));
  }

  /** The helper `gcd` (math.js and index.js): Euclid's loop on absolute values. */
  method Gcd(a: int, b: int) returns (g: nat)
    ensures g == GcdOf(Abs(a), Abs(b))
    ensures a == 0 && b == 0 ==> g == 0
    ensures a != 0 || b != 0 ==> g > 0 && a % g == 0 && b % g == 0
    ensures forall d :: Divides(d, a) && Divides(d, b) ==> g % d == 0
  {
    var x, y := Abs(a), Abs(b);
    while y != 0
      invariant x >= 0 && y >= 0
      invariant GcdOf(x, y) == GcdOf(Abs(a), Abs(b))
      decreases y
    {
      x, y := y, x % y;
    }
    g := x;
    if a != 0 || b != 0 {
      GcdDivides(Abs(a), Abs(b));
      SignlessDivides(g, a);
      SignlessDivides(g, b);
    }
    forall d | Divides(d, a) && Divides(d, b)
      ensures g % d == 0
    {
      SignlessDivides(d, a);
      SignlessDivides(d, b);
      GcdGreatest(Abs(a), Abs(b), d);
    }
  }

  /** Divisibility does not depend on the sign of the dividend. */
  lemma SignlessDivides(d: int, n: int)
    requires d > 0
    ensures n % d == 0 <==> Abs(n) % d == 0
  {
    if n < 0 {
      if n % d == 0 {
        DividesCombination(d, n, n, -1, 0);
      }
      if Abs(n) % d == 0 {
        DividesCombination(d, Abs(n), Abs(n), -1, 0);
      }
    }
  }
}
