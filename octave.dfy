/** Octave folding (math.js `normalizeFloat`, `normalizeFrac`): bringing a
    pitch ratio into [1, 2) by repeated doubling or halving, once on exact
    fractions (the pitch key) and once on reals (the sounded ratio). */
module Octave {
  import opened NumberTheory

  /** A fraction num/den; pitch keys and labels are fractions. */
  datatype Ratio = Ratio(num: int, den: int)

  const Unison := Ratio(1, 1)

  function Value(r: Ratio): real
    requires r.den != 0
  {
    r.num as real / r.den as real
  }

  // ---------------------------------------------------------------------
  // Whole octaves

  /** x * 2^k. */
  function Shift(x: real, k: nat): real
  {
    if k == 0 then x else 2.0 * Shift(x, k - 1)
  }

  /** Shifting by a, then by b, shifts by a + b. */
  lemma {:induction false} ShiftAdd(x: real, a: nat, b: nat)
    ensures Shift(Shift(x, a), b) == Shift(x, a + b)
    decreases b
  {
    if b > 0 {
      ShiftAdd(x, a, b - 1);
    }
  }

  /** Shifting by k keeps order and equality. */
  lemma {:induction false} ShiftMonotone(x: real, y: real, k: nat)
    ensures x < y <==> Shift(x, k) < Shift(y, k)
    ensures x == y <==> Shift(x, k) == Shift(y, k)
  {
    if k > 0 {
      ShiftMonotone(x, y, k - 1);
    }
  }

  /** At least one octave up from 1 or more is 2 or more. */
  lemma {:induction false} ShiftGrows(x: real, k: nat)
    requires x >= 1.0 && k >= 1
    ensures Shift(x, k) >= 2.0
  {
    if k > 1 {
      ShiftGrows(x, k - 1);
    }
  }

  /** Shifting keeps a value positive. */
  lemma {:induction false} ShiftPositive(x: real, k: nat)
    requires x > 0.0
    ensures Shift(x, k) > 0.0
  {
    if k > 0 {
      ShiftPositive(x, k - 1);
    }
  }

  /** Doubling a value below 1 lowers the measure the second loop decreases. */
  lemma DoublingShrinks(x: real)
    requires 0.0 < x < 1.0
    ensures (1.0 / (x * 2.0)).Floor < (1.0 / x).Floor
  {
    var y := 1.0 / x;
    assert y * x == 1.0;
    assert 1.0 / (x * 2.0) == y / 2.0;
    assert y > 1.0;
  }

  /** First loop of normalizeFloat: halve while the value is at least 2. */
  function FoldDown(x: real): (r: real)
    requires x > 0.0
    ensures 0.0 < r < 2.0
    ensures x < 2.0 ==> r == x
    decreases x.Floor
  {
    if x >= 2.0 then FoldDown(x / 2.0) else x
  }

  /** Second loop of normalizeFloat: double while the value is below 1. */
  function FoldUp(x: real): (r: real)
    requires 0.0 < x < 2.0
    ensures 1.0 <= r < 2.0
    ensures x >= 1.0 ==> r == x
    decreases (1.0 / x).Floor
  {
    if x < 1.0 then
      DoublingShrinks(x);
      FoldUp(x * 2.0)
    else x
  }

  /** The real-valued octave fold: lands in [1, 2) and is the identity there. */
  function FoldReal(x: real): (r: real)
    requires x > 0.0
    ensures 1.0 <= r < 2.0
    ensures 1.0 <= x < 2.0 ==> r == x
  {
    FoldUp(FoldDown(x))
  }

  /** The first loop divides its input by a power of two. */
  lemma {:induction false} FoldDownScale(x: real) returns (k: nat)
    requires x > 0.0
    ensures x == Shift(FoldDown(x), k)
    decreases x.Floor
  {
    if x >= 2.0 {
      var k' := FoldDownScale(x / 2.0);
      k := k' + 1;
      ShiftAdd(FoldDown(x), k', 1);
    } else {
      k := 0;
    }
  }

  /** The second loop multiplies its input by a power of two. */
  lemma {:induction false} FoldUpScale(x: real) returns (k: nat)
    requires 0.0 < x < 2.0
    ensures FoldUp(x) == Shift(x, k)
    decreases (1.0 / x).Floor
  {
    if x < 1.0 {
      DoublingShrinks(x);
      var k' := FoldUpScale(x * 2.0);
      k := k' + 1;
      ShiftAdd(x, 1, k');
    } else {
      k := 0;
    }
  }

  /** The fold moves its input by whole octaves: FoldReal(x) * 2^j == x * 2^i. */
  lemma FoldRealScale(x: real) returns (i: nat, j: nat)
    requires x > 0.0
    ensures Shift(FoldReal(x), j) == Shift(x, i)
  {
    var f := FoldDown(x);
    j := FoldDownScale(x);
    i := FoldUpScale(f);
    ShiftAdd(f, i, j);
    ShiftAdd(f, j, i);
  }

  /** Two values of [1, 2) a whole number of octaves apart are equal. */
  lemma OctaveUnique(y: real, z: real, i: nat, j: nat)
    requires 1.0 <= y < 2.0 && 1.0 <= z < 2.0
    requires Shift(y, j) == Shift(z, i)
    ensures y == z
  {
    if i < j {
      ShiftAdd(y, j - i, i);
      ShiftMonotone(Shift(y, j - i), z, i);
      ShiftGrows(y, j - i);
    } else if j < i {
      ShiftAdd(z, i - j, j);
      ShiftMonotone(Shift(z, i - j), y, j);
      ShiftGrows(z, i - j);
    } else {
      ShiftMonotone(y, z, i);
    }
  }

  /** The fold is the one value of [1, 2) a whole number of octaves from x. */
  lemma FoldRealUnique(x: real, y: real, i: nat, j: nat)
    requires x > 0.0 && 1.0 <= y < 2.0
    requires Shift(y, j) == Shift(x, i)
    ensures y == FoldReal(x)
  {
    var i', j' := FoldRealScale(x);
    var z := FoldReal(x);
    ShiftAdd(y, j, i');
    ShiftAdd(x, i, i');
    ShiftAdd(x, i', i);
    ShiftAdd(z, j', i);
    calc {
      Shift(y, j + i');
      Shift(Shift(y, j), i');
      Shift(Shift(x, i), i');
      Shift(Shift(x, i'), i);
      Shift(Shift(z, j'), i);
      Shift(z, j' + i);
    }
    OctaveUnique(y, z, j' + i, j + i');
  }

  /** Values a whole number of octaves apart fold to the same value. */
  lemma FoldRealShift(x: real, y: real, i: nat, j: nat)
    requires x > 0.0 && y > 0.0
    requires Shift(x, j) == Shift(y, i)
    ensures FoldReal(x) == FoldReal(y)
  {
    var i1, j1 := FoldRealScale(x);
    var f := FoldReal(x);
    ShiftAdd(f, j1, j);
    ShiftAdd(x, i1, j);
    ShiftAdd(x, j, i1);
    ShiftAdd(y, i, i1);
    FoldRealUnique(y, f, i + i1, j1 + j);
  }

  /** Raising the input by an octave does not change the fold. */
  lemma FoldRealOctave(x: real)
    requires x > 0.0
    ensures FoldReal(2.0 * x) == FoldReal(x)
  {
    if x >= 1.0 {
      assert (2.0 * x) / 2.0 == x;
    } else {
      assert FoldUp(x) == FoldUp(x * 2.0);
    }
  }

  /** normalizeFloat (math.js:60-65, index.js:14). */
  method NormalizeFloat(r: real) returns (x: real)
    requires r > 0.0
    ensures x == FoldReal(r)
    ensures 1.0 <= x < 2.0
  {
    x := r;
    while x >= 2.0
      invariant x > 0.0 && FoldDown(x) == FoldDown(r)
      decreases x.Floor
    {
      x := x / 2.0;
    }
    while x < 1.0
      invariant 0.0 < x < 2.0 && FoldUp(x) == FoldReal(r)
      decreases (1.0 / x).Floor
    {
      DoublingShrinks(x);
      x := x * 2.0;
    }
  }

  // ---------------------------------------------------------------------
  // Exact fractions: normalizeFrac

  /** First loop of normalizeFrac: double the denominator while n/d >= 2. */
  function RaiseDen(n: int, d: int): (r: int)
    requires n > 0 && d > 0
    ensures r >= d && n < 2 * r
    ensures n >= d ==> r <= n
    decreases n - d
  {
    if n >= 2 * d then RaiseDen(n, 2 * d) else d
  }

  /** Second loop of normalizeFrac: double the numerator while n/d < 1. */
  function RaiseNum(n: int, d: int): (r: int)
    requires n > 0 && d > 0
    ensures r >= n && r >= d
    ensures n < 2 * d ==> r < 2 * d
    decreases d - n
  {
    if n < d then RaiseNum(2 * n, d) else n
  }

  /** How n/d compares with 1 and 2, and what halving and doubling do to it. */
  lemma FracFacts(n: int, d: int)
    requires n > 0 && d > 0
    ensures n as real / d as real > 0.0
    ensures n == d ==> n as real / d as real == 1.0
    ensures n as real / d as real < 1.0 <==> n < d
    ensures n as real / d as real < 2.0 <==> n < 2 * d
    ensures (n as real / d as real) / 2.0 == n as real / (2 * d) as real
    ensures (n as real / d as real) * 2.0 == (2 * n) as real / d as real
  {
    FracBelow(n, d, 1);
    FracBelow(n, d, 2);
    FracHalf(n, d);
    FracDouble(n, d);
  }

  lemma FracBelow(n: int, d: int, k: int)
    requires n > 0 && d > 0
    ensures n as real / d as real < k as real <==> n < k * d
  {
    var x, dr := n as real / d as real, d as real;
    assert n as real == x * dr;
    if x < k as real {
      assert x * dr < k as real * dr;
    } else {
      assert x * dr >= k as real * dr;
    }
  }

  lemma FracHalf(n: int, d: int)
    requires n > 0 && d > 0
    ensures (n as real / d as real) / 2.0 == n as real / (2 * d) as real
  {
    var x := n as real / d as real;
    assert n as real == x * d as real;
    assert n as real == (x / 2.0) * (2 * d) as real;
  }

  lemma FracDouble(n: int, d: int)
    requires n > 0 && d > 0
    ensures (n as real / d as real) * 2.0 == (2 * n) as real / d as real
  {
    var x := n as real / d as real;
    assert n as real == x * d as real;
    assert (2 * n) as real == (x * 2.0) * d as real;
  }

  /** The first loop on fractions mirrors the first loop on reals. */
  lemma {:induction false} RaiseDenMatches(n: int, d: int)
    requires n > 0 && d > 0
    ensures FoldDown(n as real / d as real) == n as real / RaiseDen(n, d) as real
    decreases n - d
  {
    FracFacts(n, d);
    if n >= 2 * d {
      RaiseDenMatches(n, 2 * d);
    }
  }

  /** The second loop on fractions mirrors the second loop on reals. */
  lemma {:induction false} RaiseNumMatches(n: int, d: int)
    requires n > 0 && d > 0 && n < 2 * d
    ensures n as real / d as real < 2.0
    ensures FoldUp(n as real / d as real) == RaiseNum(n, d) as real / d as real
    decreases d - n
  {
    FracFacts(n, d);
    if n < d {
      RaiseNumMatches(2 * n, d);
    }
  }

  /** Scaling both ends of d <= n < 2d down by a common divisor. */
  lemma DivideRange(n: int, d: int, g: int)
    requires g > 0 && Divides(g, n) && Divides(g, d) && d <= n < 2 * d
    ensures d / g <= n / g < 2 * (d / g)
  {
    DividesWitness(g, n);
    DividesWitness(g, d);
    var a, b := n / g, d / g;
    if a < b {
      MulMonotone(g, a, b - 1);
      assert false;
    }
    if a >= 2 * b {
      MulMonotone(g, 2 * b, a);
      assert false;
    }
  }

  /** The octave fold of sn/sd in lowest terms (math.js:73-80). */
  function FoldFrac(sn: int, sd: int): (r: Ratio)
    requires sn >= 1 && sd >= 1
    ensures r.num >= 1 && r.den >= 1
    ensures r.den <= r.num < 2 * r.den
    ensures Coprime(r.num, r.den)
    ensures sn == sd ==> r == Unison
  {
    if sn == sd then Unison
    else
      var d := RaiseDen(sn, sd);
      var n := RaiseNum(sn, d);
      var g := GcdOf(n, d);
      ReducedCoprime(n, d);
      DivideRange(n, d, g);
      Ratio(n / g, d / g)
  }

  /** Dividing numerator and denominator by a common divisor keeps the value. */
  lemma ReducedValue(n: int, d: int, g: int)
    requires n > 0 && d > 0 && Divides(g, n) && Divides(g, d)
    ensures d / g != 0
    ensures (n / g) as real / (d / g) as real == n as real / d as real
  {
    DividesWitness(g, n);
    DividesWitness(g, d);
    var a, b := n / g, d / g;
    QuotientPositive(g, d);
    assert (g * a) as real == g as real * a as real;
    assert (g * b) as real == g as real * b as real;
  }

  /** The exact fold and the real fold agree: in normalised mode the pitch
      key names the ratio that is sounded. */
  lemma FoldFracMatchesFoldReal(sn: int, sd: int)
    requires sn >= 1 && sd >= 1
    ensures Value(FoldFrac(sn, sd)) == FoldReal(Value(Ratio(sn, sd)))
  {
    var x := Value(Ratio(sn, sd));
    FracFacts(sn, sd);
    if sn != sd {
      var d := RaiseDen(sn, sd);
      var n := RaiseNum(sn, d);
      var g := GcdOf(n, d);
      RaiseDenMatches(sn, sd);
      RaiseNumMatches(sn, d);
      assert FoldReal(x) == n as real / d as real;
      ReducedCoprime(n, d);
      ReducedValue(n, d, g);
      assert FoldFrac(sn, sd) == Ratio(n / g, d / g);
    }
  }

  /** Fractions in lowest terms with equal values are equal. */
  lemma LowestTermsValue(r: Ratio, s: Ratio)
    requires r.num >= 1 && r.den >= 1 && Coprime(r.num, r.den)
    requires s.num >= 1 && s.den >= 1 && Coprime(s.num, s.den)
    requires Value(r) == Value(s)
    ensures r == s
  {
    var x, rd, sd := Value(r), r.den as real, s.den as real;
    assert r.num as real == x * rd;
    assert s.num as real == x * sd;
    assert (r.num * s.den) as real == x * (rd * sd);
    assert (s.num * r.den) as real == x * (rd * sd);
    LowestTermsUnique(r.num, r.den, s.num, s.den);
  }

  /** The folded fraction is sn/sd moved by whole octaves. */
  lemma FoldFracScale(sn: int, sd: int) returns (i: nat, j: nat)
    requires sn >= 1 && sd >= 1
    ensures Shift(Value(FoldFrac(sn, sd)), j) == Shift(Value(Ratio(sn, sd)), i)
  {
    FracFacts(sn, sd);
    FoldFracMatchesFoldReal(sn, sd);
    i, j := FoldRealScale(Value(Ratio(sn, sd)));
  }

  /** Folding a folded fraction changes nothing. */
  lemma FoldFracIdempotent(sn: int, sd: int)
    requires sn >= 1 && sd >= 1
    ensures FoldFrac(FoldFrac(sn, sd).num, FoldFrac(sn, sd).den) == FoldFrac(sn, sd)
  {
    var r := FoldFrac(sn, sd);
    FoldFracFixes(r.num, r.den);
  }

  /** A fraction already in lowest terms and in [1, 2) is its own fold. */
  lemma FoldFracFixes(n: int, d: int)
    requires 1 <= d <= n < 2 * d && Coprime(n, d)
    ensures FoldFrac(n, d) == Ratio(n, d)
  {
    if n == d {
      UnisonFixed(n);
    } else {
      ReducedFixed(n, d);
    }
  }

  /** The only coprime n/n is 1/1, the unison. */
  lemma UnisonFixed(n: int)
    requires n >= 1 && Coprime(n, n)
    ensures FoldFrac(n, n) == Ratio(n, n)
  {
    assert GcdOf(n, 0) == n;
    assert GcdOf(n, n) == n;
  }

  /** Above the unison neither doubling loop runs and the gcd is 1. */
  lemma ReducedFixed(n: int, d: int)
    requires 1 <= d < n < 2 * d && Coprime(n, d)
    ensures FoldFrac(n, d) == Ratio(n, d)
  {
    assert RaiseDen(n, d) == d;
    assert RaiseNum(n, d) == n;
    assert n / 1 == n && d / 1 == d;
  }

  /** The key of a fraction is its octave class: two fractions fold to the
      same key exactly when they are a whole number of octaves apart. */
  lemma FoldFracOctaveClass(a: int, b: int, c: int, d: int)
    requires a >= 1 && b >= 1 && c >= 1 && d >= 1
    ensures FoldFrac(a, b) == FoldFrac(c, d) <==>
      exists i: nat, j: nat :: Shift(Value(Ratio(a, b)), j) == Shift(Value(Ratio(c, d)), i)
  {
    var x, y := Value(Ratio(a, b)), Value(Ratio(c, d));
    FracFacts(a, b);
    FracFacts(c, d);
    FoldFracMatchesFoldReal(a, b);
    FoldFracMatchesFoldReal(c, d);
    if FoldFrac(a, b) == FoldFrac(c, d) {
      var i, j := FoldRealScale(x);
      var k, l := FoldRealScale(y);
      var f := FoldReal(x);
      ShiftAdd(x, i, l);
      ShiftAdd(f, j, l);
      ShiftAdd(f, l, j);
      ShiftAdd(y, k, j);
      calc {
        Shift(x, i + l);
        Shift(Shift(x, i), l);
        Shift(Shift(f, j), l);
        Shift(Shift(f, l), j);
        Shift(Shift(y, k), j);
        Shift(y, k + j);
      }
    } else {
      forall i: nat, j: nat
        ensures Shift(x, j) != Shift(y, i)
      {
        if Shift(x, j) == Shift(y, i) {
          FoldRealShift(x, y, i, j);
          LowestTermsValue(FoldFrac(a, b), FoldFrac(c, d));
        }
      }
    }
  }

  /** normalizeFrac (math.js:73-80, index.js:85-92). */
  method NormalizeFrac(sn: int, sd: int) returns (n: int, d: int)
    requires sn >= 1 && sd >= 1
    ensures Ratio(n, d) == FoldFrac(sn, sd)
  {
    if sn == sd {
      return 1, 1;
    }
    n, d := sn, sd;
    while n >= 2 * d
      invariant n == sn && d >= 1 && RaiseDen(n, d) == RaiseDen(sn, sd)
      decreases n - d
    {
      d := d * 2;
    }
    while n < d
      invariant n >= 1 && d == RaiseDen(sn, sd) && RaiseNum(n, d) == RaiseNum(sn, d)
      decreases d - n
    {
      n := n * 2;
    }
    var g := Gcd(n, d);
    n, d := n / g, d / g;
  }
}
