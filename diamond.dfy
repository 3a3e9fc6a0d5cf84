/** The ratio, key, label and colour model of the diamond grid in index.js.
    A cell in row a and column b sounds the ratio b/a; its pitch key and its
    label depend on the label mode; its colour comes from the largest prime
    factor of a grid value through the per-grid prime-to-hue map. Keys and
    labels are the text `n/d`; the model keeps the pair of integers, since
    decimal formatting of positive integers is one-to-one. */
module Diamond {
  import opened NumberTheory
  import opened Seqs
  import opened Primes
  import opened Octave
  import opened GridSets

  /** The label radio: normalised, raw row/column values, or raw reduced. */
  datatype LabelMode = Norm | Rows | Raw

  // ---------------------------------------------------------------------
  // Cell reduction

  /** The reduced ratio of the cell in row a and column b: the column value
      over the row value, both divided by their gcd. */
  function ReducedCell(a: int, b: int): (r: Ratio)
    requires a >= 1 && b >= 1
    ensures r.num >= 1 && r.den >= 1 && Coprime(r.num, r.den)
    ensures r.num * a == r.den * b
    ensures a == b ==> r == Unison
  {
    var g := GcdOf(a, b);
    ReducedCoprime(a, b);
    GcdCommutes(a / g, b / g);
    DividesWitness(g, a);
    DividesWitness(g, b);
    CrossMultiply(g, a / g, b / g);
    GcdSelf(a);
    Ratio(b / g, a / g)
  }

  lemma CrossMultiply(g: int, x: int, y: int)
    ensures y * (g * x) == x * (g * y)
  {
  }

  lemma GcdSelf(a: int)
    requires a >= 1
    ensures GcdOf(a, a) == a
  {
    assert GcdOf(a, a) == GcdOf(a, a % a) == GcdOf(a, 0);
  }

  /** The loop at the heart of the grid: reduce the cell with `gcd`. */
  method ReduceCell(a: int, b: int) returns (sn: int, sd: int)
    requires a >= 1 && b >= 1
    ensures Ratio(sn, sd) == ReducedCell(a, b)
  {
    var g := Gcd(a, b);
    sn, sd := b / g, a / g;
  }

  /** The cell sounds b/a: its reduced ratio has the value b/a. */
  lemma CellValue(a: int, b: int)
    requires a >= 1 && b >= 1
    ensures Value(ReducedCell(a, b)) == b as real / a as real
  {
    ReducedCoprime(a, b);
    ReducedValue(b, a, GcdOf(a, b));
  }

  /** The reduced ratio is the only pair in lowest terms with sn/sd = b/a. */
  lemma ReducedCellUnique(a: int, b: int, r: Ratio)
    requires a >= 1 && b >= 1
    requires r.num >= 1 && r.den >= 1 && Coprime(r.num, r.den)
    requires r.num * a == r.den * b
    ensures r == ReducedCell(a, b)
  {
    var c := ReducedCell(a, b);
    CrossRatio(r.num, r.den, c.num, c.den, a, b);
    LowestTermsUnique(r.num, r.den, c.num, c.den);
  }

  /** Two pairs cross-multiplying to the same b/a cross-multiply to each
      other. */
  lemma CrossRatio(n: int, d: int, n': int, d': int, a: int, b: int)
    requires b >= 1 && n * a == d * b && n' * a == d' * b
    ensures n * d' == n' * d
  {
    assert (n * d') * b == (n' * d) * b by {
      calc {
        (n * d') * b;
        == n * (d' * b);
        == n * (n' * a);
        == n' * (n * a);
        == n' * (d * b);
        == (n' * d) * b;
      }
    }
    CancelRight(n * d', n' * d, b);
  }

  lemma CancelRight(x: int, y: int, b: int)
    requires b >= 1 && x * b == y * b
    ensures x == y
  {
    if x < y {
      MulMonotone(b, x + 1, y);
      assert false;
    } else if x > y {
      MulMonotone(b, y + 1, x);
      assert false;
    }
  }

  // ---------------------------------------------------------------------
  // Pitch, keys and labels

  /** The ratio the cell sounds: folded into one octave in 'norm' mode,
      sn/sd as it is otherwise. */
  function RatioFor(mode: LabelMode, sn: int, sd: int): (x: real)
    requires sn >= 1 && sd >= 1
    ensures mode == Norm ==> 1.0 <= x < 2.0
    ensures x > 0.0
  {
    FracFacts(sn, sd);
    var r := sn as real / sd as real;
    if mode == Norm then FoldReal(r) else r
  }

  /** The voice key of a cell: the octave-folded fraction in 'norm' mode,
      the reduced ratio unchanged otherwise. */
  function NoteKeyFor(mode: LabelMode, sn: int, sd: int): (k: Ratio)
    requires sn >= 1 && sd >= 1
    ensures k.num >= 1 && k.den >= 1
    ensures mode == Norm ==> k.den <= k.num < 2 * k.den && Coprime(k.num, k.den)
    ensures mode != Norm ==> k == Ratio(sn, sd)
  {
    if mode == Norm then FoldFrac(sn, sd) else Ratio(sn, sd)
  }

  /** Keys mirror the audible pitch: for ratios in lowest terms, two cells
      share a key exactly when they sound the same ratio, in every mode. */
  lemma KeyMirrorsPitch(mode: LabelMode, r: Ratio, s: Ratio)
    requires r.num >= 1 && r.den >= 1 && Coprime(r.num, r.den)
    requires s.num >= 1 && s.den >= 1 && Coprime(s.num, s.den)
    ensures NoteKeyFor(mode, r.num, r.den) == NoteKeyFor(mode, s.num, s.den)
        <==> RatioFor(mode, r.num, r.den) == RatioFor(mode, s.num, s.den)
  {
    if mode == Norm {
      FoldFracMatchesFoldReal(r.num, r.den);
      FoldFracMatchesFoldReal(s.num, s.den);
      if RatioFor(mode, r.num, r.den) == RatioFor(mode, s.num, s.den) {
        LowestTermsValue(FoldFrac(r.num, r.den), FoldFrac(s.num, s.den));
      }
    } else {
      if Value(r) == Value(s) {
        LowestTermsValue(r, s);
      }
    }
  }

  /** In 'norm' mode two cells share a key exactly when their ratios b/a
      and d/c differ by whole octaves. */
  lemma NormKeyOctaveClass(a: int, b: int, c: int, d: int)
    requires a >= 1 && b >= 1 && c >= 1 && d >= 1
    ensures var r, s := ReducedCell(a, b), ReducedCell(c, d);
      NoteKeyFor(Norm, r.num, r.den) == NoteKeyFor(Norm, s.num, s.den)
      <==> exists i: nat, j: nat :: Shift(Value(Ratio(b, a)), j) == Shift(Value(Ratio(d, c)), i)
  {
    var r, s := ReducedCell(a, b), ReducedCell(c, d);
    CellValue(a, b);
    CellValue(c, d);
    assert Value(r) == Value(Ratio(b, a)) && Value(s) == Value(Ratio(d, c));
    FoldFracOctaveClass(r.num, r.den, s.num, s.den);
  }

  /** Every diagonal cell gets the unison key 1/1, in every mode. */
  lemma DiagonalKey(mode: LabelMode, a: int)
    requires a >= 1
    ensures NoteKeyFor(mode, ReducedCell(a, a).num, ReducedCell(a, a).den) == Unison
  {
  }

  /** The label of a cell: the unreduced column/row pair in 'rows' mode,
      the octave-folded fraction otherwise. */
  function MakeLabel(mode: LabelMode, a: int, b: int, sn: int, sd: int): (l: Ratio)
    requires a >= 1 && b >= 1 && sn >= 1 && sd >= 1
    ensures mode == Rows ==> l == Ratio(b, a)
    ensures mode != Rows ==> l == NoteKeyFor(Norm, sn, sd)
  {
    if mode == Rows then Ratio(b, a) else FoldFrac(sn, sd)
  }

  /** A 'rows' label shows the same ratio the cell reduces to, unreduced;
      the other modes show a fraction in lowest terms within one octave
      whose value is the ratio the cell sounds in 'norm' mode. */
  lemma LabelMeaning(mode: LabelMode, a: int, b: int)
    requires a >= 1 && b >= 1
    ensures var r := ReducedCell(a, b);
      var l := MakeLabel(mode, a, b, r.num, r.den);
      l.den >= 1 && (mode == Rows ==> Value(l) == Value(r))
      && (mode != Rows ==>
            l.den <= l.num < 2 * l.den && Coprime(l.num, l.den)
            && Value(l) == RatioFor(Norm, r.num, r.den))
  {
    var r := ReducedCell(a, b);
    var l := MakeLabel(mode, a, b, r.num, r.den);
    if mode == Rows {
      assert l == Ratio(b, a);
      CellValue(a, b);
    } else {
      assert l == FoldFrac(r.num, r.den);
      FoldFracMatchesFoldReal(r.num, r.den);
    }
  }

  /** Unison shows 1/1 in 'norm' mode. */
  lemma UnisonLabel(a: int)
    requires a >= 1
    ensures MakeLabel(Norm, a, a, ReducedCell(a, a).num, ReducedCell(a, a).den) == Unison
  {
  }

  // ---------------------------------------------------------------------
  // Colours

  /** The fallback hue: the golden-angle step 137 degrees per unit. */
  function Hue(n: int): (h: int)
    requires n >= 0
    ensures 0 <= h < 360
  {
    (n * 137 + 61) % 360
  }

  /** 0.85 to the power j, exactly. */
  function Pow085(j: nat): real
  {
    if j == 0 then 1.0 else 0.85 * Pow085(j - 1)
  }

  lemma {:induction false} Pow085Decreasing(i: nat, j: nat)
    requires i <= j
    ensures 0.0 < Pow085(j) <= Pow085(i) <= 1.0
    ensures i < j ==> Pow085(j) < Pow085(i)
    decreases j
  {
    if j > 0 {
      if i < j {
        Pow085Decreasing(i, j - 1);
      } else {
        Pow085Decreasing(i - 1, j - 1);
      }
    }
  }

  /** The saturation of the k-th member of a prime family: 75 * 0.85^(k-1)
      clamped to [28, 75]. */
  function Saturation(k: int): (s: real)
    requires k >= 1
    ensures 28.0 <= s <= 75.0
    ensures k == 1 ==> s == 75.0
  {
    Pow085Decreasing(0, k - 1);
    Clamp(75.0 * Pow085(k - 1), 28.0, 75.0)
  }

  /** Saturation never grows with the multiplicative distance, and it
      strictly falls until it reaches the floor of 28. */
  lemma SaturationFalls(k: int, k': int)
    requires 1 <= k <= k'
    ensures Saturation(k') <= Saturation(k)
    ensures k < k' && Saturation(k') > 28.0 ==> Saturation(k') < Saturation(k)
  {
    Pow085Decreasing(0, k - 1);
    Pow085Decreasing(0, k' - 1);
    Pow085Decreasing(k - 1, k' - 1);
  }

  datatype Color = UnisonColor | Hsl(hue: real, sat: real, light: real)

  /** The tile colour of grid value n: the fixed unison colour for 1;
      otherwise the hue of its largest prime factor p (from the grid's map,
      or the fallback hue), a saturation that falls with k = n/p, and
      lightness 60. Math.round(n/p) is exact because p divides n. */
  function ColorByPrimeBase(n: int, hues: map<int, real>): (c: Color)
    requires n >= 1
    ensures c == UnisonColor <==> n == 1
    ensures c.Hsl? ==> 28.0 <= c.sat <= 75.0 && c.light == 60.0
    ensures c.Hsl? ==> c.hue == if LargestPrimeFactorOf(n) in hues
                                then hues[LargestPrimeFactorOf(n)]
                                else Hue(LargestPrimeFactorOf(n)) as real
    // the saturation is the family member's: k = n / p, read as at least 1
    ensures c.Hsl? ==> c.sat == Saturation(Max(1, n / LargestPrimeFactorOf(n)))
  {
    if n == 1 then UnisonColor
    else
      var p := LargestPrimeFactorOf(n);
      var h := if p in hues then hues[p] else Hue(p) as real;
      var k := Max(1, n / p);
      Hsl(h, Saturation(k), 60.0)
  }

  /** A multiple q*n whose extra factor q does not exceed n's largest prime
      factor stays in n's prime family: same hue, and no more saturated. */
  lemma FamilySharesHue(n: int, q: int, hues: map<int, real>)
    requires n >= 2 && IsPrime(q) && q <= LargestPrimeFactorOf(n)
    ensures q * n >= 2
    ensures ColorByPrimeBase(q * n, hues).hue == ColorByPrimeBase(n, hues).hue
    ensures ColorByPrimeBase(q * n, hues).sat <= ColorByPrimeBase(n, hues).sat
    // above the floor of 28 the multiple is strictly less saturated
    ensures ColorByPrimeBase(q * n, hues).sat > 28.0 ==>
      ColorByPrimeBase(q * n, hues).sat < ColorByPrimeBase(n, hues).sat
  {
    var p := LargestPrimeFactorOf(n);
    LargestPrimeFactorOfMultiple(n, q);
    var k := FamilyDistance(n, q, p);
    SaturationFalls(k, q * k);
  }

  /** The page's own colour check: 3, 6 and 9 share a hue and grow less
      saturated in that order. */
  lemma SaturationOfThreeSixNine(hues: map<int, real>)
    ensures ColorByPrimeBase(6, hues).hue == ColorByPrimeBase(3, hues).hue
    ensures ColorByPrimeBase(9, hues).hue == ColorByPrimeBase(3, hues).hue
    ensures ColorByPrimeBase(3, hues).sat > ColorByPrimeBase(6, hues).sat > ColorByPrimeBase(9, hues).sat
  {
    assert IsPrime(2) && IsPrime(3);
    assert LargestPrimeFactorOf(3) == 3 by {
      assert Divides(3, 3);
    }
    LargestPrimeFactorOfMultiple(3, 2);
    LargestPrimeFactorOfMultiple(3, 3);
    assert 6 / 3 == 2 && 9 / 3 == 3;
    assert Saturation(2) == 63.75;
    assert Saturation(3) == 54.1875;
  }

  /** n = p*k for the largest prime factor p, and q*n is q*k steps from p. */
  lemma FamilyDistance(n: int, q: int, p: int) returns (k: int)
    requires n >= 2 && q >= 2 && p == LargestPrimeFactorOf(n)
    ensures q * n >= 2 && k >= 1 && k < q * k
    ensures n / p == k && (q * n) / p == q * k
  {
    MulMonotone(n, 1, q);
    DividesWitness(p, n);
    k := n / p;
    QuotientPositive(p, n);
    assert q * n == p * (q * k);
    MulDivCancel(p, q * k);
    MulMonotone(k, 2, q);
  }

  lemma MulDivCancel(p: int, m: int)
    requires p >= 1
    ensures (p * m) / p == m
  {
    var q := (p * m) / p;
    MulMod(p, m);
    assert p * m == p * q + (p * m) % p;
    assert q * p == m * p;
    CancelRight(q, m, p);
  }

  // ---------------------------------------------------------------------
  // The per-grid prime hue map

  /** The largest prime factors of the grid values above 1. */
  ghost function Bases(nums: seq<int>): set<int>
  {
    set n | n in nums && n > 1 :: LargestPrimeFactorOf(n)
  }

  /** How many elements of s are below p: p's index in s sorted ascending. */
  ghost function Rank(p: int, s: set<int>): nat
  {
    |set q | q in s && q < p|
  }

  /** The hue of the i-th of m primes: (17 + i*360/m) mod 360. */
  function HueAt(i: int, m: int): (h: real)
    requires 0 <= i < m
    ensures 0.0 <= h < 360.0
  {
    SpreadRange(i, m);
    var x := 17.0 + (i as real) * 360.0 / (m as real);
    if x >= 360.0 then x - 360.0 else x
  }

  lemma SpreadRange(i: int, m: int)
    requires 0 <= i < m
    ensures 0.0 <= (i as real) * 360.0 / (m as real) < 360.0
  {
    var x, mr := (i as real) * 360.0, m as real;
    assert x < mr * 360.0;
    assert x / mr < 360.0;
  }

  lemma SpreadMonotone(i: int, j: int, m: int)
    requires 0 <= i < j < m
    ensures (i as real) * 360.0 / (m as real) < (j as real) * 360.0 / (m as real)
  {
    var mr := m as real;
    assert (j as real) * 360.0 - (i as real) * 360.0 >= 360.0;
    assert (j as real) * 360.0 / mr - (i as real) * 360.0 / mr == ((j as real) * 360.0 - (i as real) * 360.0) / mr;
  }

  /** Evenly spaced hues are pairwise distinct. */
  lemma HueAtDistinct(i: int, j: int, m: int)
    requires 0 <= i < m && 0 <= j < m && i != j
    ensures HueAt(i, m) != HueAt(j, m)
  {
    if i < j {
      SpreadMonotone(i, j, m);
      SpreadRange(j, m);
    } else {
      SpreadMonotone(j, i, m);
      SpreadRange(i, m);
    }
  }

  /** The hue map computePrimeHueMap builds for the bases of a grid: exactly
      those keys, the i-th smallest of m at (17 + i*360/m) mod 360. */
  ghost predicate EvenlySpaced(hues: map<int, real>, bases: set<int>) {
    hues.Keys == bases
    && forall p :: p in hues ==> Rank(p, bases) < |bases| && hues[p] == HueAt(Rank(p, bases), |bases|)
  }

  /** Different bases of one grid get different hues, all in [0, 360). */
  lemma EvenlySpacedDistinct(hues: map<int, real>, bases: set<int>, p: int, q: int)
    requires EvenlySpaced(hues, bases) && p in bases && q in bases && p != q
    ensures hues[p] != hues[q]
    ensures 0.0 <= hues[p] < 360.0
  {
    if p < q {
      RankGrows(p, q, bases);
    } else {
      RankGrows(q, p, bases);
    }
    HueAtDistinct(Rank(p, bases), Rank(q, bases), |bases|);
  }

  lemma RankGrows(p: int, q: int, s: set<int>)
    requires p in s && p < q
    ensures Rank(p, s) < Rank(q, s)
  {
    var below, below' := set x | x in s && x < p, set x | x in s && x < q;
    ProperSubsetSmaller(below, below', p);
  }

  lemma ProperSubsetSmaller(a: set<int>, b: set<int>, x: int)
    requires a <= b && x in b && x !in a
    ensures |a| < |b|
  {
    assert b == a + (b - a);
    assert |b - a| >= 1 by {
      assert x in b - a;
    }
  }

  /** Grid values from different prime families are coloured with different
      hues once the grid's hue map is in place. */
  lemma GridHuesDistinct(nums: seq<int>, hues: map<int, real>, n: int, n': int)
    requires EvenlySpaced(hues, Bases(nums))
    requires n in nums && n' in nums && n > 1 && n' > 1
    requires LargestPrimeFactorOf(n) != LargestPrimeFactorOf(n')
    ensures ColorByPrimeBase(n, hues).hue != ColorByPrimeBase(n', hues).hue
  {
    var p, p' := LargestPrimeFactorOf(n), LargestPrimeFactorOf(n');
    assert p in Bases(nums) && p' in Bases(nums);
    EvenlySpacedDistinct(hues, Bases(nums), p, p');
  }

  /** x inserted into an ascending list before the first larger element. */
  function Insert(ps: seq<int>, x: int): seq<int>
  {
    if ps == [] || x < ps[0] then [x] + ps
    else [ps[0]] + Insert(ps[1..], x)
  }

  /** Inserting a new element into an ascending list keeps it ascending and
      adds exactly that element. */
  lemma {:induction false} InsertFacts(ps: seq<int>, x: int)
    requires StrictlyAscending(ps) && x !in ps
    ensures StrictlyAscending(Insert(ps, x)) && |Insert(ps, x)| == |ps| + 1
    ensures forall y :: y in Insert(ps, x) <==> y in ps || y == x
  {
    if ps != [] && ps[0] <= x {
      var tail := ps[1..];
      assert StrictlyAscending(tail);
      assert ps[0] < x by {
        assert ps[0] in ps;
      }
      InsertFacts(tail, x);
      var rest := Insert(tail, x);
      forall k | 0 <= k < |rest|
        ensures ps[0] < rest[k]
      {
        assert rest[k] in rest;
        if rest[k] != x {
          var j :| 0 <= j < |tail| && tail[j] == rest[k];
          assert ps[j + 1] == tail[j];
        }
      }
      assert Insert(ps, x) == [ps[0]] + rest;
    }
  }

  /** `Array.from(bases).sort((a, b) => a - b)` on a list without repeats:
      the same elements, ascending. */
  method SortAscending(xs: seq<int>) returns (ps: seq<int>)
    requires NoDuplicates(xs)
    ensures StrictlyAscending(ps) && |ps| == |xs|
    ensures forall x :: x in ps <==> x in xs
  {
    ps := [];
    for i := 0 to |xs|
      invariant StrictlyAscending(ps) && |ps| == i
      invariant forall x :: x in ps <==> x in xs[..i]
    {
      assert xs[i] !in xs[..i];
      InsertFacts(ps, xs[i]);
      ps := Insert(ps, xs[i]);
      assert xs[..i + 1] == xs[..i] + [xs[i]];
    }
    assert xs[..|xs|] == xs;
  }

  /** In an ascending list holding exactly the elements of s, each element
      sits at its rank, and the list is as long as s is large. */
  lemma SortedRanks(ps: seq<int>, s: set<int>)
    requires StrictlyAscending(ps) && forall x :: x in ps <==> x in s
    ensures |ps| == |s|
    ensures forall i :: 0 <= i < |ps| ==> Rank(ps[i], s) == i
  {
    PrefixSetSize(ps, |ps|);
    assert s == set j | 0 <= j < |ps| :: ps[j] by {
      forall x | x in s
        ensures x in set j | 0 <= j < |ps| :: ps[j]
      {
        var k :| 0 <= k < |ps| && ps[k] == x;
      }
    }
    forall i | 0 <= i < |ps|
      ensures Rank(ps[i], s) == i
    {
      PrefixSetSize(ps, i);
      var below := set q | q in s && q < ps[i];
      assert below == set j | 0 <= j < i :: ps[j] by {
        forall q | q in below
          ensures q in set j | 0 <= j < i :: ps[j]
        {
          var k :| 0 <= k < |ps| && ps[k] == q;
          assert k < i;
        }
      }
    }
  }

  /** The first i elements of an ascending list are i different values. */
  lemma {:induction false} PrefixSetSize(ps: seq<int>, i: int)
    requires StrictlyAscending(ps) && 0 <= i <= |ps|
    ensures |set j | 0 <= j < i :: ps[j]| == i
  {
    if i > 0 {
      PrefixSetSize(ps, i - 1);
      var before := set j | 0 <= j < i - 1 :: ps[j];
      assert (set j | 0 <= j < i :: ps[j]) == before + {ps[i - 1]};
      assert ps[i - 1] !in before;
    }
  }

  /** The bases of a grid collected into a Set value by value: each once,
      in the order they first appear. */
  method CollectBases(nums: seq<int>) returns (bases: seq<int>)
    ensures NoDuplicates(bases)
    ensures forall x :: x in bases <==> x in Bases(nums)
  {
    bases := [];
    for i := 0 to |nums|
      invariant NoDuplicates(bases)
      invariant forall x :: x in bases <==> x in Bases(nums[..i])
    {
      if nums[i] > 1 {
        var p := LargestPrimeFactor(nums[i]);
        if p !in bases {
          bases := bases + [p];
        }
      }
      assert nums[..i + 1] == nums[..i] + [nums[i]];
    }
    assert nums[..|nums|] == nums;
  }

  /** The hue loop's progress: the first i primes, and only they, carry
      their evenly spaced hues. */
  ghost predicate HuesAssigned(hues: map<int, real>, ps: seq<int>, i: int, m: int) {
    0 <= i <= |ps| <= m && StrictlyAscending(ps)
    && (forall x :: x in hues <==> x in ps[..i])
    && (forall j :: 0 <= j < i ==> ps[j] in hues && hues[ps[j]] == HueAt(j, m))
  }

  lemma HuesEvenlySpaced(hues: map<int, real>, ps: seq<int>, B: set<int>)
    requires HuesAssigned(hues, ps, |ps|, Max(1, |ps|))
    requires forall x :: x in ps <==> x in B
    ensures EvenlySpaced(hues, B)
  {
    SortedRanks(ps, B);
    assert ps[..|ps|] == ps;
    assert hues.Keys == B by {
      forall x
        ensures x in hues.Keys <==> x in B
      {
      }
    }
    forall p | p in hues
      ensures Rank(p, B) < |B| && hues[p] == HueAt(Rank(p, B), |B|)
    {
      var k :| 0 <= k < |ps| && ps[k] == p;
    }
  }

  /** The grid state index.js keeps between builds: the current values and
      the prime-to-hue map. */
  class GridState {
    var currentNums: seq<int>
    var primeHueMap: map<int, real>

    constructor()
      ensures currentNums == [] && primeHueMap == map[]
    {
      currentNums := [];
      primeHueMap := map[];
    }

    /** Rebuild the hue map from scratch for the bases of nums: clear it,
        then give the i-th smallest base of m the hue (17 + i*360/m) mod 360. */
    method ComputePrimeHueMap(nums: seq<int>)
      modifies this
      ensures currentNums == old(currentNums)
      ensures EvenlySpaced(primeHueMap, Bases(nums))
    {
      var bases := CollectBases(nums);
      var primes := SortAscending(bases);
      var m := Max(1, |primes|);
      primeHueMap := map[];
      for i := 0 to |primes|
        invariant currentNums == old(currentNums)
        invariant HuesAssigned(primeHueMap, primes, i, m)
      {
        primeHueMap := primeHueMap[primes[i] := HueAt(i, m)];
      }
      HuesEvenlySpaced(primeHueMap, primes, Bases(nums));
    }

    /** `build`: derive the grid values from the limits or the custom list,
      keep them, and recompute the hue map. */
    method Build(mode: GenMode, oddLimit: string, primeLimit: string, custom: string)
      modifies this
      ensures mode == Limit ==> IsLimitSet(currentNums, BuildOddLimit(oddLimit), primeLimit)
      ensures mode == Custom ==> currentNums == Dedup(RunValues(DigitRuns(Trim(custom))))
      ensures EvenlySpaced(primeHueMap, Bases(currentNums))
    {
      var nums: seq<int>;
      if mode == Limit {
        var L := BuildOddLimit(oddLimit);
        nums := LimitSet(L, primeLimit);
      } else {
        nums := ParseCustom(Some(Trim(custom)));
      }
      currentNums := nums;
      ComputePrimeHueMap(currentNums);
    }
  }

  /** The generation radio: odd/prime limits or a custom list. */
  datatype GenMode = Limit | Custom
}
