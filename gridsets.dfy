/** The grid-set builders of math.js (duplicated inline in index.js): the odd
    numbers up to a limit, the odd-limit / prime-limit set, the parser for a
    custom list of numbers, `clamp`, and the odd-limit normalisation that
    `build` applies to the text of the odd-limit field. Text is `seq<char>`;
    JavaScript's `parseInt(s, 10)` is modelled on mathematical integers. */
module GridSets {
  import opened NumberTheory
  import opened Seqs
  import opened Primes

  predicate IsOdd(x: int) {
    x % 2 == 1
  }

  // ---------------------------------------------------------------------
  // Odd limits

  /** The odd numbers 1, 3, 5, ... up to L, ascending. */
  method OddSet(L: int) returns (out: seq<int>)
    ensures forall k :: 0 <= k < |out| ==> out[k] == 2 * k + 1
    ensures forall x :: x in out <==> IsOdd(x) && 1 <= x <= L
    ensures StrictlyAscending(out)
  {
    out := [];
    var i := 1;
    while i <= L
      invariant i == 2 * |out| + 1
      invariant i == 1 || i <= L + 2
      invariant forall k :: 0 <= k < |out| ==> out[k] == 2 * k + 1
      decreases L - i
    {
      out := out + [i];
      i := i + 2;
    }
    forall x | IsOdd(x) && 1 <= x <= L
      ensures x in out
    {
      assert out[(x - 1) / 2] == x;
    }
  }

  /** The limit `limitset` works with: the largest odd number not above
      max(1, L). */
  function OddLimit(L: int): (r: int)
    ensures IsOdd(r) && 1 <= r <= Max(1, L)
    ensures forall x :: IsOdd(x) && x <= Max(1, L) ==> x <= r
  {
    var m := Max(1, L);
    if m % 2 == 0 then m - 1 else m
  }

  // ---------------------------------------------------------------------
  // parseInt(s, 10)

  predicate IsDigit(c: char) {
    '0' <= c <= '9'
  }

  predicate AllDigits(s: string) {
    forall i :: 0 <= i < |s| ==> IsDigit(s[i])
  }

  /** The characters parseInt skips before the number: ECMAScript white
      space and line terminators. */
  predicate IsSpace(c: char) {
    c == '\t' || c == '\n' || c == '\U{000B}' || c == '\U{000C}' || c == '\r' || c == ' '
    || c == '\U{00A0}' || c == '\U{1680}' || ('\U{2000}' <= c <= '\U{200A}')
    || c == '\U{2028}' || c == '\U{2029}' || c == '\U{202F}' || c == '\U{205F}'
    || c == '\U{3000}' || c == '\U{FEFF}'
  }

  function TrimStart(s: string): (t: string)
    ensures |t| <= |s|
    ensures t == [] || !IsSpace(t[0])
  {
    if s != [] && IsSpace(s[0]) then TrimStart(s[1..]) else s
  }

  function TrimEnd(s: string): (t: string)
    ensures |t| <= |s|
    ensures t == [] || !IsSpace(t[|t| - 1])
  {
    if s != [] && IsSpace(s[|s| - 1]) then TrimEnd(s[..|s| - 1]) else s
  }

  /** String.prototype.trim: white space removed at both ends. */
  function Trim(s: string): string
  {
    TrimEnd(TrimStart(s))
  }

  /** Length of the longest prefix of s made of decimal digits. */
  function DigitPrefix(s: string): (k: nat)
    ensures k <= |s| && AllDigits(s[..k])
    ensures k < |s| ==> !IsDigit(s[k])
  {
    if s != [] && IsDigit(s[0]) then 1 + DigitPrefix(s[1..]) else 0
  }

  function DigitValue(c: char): (v: nat)
    requires IsDigit(c)
    ensures v <= 9
  {
    c as int - '0' as int
  }

  /** The value of a string of decimal digits, most significant first. */
  function DigitsValue(ds: string): nat
    requires AllDigits(ds)
  {
    if ds == [] then 0 else 10 * DigitsValue(ds[..|ds| - 1]) + DigitValue(ds[|ds| - 1])
  }

  /** parseInt(s, 10): leading white space, an optional sign and the longest
      run of digits that follows; no digits at all gives NaN (None). */
  function ParseInt(s: string): Option<int>
  {
    var t := TrimStart(s);
    var signed := t != [] && (t[0] == '-' || t[0] == '+');
    var u := if signed then t[1..] else t;
    var k := DigitPrefix(u);
    if k == 0 then None
    else
      var v: int := DigitsValue(u[..k]);
      if signed && t[0] == '-' then Some(-v) else Some(v)
  }

  /** The decimal numeral of n, without leading zeros. */
  function Decimal(n: nat): (s: string)
    ensures |s| >= 1 && AllDigits(s)
    ensures n > 0 ==> s[0] != '0'
  {
    var last := ['0' + (n % 10) as char];
    if n < 10 then last else Decimal(n / 10) + last
  }

  /** Reading a numeral back gives the number it was written from. */
  lemma {:induction false} DecimalValue(n: nat)
    ensures DigitsValue(Decimal(n)) == n
  {
    var d := Decimal(n);
    assert d[..|d| - 1] == if n < 10 then [] else Decimal(n / 10);
    if n >= 10 {
      DecimalValue(n / 10);
    }
  }

  /** The digit prefix of a run of digits followed by a non-digit is exactly
      that run. */
  lemma {:induction false} DigitPrefixOf(ds: string, rest: string)
    requires AllDigits(ds)
    requires rest == [] || !IsDigit(rest[0])
    ensures DigitPrefix(ds + rest) == |ds|
  {
    if ds != [] {
      assert (ds + rest)[1..] == ds[1..] + rest;
      DigitPrefixOf(ds[1..], rest);
    }
  }

  /** A digit is neither white space nor a sign. */
  lemma DigitStartsNumber(c: char)
    requires IsDigit(c)
    ensures !IsSpace(c) && c != '-' && c != '+'
  {
  }

  /** parseInt reads the run of digits that text starting with a digit
      begins with. */
  lemma ParseIntDigits(ds: string, rest: string)
    requires |ds| >= 1 && AllDigits(ds)
    requires rest == [] || !IsDigit(rest[0])
    ensures ParseInt(ds + rest) == Some(DigitsValue(ds))
  {
    var s := ds + rest;
    DigitPrefixOf(ds, rest);
    assert s[..|ds|] == ds;
    DigitStartsNumber(s[0]);
    assert TrimStart(s) == s;
  }

  /** A minus sign in front of a number negates what parseInt reads. */
  lemma ParseIntMinus(s: string)
    requires s != [] && IsDigit(s[0])
    ensures ParseInt(s).Some? && ParseInt(s).value >= 0
    ensures ParseInt(['-'] + s) == Some(-ParseInt(s).value)
  {
    DigitStartsNumber(s[0]);
    assert TrimStart(s) == s;
    var t := ['-'] + s;
    assert TrimStart(t) == t;
    assert t[1..] == s;
  }

  /** parseInt reads back what the numeral of an integer spells, with or
      without a minus sign, whatever non-digit text follows it. */
  lemma ParseIntDecimal(n: nat, rest: string)
    requires rest == [] || !IsDigit(rest[0])
    ensures ParseInt(Decimal(n) + rest) == Some(n)
    ensures ParseInt(['-'] + (Decimal(n) + rest)) == Some(-(n as int))
  {
    var d := Decimal(n);
    var s := d + rest;
    assert ParseInt(s) == Some(n) by {
      ParseIntDigits(d, rest);
      DecimalValue(n);
    }
    assert ParseInt(['-'] + s) == Some(-(n as int)) by {
      assert s[0] == d[0];
      ParseIntMinus(s);
    }
  }

  /** Text with no digit after the optional sign is not a number. */
  lemma ParseIntEmpty()
    ensures ParseInt("") == None
    ensures ParseInt("-") == None
  {
  }

  // ---------------------------------------------------------------------
  // limitset(L, P)

  /** The prime limit parsed from P, when it is an integer of at least 2;
      otherwise the set is not filtered. */
  function PrimeLimit(P: string): (r: Option<int>)
    ensures r.Some? ==> r.value >= 2 && ParseInt(P) == r
    ensures r.None? ==> ParseInt(P).None? || ParseInt(P).value < 2
  {
    var p := ParseInt(P);
    if p.Some? && p.value >= 2 then p else None
  }

  /** What `limitset(L, P)` returns, described by its elements: the odd
      numbers up to max(1, L), keeping, when P gives a prime limit, only
      those whose prime factors are all at most that limit. */
  ghost predicate InLimitSet(x: int, L: int, P: string) {
    IsOdd(x) && 1 <= x <= Max(1, L)
    && (PrimeLimit(P).Some? ==> forall q :: IsPrime(q) && Divides(q, x) ==> q <= PrimeLimit(P).value)
  }

  ghost predicate IsLimitSet(out: seq<int>, L: int, P: string) {
    StrictlyAscending(out) && forall x :: x in out <==> InLimitSet(x, L, P)
  }

  method LimitSet(L0: int, P: string) returns (out: seq<int>)
    ensures IsLimitSet(out, L0, P)
  {
    var L := OddLimit(L0);
    var odds := OddSet(L);
    var p := ParseInt(P);
    if p.None? || p.value < 2 {
      return odds;
    }
    var allow := PrimesUpTo(p.value);
    out := FilterAllowed(odds, allow, p.value);
  }

  /** `odds.filter(n => factorAllowed(n, allow))` with allow the primes up
      to p: the odd numbers whose prime factors are at most p. */
  method FilterAllowed(odds: seq<int>, allow: seq<int>, p: int) returns (out: seq<int>)
    requires p >= 2 && forall x :: x in allow <==> IsPrime(x) && x <= Max(2, p)
    requires forall k :: 0 <= k < |odds| ==> odds[k] == 2 * k + 1
    ensures StrictlyAscending(out)
    ensures forall x :: x in out <==> x in odds && forall q :: IsPrime(q) && Divides(q, x) ==> q <= p
  {
    assert AllPrime(allow) by {
      forall i | 0 <= i < |allow|
        ensures IsPrime(allow[i])
      {
        assert allow[i] in allow;
      }
    }
    out := [];
    for i := 0 to |odds|
      invariant forall j :: 0 <= j < |out| ==> out[j] < 2 * i + 1
      invariant StrictlyAscending(out)
      invariant forall x :: x in out <==> x in odds[..i] && PrimeFactorsIn(x, allow)
    {
      var n := odds[i];
      var ok := FactorAllowed(n, allow);
      if ok {
        out := out + [n];
      }
      assert odds[..i + 1] == odds[..i] + [n];
    }
    assert odds[..|odds|] == odds;
  }

  /** Two ascending lists with the same elements are the same list, so
      InLimitSet determines `limitset` completely. */
  lemma {:induction false} AscendingByElements(a: seq<int>, b: seq<int>)
    requires StrictlyAscending(a) && StrictlyAscending(b)
    requires forall x :: x in a <==> x in b
    ensures a == b
  {
    if a == [] {
      assert forall i :: 0 <= i < |b| ==> b[i] in b;
    } else {
      assert a[0] in a;
      assert a[0] == b[0] by {
        assert b[0] in b;
        assert a[0] in b && b[0] in a;
      }
      forall x
        ensures x in a[1..] <==> x in b[1..]
      {
        if x in a[1..] {
          assert x in b && x != b[0];
        }
        if x in b[1..] {
          assert x in a && x != a[0];
        }
      }
      AscendingByElements(a[1..], b[1..]);
      assert a == [a[0]] + a[1..] && b == [b[0]] + b[1..];
    }
  }

  /** limitset(5, '') is [1, 3, 5]. */
  lemma LimitSetUnfiltered(out: seq<int>)
    requires IsLimitSet(out, 5, "")
    ensures out == [1, 3, 5]
  {
    assert PrimeLimit("") == None;
    var want := [1, 3, 5];
    forall x
      ensures x in want <==> InLimitSet(x, 5, "")
    {
    }
    AscendingByElements(out, want);
  }

  /** limitset(9, '3') is [1, 3, 9]: 5 and 7 have prime factors above 3. */
  lemma LimitSetFiltered(out: seq<int>)
    requires IsLimitSet(out, 9, "3")
    ensures out == [1, 3, 9]
  {
    assert "3"[..1] == "3";
    assert PrimeLimit("3") == Some(3);
    var want := [1, 3, 9];
    forall x
      ensures x in want <==> InLimitSet(x, 9, "3")
    {
      if x == 1 || x == 3 || x == 9 {
        forall q | IsPrime(q) && Divides(q, x)
          ensures q <= 3
        {
          DividesBound(q, x);
          assert 9 % 3 == 0;
        }
      }
      if x == 5 || x == 7 {
        assert IsPrime(x) && Divides(x, x);
      }
    }
    AscendingByElements(out, want);
  }

  // ---------------------------------------------------------------------
  // build's odd limit

  /** The odd limit `build` derives from the odd-limit field: parse it, use 1
      when it is not a number, step an even value down, and keep at least 1.
      It is the limit `limitset` would derive from the parsed value. */
  function BuildOddLimit(text: string): (L: int)
    ensures IsOdd(L) && L >= 1
    ensures L == OddLimit(if ParseInt(text).Some? then ParseInt(text).value else 1)
  {
    var p := ParseInt(text);
    var L := if p.None? then 1 else p.value;
    var L' := if L % 2 == 0 then L - 1 else L;
    Max(1, L')
  }

  /** `limitset` leaves the limit `build` hands it unchanged. */
  lemma BuildOddLimitStable(text: string)
    ensures OddLimit(BuildOddLimit(text)) == BuildOddLimit(text)
  {
  }

  // ---------------------------------------------------------------------
  // parseCustom(text)

  /** The maximal runs of decimal digits in s, in order: what splitting on
      runs of non-digits and dropping empty pieces leaves. */
  function DigitRuns(s: string): (runs: seq<string>)
    ensures forall i :: 0 <= i < |runs| ==> |runs[i]| >= 1 && AllDigits(runs[i])
    decreases |s|
  {
    if s == [] then []
    else if !IsDigit(s[0]) then DigitRuns(s[1..])
    else
      var k := DigitPrefix(s);
      [s[..k]] + DigitRuns(s[k..])
  }

  /** The positive numbers the runs spell, in order. */
  function RunValues(runs: seq<string>): (xs: seq<int>)
    requires forall i :: 0 <= i < |runs| ==> AllDigits(runs[i])
    ensures forall i :: 0 <= i < |xs| ==> xs[i] > 0
  {
    if runs == [] then []
    else
      var v := DigitsValue(runs[0]);
      (if v > 0 then [v] else []) + RunValues(runs[1..])
  }

  /** parseCustom: the positive numbers in the text, each once, in the order
      they first appear; absent text counts as empty. */
  method ParseCustom(text: Option<string>) returns (out: seq<int>)
    ensures out == Dedup(RunValues(DigitRuns(if text.Some? then text.value else "")))
    ensures text.None? || text.value == [] ==> out == []
  {
    var t := if text.Some? then text.value else "";
    out := DedupBySeen(RunValues(DigitRuns(t)));
  }

  /** The numbers of xs written out in decimal, separated by sep. */
  function Join(xs: seq<nat>, sep: char): string
  {
    if xs == [] then ""
    else if |xs| == 1 then Decimal(xs[0])
    else Decimal(xs[0]) + [sep] + Join(xs[1..], sep)
  }

  /** The numerals of xs, in order. */
  function Numerals(xs: seq<nat>): (ns: seq<string>)
    ensures |ns| == |xs|
    ensures forall i :: 0 <= i < |ns| ==> |ns[i]| >= 1 && AllDigits(ns[i])
  {
    if xs == [] then [] else [Decimal(xs[0])] + Numerals(xs[1..])
  }

  lemma DigitRunsCons(ds: string, rest: string)
    requires |ds| >= 1 && AllDigits(ds)
    requires rest == [] || !IsDigit(rest[0])
    ensures DigitRuns(ds + rest) == [ds] + DigitRuns(rest)
  {
    DigitPrefixOf(ds, rest);
    assert (ds + rest)[..|ds|] == ds && (ds + rest)[|ds|..] == rest;
  }

  lemma DigitRunsSkip(c: char, rest: string)
    requires !IsDigit(c)
    ensures DigitRuns([c] + rest) == DigitRuns(rest)
  {
    assert ([c] + rest)[1..] == rest;
  }

  /** Splitting a joined list recovers the numerals it was joined from. */
  lemma {:induction false} DigitRunsJoin(xs: seq<nat>, sep: char)
    requires !IsDigit(sep)
    ensures DigitRuns(Join(xs, sep)) == Numerals(xs)
  {
    if |xs| == 1 {
      DigitRunsCons(Decimal(xs[0]), "");
      assert Decimal(xs[0]) + "" == Decimal(xs[0]);
    } else if |xs| > 1 {
      var rest := [sep] + Join(xs[1..], sep);
      assert Join(xs, sep) == Decimal(xs[0]) + rest;
      DigitRunsCons(Decimal(xs[0]), rest);
      DigitRunsSkip(sep, Join(xs[1..], sep));
      DigitRunsJoin(xs[1..], sep);
    }
  }

  lemma {:induction false} RunValuesNumerals(xs: seq<nat>)
    requires forall i :: 0 <= i < |xs| ==> xs[i] > 0
    ensures RunValues(Numerals(xs)) == xs
  {
    if xs != [] {
      DecimalValue(xs[0]);
      assert Numerals(xs)[1..] == Numerals(xs[1..]);
      RunValuesNumerals(xs[1..]);
    }
  }

  /** Round trip: splitting a period- (or otherwise) separated list of
      positive numbers recovers the list, repeats included. */
  lemma ParseCustomJoin(xs: seq<nat>, sep: char)
    requires !IsDigit(sep)
    requires forall i :: 0 <= i < |xs| ==> xs[i] > 0
    ensures RunValues(DigitRuns(Join(xs, sep))) == xs
  {
    DigitRunsJoin(xs, sep);
    RunValuesNumerals(xs);
  }

  /** What ParseCustom returns for such a list without repeats: the list
      itself. */
  lemma ParseCustomJoinDistinct(xs: seq<nat>, sep: char)
    requires !IsDigit(sep) && NoDuplicates(xs)
    requires forall i :: 0 <= i < |xs| ==> xs[i] > 0
    ensures Dedup(RunValues(DigitRuns(Join(xs, sep)))) == xs
  {
    var runs := RunValues(DigitRuns(Join(xs, sep)));
    ParseCustomJoin(xs, sep);
    DedupOfDistinct(runs);
  }

  // ---------------------------------------------------------------------
  // clamp(x, a, b)

  /** min(b, max(a, x)): x when it lies in [a, b], otherwise the nearer end;
      b when the interval is empty. */
  function Clamp(x: real, a: real, b: real): (r: real)
    ensures a <= b ==> a <= r <= b
    ensures a <= x <= b ==> r == x
    ensures x < a && a <= b ==> r == a
    ensures x > b ==> r == b
    ensures a > b ==> r == b
  {
    if b < (if a < x then x else a) then b else if a < x then x else a
  }
}
