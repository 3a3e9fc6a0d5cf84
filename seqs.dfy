/** Sequence facts and the optional-value type shared by the grid parser,
    the voice registries and the gesture controller. */
module Seqs {

  datatype Option<T> = None | Some(value: T)

  predicate NoDuplicates<T(==)>(s: seq<T>) {
    forall i, j :: 0 <= i < j < |s| ==> s[i] != s[j]
  }

  predicate StrictlyAscending(s: seq<int>) {
    forall i, j :: 0 <= i < j < |s| ==> s[i] < s[j]
  }

  /** Index of the first occurrence of x in s. */
  function FirstIndex<T(==)>(s: seq<T>, x: T): (k: nat)
    requires x in s
    ensures k < |s| && s[k] == x && x !in s[..k]
  {
    if s[0] == x then 0 else 1 + FirstIndex(s[1..], x)
  }

  /** The distinct elements of s in order of first occurrence: what a loop
      that keeps a `seen` set and pushes each unseen element produces. */
  function Dedup<T(==)>(s: seq<T>): seq<T>
  {
    if s == [] then []
    else
      var init, last := s[..|s| - 1], s[|s| - 1];
      if last in init then Dedup(init) else Dedup(init) + [last]
  }

  /** Dedup keeps exactly the elements of s and none twice. */
  lemma {:induction false} DedupElements<T>(s: seq<T>)
    ensures forall x :: x in Dedup(s) <==> x in s
    ensures NoDuplicates(Dedup(s))
  {
    if s != [] {
      var init := s[..|s| - 1];
      DedupElements(init);
      assert s == init + [s[|s| - 1]];
    }
  }

  /** A list without repeats is its own Dedup. */
  lemma {:induction false} DedupOfDistinct<T>(s: seq<T>)
    requires NoDuplicates(s)
    ensures Dedup(s) == s
  {
    if s != [] {
      var init, last := s[..|s| - 1], s[|s| - 1];
      assert last !in init by {
        forall i | 0 <= i < |init|
          ensures init[i] != last
        {
          assert init[i] == s[i];
        }
      }
      assert NoDuplicates(init);
      DedupOfDistinct(init);
      assert s == init + [last];
    }
  }

  /** Dedup lists elements in the order of their first occurrence in s. */
  lemma {:induction false} DedupOrder<T>(s: seq<T>)
    ensures forall x :: x in Dedup(s) <==> x in s
    ensures forall i, j :: 0 <= i < j < |Dedup(s)| ==>
      FirstIndex(s, Dedup(s)[i]) < FirstIndex(s, Dedup(s)[j])
  {
    DedupElements(s);
    if s != [] {
      var init, last := s[..|s| - 1], s[|s| - 1];
      DedupOrder(init);
      assert s == init + [last];
      var r := Dedup(s);
      forall x | x in init
        ensures FirstIndex(s, x) == FirstIndex(init, x)
      {
        FirstIndexPrefix(init, last, x);
      }
      if last !in init {
        assert FirstIndex(s, last) == |init| by {
          var k := FirstIndex(s, last);
          if k < |init| {
            assert false;
          }
        }
      }
    }
  }

  lemma FirstIndexPrefix<T>(init: seq<T>, last: T, x: T)
    requires x in init
    ensures FirstIndex(init + [last], x) == FirstIndex(init, x)
  {
    var s := init + [last];
    var k, k' := FirstIndex(s, x), FirstIndex(init, x);
    assert s[..k'] == init[..k'];
    assert s[k'] == x;
    assert forall j :: 0 <= j < k ==> s[..k][j] == s[j];
    if k < k' {
      assert false;
    }
  }

  /** The step a dedup loop takes: appending an element extends Dedup only
      when the element is new. */
  lemma DedupSnoc<T>(s: seq<T>, x: T)
    ensures Dedup(s + [x]) == if x in s then Dedup(s) else Dedup(s) + [x]
  {
    assert (s + [x])[..|s|] == s;
  }

  /** s without x, the other elements keeping their order: what deleting a
      key does to the insertion order of a JavaScript Map or Set. */
  function Remove<T(==)>(s: seq<T>, x: T): (r: seq<T>)
    ensures forall y :: y in r ==> y in s && y != x
    ensures forall y :: y in s && y != x ==> y in r
    ensures NoDuplicates(s) ==> NoDuplicates(r)
    ensures |r| <= |s|
  {
    if s == [] then []
    else if s[0] == x then Remove(s[1..], x)
    else
      var rest := Remove(s[1..], x);
      assert NoDuplicates(s) ==> s[0] !in s[1..];
      [s[0]] + rest
  }

  /** Removing an element that is not there changes nothing. */
  lemma {:induction false} RemoveAbsent<T>(s: seq<T>, x: T)
    requires x !in s
    ensures Remove(s, x) == s
  {
    if s != [] {
      RemoveAbsent(s[1..], x);
    }
  }

  /** Removing the first element of a list without duplicates drops its head. */
  lemma RemoveHead<T>(s: seq<T>)
    requires s != [] && NoDuplicates(s)
    ensures Remove(s, s[0]) == s[1..]
  {
    assert s[0] !in s[1..];
    RemoveAbsent(s[1..], s[0]);
  }

  /** A list without duplicates has as many distinct elements as entries. */
  lemma {:induction false} DistinctCount<T>(s: seq<T>)
    requires NoDuplicates(s)
    ensures |set x | x in s| == |s|
  {
    if s != [] {
      DistinctCount(s[1..]);
      assert (set x | x in s) == (set x | x in s[1..]) + {s[0]};
      assert s[0] !in s[1..];
    }
  }

  /** s with x appended unless already present: what adding to a
      JavaScript Set does to its insertion order. */
  function Added<T(==)>(s: seq<T>, x: T): (r: seq<T>)
    ensures x in r && forall y :: y in s ==> y in r
    ensures forall y :: y in r ==> y in s || y == x
    ensures NoDuplicates(s) ==> NoDuplicates(r)
  {
    if x in s then s else s + [x]
  }

  /** Where a loop that keeps a `seen` set beside the list it deduplicates
      stands after the first i elements of s. */
  predicate SeenUpTo<T(==)>(s: seq<T>, i: int, out: seq<T>, seen: set<T>) {
    0 <= i <= |s| && out == Dedup(s[..i]) && seen == set x | x in s[..i]
  }

  /** One step of that loop: s[i] is appended exactly when it was not seen. */
  lemma DedupSeenStep<T>(s: seq<T>, i: int, out: seq<T>, seen: set<T>)
    requires i < |s| && SeenUpTo(s, i, out, seen)
    ensures SeenUpTo(s, i + 1, if s[i] in seen then out else out + [s[i]], seen + {s[i]})
  {
    assert s[..i + 1] == s[..i] + [s[i]];
    DedupSnoc(s[..i], s[i]);
  }

  /** The loop that walks s keeping a `seen` set and pushes each element
      not seen before. */
  method DedupBySeen<T(==)>(s: seq<T>) returns (out: seq<T>)
    ensures out == Dedup(s)
  {
    out := [];
    var seen: set<T> := {};
    for i := 0 to |s|
      invariant SeenUpTo(s, i, out, seen)
    {
      DedupSeenStep(s, i, out, seen);
      if s[i] !in seen {
        out := out + [s[i]];
      }
      seen := seen + {s[i]};
    }
    assert s[..|s|] == s;
  }
}
