/** Go's string order, and the contract of sort.Slice. */
module Ordering {

  // ---- Go's `<` on strings: lexicographic by character ----

  predicate StrLess(a: string, b: string) {
    if b == "" then false
    else if a == "" then true
    else if a[0] != b[0] then a[0] < b[0]
    else StrLess(a[1..], b[1..])
  }

  predicate StrLeq(a: string, b: string) {
    a == b || StrLess(a, b)
  }

  lemma {:induction false} StrLessTrichotomy(a: string, b: string)
    ensures a == b || StrLess(a, b) || StrLess(b, a)
    ensures !(StrLess(a, b) && StrLess(b, a))
    ensures StrLess(a, b) ==> a != b
  {
    if a != "" && b != "" {
      StrLessTrichotomy(a[1..], b[1..]);
      assert a == [a[0]] + a[1..] && b == [b[0]] + b[1..];
    }
  }

  lemma {:induction false} StrLessTransitive(a: string, b: string, c: string)
    requires StrLess(a, b) && StrLess(b, c)
    ensures StrLess(a, c)
  {
    if a != "" && a[0] == b[0] == c[0] {
      StrLessTransitive(a[1..], b[1..], c[1..]);
    }
  }

  /** The first character that differs decides; a proper prefix comes first. */
  lemma {:induction false} StrLessExactly(a: string, b: string, k: nat)
    requires k <= |a| && k <= |b| && a[..k] == b[..k] && (k < |a| && k < |b| ==> a[k] != b[k])
    ensures StrLess(a, b) <==> k < |b| && (k == |a| || a[k] < b[k])
  {
    if k > 0 {
      assert a[..k][0] == a[0] && b[..k][0] == b[0];
      assert a[1..][..k - 1] == a[..k][1..] && b[1..][..k - 1] == b[..k][1..];
      StrLessExactly(a[1..], b[1..], k - 1);
    }
  }

  // ---- sort.Slice ----

  /** What sort.Slice needs of its comparison: `leq` is the negated, flipped `less`. */
  ghost predicate TotalPreorder<T(!new)>(leq: (T, T) -> bool) {
    && (forall x, y :: leq(x, y) || leq(y, x))
    && (forall x, y, z :: leq(x, y) && leq(y, z) ==> leq(x, z))
  }

  ghost predicate Sorted<T>(s: seq<T>, leq: (T, T) -> bool) {
    forall i, j :: 0 <= i < j < |s| ==> leq(s[i], s[j])
  }

  lemma StrLeqTotalPreorder()
    ensures TotalPreorder(StrLeq)
  {
    forall x, y ensures StrLeq(x, y) || StrLeq(y, x) {
      StrLessTrichotomy(x, y);
    }
    forall x, y, z | StrLeq(x, y) && StrLeq(y, z) ensures StrLeq(x, z) {
      if x != y && y != z { StrLessTransitive(x, y, z); }
    }
  }

  /** sort.Slice: some ordered permutation of the slice. Callers rely on this contract only, so
      nothing they prove depends on how equal elements end up. */
  method SortSlice<T(!new)>(s: seq<T>, leq: (T, T) -> bool) returns (r: seq<T>)
    requires TotalPreorder(leq)
    ensures Sorted(r, leq)
    ensures multiset(r) == multiset(s)
    ensures |r| == |s|
    ensures forall x :: x in r <==> x in s
  {
    r := [];
    for i := 0 to |s|
      invariant Sorted(r, leq)
      invariant multiset(r) == multiset(s[..i])
    {
      r := Insert(r, s[i], leq);
      assert s[..i + 1] == s[..i] + [s[i]];
    }
    assert s[..|s|] == s;
    SameElements(r, s);
  }

  method Insert<T(!new)>(s: seq<T>, x: T, leq: (T, T) -> bool) returns (r: seq<T>)
    requires TotalPreorder(leq) && Sorted(s, leq)
    ensures Sorted(r, leq)
    ensures multiset(r) == multiset(s) + multiset{x}
  {
    var k := |s|;
    while k > 0 && !leq(s[k - 1], x)
      invariant 0 <= k <= |s|
      invariant forall j :: k <= j < |s| ==> leq(x, s[j])
    {
      k := k - 1;
    }
    assert forall j :: 0 <= j < k ==> leq(s[j], x);
    InsertSorted(s[..k], x, s[k..], leq);
    r := s[..k] + [x] + s[k..];
    assert s == s[..k] + s[k..];
  }

  lemma InsertSorted<T>(lo: seq<T>, x: T, hi: seq<T>, leq: (T, T) -> bool)
    requires Sorted(lo, leq) && Sorted(hi, leq)
    requires forall y :: y in lo ==> leq(y, x)
    requires forall y :: y in hi ==> leq(x, y)
    requires forall y, z :: y in lo && z in hi ==> leq(y, z)
    ensures Sorted(lo + [x] + hi, leq)
  {
    var r := lo + [x] + hi;
    forall i, j | 0 <= i < j < |r| ensures leq(r[i], r[j]) {
      assert i < |lo| ==> r[i] in lo;
      assert j > |lo| ==> r[j] in hi;
      if i > |lo| { assert r[i] == hi[i - |lo| - 1] && r[j] == hi[j - |lo| - 1]; }
    }
  }

  // ---- The sorted list as a value ----

  function Arranged<T(!new)>(s: seq<T>, leq: (T, T) -> bool): (r: seq<T>)
    ensures multiset(r) == multiset(s)
  {
    if s == [] then []
    else
      assert s == s[..|s| - 1] + [s[|s| - 1]];
      PutInto(Arranged(s[..|s| - 1], leq), s[|s| - 1], leq)
  }

  function PutInto<T(!new)>(s: seq<T>, x: T, leq: (T, T) -> bool): (r: seq<T>)
    ensures multiset(r) == multiset(s) + multiset{x}
  {
    if s == [] || leq(x, s[0]) then [x] + s
    else
      assert s == [s[0]] + s[1..];
      [s[0]] + PutInto(s[1..], x, leq)
  }

  lemma {:induction false} ArrangedSorted<T(!new)>(s: seq<T>, leq: (T, T) -> bool)
    requires TotalPreorder(leq)
    ensures Sorted(Arranged(s, leq), leq)
  {
    if s != [] {
      ArrangedSorted(s[..|s| - 1], leq);
      PutIntoSorted(Arranged(s[..|s| - 1], leq), s[|s| - 1], leq);
    }
  }

  lemma {:induction false} PutIntoSorted<T(!new)>(s: seq<T>, x: T, leq: (T, T) -> bool)
    requires TotalPreorder(leq) && Sorted(s, leq)
    ensures Sorted(PutInto(s, x, leq), leq)
  {
    if s != [] && !leq(x, s[0]) {
      PutIntoSorted(s[1..], x, leq);
      HeadBelow(s, x, leq);
    }
  }

  lemma HeadBelow<T(!new)>(s: seq<T>, x: T, leq: (T, T) -> bool)
    requires TotalPreorder(leq) && Sorted(s, leq) && s != [] && !leq(x, s[0])
    ensures forall i :: 0 <= i < |PutInto(s[1..], x, leq)| ==> leq(s[0], PutInto(s[1..], x, leq)[i])
  {
    var r := PutInto(s[1..], x, leq);
    SameElements(r, s[1..] + [x]);
    forall i | 0 <= i < |r| ensures leq(s[0], r[i]) {
      assert r[i] in r;
      if r[i] in s[1..] { var j :| 1 <= j < |s| && s[j] == r[i]; }
    }
  }

  lemma SameElements<T>(r: seq<T>, s: seq<T>)
    requires multiset(r) == multiset(s)
    ensures |r| == |s|
    ensures forall x :: x in r <==> x in s
  {
    assert |multiset(r)| == |multiset(s)|;
    forall x ensures x in r <==> x in s {
      assert x in r <==> x in multiset(r);
      assert x in s <==> x in multiset(s);
    }
  }

  // ---- an order decides the sorted list ----

  ghost predicate StrictlySorted<T>(s: seq<T>, leq: (T, T) -> bool) {
    Sorted(s, leq) && forall i, j :: 0 <= i < j < |s| ==> !leq(s[j], s[i])
  }

  /** Two strictly sorted lists with the same elements are the same list. */
  lemma {:induction false} StrictlySortedUnique<T(!new)>(r: seq<T>, s: seq<T>, leq: (T, T) -> bool)
    requires TotalPreorder(leq)
    requires StrictlySorted(r, leq) && StrictlySorted(s, leq)
    requires forall x :: x in r <==> x in s
    ensures r == s
  {
    assert |s| > 0 ==> s[0] in s;
    if r != [] {
      assert r[0] in s && s[0] in s;
      var i :| 0 <= i < |s| && s[i] == r[0];
      var j :| 0 <= j < |r| && r[j] == s[0];
      assert r[0] == s[0];
      forall x ensures x in r[1..] <==> x in s[1..] {
        assert r == [r[0]] + r[1..] && s == [s[0]] + s[1..];
        if x in r[1..] { var k :| 1 <= k < |r| && r[k] == x; assert x in s; }
        if x in s[1..] { var k :| 1 <= k < |s| && s[k] == x; assert x in r; }
      }
      StrictlySortedUnique(r[1..], s[1..], leq);
      assert r == [r[0]] + r[1..] && s == [s[0]] + s[1..];
    }
  }

  lemma SameHead<T(!new)>(r: seq<T>, s: seq<T>, leq: (T, T) -> bool)
    requires Sorted(r, leq) && Sorted(s, leq) && r != [] && s != []
    requires r[0] in s && s[0] in r
    requires forall x, y :: leq(x, y) && leq(y, x) ==> x == y
    ensures r[0] == s[0]
  {
    var i :| 0 <= i < |s| && s[i] == r[0];
    var j :| 0 <= j < |r| && r[j] == s[0];
  }

  lemma SameTail<T>(r: seq<T>, s: seq<T>)
    requires multiset(r) == multiset(s) && r != [] && s != [] && r[0] == s[0]
    ensures multiset(r[1..]) == multiset(s[1..])
  {
    assert r == [r[0]] + r[1..] && s == [s[0]] + s[1..];
    assert multiset(r[1..]) == multiset(r) - multiset{r[0]};
    assert multiset(s[1..]) == multiset(s) - multiset{s[0]};
  }

  /** If only equal elements tie, a list can be sorted in one way only. */
  lemma {:induction false} SortedPermutationUnique<T(!new)>(r: seq<T>, s: seq<T>, leq: (T, T) -> bool)
    requires Sorted(r, leq) && Sorted(s, leq) && multiset(r) == multiset(s)
    requires forall x, y :: leq(x, y) && leq(y, x) ==> x == y
    ensures r == s
  {
    SameElements(r, s);
    if r != [] {
      assert r[0] in s && s[0] in r;
      SameHead(r, s, leq);
      SameTail(r, s);
      SortedPermutationUnique(r[1..], s[1..], leq);
      assert r == [r[0]] + r[1..] && s == [s[0]] + s[1..];
    }
  }
}
