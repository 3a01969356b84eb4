/** Stand-ins for `std::sort` and `std::unique`. Their contracts promise only what the library
    promises, so callers cannot rely on how equal keys are ordered. */
module Sorting {

  ghost predicate SortedBy<T>(s: seq<T>, key: T -> int) {
    forall i, j :: 0 <= i < j < |s| ==> key(s[i]) <= key(s[j])
  }

  ghost predicate StrictlySortedBy<T>(s: seq<T>, key: T -> int) {
    forall i, j :: 0 <= i < j < |s| ==> key(s[i]) < key(s[j])
  }

  method Insert<T>(s: seq<T>, x: T, key: T -> int) returns (r: seq<T>)
    requires SortedBy(s, key)
    ensures SortedBy(r, key) && multiset(r) == multiset(s) + multiset{x}
  {
    var k := 0;
    hide SortedBy;
    while k < |s| && key(s[k]) <= key(x)
      invariant 0 <= k <= |s|
      invariant forall j :: 0 <= j < k ==> key(s[j]) <= key(x)
    {
      k := k + 1;
    }
    r := s[..k] + [x] + s[k..];
    InsertedIsSorted(s, k, x, key);
    InsertedIsPermutation(s, k, x);
  }

  lemma InsertedIsSorted<T>(s: seq<T>, k: nat, x: T, key: T -> int)
    requires SortedBy(s, key) && k <= |s|
    requires forall j :: 0 <= j < k ==> key(s[j]) <= key(x)
    requires k < |s| ==> key(x) <= key(s[k])
    ensures SortedBy(s[..k] + [x] + s[k..], key)
  {
    var r := s[..k] + [x] + s[k..];
    assert forall i :: 0 <= i < |r| ==> r[i] == (if i < k then s[i] else if i == k then x else s[i - 1]);
    forall i, j | 0 <= i < j < |r|
      ensures key(r[i]) <= key(r[j])
    {
      if j > k && k < |s| && k < j - 1 {
        assert key(s[k]) <= key(s[j - 1]);
      }
    }
  }

  lemma InsertedIsPermutation<T>(s: seq<T>, k: nat, x: T)
    requires k <= |s|
    ensures multiset(s[..k] + [x] + s[k..]) == multiset(s) + multiset{x}
  {
    assert s == s[..k] + s[k..];
    assert multiset(s) == multiset(s[..k]) + multiset(s[k..]);
  }

  /** `std::sort` with the order given by `key`. */
  method Sort<T>(s: seq<T>, key: T -> int) returns (r: seq<T>)
    ensures SortedBy(r, key) && multiset(r) == multiset(s)
    ensures |r| == |s| && forall x :: x in r <==> x in s
  {
    r := [];
    var i := 0;
    while i < |s|
      invariant 0 <= i <= |s|
      invariant SortedBy(r, key) && multiset(r) == multiset(s[..i])
    {
      r := Insert(r, s[i], key);
      assert s[..i + 1] == s[..i] + [s[i]];
      i := i + 1;
    }
    assert s[..i] == s;
    SameElements(r, s);
  }

  lemma SameElements<T>(a: seq<T>, b: seq<T>)
    requires multiset(a) == multiset(b)
    ensures |a| == |b| && forall x :: x in a <==> x in b
  {
    assert |multiset(a)| == |a| && |multiset(b)| == |b|;
    forall x
      ensures x in a <==> x in b
    {
      assert x in a <==> x in multiset(a);
    }
  }

  /** `std::unique` followed by erase, on a sequence sorted by a key that separates its elements. */
  method Unique<T(==)>(s: seq<T>, key: T -> int) returns (r: seq<T>)
    requires SortedBy(s, key)
    requires forall i, j :: 0 <= i < |s| && 0 <= j < |s| && key(s[i]) == key(s[j]) ==> s[i] == s[j]
    ensures StrictlySortedBy(r, key)
    ensures forall x :: x in r <==> x in s
  {
    r := [];
    var i := 0;
    while i < |s|
      invariant 0 <= i <= |s|
      invariant StrictlySortedBy(r, key)
      invariant forall x :: x in r <==> x in s[..i]
      invariant r != [] ==> i > 0 && r[|r| - 1] == s[i - 1]
      invariant r == [] ==> i == 0
    {
      if r == [] || r[|r| - 1] != s[i] {
        forall j | 0 <= j < |r|
          ensures key(r[j]) < key(s[i])
        {
          assert key(s[i - 1]) <= key(s[i]);
        }
        r := r + [s[i]];
      }
      assert s[..i + 1] == s[..i] + [s[i]];
      i := i + 1;
    }
    assert s[..i] == s;
  }
}
