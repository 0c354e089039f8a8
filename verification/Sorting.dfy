/** A stable sort by a real key: what the standard library's `sort_by` promises. */
module Sorting {
  import opened LineEdit

  ghost predicate SortedBy<T>(s: seq<T>, key: T -> real) {
    forall i, j :: 0 <= i < j < |s| ==> key(s[i]) <= key(s[j])
  }

  function Place<T>(x: T, s: seq<T>, key: T -> real): seq<T> {
    if s == [] || key(x) <= key(s[0]) then [x] + s else [s[0]] + Place(x, s[1..], key)
  }

  function Sort<T>(s: seq<T>, key: T -> real): (r: seq<T>) {
    if s == [] then [] else Place(s[0], Sort(s[1..], key), key)
  }

  lemma {:induction false} PlaceIsPermutation<T>(x: T, s: seq<T>, key: T -> real)
    ensures |Place(x, s, key)| == |s| + 1
    ensures multiset(Place(x, s, key)) == multiset{x} + multiset(s)
  {
    if s != [] && key(x) > key(s[0]) {
      PlaceIsPermutation(x, s[1..], key);
      assert s == [s[0]] + s[1..];
    }
  }

  lemma {:induction false} PlaceMembers<T>(x: T, s: seq<T>, key: T -> real)
    ensures forall y <- Place(x, s, key) :: y == x || y in s
  {
    if s != [] && key(x) > key(s[0]) {
      PlaceMembers(x, s[1..], key);
    }
  }

  lemma {:induction false} PlaceKeepsSorted<T>(x: T, s: seq<T>, key: T -> real)
    requires SortedBy(s, key)
    ensures SortedBy(Place(x, s, key), key)
  {
    if s != [] && key(x) > key(s[0]) {
      var rest := Place(x, s[1..], key);
      PlaceKeepsSorted(x, s[1..], key);
      PlaceMembers(x, s[1..], key);
      assert forall y <- s[1..] :: key(s[0]) <= key(y);
      assert forall y <- rest :: key(s[0]) <= key(y);
    }
  }

  /** Sorted, and a permutation. */
  lemma {:induction false} SortFacts<T>(s: seq<T>, key: T -> real)
    ensures SortedBy(Sort(s, key), key)
    ensures |Sort(s, key)| == |s|
    ensures multiset(Sort(s, key)) == multiset(s)
  {
    if s != [] {
      SortFacts(s[1..], key);
      PlaceIsPermutation(s[0], Sort(s[1..], key), key);
      PlaceKeepsSorted(s[0], Sort(s[1..], key), key);
      assert s == [s[0]] + s[1..];
    }
  }

  /** A sorted sequence is left as it is. */
  lemma {:induction false} SortSorted<T>(s: seq<T>, key: T -> real)
    requires SortedBy(s, key)
    ensures Sort(s, key) == s
  {
    if s != [] {
      SortSorted(s[1..], key);
      assert s == [s[0]] + s[1..];
    }
  }

  function HasKey<T>(key: T -> real, k: real): T -> bool {
    x => key(x) == k
  }

  lemma {:induction false} PlaceStable<T>(x: T, s: seq<T>, key: T -> real, k: real)
    ensures Keep(Place(x, s, key), HasKey(key, k)) == Keep([x] + s, HasKey(key, k))
  {
    assert ([x] + s)[1..] == s;
    if s != [] && key(x) > key(s[0]) {
      PlaceStable(x, s[1..], key, k);
      assert ([x] + s[1..])[1..] == s[1..];
      assert Place(x, s, key)[1..] == Place(x, s[1..], key);
    }
  }

  /** Stable: elements with equal keys keep their order. */
  lemma {:induction false} SortStable<T>(s: seq<T>, key: T -> real, k: real)
    ensures Keep(Sort(s, key), HasKey(key, k)) == Keep(s, HasKey(key, k))
  {
    if s != [] {
      var rest := Sort(s[1..], key);
      SortStable(s[1..], key, k);
      PlaceStable(s[0], rest, key, k);
      assert ([s[0]] + rest)[1..] == rest;
    }
  }
}
