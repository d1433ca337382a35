// Sorting by a strict order, as sort.Slice does: the result is a permutation in
// which no element is preceded by one that belongs after it.
module Sorting {

  function Insert<T>(before: (T, T) -> bool, a: T, xs: seq<T>): (r: seq<T>)
    ensures |r| == |xs| + 1 && multiset(r) == multiset(xs) + multiset{a}
  {
    if xs == [] || before(a, xs[0]) then [a] + xs
    else
      assert xs == [xs[0]] + xs[1..];
      [xs[0]] + Insert(before, a, xs[1..])
  }

  function Sort<T>(before: (T, T) -> bool, xs: seq<T>): (r: seq<T>)
    ensures |r| == |xs| && multiset(r) == multiset(xs)
  {
    if xs == [] then [] else
      assert xs == [xs[0]] + xs[1..];
      Insert(before, xs[0], Sort(before, xs[1..]))
  }

  // before is a strict order whose ties are transitive.
  ghost predicate Orders<T(!new)>(before: (T, T) -> bool) {
    && (forall a, b :: before(a, b) ==> !before(b, a))
    && (forall a, b, c :: !before(b, a) && !before(c, b) ==> !before(c, a))
  }

  ghost predicate Sorted<T>(before: (T, T) -> bool, xs: seq<T>) {
    forall i, j :: 0 <= i < j < |xs| ==> !before(xs[j], xs[i])
  }

  lemma {:induction false} InsertSorted<T(!new)>(before: (T, T) -> bool, a: T, xs: seq<T>)
    requires Orders(before) && Sorted(before, xs)
    ensures Sorted(before, Insert(before, a, xs))
    ensures forall x :: x in Insert(before, a, xs) ==> x == a || x in xs
  {
    if xs != [] {
      if before(a, xs[0]) {
        forall j | 0 <= j < |xs| ensures !before(xs[j], a) {
          assert !before(xs[0], a) && !before(xs[j], xs[0]);
        }
      } else {
        InsertSorted(before, a, xs[1..]);
        var rest := Insert(before, a, xs[1..]);
        forall j | 0 <= j < |rest| ensures !before(rest[j], xs[0]) {
          assert rest[j] in rest;
        }
      }
    }
  }

  lemma {:induction false} SortSorted<T(!new)>(before: (T, T) -> bool, xs: seq<T>)
    requires Orders(before)
    ensures Sorted(before, Sort(before, xs))
  {
    if xs != [] {
      SortSorted(before, xs[1..]);
      InsertSorted(before, xs[0], Sort(before, xs[1..]));
    }
  }

  lemma {:induction false} SortedMember<T>(before: (T, T) -> bool, xs: seq<T>, i: nat) returns (k: nat)
    requires i < |xs|
    ensures k < |xs| && Sort(before, xs)[k] == xs[i]
  {
    assert xs[i] in multiset(Sort(before, xs));
    k :| 0 <= k < |xs| && Sort(before, xs)[k] == xs[i];
  }

  lemma {:induction false} MemberSorted<T>(before: (T, T) -> bool, xs: seq<T>, k: nat) returns (i: nat)
    requires k < |xs|
    ensures i < |xs| && xs[i] == Sort(before, xs)[k]
  {
    assert Sort(before, xs)[k] in multiset(xs);
    i :| 0 <= i < |xs| && xs[i] == Sort(before, xs)[k];
  }

  // ---------- Keys ----------

  // No two elements have the same key.
  ghost predicate DistinctBy<T, K>(key: T -> K, xs: seq<T>) {
    forall i, j :: 0 <= i < j < |xs| ==> key(xs[i]) != key(xs[j])
  }

  lemma {:induction false} InsertDistinct<T, K>(before: (T, T) -> bool, key: T -> K, a: T, xs: seq<T>)
    requires DistinctBy(key, xs) && forall x :: x in xs ==> key(x) != key(a)
    ensures DistinctBy(key, Insert(before, a, xs))
    ensures forall x :: x in Insert(before, a, xs) ==> x == a || x in xs
  {
    if xs != [] && !before(a, xs[0]) {
      InsertDistinct(before, key, a, xs[1..]);
      var rest := Insert(before, a, xs[1..]);
      forall j | 0 <= j < |rest| ensures key(xs[0]) != key(rest[j]) {
        assert rest[j] in rest;
      }
    }
  }

  lemma {:induction false} SortDistinct<T, K>(before: (T, T) -> bool, key: T -> K, xs: seq<T>)
    requires DistinctBy(key, xs)
    ensures DistinctBy(key, Sort(before, xs))
  {
    if xs != [] {
      var tail := Sort(before, xs[1..]);
      SortDistinct(before, key, xs[1..]);
      forall x | x in tail ensures key(x) != key(xs[0]) {
        assert x in multiset(tail);
        assert x in xs[1..];
      }
      InsertDistinct(before, key, xs[0], tail);
    }
  }
}
