/**
 * The stable sort of `Array.prototype.sort` (stable since ES2019), written as an
 * insertion sort. A comparator `cmp` is represented by the relation
 * `before(x, y) == (cmp(x, y) <= 0)`: x may stay in front of y.
 */
module Sorting {

  /** A comparator that is consistent: every two elements compare, and transitively. */
  ghost predicate TotalPreorder<T(!new)>(before: (T, T) -> bool) {
    && (forall x, y :: before(x, y) || before(y, x))
    && (forall x, y, z :: before(x, y) && before(y, z) ==> before(x, z))
  }

  predicate SortedBy<T>(s: seq<T>, before: (T, T) -> bool) {
    forall i, j :: 0 <= i < j < |s| ==> before(s[i], s[j])
  }

  /** Puts `x` in front of the first element it may precede. */
  function Insert<T>(x: T, s: seq<T>, before: (T, T) -> bool): (r: seq<T>)
    ensures multiset(r) == multiset(s) + multiset{x}
    ensures |r| == |s| + 1
  {
    if s == [] then [x]
    else if before(x, s[0]) then [x] + s
    else
      assert s == [s[0]] + s[1..];
      [s[0]] + Insert(x, s[1..], before)
  }

  /** The stable sort of `s`. */
  function SortBy<T>(s: seq<T>, before: (T, T) -> bool): (r: seq<T>)
    ensures multiset(r) == multiset(s)
    ensures |r| == |s|
  {
    if s == [] then []
    else
      assert s == [s[0]] + s[1..];
      Insert(s[0], SortBy(s[1..], before), before)
  }

  /** The elements of `s` tied with `z` (each may precede the other), in order. */
  function TiesWith<T>(s: seq<T>, z: T, before: (T, T) -> bool): seq<T> {
    if s == [] then []
    else (if before(s[0], z) && before(z, s[0]) then [s[0]] else []) + TiesWith(s[1..], z, before)
  }

  function Map<T, U>(s: seq<T>, f: T -> U): (r: seq<U>)
    ensures |r| == |s|
    ensures forall i :: 0 <= i < |s| ==> r[i] == f(s[i])
  {
    if s == [] then [] else [f(s[0])] + Map(s[1..], f)
  }

  lemma SortedLength<T>(s: seq<T>, before: (T, T) -> bool)
    ensures |SortBy(s, before)| == |s|
  {
    assert |multiset(SortBy(s, before))| == |multiset(s)|;
  }

  /** Where an element of one permutation of a sequence sits in the other. */
  lemma PermutationIndex<T>(a: seq<T>, b: seq<T>, i: nat) returns (j: nat)
    requires multiset(a) == multiset(b) && i < |a|
    ensures j < |b| && b[j] == a[i]
  {
    assert a[i] in multiset(b);
    j :| 0 <= j < |b| && b[j] == a[i];
  }

  lemma {:induction false} InsertSorted<T(!new)>(x: T, s: seq<T>, before: (T, T) -> bool)
    requires TotalPreorder(before)
    requires SortedBy(s, before)
    ensures SortedBy(Insert(x, s, before), before)
  {
    if s == [] {
    } else if before(x, s[0]) {
      var r := [x] + s;
      forall i, j | 0 <= i < j < |r| ensures before(r[i], r[j]) {
        if i == 0 && j > 1 {
          assert before(s[0], s[j - 1]);
        }
      }
    } else {
      var t := Insert(x, s[1..], before);
      InsertSorted(x, s[1..], before);
      var r := [s[0]] + t;
      forall i, j | 0 <= i < j < |r| ensures before(r[i], r[j]) {
        if i == 0 {
          var e := t[j - 1];
          assert e in multiset(t);
          if e != x {
            assert e in multiset(s[1..]);
            var k :| 0 <= k < |s[1..]| && s[1..][k] == e;
            assert before(s[0], s[k + 1]);
          }
        }
      }
    }
  }

  /** The sort's result is ordered by the comparator. */
  lemma {:induction false} SortedBySort<T(!new)>(s: seq<T>, before: (T, T) -> bool)
    requires TotalPreorder(before)
    ensures SortedBy(SortBy(s, before), before)
  {
    if s != [] {
      SortedBySort(s[1..], before);
      InsertSorted(s[0], SortBy(s[1..], before), before);
    }
  }

  lemma {:induction false} InsertTies<T(!new)>(x: T, t: seq<T>, z: T, before: (T, T) -> bool)
    requires TotalPreorder(before)
    ensures TiesWith(Insert(x, t, before), z, before)
         == (if before(x, z) && before(z, x) then [x] else []) + TiesWith(t, z, before)
  {
    if t == [] {
    } else if before(x, t[0]) {
      assert Insert(x, t, before) == [x] + t;
      assert ([x] + t)[1..] == t;
    } else {
      var rest := Insert(x, t[1..], before);
      var r := [t[0]] + rest;
      assert Insert(x, t, before) == r;
      assert r[1..] == rest;
      InsertTies(x, t[1..], z, before);
      var tx := if before(x, z) && before(z, x) then [x] else [];
      var t0 := if before(t[0], z) && before(z, t[0]) then [t[0]] else [];
      // x and t[0] cannot both be tied with z, since then x could precede t[0]
      if tx != [] && t0 != [] {
        assert false;
      }
      calc {
        TiesWith(r, z, before);
        t0 + TiesWith(rest, z, before);
        t0 + (tx + TiesWith(t[1..], z, before));
        tx + (t0 + TiesWith(t[1..], z, before));
        tx + TiesWith(t, z, before);
      }
    }
  }

  /** Stability: elements that compare equal keep their relative input order. */
  lemma {:induction false} SortStable<T(!new)>(s: seq<T>, z: T, before: (T, T) -> bool)
    requires TotalPreorder(before)
    ensures TiesWith(SortBy(s, before), z, before) == TiesWith(s, z, before)
  {
    if s != [] {
      SortStable(s[1..], z, before);
      InsertTies(s[0], SortBy(s[1..], before), z, before);
    }
  }

  lemma {:induction false} InsertMap<T, U>(x: T, t: seq<T>, f: T -> U, before: (T, T) -> bool, beforeU: (U, U) -> bool)
    requires forall a, b :: beforeU(f(a), f(b)) == before(a, b)
    ensures Insert(f(x), Map(t, f), beforeU) == Map(Insert(x, t, before), f)
  {
    if t != [] {
      assert Map(t, f)[0] == f(t[0]);
      assert Map(t, f)[1..] == Map(t[1..], f);
      if !before(x, t[0]) {
        InsertMap(x, t[1..], f, before, beforeU);
      }
    }
  }

  /** Sorting commutes with a map that the comparator cannot tell apart from the identity. */
  lemma {:induction false} SortMap<T, U>(s: seq<T>, f: T -> U, before: (T, T) -> bool, beforeU: (U, U) -> bool)
    requires forall a, b :: beforeU(f(a), f(b)) == before(a, b)
    ensures SortBy(Map(s, f), beforeU) == Map(SortBy(s, before), f)
  {
    if s != [] {
      assert Map(s, f)[0] == f(s[0]);
      assert Map(s, f)[1..] == Map(s[1..], f);
      SortMap(s[1..], f, before, beforeU);
      InsertMap(s[0], SortBy(s[1..], before), f, before, beforeU);
    }
  }

  lemma {:induction false} InsertMapMultiset<T, U>(x: T, t: seq<T>, f: T -> U, before: (T, T) -> bool)
    ensures multiset(Map(Insert(x, t, before), f)) == multiset(Map(t, f)) + multiset{f(x)}
  {
    if t != [] {
      assert Map(t, f) == [f(t[0])] + Map(t[1..], f);
      if before(x, t[0]) {
        assert Map([x] + t, f) == [f(x)] + Map(t, f);
      } else {
        InsertMapMultiset(x, t[1..], f, before);
        assert Map([t[0]] + Insert(x, t[1..], before), f) == [f(t[0])] + Map(Insert(x, t[1..], before), f);
      }
    }
  }

  /** Whatever is read off the elements, the sort only reorders it. */
  lemma {:induction false} SortMapMultiset<T, U>(s: seq<T>, f: T -> U, before: (T, T) -> bool)
    ensures multiset(Map(SortBy(s, before), f)) == multiset(Map(s, f))
  {
    if s != [] {
      SortMapMultiset(s[1..], f, before);
      InsertMapMultiset(s[0], SortBy(s[1..], before), f, before);
      assert Map(s, f) == [f(s[0])] + Map(s[1..], f);
    }
  }

  predicate Distinct<T(==)>(s: seq<T>) {
    forall i, j :: 0 <= i < j < |s| ==> s[i] != s[j]
  }

  lemma {:induction false} DistinctCounts<T>(s: seq<T>)
    ensures Distinct(s) <==> forall x :: multiset(s)[x] <= 1
  {
    if s != [] {
      var t := s[1..];
      assert s == [s[0]] + t;
      DistinctCounts(t);
      if Distinct(s) {
        assert s[0] !in t;
        forall x ensures multiset(s)[x] <= 1 {
          assert Distinct(t) by {
            forall i, j | 0 <= i < j < |t| ensures t[i] != t[j] { assert s[i + 1] != s[j + 1]; }
          }
        }
      }
      if forall x :: multiset(s)[x] <= 1 {
        assert forall x :: multiset(t)[x] <= 1 by {
          forall x ensures multiset(t)[x] <= 1 { assert multiset(s)[x] == multiset{s[0]}[x] + multiset(t)[x]; }
        }
        assert multiset(t)[s[0]] == 0 by {
          assert multiset(s)[s[0]] == 1 + multiset(t)[s[0]];
        }
        forall i, j | 0 <= i < j < |s| ensures s[i] != s[j] {
          if i == 0 {
            assert s[j] == t[j - 1];
            assert s[j] in multiset(t);
          } else {
            assert s[i] == t[i - 1] && s[j] == t[j - 1];
          }
        }
      }
    }
  }

  /** A rearrangement of distinct elements has distinct elements. */
  lemma DistinctPermutation<T>(a: seq<T>, b: seq<T>)
    requires multiset(a) == multiset(b)
    requires Distinct(a)
    ensures Distinct(b)
  {
    DistinctCounts(a);
    DistinctCounts(b);
  }
}
