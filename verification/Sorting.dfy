/** Stable sorting by a comparison, and when a sorted list is unique. */
module Sorting {

  /** Asymmetric, and "not before" is transitive. */
  ghost predicate StrictWeak<T(!new)>(less: (T, T) -> bool) {
    && (forall a, b :: less(a, b) ==> !less(b, a))
    && (forall a, b, c :: !less(b, a) && !less(c, b) ==> !less(c, a))
  }

  /** The same, for the elements of a list only. */
  ghost predicate StrictWeakOn<T>(less: (T, T) -> bool, d: seq<T>) {
    && (forall a, b | a in d && b in d :: less(a, b) ==> !less(b, a))
    && (forall a, b, c | a in d && b in d && c in d :: !less(b, a) && !less(c, b) ==> !less(c, a))
  }

  /** No two different elements of `s` are equivalent. */
  ghost predicate TotalOn<T>(less: (T, T) -> bool, s: seq<T>) {
    forall x, y | x in s && y in s && x != y :: less(x, y) || less(y, x)
  }

  ghost predicate Sorted<T>(less: (T, T) -> bool, s: seq<T>) {
    forall i, j | 0 <= i < j < |s| :: !less(s[j], s[i])
  }

  function Insert<T>(less: (T, T) -> bool, s: seq<T>, x: T): seq<T> {
    if s == [] || !less(x, s[|s| - 1]) then s + [x]
    else Insert(less, s[..|s| - 1], x) + [s[|s| - 1]]
  }

  function Sort<T>(less: (T, T) -> bool, s: seq<T>): seq<T> {
    if s == [] then [] else Insert(less, Sort(less, s[..|s| - 1]), s[|s| - 1])
  }

  lemma {:induction false} AppendSorted<T>(less: (T, T) -> bool, s: seq<T>, x: T)
    requires Sorted(less, s) && forall y | y in s :: !less(x, y)
    ensures Sorted(less, s + [x])
  {
  }

  lemma {:induction false} InsertPermutes<T>(less: (T, T) -> bool, s: seq<T>, x: T)
    ensures multiset(Insert(less, s, x)) == multiset(s) + multiset{x}
  {
    if !(s == [] || !less(x, s[|s| - 1])) {
      var init := s[..|s| - 1];
      assert s == init + [s[|s| - 1]];
      InsertPermutes(less, init, x);
    }
  }

  lemma {:induction false} InsertSorts<T>(less: (T, T) -> bool, d: seq<T>, s: seq<T>, x: T)
    requires StrictWeakOn(less, d) && Sorted(less, s) && x in d && forall y | y in s :: y in d
    ensures Sorted(less, Insert(less, s, x))
  {
    if s == [] || !less(x, s[|s| - 1]) {
      forall y | y in s ensures !less(x, y) {
        var i :| 0 <= i < |s| && s[i] == y;
        assert i < |s| - 1 ==> !less(s[|s| - 1], s[i]);
      }
      AppendSorted(less, s, x);
    } else {
      var init, last := s[..|s| - 1], s[|s| - 1];
      InsertSorts(less, d, init, x);
      InsertPermutes(less, init, x);
      forall y | y in Insert(less, init, x) ensures !less(last, y) {
        assert y in multiset(Insert(less, init, x));
        assert y == x || y in init;
        if y in init {
          var i :| 0 <= i < |init| && init[i] == y;
          assert !less(s[|s| - 1], s[i]);
        }
      }
      AppendSorted(less, Insert(less, init, x), last);
    }
  }

  lemma {:induction false} SortIsSortedOn<T>(less: (T, T) -> bool, d: seq<T>, s: seq<T>)
    requires StrictWeakOn(less, d) && forall y | y in s :: y in d
    ensures Sorted(less, Sort(less, s)) && multiset(Sort(less, s)) == multiset(s)
  {
    if s != [] {
      var init := s[..|s| - 1];
      assert s == init + [s[|s| - 1]];
      SortIsSortedOn(less, d, init);
      forall y | y in Sort(less, init) ensures y in d { assert y in multiset(Sort(less, init)); }
      InsertSorts(less, d, Sort(less, init), s[|s| - 1]);
      InsertPermutes(less, Sort(less, init), s[|s| - 1]);
    }
  }

  /** Sorting permutes the list and leaves no inversion. */
  lemma SortIsSorted<T(!new)>(less: (T, T) -> bool, s: seq<T>)
    requires StrictWeak(less)
    ensures Sorted(less, Sort(less, s)) && multiset(Sort(less, s)) == multiset(s)
  {
    SortIsSortedOn(less, s, s);
  }

  /** A list is determined by its elements once it is sorted by an order that is total on them. */
  lemma {:induction false} SortedIsUnique<T(!new)>(less: (T, T) -> bool, a: seq<T>, b: seq<T>)
    requires Sorted(less, a) && Sorted(less, b) && TotalOn(less, a) && multiset(a) == multiset(b)
    ensures a == b
  {
    SameLength(a, b);
    if a != [] {
      var n := |a| - 1;
      LastAgree(less, a, b);
      TotalOnPermutation(less, a, b);
      InitSorted(less, a);
      InitSorted(less, b);
      SortedIsUnique(less, a[..n], b[..n]);
      InitAndLast(a);
      InitAndLast(b);
    }
  }

  lemma SameLength<T>(a: seq<T>, b: seq<T>)
    requires multiset(a) == multiset(b)
    ensures |a| == |b|
  {
    assert |multiset(a)| == |multiset(b)|;
  }

  lemma LastAgree<T(!new)>(less: (T, T) -> bool, a: seq<T>, b: seq<T>)
    requires Sorted(less, a) && Sorted(less, b) && TotalOn(less, a) && multiset(a) == multiset(b)
    requires |a| == |b| > 0
    ensures a[|a| - 1] == b[|b| - 1]
  {
    var n := |a| - 1;
    var x, y := a[n], b[n];
    assert x in multiset(b) && y in multiset(a);
    var i :| 0 <= i < |a| && a[i] == y;
    var j :| 0 <= j < |b| && b[j] == x;
    assert i < n ==> !less(a[n], a[i]);
    assert j < n ==> !less(b[n], b[j]);
  }

  lemma TotalOnPermutation<T>(less: (T, T) -> bool, a: seq<T>, b: seq<T>)
    requires TotalOn(less, a) && multiset(a) == multiset(b)
    ensures TotalOn(less, b)
  {
    forall x | x in b ensures x in a { assert x in multiset(b); }
  }

  lemma InitAndLast<T>(a: seq<T>)
    requires a != []
    ensures a == a[..|a| - 1] + [a[|a| - 1]]
  {
  }

  lemma InitSorted<T>(less: (T, T) -> bool, a: seq<T>)
    requires Sorted(less, a) && TotalOn(less, a) && a != []
    ensures var init := a[..|a| - 1];
            Sorted(less, init) && TotalOn(less, init) && multiset(init) == multiset(a) - multiset{a[|a| - 1]}
  {
    var init := a[..|a| - 1];
    assert a == init + [a[|a| - 1]];
  }

  // ---------- Permutations ----------

  function Without<T>(s: seq<T>, j: nat): seq<T>
    requires j < |s|
  {
    s[..j] + s[j + 1..]
  }

  lemma WithoutIs<T>(s: seq<T>, j: nat)
    requires j < |s|
    ensures multiset(s) == multiset(Without(s, j)) + multiset{s[j]}
  {
    assert s == s[..j] + [s[j]] + s[j + 1..];
  }

  /** The last element of a list, in a permutation of it. */
  lemma LastIn<T>(a: seq<T>, b: seq<T>) returns (j: nat)
    requires multiset(a) == multiset(b) && a != []
    ensures |a| == |b| && j < |b| && b[j] == a[|a| - 1] && multiset(a[..|a| - 1]) == multiset(Without(b, j))
  {
    hide Without;
    var n := |a| - 1;
    SameLength(a, b);
    InitAndLast(a);
    assert multiset(a) == multiset(a[..n]) + multiset{a[n]};
    assert a[n] in multiset(b);
    j :| 0 <= j < |b| && b[j] == a[n];
    WithoutIs(b, j);
    assert multiset(a[..n]) == multiset(a) - multiset{a[n]};
    assert multiset(Without(b, j)) == multiset(b) - multiset{b[j]};
  }
}
