/**
 * The few LINQ operators (System.Linq.Enumerable) that the contract resolver
 * composes: Where, Select (used for Cast<MemberInfo>), Any and Union.
 * Sequences stand for the arrays and lazy enumerables of the C# code;
 * every operator is specified by what it keeps and in which order.
 */
module Enumerable {

  /** No element occurs twice. */
  ghost predicate NoDuplicates<T>(s: seq<T>) {
    forall i, j :: 0 <= i < j < |s| ==> s[i] != s[j]
  }

  /** The set of elements of a sequence. */
  function Elements<T>(s: seq<T>): set<T> {
    set x | x in s
  }

  /** Enumerable.Where: the elements that pass the test, in their original order. */
  function Where<T(!new)>(s: seq<T>, keep: T -> bool): (r: seq<T>)
    ensures |r| <= |s|
    ensures forall x :: x in r <==> x in s && keep(x)
    ensures NoDuplicates(s) ==> NoDuplicates(r)
  {
    if s == [] then []
    else if keep(s[0]) then
      var rest := Where(s[1..], keep);
      assert s[0] !in s[1..] ==> s[0] !in rest;
      [s[0]] + rest
    else Where(s[1..], keep)
  }

  /** Every element that passes the test is kept as often as it occurs, every other is dropped. */
  lemma {:induction false} WhereCounts<T(!new)>(s: seq<T>, keep: T -> bool)
    ensures forall x :: multiset(Where(s, keep))[x] == if keep(x) then multiset(s)[x] else 0
  {
    if s != [] {
      WhereCounts(s[1..], keep);
      assert s == [s[0]] + s[1..];
      assert multiset(s) == multiset{s[0]} + multiset(s[1..]);
      if keep(s[0]) {
        assert Where(s, keep) == [s[0]] + Where(s[1..], keep);
        assert multiset([s[0]] + Where(s[1..], keep)) == multiset{s[0]} + multiset(Where(s[1..], keep));
      }
    }
  }

  /** Filtering a concatenation filters each part and keeps the parts in order. */
  lemma {:induction false} WhereAppend<T(!new)>(a: seq<T>, b: seq<T>, keep: T -> bool)
    ensures Where(a + b, keep) == Where(a, keep) + Where(b, keep)
  {
    if a == [] {
      assert a + b == b;
    } else {
      assert (a + b)[0] == a[0];
      assert (a + b)[1..] == a[1..] + b;
      WhereAppend(a[1..], b, keep);
    }
  }

  /** A single element is kept exactly when it passes the test. */
  lemma WhereSingleton<T(!new)>(x: T, keep: T -> bool)
    ensures Where([x], keep) == if keep(x) then [x] else []
  {
    assert [x][1..] == [];
  }

  /** Enumerable.Select: the image of every element, position by position. */
  function Select<T, U>(s: seq<T>, f: T -> U): (r: seq<U>)
    ensures |r| == |s|
    ensures forall i :: 0 <= i < |s| ==> r[i] == f(s[i])
  {
    if s == [] then [] else [f(s[0])] + Select(s[1..], f)
  }

  /** Enumerable.Any: some element passes the test. */
  function Any<T>(s: seq<T>, test: T -> bool): (r: bool)
    ensures r <==> exists i :: 0 <= i < |s| && test(s[i])
  {
    if s == [] then false
    else if test(s[0]) then true
    else
      var rest := Any(s[1..], test);
      assert forall i :: 0 <= i < |s| - 1 ==> s[1..][i] == s[i + 1];
      rest
  }

  /**
   * The distinct elements of `s` that are not in `seen`, each at the
   * position of its first occurrence: the way LINQ's set operators stream
   * their input past a set of elements already yielded.
   */
  function DistinctFrom<T(==,!new)>(s: seq<T>, seen: set<T>): (r: seq<T>)
    ensures |r| <= |s|
    ensures forall x :: x in r <==> x in s && x !in seen
    ensures NoDuplicates(r)
  {
    if s == [] then []
    else if s[0] in seen then DistinctFrom(s[1..], seen)
    else [s[0]] + DistinctFrom(s[1..], seen + {s[0]})
  }

  /** Streaming a concatenation: the second part only yields what the first part has not. */
  lemma {:induction false} DistinctFromAppend<T(!new)>(a: seq<T>, b: seq<T>, seen: set<T>)
    ensures DistinctFrom(a + b, seen) == DistinctFrom(a, seen) + DistinctFrom(b, seen + Elements(a))
  {
    if a == [] {
      assert a + b == b;
      assert seen + Elements(a) == seen;
    } else {
      assert (a + b)[0] == a[0];
      assert (a + b)[1..] == a[1..] + b;
      var seen' := if a[0] in seen then seen else seen + {a[0]};
      DistinctFromAppend(a[1..], b, seen');
      assert seen' + Elements(a[1..]) == seen + Elements(a) by {
        assert a == [a[0]] + a[1..];
        assert Elements(a) == {a[0]} + Elements(a[1..]);
      }
    }
  }

  /** A duplicate-free sequence that avoids `seen` streams through unchanged. */
  lemma {:induction false} DistinctFromIdentity<T(!new)>(s: seq<T>, seen: set<T>)
    requires NoDuplicates(s)
    requires forall x :: x in s ==> x !in seen
    ensures DistinctFrom(s, seen) == s
  {
    if s != [] {
      DistinctFromIdentity(s[1..], seen + {s[0]});
      assert s == [s[0]] + s[1..];
    }
  }

  /**
   * Enumerable.Union: the distinct elements of `first`, then those of
   * `second` that `first` does not contain, each in first-occurrence order.
   */
  function Union<T(==,!new)>(first: seq<T>, second: seq<T>): (r: seq<T>)
    ensures forall x :: x in r <==> x in first || x in second
    ensures NoDuplicates(r)
    ensures r == DistinctFrom(first, {}) + DistinctFrom(second, Elements(first))
    ensures NoDuplicates(first) && NoDuplicates(second) && Elements(first) !! Elements(second)
            ==> r == first + second
  {
    DistinctFromAppend(first, second, {});
    assert {} + Elements(first) == Elements(first);
    var r := DistinctFrom(first + second, {});
    assert NoDuplicates(first) && NoDuplicates(second) && Elements(first) !! Elements(second)
           ==> r == first + second by {
      if NoDuplicates(first) && NoDuplicates(second) && Elements(first) !! Elements(second) {
        DistinctFromIdentity(first, {});
        DistinctFromIdentity(second, Elements(first));
      }
    }
    r
  }
}
