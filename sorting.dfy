/**
 * `Array.prototype.sort` with a comparator, as the layout uses it twice (the
 * unallocated queue, src/App.tsx:230-233, and the scored columns, src/App.tsx:307).
 * The language guarantees a stable sort for a consistent comparator; it is modelled
 * as insertion sort, which places `x` before `y` only when `cmp(x, y) < 0` and
 * otherwise keeps input order. For an inconsistent comparator the language leaves
 * the order to the implementation, and insertion sort is one such order.
 */
module Sorting {
  import opened Partition

  /** Inserts `x` into `r` in front of the first element it strictly precedes. */
  function Insert<T>(x: T, r: seq<T>, cmp: (T, T) -> int): seq<T> {
    if r == [] then [x]
    else if cmp(x, r[0]) < 0 then [x] + r
    else [r[0]] + Insert(x, r[1..], cmp)
  }

  /** The stable sort of `s` under the comparator `cmp`. */
  function SortBy<T>(s: seq<T>, cmp: (T, T) -> int): seq<T> {
    if s == [] then [] else Insert(s[|s| - 1], SortBy(s[..|s| - 1], cmp), cmp)
  }

  /**
   * `cmp` is a consistent comparator on the elements of `u`: its sign flips when the
   * arguments are swapped, and "not after" is transitive.
   */
  ghost predicate Preorder<T>(cmp: (T, T) -> int, u: seq<T>) {
    && (forall a, b {:trigger Flips(cmp, a, b)} :: a in u && b in u ==> Flips(cmp, a, b))
    && (forall a, b, c {:trigger Chains(cmp, a, b, c)} :: a in u && b in u && c in u ==> Chains(cmp, a, b, c))
  }

  /** Swapping the arguments flips the sign of `cmp`. */
  ghost predicate Flips<T>(cmp: (T, T) -> int, a: T, b: T) {
    cmp(a, b) < 0 <==> cmp(b, a) > 0
  }

  /** "Not after" is transitive through `b`. */
  ghost predicate Chains<T>(cmp: (T, T) -> int, a: T, b: T, c: T) {
    cmp(a, b) <= 0 && cmp(b, c) <= 0 ==> cmp(a, c) <= 0
  }

  /** No element of `r` strictly precedes an element in front of it. */
  ghost predicate Sorted<T>(cmp: (T, T) -> int, r: seq<T>) {
    forall i, j :: 0 <= i < j < |r| ==> cmp(r[i], r[j]) <= 0
  }

  /** Holds of the elements that tie with `e`. */
  function TiesWith<T>(cmp: (T, T) -> int, e: T): T -> bool {
    y => cmp(y, e) == 0
  }

  lemma {:induction false} InsertPermutes<T>(x: T, r: seq<T>, cmp: (T, T) -> int)
    ensures multiset(Insert(x, r, cmp)) == multiset(r) + multiset{x}
  {
    if r != [] && cmp(x, r[0]) >= 0 {
      InsertPermutes(x, r[1..], cmp);
      assert r == [r[0]] + r[1..];
    }
  }

  /** Sorting only reorders: the result is a permutation of the input. */
  lemma {:induction false} SortPermutes<T>(s: seq<T>, cmp: (T, T) -> int)
    ensures multiset(SortBy(s, cmp)) == multiset(s)
  {
    if s != [] {
      var n := |s| - 1;
      var t := s[..n];
      SortPermutes(t, cmp);
      InsertPermutes(s[n], SortBy(t, cmp), cmp);
      assert multiset(s) == multiset(t) + multiset{s[n]} by {
        assert s == t + [s[n]];
      }
    }
  }

  lemma {:induction false} InsertSorted<T>(x: T, r: seq<T>, cmp: (T, T) -> int, u: seq<T>)
    requires Preorder(cmp, u) && x in u && forall y :: y in r ==> y in u
    requires Sorted(cmp, r)
    ensures Sorted(cmp, Insert(x, r, cmp))
  {
    if r != [] && cmp(x, r[0]) >= 0 {
      var t := r[1..];
      InsertSorted(x, t, cmp, u);
      InsertPermutes(x, t, cmp);
      var it := Insert(x, t, cmp);
      assert Flips(cmp, x, r[0]);
      forall y | y in it
        ensures cmp(r[0], y) <= 0
      {
        assert y in multiset(it);
        if y != x {
          var k :| 0 <= k < |t| && t[k] == y;
          assert r[k + 1] == y;
        }
      }
      assert Insert(x, r, cmp) == [r[0]] + it;
    } else if r != [] {
      forall y | y in r
        ensures cmp(x, y) <= 0
      {
        var k :| 0 <= k < |r| && r[k] == y;
        if k > 0 {
          assert cmp(r[0], y) <= 0;
          assert Chains(cmp, x, r[0], y);
        }
      }
      assert Insert(x, r, cmp) == [x] + r;
    }
  }

  /** A consistent comparator yields a sorted result. */
  lemma {:induction false} SortSorted<T>(s: seq<T>, cmp: (T, T) -> int)
    requires Preorder(cmp, s)
    ensures Sorted(cmp, SortBy(s, cmp))
  {
    if s != [] {
      var n := |s| - 1;
      assert Preorder(cmp, s[..n]);
      SortSorted(s[..n], cmp);
      SortPermutes(s[..n], cmp);
      forall y | y in SortBy(s[..n], cmp)
        ensures y in s
      {
        assert y in multiset(s[..n]);
      }
      InsertSorted(s[n], SortBy(s[..n], cmp), cmp, s);
    }
  }

  lemma {:induction false} NoTies<T>(r: seq<T>, cmp: (T, T) -> int, e: T)
    requires forall y :: y in r ==> cmp(y, e) != 0
    ensures Filter(r, TiesWith(cmp, e)) == []
  {
    if r != [] {
      NoTies(r[1..], cmp, e);
    }
  }

  /** An element strictly in front of the head of a sorted `r` ties with nothing in `r` that ties with it. */
  lemma StrictlyFirst<T>(x: T, r: seq<T>, cmp: (T, T) -> int, e: T, u: seq<T>)
    requires Preorder(cmp, u) && x in u && e in u && forall y :: y in r ==> y in u
    requires Sorted(cmp, r) && r != [] && cmp(x, r[0]) < 0 && cmp(x, e) == 0
    ensures forall y :: y in r ==> cmp(y, e) != 0
  {
    forall y | y in r
      ensures cmp(y, e) != 0
    {
      var k :| 0 <= k < |r| && r[k] == y;
      assert Flips(cmp, x, r[0]);
      if k > 0 {
        assert cmp(r[0], y) <= 0;
        assert Chains(cmp, r[0], y, x);
      }
      assert cmp(y, x) > 0;
      assert Flips(cmp, e, x) && Flips(cmp, x, e);
      assert Chains(cmp, y, e, x);
    }
  }

  lemma {:induction false} InsertStable<T>(x: T, r: seq<T>, cmp: (T, T) -> int, e: T, u: seq<T>)
    requires Preorder(cmp, u) && x in u && e in u && forall y :: y in r ==> y in u
    requires Sorted(cmp, r)
    ensures Filter(Insert(x, r, cmp), TiesWith(cmp, e)) == Filter(r, TiesWith(cmp, e)) + Filter([x], TiesWith(cmp, e))
  {
    var q := TiesWith(cmp, e);
    if r == [] {
    } else if cmp(x, r[0]) < 0 {
      assert Insert(x, r, cmp) == [x] + r;
      if q(x) {
        StrictlyFirst(x, r, cmp, e, u);
        NoTies(r, cmp, e);
      }
      FilterAppend([x], r, q);
    } else {
      InsertStable(x, r[1..], cmp, e, u);
      assert r == [r[0]] + r[1..];
      assert Insert(x, r, cmp) == [r[0]] + Insert(x, r[1..], cmp);
      FilterAppend([r[0]], r[1..], q);
      FilterAppend([r[0]], Insert(x, r[1..], cmp), q);
    }
  }

  /**
   * Stability: the elements that tie with any `e` come out in the order they went in.
   */
  lemma {:induction false} SortStable<T>(s: seq<T>, cmp: (T, T) -> int, e: T)
    requires Preorder(cmp, s + [e])
    ensures Filter(SortBy(s, cmp), TiesWith(cmp, e)) == Filter(s, TiesWith(cmp, e))
  {
    if s != [] {
      var n := |s| - 1;
      var t, x, u := s[..n], s[n], s + [e];
      assert s == t + [x];
      PreorderWithin(cmp, u, t + [e]);
      PreorderWithin(cmp, u, t);
      SortStable(t, cmp, e);
      SortWithin(t, cmp, u);
      InsertStable(x, SortBy(t, cmp), cmp, e, u);
      FilterAppend(t, [x], TiesWith(cmp, e));
    }
  }

  /** A comparator consistent on `u` is consistent on any sequence of its elements. */
  lemma PreorderWithin<T>(cmp: (T, T) -> int, u: seq<T>, v: seq<T>)
    requires Preorder(cmp, u) && forall y :: y in v ==> y in u
    ensures Preorder(cmp, v)
  {
  }

  /** Sorting a sequence of elements of `u` gives a sorted sequence of elements of `u`. */
  lemma SortWithin<T>(t: seq<T>, cmp: (T, T) -> int, u: seq<T>)
    requires Preorder(cmp, t) && forall y :: y in t ==> y in u
    ensures Sorted(cmp, SortBy(t, cmp)) && forall y :: y in SortBy(t, cmp) ==> y in u
  {
    SortSorted(t, cmp);
    SortPermutes(t, cmp);
    forall y | y in SortBy(t, cmp)
      ensures y in u
    {
      assert y in multiset(t);
    }
  }

  lemma SortLength<T>(s: seq<T>, cmp: (T, T) -> int)
    ensures |SortBy(s, cmp)| == |s|
  {
    SortPermutes(s, cmp);
    assert |SortBy(s, cmp)| == |multiset(SortBy(s, cmp))|;
  }

  /**
   * The head of the sorted sequence is the first element of `s` that no element
   * strictly precedes: what `sort(...)[0]` picks with a stable sort.
   */
  lemma {:induction false} SortHeadIsFirstMinimum<T>(s: seq<T>, cmp: (T, T) -> int) returns (k: nat)
    requires s != [] && Preorder(cmp, s)
    ensures k < |s| && |SortBy(s, cmp)| == |s| && SortBy(s, cmp)[0] == s[k]
    ensures forall m :: 0 <= m < |s| ==> cmp(s[k], s[m]) <= 0
    ensures forall m :: 0 <= m < k ==> cmp(s[m], s[k]) > 0
  {
    SortLength(s, cmp);
    var n := |s| - 1;
    if n == 0 {
      assert Flips(cmp, s[0], s[0]);
      k := 0;
    } else {
      var t := s[..n];
      assert Preorder(cmp, t);
      var j := SortHeadIsFirstMinimum(t, cmp);
      assert s == t + [s[n]];
      if cmp(s[n], SortBy(t, cmp)[0]) < 0 {
        NewMinimum(s, cmp, j);
        k := n;
      } else {
        OldMinimum(s, cmp, j);
        k := j;
      }
    }
  }

  lemma NewMinimum<T>(s: seq<T>, cmp: (T, T) -> int, j: nat)
    requires |s| > 1 && Preorder(cmp, s) && j < |s| - 1
    requires forall m :: 0 <= m < |s| - 1 ==> cmp(s[j], s[m]) <= 0
    requires cmp(s[|s| - 1], s[j]) < 0
    ensures forall m :: 0 <= m < |s| ==> cmp(s[|s| - 1], s[m]) <= 0
    ensures forall m :: 0 <= m < |s| - 1 ==> cmp(s[m], s[|s| - 1]) > 0
  {
    var x := s[|s| - 1];
    assert Flips(cmp, x, x);
    forall m | 0 <= m < |s| - 1
      ensures cmp(s[m], x) > 0 && cmp(x, s[m]) <= 0
    {
      assert Flips(cmp, x, s[j]) && Flips(cmp, s[j], x);
      assert Chains(cmp, s[j], s[m], x);
      assert Flips(cmp, s[m], x) && Flips(cmp, x, s[m]);
    }
  }

  lemma OldMinimum<T>(s: seq<T>, cmp: (T, T) -> int, j: nat)
    requires |s| > 1 && Preorder(cmp, s) && j < |s| - 1
    requires forall m :: 0 <= m < |s| - 1 ==> cmp(s[j], s[m]) <= 0
    requires cmp(s[|s| - 1], s[j]) >= 0
    ensures forall m :: 0 <= m < |s| ==> cmp(s[j], s[m]) <= 0
  {
    assert Flips(cmp, s[|s| - 1], s[j]);
  }
}
