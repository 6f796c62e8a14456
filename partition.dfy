/**
 * `bisect` (src/App.tsx:9-21): a stable partition of an array by a predicate,
 * together with the order-preserving filter that specifies each half.
 */
module Partition {

  /** The predicate that holds exactly where `p` does not. */
  function Not<T>(p: T -> bool): T -> bool {
    x => !p(x)
  }

  /** The elements of `s` that satisfy `p`, in their order in `s`. */
  function Filter<T>(s: seq<T>, p: T -> bool): (r: seq<T>)
    ensures |r| <= |s|
    ensures forall k :: 0 <= k < |r| ==> r[k] in s && p(r[k])
  {
    if s == [] then [] else (if p(s[0]) then [s[0]] else []) + Filter(s[1..], p)
  }

  /** Filtering distributes over concatenation. */
  lemma {:induction false} FilterAppend<T>(a: seq<T>, b: seq<T>, p: T -> bool)
    ensures Filter(a + b, p) == Filter(a, p) + Filter(b, p)
  {
    if a == [] {
      assert a + b == b;
    } else {
      assert (a + b)[1..] == a[1..] + b;
      FilterAppend(a[1..], b, p);
    }
  }

  /** Nothing that satisfies `p` is dropped. */
  lemma {:induction false} FilterKeeps<T>(s: seq<T>, p: T -> bool, x: T)
    requires x in s && p(x)
    ensures x in Filter(s, p)
  {
    if s[0] != x {
      FilterKeeps(s[1..], p, x);
    }
  }

  /** The two halves together hold exactly the elements of `s`, each as often as in `s`. */
  lemma {:induction false} FilterPartition<T>(s: seq<T>, p: T -> bool)
    ensures multiset(Filter(s, p) + Filter(s, Not(p))) == multiset(s)
  {
    if s != [] {
      var x, t, q := s[0], s[1..], Not(p);
      FilterPartition(t, p);
      var hp, hq := if p(x) then [x] else [], if q(x) then [x] else [];
      assert q(x) == !p(x);
      assert multiset(hp) + multiset(hq) == multiset{x};
      assert Filter(s, p) == hp + Filter(t, p);
      assert Filter(s, q) == hq + Filter(t, q);
      assert multiset(s) == multiset{x} + multiset(t) by {
        assert s == [x] + t;
      }
    }
  }

  /** Adds one to every position. */
  function Shifted(r: seq<nat>): (r': seq<nat>)
    ensures |r'| == |r| && forall k :: 0 <= k < |r| ==> r'[k] == r[k] + 1
  {
    seq(|r|, k requires 0 <= k < |r| => r[k] + 1)
  }

  /** The positions of `s` whose elements `Filter(s, p)` keeps. */
  function FilterPositions<T>(s: seq<T>, p: T -> bool): seq<nat> {
    if s == [] then [] else (if p(s[0]) then [0] else []) + Shifted(FilterPositions(s[1..], p))
  }

  /** `Filter(s, p)` is `s` read at the positions `FilterPositions(s, p)`. */
  lemma {:induction false} FilterPositionsRead<T>(s: seq<T>, p: T -> bool)
    ensures |FilterPositions(s, p)| == |Filter(s, p)|
    ensures forall k :: 0 <= k < |Filter(s, p)| ==>
      FilterPositions(s, p)[k] < |s| && Filter(s, p)[k] == s[FilterPositions(s, p)[k]]
  {
    if s != [] {
      var t := s[1..];
      FilterPositionsRead(t, p);
      var rt, ft := FilterPositions(t, p), Filter(t, p);
      if p(s[0]) {
        ShiftedRead(s, rt, ft, [0], [s[0]]);
      } else {
        ShiftedRead(s, rt, ft, [], []);
      }
    }
  }

  /** Shifting the positions read from `s[1..]` reads the same elements from `s`. */
  lemma ShiftedRead<T>(s: seq<T>, rt: seq<nat>, ft: seq<T>, h: seq<nat>, e: seq<T>)
    requires s != [] && |rt| == |ft| && forall m :: 0 <= m < |ft| ==> rt[m] < |s| - 1 && ft[m] == s[1..][rt[m]]
    requires (h == [] && e == []) || (h == [0] && e == [s[0]])
    ensures |h + Shifted(rt)| == |e + ft|
    ensures forall k :: 0 <= k < |e + ft| ==> (h + Shifted(rt))[k] < |s| && (e + ft)[k] == s[(h + Shifted(rt))[k]]
  {
    var r, f := h + Shifted(rt), e + ft;
    forall k | 0 <= k < |f|
      ensures r[k] < |s| && f[k] == s[r[k]]
    {
      if k >= |h| {
        var m := k - |h|;
        assert r[k] == rt[m] + 1 && f[k] == ft[m];
      }
    }
  }

  /** The kept positions are strictly increasing, so `Filter` keeps the order of `s`. */
  lemma {:induction false} FilterPositionsIncrease<T>(s: seq<T>, p: T -> bool)
    ensures forall k, l :: 0 <= k < l < |FilterPositions(s, p)| ==>
      FilterPositions(s, p)[k] < FilterPositions(s, p)[l]
  {
    if s != [] {
      var rt := FilterPositions(s[1..], p);
      FilterPositionsIncrease(s[1..], p);
      var h := if p(s[0]) then [0] else [];
      var r := FilterPositions(s, p);
      assert r == h + Shifted(rt);
      forall k, l | 0 <= k < l < |r|
        ensures r[k] < r[l]
      {
        if k >= |h| {
          assert r[k] == rt[k - |h|] + 1 && r[l] == rt[l - |h|] + 1;
        } else {
          assert r[l] == rt[l - |h|] + 1;
        }
      }
    }
  }

  /** A kept element that stands earlier in `s` also stands earlier in `Filter(s, p)`. */
  lemma FilterPositionsOrder<T>(s: seq<T>, p: T -> bool, a: nat, b: nat)
    requires a < |FilterPositions(s, p)| && b < |FilterPositions(s, p)|
    requires FilterPositions(s, p)[a] < FilterPositions(s, p)[b]
    ensures a < b
  {
    FilterPositionsIncrease(s, p);
  }

  /** Every position whose element satisfies `p` is kept. */
  lemma {:induction false} FilterPositionsComplete<T>(s: seq<T>, p: T -> bool, i: nat)
    requires i < |s| && p(s[i])
    ensures i in FilterPositions(s, p)
  {
    var h := if p(s[0]) then [0] else [];
    var r := FilterPositions(s, p);
    assert r == h + Shifted(FilterPositions(s[1..], p));
    if i > 0 {
      var t := s[1..];
      assert t[i - 1] == s[i];
      FilterPositionsComplete(t, p, i - 1);
      var rt := FilterPositions(t, p);
      var k :| 0 <= k < |rt| && rt[k] == i - 1;
      assert r[|h| + k] == i;
    }
  }

  /**
   * `bisect`: walks `arr` once, pushing each element onto `trues` or `falses`
   * according to `pred`.
   */
  method Bisect<T>(arr: seq<T>, pred: T -> bool) returns (trues: seq<T>, falses: seq<T>)
    ensures trues == Filter(arr, pred)
    ensures falses == Filter(arr, Not(pred))
  {
    trues, falses := [], [];
    var i := 0;
    while i < |arr|
      invariant 0 <= i <= |arr|
      invariant trues == Filter(arr[..i], pred)
      invariant falses == Filter(arr[..i], Not(pred))
    {
      assert arr[..i + 1] == arr[..i] + [arr[i]];
      FilterAppend(arr[..i], [arr[i]], pred);
      FilterAppend(arr[..i], [arr[i]], Not(pred));
      if pred(arr[i]) {
        trues := trues + [arr[i]];
      } else {
        falses := falses + [arr[i]];
      }
      i := i + 1;
    }
    assert arr[..i] == arr;
  }
}
