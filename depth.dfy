/**
 * `generateNodeDepth` (src/App.tsx:34-61): a memoised depth-first walk over the
 * requirement edges that fills in `depth`, `children` and `active` for every node
 * reachable from the start node.
 *
 * The walk is specified by three recursive functions over the tasks of the index.
 * The source recurses without bound on a cycle; the model takes a ghost `rank` that
 * strictly decreases along every requirement edge, so the graph is acyclic.
 */
module Depth {
  import opened Wrappers
  import opened Graph

  /** `Math.max(...xs)`. */
  function MaxOf(xs: seq<nat>): (m: nat)
    requires xs != []
    ensures forall k :: 0 <= k < |xs| ==> xs[k] <= m
    ensures exists k :: 0 <= k < |xs| && xs[k] == m
  {
    if |xs| == 1 then xs[0]
    else
      var m := MaxOf(xs[..|xs| - 1]);
      assert forall k :: 0 <= k < |xs| - 1 ==> xs[..|xs| - 1][k] == xs[k];
      if xs[|xs| - 1] > m then xs[|xs| - 1] else m
  }

  /** `xs.reduce((a, b) => a + b, 0)`. */
  function SumOf(xs: seq<nat>): nat {
    if xs == [] then 0 else SumOf(xs[..|xs| - 1]) + xs[|xs| - 1]
  }

  /** `bs.some(b => b)`. */
  function AnyOf(bs: seq<bool>): (b: bool)
    ensures b <==> exists k :: 0 <= k < |bs| && bs[k]
  {
    if bs == [] then false
    else
      assert forall k :: 0 <= k < |bs| - 1 ==> bs[..|bs| - 1][k] == bs[k];
      AnyOf(bs[..|bs| - 1]) || bs[|bs| - 1]
  }

  /** No term of a sum exceeds the sum. */
  lemma {:induction false} SumOfBounds(xs: seq<nat>, k: nat)
    requires k < |xs|
    ensures xs[k] <= SumOf(xs)
  {
    var n := |xs| - 1;
    if k < n {
      SumOfBounds(xs[..n], k);
    }
  }

  /** The ids in `ds` that are in `keys`, in order and with repeats. */
  function Present(ds: seq<string>, keys: set<string>): (r: seq<string>)
    ensures |r| <= |ds|
    ensures forall j :: 0 <= j < |r| ==> r[j] in ds && r[j] in keys
  {
    if ds == [] then []
    else
      var r := Present(ds[..|ds| - 1], keys);
      assert forall j :: 0 <= j < |ds| - 1 ==> ds[..|ds| - 1][j] == ds[j];
      if ds[|ds| - 1] in keys then r + [ds[|ds| - 1]] else r
  }

  /** Nothing in `keys` is dropped. */
  lemma {:induction false} PresentKeeps(ds: seq<string>, keys: set<string>, d: string)
    requires d in ds && d in keys
    ensures d in Present(ds, keys)
  {
    var n := |ds| - 1;
    if ds[n] != d {
      assert d in ds[..n];
      PresentKeeps(ds[..n], keys, d);
    }
  }

  /**
   * The requirements of `k` that name a task in `s`, in order and with repeats:
   * `requires.map(id => nodes[id]).filter(x => x)`.
   */
  function Resolvable(s: map<string, Node>, k: string): (ds: seq<string>)
    requires k in s
    ensures forall j :: 0 <= j < |ds| ==> ds[j] in s && ds[j] in s[k].dependencies
  {
    Present(s[k].dependencies, s.Keys)
  }

  /** Every requirement naming a task is resolvable. */
  lemma ResolvableKeeps(s: map<string, Node>, k: string, d: string)
    requires k in s && d in s && d in s[k].dependencies
    ensures d in Resolvable(s, k)
  {
    PresentKeeps(s[k].dependencies, s.Keys, d);
  }

  /** `rank` strictly decreases along every requirement edge between tasks of `s`. */
  ghost predicate Ranked(s: map<string, Node>, rank: map<string, nat>) {
    forall k :: k in s ==> k in rank && forall d :: d in s[k].dependencies && d in s ==> d in rank && rank[d] < rank[k]
  }

  /** The length of the longest requirement chain below `k`. */
  ghost function Depth(s: map<string, Node>, rank: map<string, nat>, k: string): nat
    requires Ranked(s, rank) && k in s
    decreases rank[k]
  {
    var ds := Resolvable(s, k);
    if ds == [] then 0 else 1 + MaxOf(seq(|ds|, j requires 0 <= j < |ds| => Depth(s, rank, ds[j])))
  }

  /** The tie-breaking count: resolvable requirements plus their own counts. */
  ghost function Children(s: map<string, Node>, rank: map<string, nat>, k: string): nat
    requires Ranked(s, rank) && k in s
    decreases rank[k]
  {
    var ds := Resolvable(s, k);
    if ds == [] then 0 else |ds| + SumOf(seq(|ds|, j requires 0 <= j < |ds| => Children(s, rank, ds[j])))
  }

  /** A leaf is active when it is closed; any other node when some requirement is. */
  ghost function Active(s: map<string, Node>, rank: map<string, nat>, k: string): bool
    requires Ranked(s, rank) && k in s
    decreases rank[k]
  {
    var ds := Resolvable(s, k);
    if ds == [] then s[k].closed else AnyOf(seq(|ds|, j requires 0 <= j < |ds| => Active(s, rank, ds[j])))
  }

  /** `b` is `a` or lies below `a` along resolvable requirements. */
  ghost predicate Reaches(s: map<string, Node>, rank: map<string, nat>, a: string, b: string)
    requires Ranked(s, rank) && a in s
    decreases rank[a]
  {
    var ds := Resolvable(s, a);
    a == b || exists j :: 0 <= j < |ds| && Reaches(s, rank, ds[j], b)
  }

  /** Some element of `xs` reaches `b`. */
  ghost predicate ReachesSome(s: map<string, Node>, rank: map<string, nat>, xs: seq<string>, b: string)
    requires Ranked(s, rank)
  {
    exists j :: 0 <= j < |xs| && xs[j] in s && Reaches(s, rank, xs[j], b)
  }

  /** The records of `g` annotate exactly the tasks of `s`. */
  ghost predicate SameShape(g: Index, s: map<string, Node>) {
    g.Keys == s.Keys && forall k :: k in g ==> g[k].Base() == s[k]
  }

  /** The memo fields of `k` hold the specified values and its requirements are annotated too. */
  ghost predicate Settled(g: Index, s: map<string, Node>, rank: map<string, nat>, k: string)
    requires Ranked(s, rank) && SameShape(g, s) && k in g
  {
    && g[k].depth == Some(Depth(s, rank, k))
    && g[k].children == Some(Children(s, rank, k))
    && g[k].active == Some(Active(s, rank, k))
    && forall j :: 0 <= j < |Resolvable(s, k)| ==> g[Resolvable(s, k)[j]].depth.Some?
  }

  /** Every record whose depth is set is settled. */
  ghost predicate Memo(g: Index, s: map<string, Node>, rank: map<string, nat>)
    requires Ranked(s, rank) && SameShape(g, s)
  {
    forall k :: k in g && g[k].depth.Some? ==> Settled(g, s, rank, k)
  }

  /** Each resolvable requirement is a task of lower rank. */
  lemma RequirementRank(s: map<string, Node>, rank: map<string, nat>, k: string, j: nat)
    requires Ranked(s, rank) && k in s && j < |Resolvable(s, k)|
    ensures Resolvable(s, k)[j] in s && k in rank && Resolvable(s, k)[j] in rank
    ensures rank[Resolvable(s, k)[j]] < rank[k]
  {
  }

  /** Reaching only goes down in rank. */
  lemma {:induction false} ReachesRank(s: map<string, Node>, rank: map<string, nat>, a: string, b: string)
    requires Ranked(s, rank) && a in s && Reaches(s, rank, a, b)
    ensures b in s && rank[b] <= rank[a]
    decreases rank[a]
  {
    var ds := Resolvable(s, a);
    if a != b {
      var j :| 0 <= j < |ds| && Reaches(s, rank, ds[j], b);
      ReachesRank(s, rank, ds[j], b);
    }
  }

  /** Reaching composes: below a task reached from `a` is reached from `a`. */
  lemma {:induction false} ReachesTrans(s: map<string, Node>, rank: map<string, nat>, a: string, b: string, c: string)
    requires Ranked(s, rank) && a in s && b in s && Reaches(s, rank, a, b) && Reaches(s, rank, b, c)
    ensures Reaches(s, rank, a, c)
    decreases rank[a]
  {
    if a != b {
      var ds := Resolvable(s, a);
      var j :| 0 <= j < |ds| && Reaches(s, rank, ds[j], b);
      RequirementRank(s, rank, a, j);
      ReachesTrans(s, rank, ds[j], b, c);
    }
  }

  /** A requirement of a reached task that is itself a task is reached as well. */
  lemma ReachesRequirement(s: map<string, Node>, rank: map<string, nat>, a: string, p: string, k: string)
    requires Ranked(s, rank) && a in s && p in s && k in s && k in s[p].dependencies && Reaches(s, rank, a, p)
    ensures Reaches(s, rank, a, k)
  {
    var ds := Resolvable(s, p);
    PresentKeeps(s[p].dependencies, s.Keys, k);
    var j :| 0 <= j < |ds| && ds[j] == k;
    assert Reaches(s, rank, ds[j], k);
    ReachesTrans(s, rank, a, p, k);
  }

  /** A fresh index satisfies the memo invariant trivially. */
  lemma MemoEmpty(g: Index, s: map<string, Node>, rank: map<string, nat>)
    requires Ranked(s, rank) && SameShape(g, s) && forall k :: k in g ==> g[k].depth.None?
    ensures Memo(g, s, rank)
  {
  }

  /** The memo state after the last step of the walk. */
  ghost predicate Walked(g: Index, g': Index, s: map<string, Node>, rank: map<string, nat>, xs: seq<string>)
    requires Ranked(s, rank) && SameShape(g, s) && SameShape(g', s)
  {
    && Memo(g', s, rank)
    && (forall k :: k in g ==> g'[k].requiredBy == g[k].requiredBy)
    && (forall k :: k in g ==> (g'[k].depth.Some? <==> g[k].depth.Some? || ReachesSome(s, rank, xs, k)))
    && (forall k :: k in g && (g[k].depth.Some? || !ReachesSome(s, rank, xs, k)) ==> g'[k] == g[k])
  }

  /** Reaching from `xs + [x]` is reaching from `xs` or from `x`. */
  lemma ReachesSomeSnoc(s: map<string, Node>, rank: map<string, nat>, xs: seq<string>, x: string, k: string)
    requires Ranked(s, rank) && x in s
    ensures ReachesSome(s, rank, xs + [x], k) <==> ReachesSome(s, rank, xs, k) || Reaches(s, rank, x, k)
  {
    var ys := xs + [x];
    if ReachesSome(s, rank, xs, k) {
      var j :| 0 <= j < |xs| && xs[j] in s && Reaches(s, rank, xs[j], k);
      assert ys[j] == xs[j];
    }
    if Reaches(s, rank, x, k) {
      assert ys[|xs|] == x;
    }
    if ReachesSome(s, rank, ys, k) {
      var j :| 0 <= j < |ys| && ys[j] in s && Reaches(s, rank, ys[j], k);
      if j < |xs| {
        assert ys[j] == xs[j];
      }
    }
  }

  lemma WalkedStep(g: Index, g1: Index, g2: Index, s: map<string, Node>, rank: map<string, nat>, ds: seq<string>, i: nat)
    requires Ranked(s, rank) && SameShape(g, s) && SameShape(g1, s) && SameShape(g2, s)
    requires i < |ds| && ds[i] in s && Walked(g, g1, s, rank, ds[..i]) && DepthPost(g1, g2, s, rank, ds[i])
    ensures Walked(g, g2, s, rank, ds[..i + 1])
  {
    assert ds[..i + 1] == ds[..i] + [ds[i]];
    forall k | k in g
      ensures g2[k].requiredBy == g[k].requiredBy
      ensures g2[k].depth.Some? <==> g[k].depth.Some? || ReachesSome(s, rank, ds[..i] + [ds[i]], k)
      ensures g[k].depth.Some? || !ReachesSome(s, rank, ds[..i] + [ds[i]], k) ==> g2[k] == g[k]
    {
      WalkedKey(g, g1, g2, s, rank, ds[..i], ds[i], k);
    }
  }

  /** One key across a walk step: what `WalkedStep` states of every key. */
  lemma WalkedKey(g: Index, g1: Index, g2: Index, s: map<string, Node>, rank: map<string, nat>, xs: seq<string>, x: string, k: string)
    requires Ranked(s, rank) && SameShape(g, s) && SameShape(g1, s) && SameShape(g2, s)
    requires x in s && k in g && Walked(g, g1, s, rank, xs) && DepthPost(g1, g2, s, rank, x)
    ensures g2[k].requiredBy == g[k].requiredBy
    ensures g2[k].depth.Some? <==> g[k].depth.Some? || ReachesSome(s, rank, xs + [x], k)
    ensures g[k].depth.Some? || !ReachesSome(s, rank, xs + [x], k) ==> g2[k] == g[k]
  {
    ReachesSomeSnoc(s, rank, xs, x, k);
  }

  /** Setting the memo fields of `id` to their specified values keeps the memo invariant. */
  lemma SettleOne(g: Index, s: map<string, Node>, rank: map<string, nat>, id: string)
    requires Ranked(s, rank) && SameShape(g, s) && Memo(g, s, rank) && id in g && g[id].depth.None?
    requires forall j :: 0 <= j < |Resolvable(s, id)| ==> Resolvable(s, id)[j] in g && g[Resolvable(s, id)[j]].depth.Some?
    ensures var g' := g[id := g[id].(depth := Some(Depth(s, rank, id)), children := Some(Children(s, rank, id)),
                                      active := Some(Active(s, rank, id)))];
      SameShape(g', s) && Memo(g', s, rank)
  {
    var g' := g[id := g[id].(depth := Some(Depth(s, rank, id)), children := Some(Children(s, rank, id)),
                             active := Some(Active(s, rank, id)))];
    assert SameShape(g', s);
    forall k | k in g' && g'[k].depth.Some?
      ensures Settled(g', s, rank, k)
    {
      if k != id {
        assert Settled(g, s, rank, k);
        forall j | 0 <= j < |Resolvable(s, k)|
          ensures g'[Resolvable(s, k)[j]].depth.Some?
        {
          assert g[Resolvable(s, k)[j]].depth.Some?;
        }
      }
    }
  }

  /** The requirements `ds` are indexed and annotated. */
  ghost predicate AllAnnotated(g: Index, ds: seq<string>) {
    forall j :: 0 <= j < |ds| ==> ds[j] in g && g[ds[j]].depth.Some? && g[ds[j]].children.Some? && g[ds[j]].active.Some?
  }

  /** `Math.max(...requiredNodes.map(n => n.depth)) + 1`. */
  function DepthFrom(g: Index, ds: seq<string>): nat
    requires ds != [] && AllAnnotated(g, ds)
  {
    1 + MaxOf(seq(|ds|, j requires 0 <= j < |ds| => g[ds[j]].depth.value))
  }

  /** `requiredNodes.map(n => n.children).reduce((a, b) => a + b, requiredNodes.length)`. */
  function ChildrenFrom(g: Index, ds: seq<string>): nat
    requires AllAnnotated(g, ds)
  {
    |ds| + SumOf(seq(|ds|, j requires 0 <= j < |ds| => g[ds[j]].children.value))
  }

  /** `requiredNodes.some(node => node.active)`. */
  function ActiveFrom(g: Index, ds: seq<string>): bool
    requires AllAnnotated(g, ds)
  {
    AnyOf(seq(|ds|, j requires 0 <= j < |ds| => g[ds[j]].active.value))
  }

  /** The depth, count and activity `generateNodeDepth` computes from settled requirements are the specified ones. */
  lemma SettledValues(g: Index, s: map<string, Node>, rank: map<string, nat>, id: string)
    requires Ranked(s, rank) && SameShape(g, s) && Memo(g, s, rank) && id in g
    requires forall j :: 0 <= j < |Resolvable(s, id)| ==> Resolvable(s, id)[j] in g && g[Resolvable(s, id)[j]].depth.Some?
    requires Resolvable(s, id) != []
    ensures AllAnnotated(g, Resolvable(s, id))
    ensures DepthFrom(g, Resolvable(s, id)) == Depth(s, rank, id)
    ensures ChildrenFrom(g, Resolvable(s, id)) == Children(s, rank, id)
    ensures ActiveFrom(g, Resolvable(s, id)) == Active(s, rank, id)
  {
    var ds := Resolvable(s, id);
    forall j | 0 <= j < |ds|
      ensures Settled(g, s, rank, ds[j])
    {
    }
    assert seq(|ds|, j requires 0 <= j < |ds| => g[ds[j]].depth.value)
        == seq(|ds|, j requires 0 <= j < |ds| => Depth(s, rank, ds[j]));
    assert seq(|ds|, j requires 0 <= j < |ds| => g[ds[j]].children.value)
        == seq(|ds|, j requires 0 <= j < |ds| => Children(s, rank, ds[j]));
    assert seq(|ds|, j requires 0 <= j < |ds| => g[ds[j]].active.value)
        == seq(|ds|, j requires 0 <= j < |ds| => Active(s, rank, ds[j]));
  }

  /**
   * What one call of `generateNodeDepth` on `id` achieves: the memo invariant is kept,
   * exactly the records set before and those reachable from `id` are annotated
   * afterwards, and nothing else changed.
   */
  ghost predicate DepthPost(g: Index, g': Index, s: map<string, Node>, rank: map<string, nat>, id: string)
    requires Ranked(s, rank) && SameShape(g, s) && id in s
  {
    && SameShape(g', s) && Memo(g', s, rank)
    && (forall k :: k in g ==> g'[k].requiredBy == g[k].requiredBy)
    && (forall k :: k in g ==> (g'[k].depth.Some? <==> g[k].depth.Some? || Reaches(s, rank, id, k)))
    && (forall k :: k in g && (g[k].depth.Some? || !Reaches(s, rank, id, k)) ==> g'[k] == g[k])
  }

  /** An annotated start node: the early return. */
  lemma AlreadySettled(g: Index, s: map<string, Node>, rank: map<string, nat>, id: string)
    requires Ranked(s, rank) && SameShape(g, s) && id in g && Memo(g, s, rank) && g[id].depth.Some?
    ensures DepthPost(g, g, s, rank, id)
  {
    forall k | k in g && Reaches(s, rank, id, k)
      ensures g[k].depth.Some?
    {
      ReachedSettled(g, s, rank, id, k);
    }
  }

  /**
   * The memo makes a call on an annotated start idle: whatever post-state `DepthPost`
   * allows is the index it started from.
   */
  lemma DepthPostIdle(g: Index, g': Index, s: map<string, Node>, rank: map<string, nat>, id: string)
    requires Ranked(s, rank) && SameShape(g, s) && id in g && Memo(g, s, rank) && g[id].depth.Some?
    requires DepthPost(g, g', s, rank, id)
    ensures g' == g
  {
    forall k | k in g
      ensures g'[k] == g[k]
    {
      if Reaches(s, rank, id, k) {
        ReachedSettled(g, s, rank, id, k);
      }
    }
    assert g'.Keys == g.Keys;
  }

  /** A second call on the same start changes nothing: `generateNodeDepth` is idempotent. */
  lemma DepthTwice(g: Index, g1: Index, g2: Index, s: map<string, Node>, rank: map<string, nat>, id: string)
    requires Ranked(s, rank) && SameShape(g, s) && id in g && Memo(g, s, rank)
    requires DepthPost(g, g1, s, rank, id) && DepthPost(g1, g2, s, rank, id)
    ensures g2 == g1
  {
    ReachesUnfold(s, rank, id, id);
    assert g1[id].depth.Some?;
    DepthPostIdle(g1, g2, s, rank, id);
  }

  /** A start node without resolvable requirements: depth and count zero, active when closed. */
  lemma SettleLeaf(g: Index, s: map<string, Node>, rank: map<string, nat>, id: string)
    requires Ranked(s, rank) && SameShape(g, s) && id in g && Memo(g, s, rank) && g[id].depth.None?
    requires Resolvable(s, id) == []
    ensures DepthPost(g, g[id := g[id].(depth := Some(0), children := Some(0), active := Some(g[id].closed))], s, rank, id)
  {
    assert Depth(s, rank, id) == 0 && Children(s, rank, id) == 0 && Active(s, rank, id) == g[id].closed;
    SettleOne(g, s, rank, id);
    assert Walked(g, g, s, rank, Resolvable(s, id));
    SettleClose(g, g, g[id := g[id].(depth := Some(0), children := Some(0), active := Some(g[id].closed))], s, rank, id);
  }

  /** Settling the start node once its requirements are walked. */
  lemma SettleInner(g: Index, g1: Index, s: map<string, Node>, rank: map<string, nat>, id: string)
    requires Ranked(s, rank) && SameShape(g, s) && SameShape(g1, s) && id in g && Memo(g, s, rank)
    requires g[id].depth.None? && Resolvable(s, id) != []
    requires Walked(g, g1, s, rank, Resolvable(s, id))
    ensures DepthPost(g, g1[id := g1[id].(depth := Some(Depth(s, rank, id)), children := Some(Children(s, rank, id)),
                                           active := Some(Active(s, rank, id)))], s, rank, id)
  {
    WalkedCovers(g, g1, s, rank, id);
    SettleOne(g1, s, rank, id);
    var g2 := g1[id := g1[id].(depth := Some(Depth(s, rank, id)), children := Some(Children(s, rank, id)),
                               active := Some(Active(s, rank, id)))];
    SettleClose(g, g1, g2, s, rank, id);
  }

  /** After walking the requirements of `id`, they are annotated and `id` itself is untouched. */
  lemma WalkedCovers(g: Index, g1: Index, s: map<string, Node>, rank: map<string, nat>, id: string)
    requires Ranked(s, rank) && SameShape(g, s) && SameShape(g1, s) && id in g
    requires g[id].depth.None? && Walked(g, g1, s, rank, Resolvable(s, id))
    ensures g1[id] == g[id]
    ensures forall j :: 0 <= j < |Resolvable(s, id)| ==> g1[Resolvable(s, id)[j]].depth.Some?
  {
    var ds := Resolvable(s, id);
    forall j | 0 <= j < |ds|
      ensures g1[ds[j]].depth.Some?
    {
      assert Reaches(s, rank, ds[j], ds[j]);
    }
    if ReachesSome(s, rank, ds, id) {
      var j :| 0 <= j < |ds| && ds[j] in s && Reaches(s, rank, ds[j], id);
      ReachesRank(s, rank, ds[j], id);
      assert false;
    }
  }

  /** Reaching from `id` is being `id` or reaching from one of its resolvable requirements. */
  lemma ReachesUnfold(s: map<string, Node>, rank: map<string, nat>, id: string, k: string)
    requires Ranked(s, rank) && id in s
    ensures Reaches(s, rank, id, k) <==> k == id || ReachesSome(s, rank, Resolvable(s, id), k)
  {
  }

  /** Annotating `id` last completes the post-state of the call. */
  lemma SettleClose(g: Index, g1: Index, g2: Index, s: map<string, Node>, rank: map<string, nat>, id: string)
    requires Ranked(s, rank) && SameShape(g, s) && SameShape(g1, s) && SameShape(g2, s) && id in g
    requires g[id].depth.None? && Walked(g, g1, s, rank, Resolvable(s, id)) && g1[id] == g[id]
    requires Memo(g2, s, rank) && g2[id].depth.Some? && g2[id].requiredBy == g1[id].requiredBy
    requires forall k :: k in g2 && k != id ==> g2[k] == g1[k]
    ensures DepthPost(g, g2, s, rank, id)
  {
    forall k | k in g
      ensures g2[k].requiredBy == g[k].requiredBy
      ensures g2[k].depth.Some? <==> g[k].depth.Some? || Reaches(s, rank, id, k)
      ensures g[k].depth.Some? || !Reaches(s, rank, id, k) ==> g2[k] == g[k]
    {
      ReachesUnfold(s, rank, id, k);
    }
  }

  /**
   * `generateNodeDepth(nodes[id], nodes)`: returns at once when `id` already has a
   * depth; otherwise settles every resolvable requirement first, then `id` itself.
   * Afterwards exactly the records reachable from `id` (and those set before) are
   * annotated, each with the specified depth, count and activity, and nothing else
   * changed (`DepthPost`).
   */
  method GenerateNodeDepth(g: Index, id: string, ghost s: map<string, Node>, ghost rank: map<string, nat>)
    returns (g': Index)
    requires Ranked(s, rank) && SameShape(g, s) && id in g && Memo(g, s, rank)
    ensures DepthPost(g, g', s, rank, id)
    ensures g[id].depth.Some? ==> g' == g
    decreases rank[id], 1
  {
    if g[id].depth.Some? {
      AlreadySettled(g, s, rank, id);
      return g;
    }
    var ds := Present(g[id].dependencies, g.Keys);
    assert ds == Resolvable(s, id);
    if |ds| == 0 {
      g' := g[id := g[id].(depth := Some(0), children := Some(0), active := Some(g[id].closed))];
      SettleLeaf(g, s, rank, id);
      return;
    }
    g' := SettleRequirements(g, id, ds, s, rank);
    ghost var g1 := g';
    SettleInner(g, g1, s, rank, id);
    WalkedCovers(g, g1, s, rank, id);
    SettledValues(g1, s, rank, id);
    var depth := DepthFrom(g', ds);
    var children := ChildrenFrom(g', ds);
    var active := ActiveFrom(g', ds);
    g' := g'[id := g'[id].(depth := Some(depth), children := Some(children), active := Some(active))];
  }

  /** `requiredNodes.forEach(required => generateNodeDepth(required, nodes))`. */
  method SettleRequirements(g: Index, id: string, ds: seq<string>, ghost s: map<string, Node>, ghost rank: map<string, nat>)
    returns (g': Index)
    requires Ranked(s, rank) && SameShape(g, s) && id in g && Memo(g, s, rank)
    requires ds == Resolvable(s, id)
    ensures SameShape(g', s) && Walked(g, g', s, rank, ds)
    decreases rank[id], 0
  {
    g' := g;
    var i := 0;
    assert ds[..0] == [];
    while i < |ds|
      invariant 0 <= i <= |ds|
      invariant SameShape(g', s) && Walked(g, g', s, rank, ds[..i])
    {
      ghost var g1 := g';
      RequirementRank(s, rank, id, i);
      g' := GenerateNodeDepth(g', ds[i], s, rank);
      WalkedStep(g, g1, g', s, rank, ds, i);
      i := i + 1;
    }
    assert ds[..i] == ds;
  }

  /** Below a settled record, everything reachable is annotated. */
  lemma {:induction false} ReachedSettled(g: Index, s: map<string, Node>, rank: map<string, nat>, a: string, b: string)
    requires Ranked(s, rank) && SameShape(g, s) && Memo(g, s, rank) && a in g && g[a].depth.Some?
    requires Reaches(s, rank, a, b)
    ensures b in g && g[b].depth.Some?
    decreases rank[a]
  {
    var ds := Resolvable(s, a);
    if a != b {
      var j :| 0 <= j < |ds| && Reaches(s, rank, ds[j], b);
      assert Settled(g, s, rank, a);
      ReachedSettled(g, s, rank, ds[j], b);
    }
  }
  /**
   * A node with no resolvable requirement has depth 0; any other node lies exactly
   * one level above its deepest resolvable requirement.
   */
  lemma DepthIsLongestChain(s: map<string, Node>, rank: map<string, nat>, k: string) returns (d: Option<string>)
    requires Ranked(s, rank) && k in s
    ensures Depth(s, rank, k) == 0 <==> Resolvable(s, k) == []
    ensures d.None? <==> Resolvable(s, k) == []
    ensures d.Some? ==> d.value in Resolvable(s, k) && Depth(s, rank, k) == Depth(s, rank, d.value) + 1
    ensures forall j :: 0 <= j < |Resolvable(s, k)| ==> Depth(s, rank, Resolvable(s, k)[j]) < Depth(s, rank, k)
  {
    var ds := Resolvable(s, k);
    if ds == [] {
      d := None;
    } else {
      var depths := seq(|ds|, j requires 0 <= j < |ds| => Depth(s, rank, ds[j]));
      var j0 :| 0 <= j0 < |depths| && depths[j0] == MaxOf(depths);
      d := Some(ds[j0]);
      assert depths[j0] == Depth(s, rank, ds[j0]);
      forall j | 0 <= j < |ds|
        ensures Depth(s, rank, ds[j]) < Depth(s, rank, k)
      {
        assert depths[j] == Depth(s, rank, ds[j]);
      }
    }
  }

  /** The tie-breaking count is never below the depth. */
  lemma {:induction false} ChildrenAtLeastDepth(s: map<string, Node>, rank: map<string, nat>, k: string)
    requires Ranked(s, rank) && k in s
    ensures Depth(s, rank, k) <= Children(s, rank, k)
    decreases rank[k]
  {
    var ds := Resolvable(s, k);
    if ds != [] {
      var d := DepthIsLongestChain(s, rank, k);
      var j0 :| 0 <= j0 < |ds| && ds[j0] == d.value;
      RequirementRank(s, rank, k, j0);
      ChildrenAtLeastDepth(s, rank, ds[j0]);
      var counts := seq(|ds|, j requires 0 <= j < |ds| => Children(s, rank, ds[j]));
      SumOfBounds(counts, j0);
      assert counts[j0] == Children(s, rank, ds[j0]);
    }
  }

  /** `l` is a task without resolvable requirements that is closed. */
  ghost predicate ClosedLeaf(s: map<string, Node>, l: string) {
    l in s && Resolvable(s, l) == [] && s[l].closed
  }

  /** A node is active exactly when a closed leaf is reachable from it. */
  lemma ActiveIffClosedLeaf(s: map<string, Node>, rank: map<string, nat>, k: string)
    requires Ranked(s, rank) && k in s
    ensures Active(s, rank, k) <==> exists l :: ClosedLeaf(s, l) && Reaches(s, rank, k, l)
  {
    if Active(s, rank, k) {
      var l := ActiveLeaf(s, rank, k);
    }
    if exists l :: ClosedLeaf(s, l) && Reaches(s, rank, k, l) {
      var l :| ClosedLeaf(s, l) && Reaches(s, rank, k, l);
      LeafActive(s, rank, k, l);
    }
  }

  /** An active node reaches a closed leaf. */
  lemma {:induction false} ActiveLeaf(s: map<string, Node>, rank: map<string, nat>, k: string) returns (l: string)
    requires Ranked(s, rank) && k in s && Active(s, rank, k)
    ensures ClosedLeaf(s, l) && Reaches(s, rank, k, l)
    decreases rank[k]
  {
    var ds := Resolvable(s, k);
    if ds == [] {
      l := k;
    } else {
      var act := seq(|ds|, j requires 0 <= j < |ds| => Active(s, rank, ds[j]));
      var j :| 0 <= j < |ds| && act[j];
      RequirementRank(s, rank, k, j);
      l := ActiveLeaf(s, rank, ds[j]);
    }
  }

  /** Reaching a closed leaf makes a node active. */
  lemma {:induction false} LeafActive(s: map<string, Node>, rank: map<string, nat>, k: string, l: string)
    requires Ranked(s, rank) && k in s && ClosedLeaf(s, l) && Reaches(s, rank, k, l)
    ensures Active(s, rank, k)
    decreases rank[k]
  {
    var ds := Resolvable(s, k);
    if k != l {
      var j :| 0 <= j < |ds| && Reaches(s, rank, ds[j], l);
      RequirementRank(s, rank, k, j);
      LeafActive(s, rank, ds[j], l);
      var act := seq(|ds|, j requires 0 <= j < |ds| => Active(s, rank, ds[j]));
      assert act[j];
    }
  }
}
