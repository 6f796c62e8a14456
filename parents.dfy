/**
 * `generateNodeParents` (src/App.tsx:23-32): the reverse edges. For every node and
 * every entry of its requirement list that names an indexed node, the node's id is
 * pushed onto that node's `requiredBy`.
 */
module Parents {
  import opened Graph

  /** How often `d` occurs in `s`. */
  function Count(s: seq<string>, d: string): nat {
    if s == [] then 0 else Count(s[..|s| - 1], d) + (if s[|s| - 1] == d then 1 else 0)
  }

  /** `n` copies of `x`. */
  function Repeat(x: string, n: nat): (r: seq<string>)
    ensures |r| == n && forall k :: 0 <= k < n ==> r[k] == x
  {
    seq(n, _ => x)
  }

  /**
   * The ids pushed onto the `requiredBy` of `d` by a pass over `nodes`: each node's id
   * once per occurrence of `d` in its requirement list, in the order of `nodes`.
   */
  function ParentsOf(nodes: seq<Node>, d: string): seq<string> {
    if nodes == [] then []
    else ParentsOf(nodes[..|nodes| - 1], d) + Repeat(nodes[|nodes| - 1].id, Count(nodes[|nodes| - 1].dependencies, d))
  }

  /** `d` is counted exactly when it occurs. */
  lemma {:induction false} CountPositive(s: seq<string>, d: string)
    ensures Count(s, d) > 0 <==> d in s
  {
    if s != [] {
      var n := |s| - 1;
      CountPositive(s[..n], d);
      assert s == s[..n] + [s[n]];
    }
  }

  /**
   * `p` is a parent of `d` exactly when some node with id `p` lists `d` among its
   * requirements.
   */
  lemma {:induction false} ParentsOfMembers(nodes: seq<Node>, d: string, p: string)
    ensures p in ParentsOf(nodes, d) <==> exists i :: 0 <= i < |nodes| && nodes[i].id == p && d in nodes[i].dependencies
  {
    if nodes != [] {
      var n := |nodes| - 1;
      var t := nodes[..n];
      ParentsOfMembers(t, d, p);
      CountPositive(nodes[n].dependencies, d);
      var r := Repeat(nodes[n].id, Count(nodes[n].dependencies, d));
      if Count(nodes[n].dependencies, d) > 0 {
        assert r[0] == nodes[n].id;
      }
      if exists i :: 0 <= i < |nodes| && nodes[i].id == p && d in nodes[i].dependencies {
        var i :| 0 <= i < |nodes| && nodes[i].id == p && d in nodes[i].dependencies;
        if i < n {
          assert t[i] == nodes[i];
        }
      }
      if exists i :: 0 <= i < |t| && t[i].id == p && d in t[i].dependencies {
        var i :| 0 <= i < |t| && t[i].id == p && d in t[i].dependencies;
        assert nodes[i] == t[i];
      }
    }
  }

  /** Every requirement occurrence contributes one parent: the sum of the counts. */
  lemma {:induction false} ParentsOfLength(nodes: seq<Node>, d: string)
    ensures |ParentsOf(nodes, d)| == Occurrences(nodes, d)
  {
    if nodes != [] {
      ParentsOfLength(nodes[..|nodes| - 1], d);
    }
  }

  /** The number of occurrences of `d` across all requirement lists. */
  function Occurrences(nodes: seq<Node>, d: string): nat {
    if nodes == [] then 0 else Occurrences(nodes[..|nodes| - 1], d) + Count(nodes[|nodes| - 1].dependencies, d)
  }

  /** `index[d]?.requiredBy?.push(id)`: records `id` as a parent of `d` when `d` is indexed. */
  function Push(g: Index, d: string, id: string): (g': Index)
    ensures g'.Keys == g.Keys
    ensures forall k :: k in g ==> g'[k] == if k == d then g[k].(requiredBy := g[k].requiredBy + [id]) else g[k]
  {
    if d in g then g[d := g[d].(requiredBy := g[d].requiredBy + [id])] else g
  }

  /** The index after all pushes of the nodes before `i`. */
  ghost predicate PushedBefore(index: Index, g: Index, nodes: seq<Node>, i: nat)
    requires i <= |nodes|
  {
    && g.Keys == index.Keys
    && forall k :: k in index ==> g[k] == index[k].(requiredBy := index[k].requiredBy + ParentsOf(nodes[..i], k))
  }

  /** The index after all pushes of the nodes before `i` and the first `j` pushes of node `i`. */
  ghost predicate PushedUpTo(index: Index, g: Index, nodes: seq<Node>, i: nat, j: nat)
    requires i < |nodes| && j <= |nodes[i].dependencies|
  {
    && g.Keys == index.Keys
    && forall k :: k in index ==> g[k] == index[k].(requiredBy := index[k].requiredBy
         + ParentsOf(nodes[..i], k) + Repeat(nodes[i].id, Count(nodes[i].dependencies[..j], k)))
  }

  lemma PushStart(index: Index, g: Index, nodes: seq<Node>, i: nat)
    requires i < |nodes| && PushedBefore(index, g, nodes, i)
    ensures PushedUpTo(index, g, nodes, i, 0)
  {
    assert nodes[i].dependencies[..0] == [];
    forall k | k in index
      ensures g[k] == index[k].(requiredBy := index[k].requiredBy
         + ParentsOf(nodes[..i], k) + Repeat(nodes[i].id, Count(nodes[i].dependencies[..0], k)))
    {
      assert Repeat(nodes[i].id, 0) == [];
      assert ParentsOf(nodes[..i], k) + [] == ParentsOf(nodes[..i], k);
    }
  }

  lemma PushStep(index: Index, g: Index, nodes: seq<Node>, i: nat, j: nat)
    requires i < |nodes| && j < |nodes[i].dependencies| && PushedUpTo(index, g, nodes, i, j)
    ensures PushedUpTo(index, Push(g, nodes[i].dependencies[j], nodes[i].id), nodes, i, j + 1)
  {
    var deps := nodes[i].dependencies;
    var d := deps[j];
    var g' := Push(g, d, nodes[i].id);
    assert deps[..j + 1] == deps[..j] + [d];
    forall k | k in index
      ensures g'[k] == index[k].(requiredBy := index[k].requiredBy
         + ParentsOf(nodes[..i], k) + Repeat(nodes[i].id, Count(deps[..j + 1], k)))
    {
      var before := Repeat(nodes[i].id, Count(deps[..j], k));
      var after := Repeat(nodes[i].id, Count(deps[..j + 1], k));
      if k == d {
        assert after == before + [nodes[i].id];
      } else {
        assert after == before;
      }
    }
  }

  lemma PushFinish(index: Index, g: Index, nodes: seq<Node>, i: nat)
    requires i < |nodes| && PushedUpTo(index, g, nodes, i, |nodes[i].dependencies|)
    ensures PushedBefore(index, g, nodes, i + 1)
  {
    assert nodes[..i + 1][..i] == nodes[..i];
    assert nodes[i].dependencies[..|nodes[i].dependencies|] == nodes[i].dependencies;
  }

  /**
   * `generateNodeParents`: two nested loops, over the nodes and over each node's
   * requirement list; a requirement that names no indexed node is skipped.
   */
  method GenerateNodeParents(nodes: seq<Node>, index: Index) returns (g: Index)
    ensures g.Keys == index.Keys
    ensures forall k :: k in index ==> g[k] == index[k].(requiredBy := index[k].requiredBy + ParentsOf(nodes, k))
  {
    g := index;
    var i := 0;
    assert nodes[..0] == [];
    while i < |nodes|
      invariant 0 <= i <= |nodes|
      invariant PushedBefore(index, g, nodes, i)
    {
      var node := nodes[i];
      PushStart(index, g, nodes, i);
      var j := 0;
      while j < |node.dependencies|
        invariant 0 <= j <= |node.dependencies|
        invariant PushedUpTo(index, g, nodes, i, j)
      {
        PushStep(index, g, nodes, i, j);
        g := Push(g, node.dependencies[j], node.id);
        j := j + 1;
      }
      PushFinish(index, g, nodes, i);
      i := i + 1;
    }
    assert nodes[..i] == nodes;
  }
}
