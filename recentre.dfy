/**
 * Re-centring a parent after one of its requirements is placed (src/App.tsx:271-310):
 * the parent's allocation moves, within its own row, to the free column (or its own
 * column) that minimises the weighted horizontal distance to its allocated
 * neighbours. The weights 0.3 (a dependent) and 1 (a requirement) are scaled by ten
 * to 3 and 10, so the scores are exact integers: ten times the exact value of the
 * code's score. Where two exact scores tie, the code's floating-point sums can still
 * differ in the last place, and the choice then follows that rounding, not the
 * candidate order the model keeps.
 */
module Centring {
  import opened Wrappers
  import opened Graph
  import opened Partition
  import opened Sorting

  /** `allocated.find(a => a.node.id === id)`, as the position of the first allocation of `id`. */
  function Find(placed: seq<Allocation>, id: string): (r: Option<nat>)
    ensures r.Some? ==> r.value < |placed| && placed[r.value].node.id == id
    ensures r.Some? ==> forall j :: 0 <= j < r.value ==> placed[j].node.id != id
    ensures r.None? ==> forall j :: 0 <= j < |placed| ==> placed[j].node.id != id
  {
    if placed == [] then None
    else if placed[0].node.id == id then Some(0)
    else match Find(placed[1..], id)
      case None => None
      case Some(i) => Some(i + 1)
  }

  /** A neighbour id with its weight in the score. */
  datatype Link = Link(id: string, weight: nat)

  /** The weight of a dependent of the parent (0.3, scaled by ten). */
  const DependentWeight: nat := 3
  /** The weight of a requirement of the parent (1, scaled by ten). */
  const RequirementWeight: nat := 10

  /** The dependents of the parent, then its requirements, each with its weight. */
  function Links(parent: AnnotatedNode): seq<Link>
  {
    seq(|parent.requiredBy|, i requires 0 <= i < |parent.requiredBy| => Link(parent.requiredBy[i], DependentWeight))
    + seq(|parent.dependencies|, i requires 0 <= i < |parent.dependencies| => Link(parent.dependencies[i], RequirementWeight))
  }

  /** An allocated neighbour: the column it sits in and its weight. */
  datatype Neighbour = Neighbour(x: int, weight: nat)

  /**
   * `links.map(link => ({ node: allocated.find(...), weight })).filter(x => x.node)`:
   * the links whose id is allocated, in order, at the first allocation of that id.
   */
  function Resolve(placed: seq<Allocation>, links: seq<Link>): (ns: seq<Neighbour>)
    ensures |ns| <= |links|
  {
    if links == [] then []
    else
      var ns := Resolve(placed, links[..|links| - 1]);
      var l := links[|links| - 1];
      match Find(placed, l.id)
      case None => ns
      case Some(i) => ns + [Neighbour(placed[i].x, l.weight)]
  }

  /** Every neighbour comes from a link whose id is allocated, at that id's first allocation. */
  lemma {:induction false} ResolveFrom(placed: seq<Allocation>, links: seq<Link>, j: nat) returns (i: nat, k: nat)
    requires j < |Resolve(placed, links)|
    ensures i < |links| && Find(placed, links[i].id) == Some(k)
    ensures Resolve(placed, links)[j] == Neighbour(placed[k].x, links[i].weight)
  {
    var n := |links| - 1;
    var ns := Resolve(placed, links[..n]);
    if j < |ns| {
      i, k := ResolveFrom(placed, links[..n], j);
      assert links[..n][i] == links[i];
    } else {
      i := n;
      k := Find(placed, links[n].id).value;
    }
  }

  /** Whether the id of a link is allocated. */
  function IsAllocated(placed: seq<Allocation>): Link -> bool {
    (l: Link) => Find(placed, l.id).Some?
  }

  /** The neighbours of links whose ids are all allocated, each at the first allocation of its id. */
  function Located(placed: seq<Allocation>, links: seq<Link>): seq<Neighbour>
    requires forall i :: 0 <= i < |links| ==> Find(placed, links[i].id).Some?
  {
    seq(|links|, i requires 0 <= i < |links| => Neighbour(placed[Find(placed, links[i].id).value].x, links[i].weight))
  }

  /**
   * The neighbours are exactly the allocated links, in link order, each at the first
   * allocation of its id: every allocated link counts, and only those.
   */
  lemma {:induction false} ResolveLocates(placed: seq<Allocation>, links: seq<Link>)
    ensures Resolve(placed, links) == Located(placed, Filter(links, IsAllocated(placed)))
  {
    if links != [] {
      var n := |links| - 1;
      var p := IsAllocated(placed);
      ResolveLocates(placed, links[..n]);
      assert links == links[..n] + [links[n]];
      FilterAppend(links[..n], [links[n]], p);
      assert Filter([links[n]], p) == if p(links[n]) then [links[n]] else [] by {
        assert [links[n]][1..] == [];
      }
      var f := Filter(links[..n], p);
      if p(links[n]) {
        assert Located(placed, f + [links[n]]) == Located(placed, f) + [Located(placed, [links[n]])[0]];
      } else {
        assert f + [] == f;
      }
    }
  }

  /** A link whose id is allocated contributes its neighbour at the first allocation of that id. */
  lemma ResolveComplete(placed: seq<Allocation>, links: seq<Link>, i: nat, k: nat)
    requires i < |links| && Find(placed, links[i].id) == Some(k)
    ensures Neighbour(placed[k].x, links[i].weight) in Resolve(placed, links)
  {
    ResolveLocates(placed, links);
    FilterKeeps(links, IsAllocated(placed), links[i]);
    var f := Filter(links, IsAllocated(placed));
    var j :| 0 <= j < |f| && f[j] == links[i];
    assert Located(placed, f)[j] == Neighbour(placed[k].x, links[i].weight);
  }

  /** A link is dropped only when its id is not allocated. */
  lemma {:induction false} ResolveAll(placed: seq<Allocation>, links: seq<Link>)
    requires forall i :: 0 <= i < |links| ==> Find(placed, links[i].id).Some?
    ensures |Resolve(placed, links)| == |links|
  {
    if links != [] {
      var n := |links| - 1;
      var init := links[..n];
      forall i | 0 <= i < n
        ensures Find(placed, init[i].id).Some?
      {
        assert init[i] == links[i];
      }
      ResolveAll(placed, init);
      assert Find(placed, links[n].id).Some?;
    }
  }

  function Abs(v: int): nat {
    if v < 0 then -v else v
  }

  /** The sum of the weighted distances from column `x` to the neighbours. */
  function Score(ns: seq<Neighbour>, x: int): nat {
    if ns == [] then 0
    else Score(ns[..|ns| - 1], x) + Abs(ns[|ns| - 1].x - x) * ns[|ns| - 1].weight
  }

  /** With positive weights, a column scores zero exactly when every neighbour sits in it. */
  lemma {:induction false} ScoreZero(ns: seq<Neighbour>, x: int)
    requires forall j :: 0 <= j < |ns| ==> ns[j].weight > 0
    ensures Score(ns, x) == 0 <==> forall j :: 0 <= j < |ns| ==> ns[j].x == x
  {
    if ns != [] {
      var n := |ns| - 1;
      assert forall j :: 0 <= j < n ==> ns[..n][j] == ns[j];
      ScoreZero(ns[..n], x);
      var t := Abs(ns[n].x - x) * ns[n].weight;
      assert t == 0 <==> ns[n].x == x;
    }
  }

  /** `taken.some(a => a.x === x)` for the allocations of row `y`. */
  predicate Occupied(placed: seq<Allocation>, y: int, x: int) {
    exists i :: 0 <= i < |placed| && placed[i].y == y && placed[i].x == x
  }

  /** The columns below `n` of row `y` that no allocation occupies, in increasing order. */
  function OpenColumns(placed: seq<Allocation>, y: int, n: nat): (xs: seq<int>)
    ensures |xs| <= n
    ensures forall i :: 0 <= i < |xs| ==> 0 <= xs[i] < n && !Occupied(placed, y, xs[i])
    ensures forall i, j :: 0 <= i < j < |xs| ==> xs[i] < xs[j]
  {
    if n == 0 then []
    else
      var xs := OpenColumns(placed, y, n - 1);
      if Occupied(placed, y, n - 1) then xs else xs + [n - 1]
  }

  /** Every unoccupied column is open. */
  lemma {:induction false} OpenColumnsComplete(placed: seq<Allocation>, y: int, n: nat, x: int)
    requires 0 <= x < n && !Occupied(placed, y, x)
    ensures x in OpenColumns(placed, y, n)
  {
    if x < n - 1 {
      OpenColumnsComplete(placed, y, n - 1, x);
    }
  }

  /** The columns the parent may move to: the open ones of its row, then its own. */
  function FreeColumns(placed: seq<Allocation>, parent: Allocation, columns: nat): seq<int> {
    OpenColumns(placed, parent.y, columns) + [parent.x]
  }

  /** `{ value: x, score }`. */
  datatype Scored = Scored(value: int, score: nat)

  function ScoreAll(ns: seq<Neighbour>, xs: seq<int>): seq<Scored>
  {
    seq(|xs|, i requires 0 <= i < |xs| => Scored(xs[i], Score(ns, xs[i])))
  }

  /** `(a, b) => a.score - b.score`. */
  function ByScore(a: Scored, b: Scored): int {
    a.score - b.score
  }

  /** Comparing scores is a consistent comparator. */
  lemma ByScorePreorder(u: seq<Scored>)
    ensures Preorder(ByScore, u)
  {
    forall a, b | a in u && b in u
      ensures Flips(ByScore, a, b)
    {
    }
    forall a, b, c | a in u && b in u && c in u
      ensures Chains(ByScore, a, b, c)
    {
    }
  }

  /** The allocated neighbours of the allocation at `p`. */
  function NeighboursOf(placed: seq<Allocation>, p: nat): seq<Neighbour>
    requires p < |placed|
  {
    Resolve(placed, Links(placed[p].node))
  }

  /** `free[0].value`: the column at the head of the free columns sorted by score. */
  function BestColumn(placed: seq<Allocation>, p: nat, columns: nat): int
    requires p < |placed|
  {
    var scored := ScoreAll(NeighboursOf(placed, p), FreeColumns(placed, placed[p], columns));
    SortLength(scored, ByScore);
    SortBy(scored, ByScore)[0].value
  }

  /**
   * The chosen column is one the parent may move to, no free column scores lower,
   * and every free column listed before it scores strictly higher.
   */
  lemma BestColumnChoice(placed: seq<Allocation>, p: nat, columns: nat) returns (k: nat)
    requires p < |placed|
    ensures var xs, ns := FreeColumns(placed, placed[p], columns), NeighboursOf(placed, p);
      && k < |xs| && BestColumn(placed, p, columns) == xs[k]
      && (forall m :: 0 <= m < |xs| ==> Score(ns, xs[k]) <= Score(ns, xs[m]))
      && (forall m :: 0 <= m < k ==> Score(ns, xs[m]) > Score(ns, xs[k]))
  {
    var xs, ns := FreeColumns(placed, placed[p], columns), NeighboursOf(placed, p);
    var scored := ScoreAll(ns, xs);
    ByScorePreorder(scored);
    k := SortHeadIsFirstMinimum(scored, ByScore);
    forall m | 0 <= m < |xs|
      ensures Score(ns, xs[k]) <= Score(ns, xs[m])
    {
      assert ByScore(scored[k], scored[m]) <= 0;
    }
    forall m | 0 <= m < k
      ensures Score(ns, xs[m]) > Score(ns, xs[k])
    {
      assert ByScore(scored[m], scored[k]) > 0;
    }
  }

  /** The chosen column never scores worse than staying put. */
  lemma BestColumnNoWorse(placed: seq<Allocation>, p: nat, columns: nat)
    requires p < |placed|
    ensures Score(NeighboursOf(placed, p), BestColumn(placed, p, columns)) <= Score(NeighboursOf(placed, p), placed[p].x)
  {
    var xs := FreeColumns(placed, placed[p], columns);
    var k := BestColumnChoice(placed, p, columns);
    assert xs[|xs| - 1] == placed[p].x;
  }

  /** `parentAllocation.x = free[0].value`: only the column of the allocation at `p` changes. */
  function Recentre(placed: seq<Allocation>, p: nat, columns: nat): (placed': seq<Allocation>)
    requires p < |placed|
    ensures |placed'| == |placed|
    ensures placed'[p] == placed[p].(x := BestColumn(placed, p, columns))
    ensures forall i :: 0 <= i < |placed| && i != p ==> placed'[i] == placed[i]
  {
    placed[p := placed[p].(x := BestColumn(placed, p, columns))]
  }

  /** Re-centring keeps allocations apart and on the grid, and moves the parent only within its row. */
  lemma RecentreKeeps(placed: seq<Allocation>, p: nat, columns: nat)
    requires p < |placed| && Apart(placed) && OnGrid(placed, columns)
    ensures Apart(Recentre(placed, p, columns)) && OnGrid(Recentre(placed, p, columns), columns)
  {
    var xs := FreeColumns(placed, placed[p], columns);
    var k := BestColumnChoice(placed, p, columns);
    var v := BestColumn(placed, p, columns);
    var r := Recentre(placed, p, columns);
    if k < |xs| - 1 {
      var open := OpenColumns(placed, placed[p].y, columns);
      assert xs[k] == open[k];
      assert !Occupied(placed, placed[p].y, v);
    } else {
      assert v == placed[p].x;
      assert r == placed;
    }
  }
}
