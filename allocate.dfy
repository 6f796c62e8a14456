/**
 * The allocation loop (src/App.tsx:229-342). The root goes to the middle of row 0;
 * the other records, sorted deepest first, are taken from the front of a queue one by
 * one. Each goes to the first free slot of the ring search below one of its allocated
 * dependents, that dependent is re-centred in its row, and the node's own
 * requirements are moved to the front of the queue.
 */
module Allocate {
  import opened Wrappers
  import opened Partition
  import opened Sorting
  import opened Graph
  import opened Priority
  import opened Slots
  import opened Centring

  /** `Math.floor(columns / 2)`. */
  function Middle(columns: nat): nat {
    columns / 2
  }

  /** Every record is filed under its own id. */
  ghost predicate IdsMatch(g: Index) {
    forall k :: k in g ==> g[k].id == k
  }

  /** `keys` is `Object.keys` of the index: every key once. */
  ghost predicate KeysOf(g: Index, keys: seq<string>) {
    Distinct(keys) && forall k :: k in keys <==> k in g
  }

  function IsNot(rootId: string): string -> bool {
    (k: string) => k != rootId
  }

  /** `.map((id) => nodeIndex[id])`. */
  function Records(g: Index, ids: seq<string>): seq<AnnotatedNode>
    requires forall i :: 0 <= i < |ids| ==> ids[i] in g
  {
    seq(|ids|, i requires 0 <= i < |ids| => g[ids[i]])
  }

  /** The records other than the root, in key order, before sorting. */
  function Others(g: Index, keys: seq<string>, rootId: string): seq<AnnotatedNode>
    requires forall i :: 0 <= i < |keys| ==> keys[i] in g
  {
    var ids := Filter(keys, IsNot(rootId));
    assert forall i :: 0 <= i < |ids| ==> ids[i] in keys;
    Records(g, ids)
  }

  /** The initial queue: the other records sorted by `compareNodes`. */
  function InitialQueue(g: Index, keys: seq<string>, rootId: string): seq<AnnotatedNode>
    requires forall i :: 0 <= i < |keys| ==> keys[i] in g
  {
    SortBy(Others(g, keys, rootId), CompareNodes)
  }

  /** `(n) => node.requires.includes(n.id)`. */
  function IsRequirementOf(node: AnnotatedNode): AnnotatedNode -> bool {
    (n: AnnotatedNode) => n.id in node.dependencies
  }

  /** The records placed so far, in allocation order. */
  function NodesOf(placed: seq<Allocation>): seq<AnnotatedNode>
  {
    seq(|placed|, i requires 0 <= i < |placed| => placed[i].node)
  }

  /**
   * src/App.tsx:271-310: unless the slot was found below the root, the first
   * allocation of the dependent it was found below is re-centred.
   */
  function Reposition(placed: seq<Allocation>, id: string, rootId: string, columns: nat): seq<Allocation> {
    if id == rootId then placed
    else match Find(placed, id)
      case None => placed
      case Some(p) => Recentre(placed, p, columns)
  }

  /** The allocation at `i` lies in a lower row than the allocation of one of its dependents. */
  ghost predicate HangsFrom(placed: seq<Allocation>, i: nat)
    requires i < |placed|
  {
    exists j :: 0 <= j < |placed| && placed[j].node.id in placed[i].node.requiredBy && placed[j].y < placed[i].y
  }

  /**
   * The layout so far: the root in the middle of row 0, every allocation on the grid
   * and in its own slot, and every other allocation below one of its dependents.
   */
  ghost predicate Layout(g: Index, rootId: string, columns: nat, placed: seq<Allocation>) {
    && rootId in g
    && |placed| > 0
    && placed[0] == Allocation(g[rootId], Middle(columns), 0)
    && OnGrid(placed, columns)
    && Apart(placed)
    && forall i :: 0 < i < |placed| ==> HangsFrom(placed, i)
  }

  /** The queued records are records of the index. */
  ghost predicate FromIndex(g: Index, queue: seq<AnnotatedNode>) {
    forall i :: 0 <= i < |queue| ==> queue[i].id in g && g[queue[i].id] == queue[i]
  }

  /** Some allocation is of the record with id `p`. */
  ghost predicate Placed(placed: seq<Allocation>, p: string) {
    exists j :: 0 <= j < |placed| && placed[j].node.id == p
  }

  /** The record with id `p` is queued in front of position `i`. */
  ghost predicate QueuedBefore(queue: seq<AnnotatedNode>, i: nat, p: string) {
    exists j :: 0 <= j < i && j < |queue| && queue[j].id == p
  }

  /** Records with ids in `u` are required only by records with ids in `u`. */
  ghost predicate Closed(g: Index, u: set<string>) {
    forall k, p :: k in u && k in g && p in g[k].requiredBy ==> p in u
  }

  /** No allocation is of a record whose id is in `u`. */
  ghost predicate Avoids(placed: seq<Allocation>, u: set<string>) {
    forall i :: 0 <= i < |placed| ==> placed[i].node.id !in u
  }

  /** The record at `i` has a dependent that is placed or queued in front of it. */
  ghost predicate HasAnchor(placed: seq<Allocation>, queue: seq<AnnotatedNode>, i: nat)
    requires i < |queue|
  {
    exists p :: p in queue[i].requiredBy && (Placed(placed, p) || QueuedBefore(queue, i, p))
  }

  ghost predicate Anchors(placed: seq<Allocation>, queue: seq<AnnotatedNode>) {
    forall i :: 0 <= i < |queue| ==> HasAnchor(placed, queue, i)
  }

  /** A requirement lists its dependent among its `requiredBy`, as `generateNodeParents` makes it. */
  ghost predicate Mirrored(g: Index) {
    forall k, d :: k in g && d in g && d in g[k].dependencies ==> k in g[d].requiredBy
  }

  /** `k` has a dependent that is the root or strictly deeper than `k`. */
  ghost predicate HasDeeperDependent(g: Index, rootId: string, k: string)
    requires k in g
  {
    exists p :: p in g[k].requiredBy && p in g && (p == rootId || (g[p].depth.Some? && g[k].depth.Some? && g[p].depth.value > g[k].depth.value))
  }

  /**
   * The condition under which the loop places every record: reverse edges mirror
   * the requirement lists, every record has a depth and a count, and every record but
   * the root has a dependent that is the root or deeper than itself.
   */
  ghost predicate Anchored(g: Index, rootId: string) {
    && Mirrored(g)
    && (forall k :: k in g ==> Comparable(g[k]))
    && (forall k :: k in g && k != rootId ==> HasDeeperDependent(g, rootId, k))
  }

  /**
   * The state of the loop: a layout, a queue of index records, each record of
   * `queue0` and the root either placed or queued exactly once, and, when `anchored`,
   * every queued record with an anchor.
   */
  ghost predicate Allocating(g: Index, rootId: string, columns: nat, queue0: seq<AnnotatedNode>, anchored: bool,
                             placed: seq<Allocation>, queue: seq<AnnotatedNode>) {
    && Layout(g, rootId, columns, placed)
    && FromIndex(g, queue)
    && multiset(NodesOf(placed)) + multiset(queue) == multiset{g[rootId]} + multiset(queue0)
    && (anchored ==> Anchors(placed, queue))
  }

  /** Appending the slot the ring search found keeps the layout. */
  lemma AppendKeeps(g: Index, rootId: string, columns: nat, placed: seq<Allocation>, node: AnnotatedNode, c: Candidate, k: nat)
    requires Layout(g, rootId, columns, placed)
    requires IsFree(placed, c) && 0 <= c.x < columns
    requires k < |placed| && placed[k].node.id in node.requiredBy && c.y > placed[k].y
    ensures Layout(g, rootId, columns, placed + [Allocation(node, c.x, c.y)])
  {
    var after := placed + [Allocation(node, c.x, c.y)];
    forall i | 0 < i < |after|
      ensures HangsFrom(after, i)
    {
      if i < |placed| {
        assert HangsFrom(placed, i);
        var j :| 0 <= j < |placed| && placed[j].node.id in placed[i].node.requiredBy && placed[j].y < placed[i].y;
        assert after[j] == placed[j];
      } else {
        assert after[k] == placed[k];
      }
    }
  }

  /** Re-centring any allocation but the root's keeps the layout and the placed records. */
  lemma RecentreLayout(g: Index, rootId: string, columns: nat, placed: seq<Allocation>, p: nat)
    requires Layout(g, rootId, columns, placed) && 0 < p < |placed|
    ensures Layout(g, rootId, columns, Recentre(placed, p, columns))
    ensures NodesOf(Recentre(placed, p, columns)) == NodesOf(placed)
  {
    RecentreKeeps(placed, p, columns);
    var after := Recentre(placed, p, columns);
    forall i | 0 < i < |after|
      ensures HangsFrom(after, i)
    {
      assert HangsFrom(placed, i);
      var j :| 0 <= j < |placed| && placed[j].node.id in placed[i].node.requiredBy && placed[j].y < placed[i].y;
      assert after[j].node == placed[j].node && after[j].y == placed[j].y;
    }
  }

  /** Repositioning keeps the layout and the placed records, and never moves the root. */
  lemma RepositionKeeps(g: Index, rootId: string, columns: nat, placed: seq<Allocation>, id: string)
    requires Layout(g, rootId, columns, placed) && g[rootId].id == rootId
    ensures Layout(g, rootId, columns, Reposition(placed, id, rootId, columns))
    ensures NodesOf(Reposition(placed, id, rootId, columns)) == NodesOf(placed)
  {
    if id != rootId {
      match Find(placed, id)
      case None =>
      case Some(p) =>
        RecentreLayout(g, rootId, columns, placed, p);
    }
  }

  /** `[...descendents, ...nondescendents]`: the requirements of `node` first, then the others, each in order. */
  function Requeue(node: AnnotatedNode, rest: seq<AnnotatedNode>): seq<AnnotatedNode> {
    Filter(rest, IsRequirementOf(node)) + Filter(rest, Not(IsRequirementOf(node)))
  }

  /** Requeueing keeps the records of the rest of the queue, each as often as before. */
  lemma RequeueKeeps(node: AnnotatedNode, rest: seq<AnnotatedNode>)
    ensures multiset(Requeue(node, rest)) == multiset(rest)
    ensures |Requeue(node, rest)| == |rest|
  {
    FilterPartition(rest, IsRequirementOf(node));
    var q := Requeue(node, rest);
    assert |q| == |multiset(q)| == |multiset(rest)| == |rest|;
  }

  /** Taking the front record and rearranging the rest keeps a queue of index records. */
  lemma QueueNext(g: Index, queue: seq<AnnotatedNode>, queue': seq<AnnotatedNode>)
    requires FromIndex(g, queue) && queue != [] && multiset(queue') == multiset(queue[1..])
    ensures FromIndex(g, queue')
    ensures multiset(queue) == multiset{queue[0]} + multiset(queue')
    ensures |queue'| < |queue|
  {
    var rest := queue[1..];
    assert queue == [queue[0]] + rest;
    SameRecordsFromIndex(g, queue, queue');
    assert |queue'| == |multiset(queue')| == |rest|;
  }

  /** A queue of records taken from a queue of index records is one too. */
  lemma SameRecordsFromIndex(g: Index, a: seq<AnnotatedNode>, b: seq<AnnotatedNode>)
    requires FromIndex(g, a) && multiset(b) <= multiset(a)
    ensures FromIndex(g, b)
  {
    forall i | 0 <= i < |b|
      ensures b[i].id in g && g[b[i].id] == b[i]
    {
      assert b[i] in multiset(a);
      var m :| 0 <= m < |a| && a[m] == b[i];
    }
  }

  /** A record at the front of an anchored queue has an allocated dependent, so the ring search has seeds. */
  lemma FrontHasSeeds(placed: seq<Allocation>, queue: seq<AnnotatedNode>)
    requires queue != [] && Anchors(placed, queue)
    ensures InitialCandidates(placed, queue[0]) != []
  {
    assert HasAnchor(placed, queue, 0);
    var p :| p in queue[0].requiredBy && (Placed(placed, p) || QueuedBefore(queue, 0, p));
    var j :| 0 <= j < |placed| && placed[j].node.id == p;
    InitialCandidatesEmpty(placed, queue[0]);
  }

  /** After placing `node`, a requirement of it moved to the front has `node` as its anchor. */
  lemma AnchorDescendant(g: Index, after: seq<Allocation>, node: AnnotatedNode, rest: seq<AnnotatedNode>, i: nat)
    requires Mirrored(g) && FromIndex(g, [node] + rest) && Placed(after, node.id)
    requires i < |Filter(rest, IsRequirementOf(node))|
    ensures HasAnchor(after, Requeue(node, rest), i)
  {
    var t := Filter(rest, IsRequirementOf(node));
    var q := Requeue(node, rest);
    assert q[i] == t[i] && t[i] in rest && IsRequirementOf(node)(t[i]);
    assert ([node] + rest)[0] == node;
    var m :| 0 <= m < |rest| && rest[m] == t[i];
    assert ([node] + rest)[m + 1] == t[i];
    assert node.id in g[t[i].id].requiredBy;
  }

  /**
   * After placing the front record `node`, a record that stays behind keeps an
   * anchor: a placed one stays placed, `node` is now placed, and one queued in front
   * stays in front, whether it moves to the front or keeps its relative order.
   */
  lemma AnchorOther(before: seq<Allocation>, after: seq<Allocation>, node: AnnotatedNode, rest: seq<AnnotatedNode>, i: nat)
    requires Anchors(before, [node] + rest)
    requires Placed(after, node.id) && forall p :: Placed(before, p) ==> Placed(after, p)
    requires |Filter(rest, IsRequirementOf(node))| <= i < |Requeue(node, rest)|
    ensures HasAnchor(after, Requeue(node, rest), i)
  {
    var r := IsRequirementOf(node);
    var t, f := Filter(rest, r), Filter(rest, Not(r));
    var q := Requeue(node, rest);
    var old_q := [node] + rest;
    var m := i - |t|;
    var positions := FilterPositions(rest, Not(r));
    FilterPositionsRead(rest, Not(r));
    FilterPositionsIncrease(rest, Not(r));
    var pos := positions[m];
    assert q[i] == f[m] == rest[pos] == old_q[pos + 1];
    assert HasAnchor(before, old_q, pos + 1);
    var p :| p in old_q[pos + 1].requiredBy && (Placed(before, p) || QueuedBefore(old_q, pos + 1, p));
    if !Placed(before, p) {
      var j :| 0 <= j < pos + 1 && j < |old_q| && old_q[j].id == p;
      if j > 0 {
        assert old_q[j] == rest[j - 1];
        RequeueKeepsEarlier(node, rest, m, j - 1);
      }
    }
  }

  /**
   * A record of the rest that stood in front of the `m`-th record left behind still
   * stands in front of it after requeueing, whether it moved to the front or not.
   */
  lemma RequeueKeepsEarlier(node: AnnotatedNode, rest: seq<AnnotatedNode>, m: nat, j: nat)
    requires m < |FilterPositions(rest, Not(IsRequirementOf(node)))| && j < |rest|
    requires j < FilterPositions(rest, Not(IsRequirementOf(node)))[m]
    ensures QueuedBefore(Requeue(node, rest), |Filter(rest, IsRequirementOf(node))| + m, rest[j].id)
  {
    var r := IsRequirementOf(node);
    var t, f := Filter(rest, r), Filter(rest, Not(r));
    var q := Requeue(node, rest);
    var e := rest[j];
    if r(e) {
      FilterKeeps(rest, r, e);
      var u :| 0 <= u < |t| && t[u] == e;
      assert q[u] == e;
    } else {
      LeftBehindEarlier(node, rest, m, j);
    }
  }

  /** The case of `RequeueKeepsEarlier` where the earlier record is not a requirement of `node`. */
  lemma LeftBehindEarlier(node: AnnotatedNode, rest: seq<AnnotatedNode>, m: nat, j: nat)
    requires m < |FilterPositions(rest, Not(IsRequirementOf(node)))| && j < |rest|
    requires j < FilterPositions(rest, Not(IsRequirementOf(node)))[m] && !IsRequirementOf(node)(rest[j])
    ensures QueuedBefore(Requeue(node, rest), |Filter(rest, IsRequirementOf(node))| + m, rest[j].id)
  {
    var r := IsRequirementOf(node);
    var t, f := Filter(rest, r), Filter(rest, Not(r));
    var positions := FilterPositions(rest, Not(r));
    FilterPositionsRead(rest, Not(r));
    FilterPositionsComplete(rest, Not(r), j);
    var m' :| 0 <= m' < |positions| && positions[m'] == j;
    FilterPositionsOrder(rest, Not(r), m', m);
    assert f[m'] == rest[j];
    QueuedBehind(t, f, m', m);
  }

  /** The `m`-th record of `b` stands in front of position `|a| + n` of `a + b` when `m < n`. */
  lemma QueuedBehind(a: seq<AnnotatedNode>, b: seq<AnnotatedNode>, m: nat, n: nat)
    requires m < n && m < |b|
    ensures QueuedBefore(a + b, |a| + n, b[m].id)
  {
    assert (a + b)[|a| + m] == b[m];
  }

  /** Placing the front record and requeueing the rest keeps every queued record anchored. */
  lemma AnchorsNext(g: Index, before: seq<Allocation>, after: seq<Allocation>, queue: seq<AnnotatedNode>)
    requires queue != [] && Mirrored(g) && FromIndex(g, queue) && Anchors(before, queue)
    requires Placed(after, queue[0].id) && forall p :: Placed(before, p) ==> Placed(after, p)
    ensures Anchors(after, Requeue(queue[0], queue[1..]))
  {
    var node, rest := queue[0], queue[1..];
    assert queue == [node] + rest;
    var t := Filter(rest, IsRequirementOf(node));
    forall i | 0 <= i < |Requeue(node, rest)|
      ensures HasAnchor(after, Requeue(node, rest), i)
    {
      if i < |t| {
        AnchorDescendant(g, after, node, rest, i);
      } else {
        AnchorOther(before, after, node, rest, i);
      }
    }
  }

  /** Every record placed before `node` is still placed after it, and so is `node`. */
  lemma PlacedGrows(before: seq<Allocation>, after: seq<Allocation>, node: AnnotatedNode)
    requires NodesOf(after) == NodesOf(before) + [node]
    ensures Placed(after, node.id) && forall p :: Placed(before, p) ==> Placed(after, p)
  {
    assert NodesOf(after)[|before|] == node;
    forall p | Placed(before, p)
      ensures Placed(after, p)
    {
      var j :| 0 <= j < |before| && before[j].node.id == p;
      assert NodesOf(after)[j] == before[j].node;
    }
  }

  /** Placing `node` in the slot found and repositioning keeps the layout, with `node` added to the placed records. */
  lemma PlaceLayout(g: Index, rootId: string, columns: nat, placed: seq<Allocation>, node: AnnotatedNode, c: Candidate, k: nat)
    requires IdsMatch(g) && Layout(g, rootId, columns, placed)
    requires IsFree(placed, c) && 0 <= c.x < columns
    requires k < |placed| && placed[k].node.id in node.requiredBy && c.y > placed[k].y
    ensures var after := Reposition(placed + [Allocation(node, c.x, c.y)], c.node.id, rootId, columns);
      Layout(g, rootId, columns, after) && NodesOf(after) == NodesOf(placed) + [node]
  {
    var appended := placed + [Allocation(node, c.x, c.y)];
    AppendKeeps(g, rootId, columns, placed, node, c, k);
    RepositionKeeps(g, rootId, columns, appended, c.node.id);
    assert NodesOf(appended) == NodesOf(placed) + [node];
  }

  /** One turn of the loop keeps its state and shortens the queue. */
  lemma PlaceStep(g: Index, rootId: string, columns: nat, queue0: seq<AnnotatedNode>, anchored: bool,
                  placed: seq<Allocation>, queue: seq<AnnotatedNode>, c: Candidate, k: nat)
    requires IdsMatch(g) && Allocating(g, rootId, columns, queue0, anchored, placed, queue) && queue != []
    requires anchored ==> Mirrored(g)
    requires IsFree(placed, c) && 0 <= c.x < columns
    requires k < |placed| && placed[k].node.id in queue[0].requiredBy && c.y > placed[k].y
    ensures var after := Reposition(placed + [Allocation(queue[0], c.x, c.y)], c.node.id, rootId, columns);
      Allocating(g, rootId, columns, queue0, anchored, after, Requeue(queue[0], queue[1..]))
    ensures |Requeue(queue[0], queue[1..])| < |queue|
  {
    var node, rest := queue[0], queue[1..];
    var after := Reposition(placed + [Allocation(node, c.x, c.y)], c.node.id, rootId, columns);
    PlaceLayout(g, rootId, columns, placed, node, c, k);
    RequeueKeeps(node, rest);
    QueueNext(g, queue, Requeue(node, rest));
    if anchored {
      PlacedGrows(placed, after, node);
      AnchorsNext(g, placed, after, queue);
    }
  }

  /** The initial queue holds the records of `Others`, each an index record other than the root's. */
  lemma InitialQueueRecords(g: Index, keys: seq<string>, rootId: string)
    requires (forall i :: 0 <= i < |keys| ==> keys[i] in g) && IdsMatch(g)
    ensures var q := InitialQueue(g, keys, rootId);
      && multiset(q) == multiset(Others(g, keys, rootId))
      && FromIndex(g, q)
      && forall j :: 0 <= j < |q| ==> q[j].id != rootId
  {
    var others := Others(g, keys, rootId);
    var q := InitialQueue(g, keys, rootId);
    var ids := Filter(keys, IsNot(rootId));
    SortPermutes(others, CompareNodes);
    assert forall m :: 0 <= m < |others| ==> others[m] == g[ids[m]] && ids[m] in keys && IsNot(rootId)(ids[m]);
    forall j | 0 <= j < |q|
      ensures q[j].id in g && g[q[j].id] == q[j] && q[j].id != rootId
    {
      assert q[j] in multiset(others);
      var m :| 0 <= m < |others| && others[m] == q[j];
      assert g[ids[m]].id == ids[m];
    }
  }

  /** Every index record other than the root's is queued at the start. */
  lemma InitialQueueCovers(g: Index, keys: seq<string>, rootId: string)
    requires KeysOf(g, keys)
    ensures forall k :: k in g && k != rootId ==> g[k] in InitialQueue(g, keys, rootId)
  {
    var others := Others(g, keys, rootId);
    var q := InitialQueue(g, keys, rootId);
    var ids := Filter(keys, IsNot(rootId));
    SortPermutes(others, CompareNodes);
    forall k | k in g && k != rootId
      ensures g[k] in q
    {
      FilterKeeps(keys, IsNot(rootId), k);
      var n :| 0 <= n < |ids| && ids[n] == k;
      assert others[n] == g[k] && g[k] in multiset(others);
    }
  }

  /** In a sorted queue of index records, a deeper dependent comes first, and the root is placed. */
  lemma SortedAnchor(g: Index, rootId: string, placed: seq<Allocation>, q: seq<AnnotatedNode>, i: nat)
    requires rootId in g && IdsMatch(g) && Anchored(g, rootId) && |placed| > 0 && placed[0].node == g[rootId]
    requires Sorted(CompareNodes, q) && FromIndex(g, q)
    requires forall j :: 0 <= j < |q| ==> q[j].id != rootId
    requires forall k :: k in g && k != rootId ==> g[k] in q
    requires i < |q|
    ensures HasAnchor(placed, q, i)
  {
    var key := q[i].id;
    assert HasDeeperDependent(g, rootId, key);
    var p :| p in g[key].requiredBy && p in g && (p == rootId || (g[p].depth.Some? && g[key].depth.Some? && g[p].depth.value > g[key].depth.value));
    if p == rootId {
      assert placed[0].node.id == p;
    } else {
      assert g[p] in q;
      var j :| 0 <= j < |q| && q[j] == g[p];
      CompareNodesMeaning(q[j], q[i]);
      CompareNodesMeaning(q[i], q[j]);
      assert q[j].id == p;
    }
  }

  /** Under `Anchored`, the root's allocation and the sorted queue start with every record anchored. */
  lemma AnchorsStart(g: Index, keys: seq<string>, rootId: string, columns: nat)
    requires rootId in g && IdsMatch(g) && KeysOf(g, keys) && Anchored(g, rootId)
    ensures Anchors([Allocation(g[rootId], Middle(columns), 0)], InitialQueue(g, keys, rootId))
  {
    var placed := [Allocation(g[rootId], Middle(columns), 0)];
    var others := Others(g, keys, rootId);
    var q := InitialQueue(g, keys, rootId);
    InitialQueueRecords(g, keys, rootId);
    InitialQueueCovers(g, keys, rootId);
    assert forall m :: 0 <= m < |others| ==> others[m] in multiset(q);
    CompareNodesPreorder(others);
    SortSorted(others, CompareNodes);
    forall i | 0 <= i < |q|
      ensures HasAnchor(placed, q, i)
    {
      SortedAnchor(g, rootId, placed, q, i);
    }
  }

  /** The loop starts from the root's allocation and the sorted queue. */
  lemma AllocateStart(g: Index, keys: seq<string>, rootId: string, columns: nat, anchored: bool)
    requires rootId in g && forall i :: 0 <= i < |keys| ==> keys[i] in g
    requires IdsMatch(g) && columns >= 2 && anchored == (KeysOf(g, keys) && Anchored(g, rootId))
    ensures Allocating(g, rootId, columns, InitialQueue(g, keys, rootId), anchored,
                       [Allocation(g[rootId], Middle(columns), 0)], InitialQueue(g, keys, rootId))
  {
    var placed := [Allocation(g[rootId], Middle(columns), 0)];
    InitialQueueRecords(g, keys, rootId);
    assert NodesOf(placed) == [g[rootId]];
    if anchored {
      AnchorsStart(g, keys, rootId, columns);
    }
  }

  /**
   * A record placed below an allocation of one of its dependents is outside a closed
   * `u` that the earlier allocations avoid, so the allocations still avoid `u` after
   * it is placed and its dependent re-centred.
   */
  lemma AvoidStep(g: Index, rootId: string, columns: nat, placed: seq<Allocation>, node: AnnotatedNode,
                  c: Candidate, k: nat, u: set<string>)
    requires node.id in g && g[node.id] == node && Closed(g, u) && Avoids(placed, u)
    requires k < |placed| && placed[k].node.id in node.requiredBy
    ensures Avoids(Reposition(placed + [Allocation(node, c.x, c.y)], c.node.id, rootId, columns), u)
  {
    var after := placed + [Allocation(node, c.x, c.y)];
    assert node.id !in u by {
      assert placed[k].node.id !in u;
    }
    assert Avoids(after, u) by {
      forall i | 0 <= i < |after|
        ensures after[i].node.id !in u
      {
        if i < |placed| {
          assert after[i] == placed[i];
        }
      }
    }
    RepositionAvoids(after, c.node.id, rootId, columns, u);
  }

  /** Re-centring moves allocations within their rows and keeps their records. */
  lemma RepositionAvoids(placed: seq<Allocation>, id: string, rootId: string, columns: nat, u: set<string>)
    requires Avoids(placed, u)
    ensures Avoids(Reposition(placed, id, rootId, columns), u)
  {
    if id != rootId {
      match Find(placed, id)
      case None =>
      case Some(p) =>
        var after := Recentre(placed, p, columns);
        assert forall i :: 0 <= i < |after| ==> after[i].node == placed[i].node;
    }
  }

  /**
   * The allocation loop, from the root's allocation to an empty queue. It fails,
   * as the source throws, only when the front record has no allocated dependent; on
   * success every record other than the root is placed exactly once besides it, and
   * the layout keeps every allocation in its own slot on the grid and below one of
   * its dependents. Under `Anchored` it never fails. A success places no record of a
   * set `u` that holds no root and no dependent of anything outside it.
   */
  method AllocateAll(g: Index, keys: seq<string>, rootId: string, columns: nat, ghost u: set<string>)
    returns (r: Result<seq<Allocation>, LayoutError>)
    requires rootId in g && forall i :: 0 <= i < |keys| ==> keys[i] in g
    requires IdsMatch(g) && columns >= 2
    ensures r.Ok? ==> Layout(g, rootId, columns, r.value)
    ensures r.Ok? ==> multiset(NodesOf(r.value)) == multiset{g[rootId]} + multiset(Others(g, keys, rootId))
    ensures KeysOf(g, keys) && Anchored(g, rootId) ==> r.Ok?
    ensures r.Ok? && Closed(g, u) && rootId !in u ==> Avoids(r.value, u)
  {
    var unallocated := SortBy(Others(g, keys, rootId), CompareNodes);
    var middleColumn := Middle(columns);
    var placed := [Allocation(g[rootId], middleColumn, 0)];
    ghost var queue0 := unallocated;
    ghost var anchored := KeysOf(g, keys) && Anchored(g, rootId);
    ghost var closed := Closed(g, u) && rootId !in u;
    AllocateStart(g, keys, rootId, columns, anchored);
    while |unallocated| > 0
      invariant Allocating(g, rootId, columns, queue0, anchored, placed, unallocated)
      invariant closed ==> Avoids(placed, u)
      decreases |unallocated|
    {
      var node := unallocated[0];
      ghost var queue := unallocated;
      unallocated := unallocated[1..];
      var found, distance := RingSearch(placed, node, columns);
      if found.Err? {
        if anchored {
          FrontHasSeeds(placed, queue);
          assert false;
        }
        return Err(found.error);
      }
      var slot := found.value;
      ghost var k := FoundSlot(placed, node, columns, distance);
      PlaceStep(g, rootId, columns, queue0, anchored, placed, queue, slot, k);
      if closed {
        AvoidStep(g, rootId, columns, placed, node, slot, k, u);
      }
      placed := placed + [Allocation(node, slot.x, slot.y)];
      placed := Reposition(placed, slot.node.id, rootId, columns);
      var descendents, nondescendents := Bisect(unallocated, IsRequirementOf(node));
      unallocated := descendents + nondescendents;
    }
    SortPermutes(Others(g, keys, rootId), CompareNodes);
    return Ok(placed);
  }
}
