/**
 * The layout as the `App` component computes it (src/App.tsx:63-69 and 205-342):
 * the column count from the window width, the node index with its reverse edges and
 * memo fields, and the allocation loop, guarded so that an empty list, a missing root
 * id or a root id outside the index yield no allocations.
 */
module App {
  import opened Wrappers
  import opened Partition
  import opened Graph
  import opened Parents
  import opened Depth
  import opened Priority
  import opened Slots
  import opened Allocate

  /** The width the layout assumes at least (`Math.max(window.innerWidth, 2500)`). */
  const MinWidth: int := 2500
  /** The width of one column. */
  const ColumnWidth: int := 180

  /** `Math.max(window.innerWidth, 2500)`. */
  function Width(innerWidth: int): int {
    if innerWidth > MinWidth then innerWidth else MinWidth
  }

  /**
   * `Math.floor(x / 180) - 1`, bumped to the next odd number when even: the largest
   * odd number of columns that fits the width, and never fewer than 13.
   */
  function Columns(innerWidth: int): (c: nat)
    ensures c % 2 == 1 && c >= 13
    ensures c * ColumnWidth <= Width(innerWidth) < (c + 2) * ColumnWidth
  {
    var columns := Width(innerWidth) / ColumnWidth - 1;
    if columns % 2 == 0 then columns + 1 else columns
  }

  /** `nodes.length && rootId && nodeIndex[rootId]`. */
  ghost predicate Guard(nodes: seq<Node>, rootId: string) {
    |nodes| > 0 && rootId != "" && rootId in BuildIndex(nodes)
  }

  /** Every task of the index lies below the root along resolvable requirements. */
  ghost predicate AllReachable(nodes: seq<Node>, rank: map<string, nat>, rootId: string)
    requires Ranked(Shape(BuildIndex(nodes)), rank) && rootId in BuildIndex(nodes)
  {
    forall k :: k in BuildIndex(nodes) ==> Reaches(Shape(BuildIndex(nodes)), rank, rootId, k)
  }

  /**
   * The allocations cover the index: each is of an indexed task, and every indexed
   * task is allocated exactly once.
   */
  ghost predicate Covers(index: Index, placed: seq<Allocation>) {
    && (forall i :: 0 <= i < |placed| ==> placed[i].node.id in index && placed[i].node.Base() == index[placed[i].node.id].Base())
    && (forall k :: k in index ==> exists i :: 0 <= i < |placed| && placed[i].node.id == k)
    && (forall i, j :: 0 <= i < j < |placed| ==> placed[i].node.id != placed[j].node.id)
  }

  /** Every reverse edge is a requirement: a recorded dependent of `k` lists `k`. */
  ghost predicate Reversed(g: Index) {
    forall k, p :: k in g && p in g[k].requiredBy ==> p in g && k in g[p].dependencies
  }

  /** After the parents pass the records are still fresh apart from their reverse edges, and those mirror the requirement lists. */
  lemma ParentsPass(nodes: seq<Node>, g: Index)
    requires g.Keys == BuildIndex(nodes).Keys
    requires forall k :: k in BuildIndex(nodes) ==>
      g[k] == BuildIndex(nodes)[k].(requiredBy := BuildIndex(nodes)[k].requiredBy + ParentsOf(nodes, k))
    ensures SameShape(g, Shape(BuildIndex(nodes)))
    ensures IdsMatch(g) && Mirrored(g)
    ensures forall k :: k in g ==> g[k].depth.None?
  {
    var index := BuildIndex(nodes);
    forall k | k in g
      ensures g[k].id == k && g[k].depth.None? && g[k].Base() == index[k].Base()
    {
      BuildIndexFresh(nodes, k);
    }
    forall k, d | k in g && d in g && d in g[k].dependencies
      ensures k in g[d].requiredBy
    {
      BuildIndexFresh(nodes, k);
      var i :| 0 <= i < |nodes| && nodes[i] == index[k].Base();
      ParentsOfMembers(nodes, d, k);
    }
  }

  /** Each parent of a record is filed and lists the record among its requirements. */
  ghost predicate ParentsListed(nodes: seq<Node>, index: Index) {
    forall k, p :: k in index && p in ParentsOf(nodes, k) ==> p in index && k in index[p].dependencies
  }

  /** The reverse edges the parents pass adds are requirements when the parents are listed. */
  lemma ParentsReversed(nodes: seq<Node>, index: Index, g: Index)
    requires ParentsListed(nodes, index) && g.Keys == index.Keys
    requires forall k :: k in g ==> g[k].requiredBy == ParentsOf(nodes, k) && g[k].dependencies == index[k].dependencies
    ensures Reversed(g)
  {
  }

  /** On a fresh index the parents pass leaves only the reverse edges and the requirement lists as they were. */
  lemma ParentsAdded(nodes: seq<Node>, index: Index, g: Index)
    requires forall k :: k in index ==> index[k].requiredBy == []
    requires g.Keys == index.Keys
    requires forall k :: k in index ==> g[k] == index[k].(requiredBy := index[k].requiredBy + ParentsOf(nodes, k))
    ensures forall k :: k in g ==> g[k].requiredBy == ParentsOf(nodes, k) && g[k].dependencies == index[k].dependencies
  {
    forall k | k in g
      ensures g[k].requiredBy == ParentsOf(nodes, k) && g[k].dependencies == index[k].dependencies
    {
      assert index[k].requiredBy + ParentsOf(nodes, k) == ParentsOf(nodes, k);
    }
  }

  /** With unique ids, the index is fresh and its parents are listed. */
  lemma UniqueListed(nodes: seq<Node>)
    requires UniqueIds(nodes)
    ensures ParentsListed(nodes, BuildIndex(nodes))
    ensures forall k :: k in BuildIndex(nodes) ==> BuildIndex(nodes)[k].requiredBy == []
  {
    forall k, p | k in BuildIndex(nodes) && p in ParentsOf(nodes, k)
      ensures p in BuildIndex(nodes) && k in BuildIndex(nodes)[p].dependencies
    {
      ParentListsChild(nodes, k, p);
    }
    FreshIndex(nodes);
  }

  /** With unique ids, a parent of `d` is filed with a requirement list holding `d`. */
  lemma ParentListsChild(nodes: seq<Node>, d: string, p: string)
    requires UniqueIds(nodes) && p in ParentsOf(nodes, d)
    ensures p in BuildIndex(nodes) && d in BuildIndex(nodes)[p].dependencies
  {
    ParentsOfMembers(nodes, d, p);
    var i :| 0 <= i < |nodes| && nodes[i].id == p && d in nodes[i].dependencies;
    BuildIndexUnique(nodes, i);
  }

  /** The depth pass keeps ids, requirement lists and reverse edges. */
  lemma DepthPass(g: Index, g': Index, s: map<string, Node>, rank: map<string, nat>, id: string)
    requires Ranked(s, rank) && SameShape(g, s) && id in s && DepthPost(g, g', s, rank, id)
    requires IdsMatch(g) && Mirrored(g)
    ensures IdsMatch(g') && Mirrored(g') && g'.Keys == g.Keys
  {
    forall k | k in g'
      ensures g'[k].id == k
    {
      assert g'[k].Base() == s[k] == g[k].Base();
    }
    forall k, d | k in g' && d in g' && d in g'[k].dependencies
      ensures k in g'[d].requiredBy
    {
      assert g'[k].Base() == s[k] == g[k].Base();
      assert g'[d].requiredBy == g[d].requiredBy;
    }
  }

  /** The depth pass keeps reverse edges that are requirements. */
  lemma DepthReversed(g: Index, g': Index, s: map<string, Node>)
    requires SameShape(g, s) && SameShape(g', s) && Reversed(g)
    requires forall k :: k in g ==> g'[k].requiredBy == g[k].requiredBy
    ensures Reversed(g')
  {
    forall k, p | k in g' && p in g'[k].requiredBy
      ensures p in g' && k in g'[p].dependencies
    {
      assert g'[k].requiredBy == g[k].requiredBy;
      assert g'[p].Base() == s[p] == g[p].Base();
    }
  }

  /** A task reached from `a` other than `a` is a resolvable requirement of some task reached from `a`. */
  lemma {:induction false} Predecessor(s: map<string, Node>, rank: map<string, nat>, a: string, b: string) returns (p: string)
    requires Ranked(s, rank) && a in s && Reaches(s, rank, a, b) && a != b
    ensures p in s && Reaches(s, rank, a, p) && b in Resolvable(s, p)
    decreases rank[a]
  {
    var ds := Resolvable(s, a);
    var j :| 0 <= j < |ds| && Reaches(s, rank, ds[j], b);
    RequirementRank(s, rank, a, j);
    if ds[j] == b {
      p := a;
    } else {
      p := Predecessor(s, rank, ds[j], b);
      assert Reaches(s, rank, ds[j], p);
    }
  }

  /** A reached task with a set depth is settled, so its depth and count are the specified ones. */
  lemma SettledDepth(g: Index, s: map<string, Node>, rank: map<string, nat>, k: string)
    requires Ranked(s, rank) && SameShape(g, s) && Memo(g, s, rank) && k in g && g[k].depth.Some?
    ensures g[k].depth == Some(Depth.Depth(s, rank, k)) && g[k].children.Some?
  {
    assert Settled(g, s, rank, k);
  }

  /** When every task is reachable from the root, every annotated record has a deeper dependent or the root as one. */
  lemma ReachableAnchored(g: Index, g': Index, s: map<string, Node>, rank: map<string, nat>, rootId: string)
    requires Ranked(s, rank) && SameShape(g, s) && rootId in s && DepthPost(g, g', s, rank, rootId)
    requires IdsMatch(g) && Mirrored(g) && forall k :: k in g ==> g[k].depth.None?
    requires forall k :: k in s ==> Reaches(s, rank, rootId, k)
    ensures Anchored(g', rootId)
  {
    DepthPass(g, g', s, rank, rootId);
    forall k | k in g'
      ensures Comparable(g'[k])
    {
      SettledDepth(g', s, rank, k);
    }
    forall k | k in g' && k != rootId
      ensures HasDeeperDependent(g', rootId, k)
    {
      var p := Predecessor(s, rank, rootId, k);
      assert k in s[p].dependencies && g'[p].Base() == s[p];
      if p != rootId {
        SettledDepth(g', s, rank, p);
        SettledDepth(g', s, rank, k);
        var _ := DepthIsLongestChain(s, rank, p);
        var ds := Resolvable(s, p);
        var j :| 0 <= j < |ds| && ds[j] == k;
      }
    }
  }

  /** Filtering keeps a sequence free of duplicates. */
  lemma FilterDistinct<T>(s: seq<T>, p: T -> bool)
    requires Distinct(s)
    ensures Distinct(Filter(s, p))
  {
    FilterPositionsRead(s, p);
    FilterPositionsIncrease(s, p);
  }

  /** In a sequence without duplicates every element occurs at most once. */
  lemma {:induction false} DistinctOnce<T>(s: seq<T>, x: T)
    requires Distinct(s)
    ensures multiset(s)[x] <= 1
  {
    if s != [] {
      var n := |s| - 1;
      assert s == s[..n] + [s[n]];
      DistinctOnce(s[..n], x);
      if s[n] == x {
        assert x !in s[..n];
      }
    }
  }

  /** An element at two positions occurs at least twice. */
  lemma TwoCopies<T>(s: seq<T>, i: nat, j: nat)
    requires i < j < |s| && s[i] == s[j]
    ensures multiset(s)[s[i]] >= 2
  {
    assert s == s[..j] + [s[j]] + s[j + 1..];
    assert s[..j][i] == s[i];
  }

  /** The records other than the root are index records, each once, none of them the root's, and all of them are there. */
  lemma OthersRecords(g: Index, keys: seq<string>, rootId: string)
    requires KeysOf(g, keys) && IdsMatch(g) && rootId in g
    ensures var others := Others(g, keys, rootId);
      && FromIndex(g, others) && Distinct(others) && g[rootId] !in others
      && forall k :: k in g && k != rootId ==> g[k] in others
  {
    var ids := Filter(keys, IsNot(rootId));
    FilterDistinct(keys, IsNot(rootId));
    var others := Others(g, keys, rootId);
    assert forall m :: 0 <= m < |others| ==> others[m] == g[ids[m]] && ids[m] in keys && IsNot(rootId)(ids[m]);
    forall a, b | 0 <= a < b < |others|
      ensures others[a] != others[b]
    {
      assert others[a].id == ids[a] && others[b].id == ids[b];
    }
    forall k | k in g && k != rootId
      ensures g[k] in others
    {
      FilterKeeps(keys, IsNot(rootId), k);
      var n :| 0 <= n < |ids| && ids[n] == k;
      assert others[n] == g[k];
    }
  }

  /** Each allocation holding the root's record or one of `others` holds the index record of its id. */
  lemma PlacedRecords(g: Index, rootId: string, others: seq<AnnotatedNode>, placed: seq<Allocation>)
    requires rootId in g && IdsMatch(g) && FromIndex(g, others)
    requires multiset(NodesOf(placed)) == multiset{g[rootId]} + multiset(others)
    ensures forall i :: 0 <= i < |placed| ==> placed[i].node.id in g && placed[i].node == g[placed[i].node.id]
  {
    var ns := NodesOf(placed);
    forall i | 0 <= i < |placed|
      ensures placed[i].node.id in g && placed[i].node == g[placed[i].node.id]
    {
      assert ns[i] in multiset(ns);
      if ns[i] != g[rootId] {
        assert ns[i] in multiset(others);
        var m :| 0 <= m < |others| && others[m] == ns[i];
      }
    }
  }

  /** When `others` holds every record but the root's, every index key is allocated. */
  lemma PlacedAll(g: Index, rootId: string, others: seq<AnnotatedNode>, placed: seq<Allocation>)
    requires rootId in g && IdsMatch(g) && forall k :: k in g && k != rootId ==> g[k] in others
    requires multiset(NodesOf(placed)) == multiset{g[rootId]} + multiset(others)
    ensures forall k :: k in g ==> exists i :: 0 <= i < |placed| && placed[i].node.id == k
  {
    var ns := NodesOf(placed);
    forall k | k in g
      ensures exists i :: 0 <= i < |placed| && placed[i].node.id == k
    {
      assert g[k] in multiset(ns);
      var i :| 0 <= i < |ns| && ns[i] == g[k];
      assert placed[i].node.id == k;
    }
  }

  /** When `others` holds distinct records other than the root's, no id is allocated twice. */
  lemma PlacedOnce(g: Index, rootId: string, others: seq<AnnotatedNode>, placed: seq<Allocation>)
    requires rootId in g && Distinct(others) && g[rootId] !in others
    requires forall i :: 0 <= i < |placed| ==> placed[i].node.id in g && placed[i].node == g[placed[i].node.id]
    requires multiset(NodesOf(placed)) == multiset{g[rootId]} + multiset(others)
    ensures forall i, j :: 0 <= i < j < |placed| ==> placed[i].node.id != placed[j].node.id
  {
    var ns := NodesOf(placed);
    forall i, j | 0 <= i < j < |placed|
      ensures placed[i].node.id != placed[j].node.id
    {
      if placed[i].node.id == placed[j].node.id {
        assert ns[i] == ns[j];
        TwoCopies(ns, i, j);
        DistinctOnce(others, ns[i]);
        assert false;
      }
    }
  }

  /**
   * Allocations holding the root's record and the other records of the index, each
   * once, cover the index.
   */
  lemma CoversIndex(g: Index, keys: seq<string>, rootId: string, placed: seq<Allocation>)
    requires KeysOf(g, keys) && IdsMatch(g) && rootId in g
    requires multiset(NodesOf(placed)) == multiset{g[rootId]} + multiset(Others(g, keys, rootId))
    ensures Covers(g, placed)
    ensures forall i :: 0 <= i < |placed| ==> placed[i].node == g[placed[i].node.id]
  {
    var others := Others(g, keys, rootId);
    OthersRecords(g, keys, rootId);
    PlacedRecords(g, rootId, others, placed);
    PlacedAll(g, rootId, others, placed);
    PlacedOnce(g, rootId, others, placed);
  }

  /**
   * Each allocated record carries the reverse edges of its task: the ids of the
   * tasks that list it, once per listing, in task order.
   */
  ghost predicate Linked(nodes: seq<Node>, placed: seq<Allocation>) {
    forall i :: 0 <= i < |placed| ==> placed[i].node.requiredBy == ParentsOf(nodes, placed[i].node.id)
  }

  /**
   * The memo fields of a record of an indexed task: set exactly when the root reaches
   * the task, and then its specified depth, count and active flag.
   */
  ghost predicate Annotation(s: map<string, Node>, rank: map<string, nat>, rootId: string, n: AnnotatedNode)
    requires Ranked(s, rank) && rootId in s
  {
    n.id in s ==>
      && (n.depth.Some? <==> Reaches(s, rank, rootId, n.id))
      && (Reaches(s, rank, rootId, n.id) ==>
            && n.depth == Some(Depth.Depth(s, rank, n.id))
            && n.children == Some(Children(s, rank, n.id))
            && n.active == Some(Active(s, rank, n.id)))
  }

  /**
   * What a successful layout promises: every indexed task allocated exactly once,
   * with its reverse edges, the root in the middle of row 0, every allocation on the
   * grid and in its own slot, and every task but the root below one of its
   * dependents, that is, below a task that lists it.
   */
  ghost predicate Drawing(nodes: seq<Node>, rootId: string, columns: nat, placed: seq<Allocation>) {
    && Covers(BuildIndex(nodes), placed)
    && Linked(nodes, placed)
    && |placed| > 0 && placed[0].node.id == rootId && placed[0].x == columns / 2 && placed[0].y == 0
    && OnGrid(placed, columns) && Apart(placed)
    && forall i :: 0 < i < |placed| ==> HangsFrom(placed, i)
  }

  /** The result of the allocation loop over the annotated index is a drawing of the index. */
  lemma LoopDrawing(nodes: seq<Node>, g: Index, keys: seq<string>, rootId: string, columns: nat, placed: seq<Allocation>)
    requires KeysOf(g, keys) && IdsMatch(g) && rootId in g && SameShape(g, Shape(BuildIndex(nodes)))
    requires forall k :: k in g ==> g[k].requiredBy == ParentsOf(nodes, k)
    requires Layout(g, rootId, columns, placed)
    requires multiset(NodesOf(placed)) == multiset{g[rootId]} + multiset(Others(g, keys, rootId))
    ensures Drawing(nodes, rootId, columns, placed)
    ensures forall i :: 0 <= i < |placed| ==> placed[i].node == g[placed[i].node.id]
  {
    CoversIndex(g, keys, rootId, placed);
    CoversShape(BuildIndex(nodes), g, placed);
  }

  /**
   * The index after both annotation passes: its records are those of the tasks,
   * filed under their own ids and listed once each by `keys`, each with the reverse
   * edges of its task and annotated exactly when the root reaches it, and, when every
   * task is reachable from the root, anchored.
   */
  ghost predicate Annotated(nodes: seq<Node>, rank: map<string, nat>, rootId: string, keys: seq<string>, g: Index)
    requires Ranked(Shape(BuildIndex(nodes)), rank) && rootId in BuildIndex(nodes)
  {
    && rootId in g && IdsMatch(g) && KeysOf(g, keys) && SameShape(g, Shape(BuildIndex(nodes)))
    && (forall k :: k in g ==> g[k].requiredBy == ParentsOf(nodes, k))
    && (forall k :: k in g ==> Annotation(Shape(BuildIndex(nodes)), rank, rootId, g[k]))
    && (AllReachable(nodes, rank, rootId) ==> Anchored(g, rootId))
    && (UniqueIds(nodes) ==> Reversed(g))
  }

  /** `generateNodeParents(nodes, nodeIndex)` then `generateNodeDepth(nodeIndex[rootId], nodeIndex)`. */
  method Annotate(nodes: seq<Node>, index: Index, rootId: string, ghost rank: map<string, nat>) returns (g: Index)
    requires index == BuildIndex(nodes) && rootId in index && Ranked(Shape(index), rank)
    ensures Annotated(nodes, rank, rootId, IndexKeys(nodes), g)
  {
    ghost var s := Shape(index);
    g := GenerateNodeParents(nodes, index);
    ParentsPass(nodes, g);
    ghost var g1 := g;
    MemoEmpty(g, s, rank);
    g := GenerateNodeDepth(g, rootId, s, rank);
    DepthPass(g1, g, s, rank, rootId);
    FreshIndex(nodes);
    ParentsAdded(nodes, index, g1);
    AnnotatedRecords(g1, g, s, rank, rootId);
    if UniqueIds(nodes) {
      UniqueListed(nodes);
      ParentsReversed(nodes, index, g1);
      DepthReversed(g1, g, s);
    }
    IndexKeysSpec(nodes);
    if AllReachable(nodes, rank, rootId) {
      ReachableAnchored(g1, g, s, rank, rootId);
    }
  }

  /** Every record of a freshly built index has no reverse edges yet. */
  lemma FreshIndex(nodes: seq<Node>)
    ensures forall k :: k in BuildIndex(nodes) ==> BuildIndex(nodes)[k].requiredBy == []
  {
    forall k | k in BuildIndex(nodes)
      ensures BuildIndex(nodes)[k].requiredBy == []
    {
      BuildIndexFresh(nodes, k);
    }
  }

  /** After the depth pass from the root over an index without memo fields, each record is annotated exactly when the root reaches it. */
  lemma AnnotatedRecords(g: Index, g': Index, s: map<string, Node>, rank: map<string, nat>, rootId: string)
    requires Ranked(s, rank) && SameShape(g, s) && rootId in s && DepthPost(g, g', s, rank, rootId)
    requires IdsMatch(g') && forall k :: k in g ==> g[k].depth.None?
    ensures forall k :: k in g' ==> Annotation(s, rank, rootId, g'[k])
  {
    forall k | k in g'
      ensures Annotation(s, rank, rootId, g'[k])
    {
      assert g'[k].id == k;
      if g'[k].depth.Some? {
        assert Settled(g', s, rank, k);
      }
    }
  }

  /**
   * The layout of the `App` component. Without a guard it allocates nothing. With
   * it, a failure is the error of the loop, and a success is a drawing of the index
   * whose records carry their annotations.
   * When every task is reachable from the root it never fails. Acyclicity of the
   * requirement graph is stated by a ghost `rank`.
   */
  method Allocations(nodes: seq<Node>, rootId: string, innerWidth: int, ghost rank: map<string, nat>)
    returns (r: Result<seq<Allocation>, LayoutError>)
    requires Ranked(Shape(BuildIndex(nodes)), rank)
    ensures !Guard(nodes, rootId) ==> r == Ok([])
    ensures Guard(nodes, rootId) && r.Ok? ==> Drawing(nodes, rootId, Columns(innerWidth), r.value)
    ensures Guard(nodes, rootId) && r.Ok? ==>
      forall i :: 0 <= i < |r.value| ==> Annotation(Shape(BuildIndex(nodes)), rank, rootId, r.value[i].node)
    ensures Guard(nodes, rootId) && AllReachable(nodes, rank, rootId) ==> r.Ok?
    ensures Guard(nodes, rootId) && UniqueIds(nodes) && !AllReachable(nodes, rank, rootId) ==> r.Err?
  {
    var index := BuildIndex(nodes);
    if !(|nodes| > 0 && rootId != "" && rootId in index) {
      return Ok([]);
    }
    r := GuardedLayout(nodes, index, rootId, Columns(innerWidth), rank);
  }

  /** The guarded part of `Allocations`: annotate the index, then run the allocation loop. */
  method GuardedLayout(nodes: seq<Node>, index: Index, rootId: string, columns: nat, ghost rank: map<string, nat>)
    returns (r: Result<seq<Allocation>, LayoutError>)
    requires index == BuildIndex(nodes) && rootId in index && Ranked(Shape(index), rank) && columns >= 2
    ensures r.Ok? ==> Drawing(nodes, rootId, columns, r.value)
    ensures r.Ok? ==> forall i :: 0 <= i < |r.value| ==> Annotation(Shape(index), rank, rootId, r.value[i].node)
    ensures AllReachable(nodes, rank, rootId) ==> r.Ok?
    ensures UniqueIds(nodes) && !AllReachable(nodes, rank, rootId) ==> r.Err?
  {
    var g := Annotate(nodes, index, rootId, rank);
    var keys := IndexKeys(nodes);
    ghost var s := Shape(index);
    ghost var u := set k | k in index && !Reaches(s, rank, rootId, k);
    if UniqueIds(nodes) {
      UnreachedClosed(g, s, rank, rootId, u);
    }
    r := AllocateAll(g, keys, rootId, columns, u);
    if r.Ok? {
      LoopDrawing(nodes, g, keys, rootId, columns, r.value);
      if UniqueIds(nodes) {
        CoveredNotAvoided(index, r.value, u);
      }
    }
  }

  /** A drawing of the index places every task, so it avoids only ids outside the index. */
  lemma CoveredNotAvoided(index: Index, placed: seq<Allocation>, u: set<string>)
    requires Covers(index, placed) && Avoids(placed, u)
    ensures forall k :: k in index ==> k !in u
  {
    forall k | k in index
      ensures k !in u
    {
      var i :| 0 <= i < |placed| && placed[i].node.id == k;
    }
  }

  /** The tasks the root does not reach are required only by tasks it does not reach. */
  lemma UnreachedClosed(g: Index, s: map<string, Node>, rank: map<string, nat>, rootId: string, u: set<string>)
    requires Ranked(s, rank) && rootId in s && SameShape(g, s) && Reversed(g)
    requires u == set k | k in s && !Reaches(s, rank, rootId, k)
    ensures Closed(g, u) && rootId !in u
  {
    forall k, p | k in u && k in g && p in g[k].requiredBy
      ensures p in u
    {
      assert g[p].Base() == s[p];
      if Reaches(s, rank, rootId, p) {
        ReachesRequirement(s, rank, rootId, p, k);
      }
    }
  }

  /** Coverage depends only on ids and tasks, which the annotation passes keep. */
  lemma CoversShape(index: Index, g: Index, placed: seq<Allocation>)
    requires SameShape(g, Shape(index)) && Covers(g, placed)
    ensures Covers(index, placed)
  {
    forall i | 0 <= i < |placed|
      ensures placed[i].node.id in index && placed[i].node.Base() == index[placed[i].node.id].Base()
    {
      var k := placed[i].node.id;
      assert g[k].Base() == Shape(index)[k];
    }
  }
}
