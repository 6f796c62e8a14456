/**
 * The records of the layout engine (src/AnnotatedNode.tsx:3-8 and their uses in
 * src/App.tsx) and the node index built at src/App.tsx:207-211.
 */
module Graph {
  import opened Wrappers

  /** A task as the tracker supplies it (built at src/App.tsx:146-152); `dependencies` is its `requires` list. */
  datatype Node = Node(id: string, title: string, owner: Option<string>, dependencies: seq<string>, closed: bool)

  /**
   * A node with its reverse edges and the three memo fields written by the
   * annotator; `None` is a field that is still `undefined`.
   */
  datatype AnnotatedNode = AnnotatedNode(
    id: string, title: string, owner: Option<string>, dependencies: seq<string>, closed: bool,
    requiredBy: seq<string>, depth: Option<nat>, children: Option<nat>, active: Option<bool>)
  {
    /** The tracker entry this record annotates. */
    function Base(): Node {
      Node(id, title, owner, dependencies, closed)
    }

    /** All three memo fields are set. */
    predicate IsAnnotated() {
      depth.Some? && children.Some? && active.Some?
    }
  }

  /** A node placed at column `x` of row `y`. */
  datatype Allocation = Allocation(node: AnnotatedNode, x: int, y: int)

  /** Every allocation lies within the columns, in a row at or below the first. */
  ghost predicate OnGrid(placed: seq<Allocation>, columns: int) {
    forall i :: 0 <= i < |placed| ==> 0 <= placed[i].x < columns && 0 <= placed[i].y
  }

  /** No two allocations share a slot. */
  ghost predicate Apart(placed: seq<Allocation>) {
    forall i, j :: 0 <= i < j < |placed| ==> placed[i].x != placed[j].x || placed[i].y != placed[j].y
  }

  /** The node index: node id to its record. */
  type Index = map<string, AnnotatedNode>

  /** No id occurs twice. */
  ghost predicate Distinct<T>(s: seq<T>) {
    forall i, j :: 0 <= i < j < |s| ==> s[i] != s[j]
  }

  /** Every node has its own id. */
  ghost predicate UniqueIds(nodes: seq<Node>) {
    forall i, j :: 0 <= i < j < |nodes| ==> nodes[i].id != nodes[j].id
  }

  /** `{ ...node, requiredBy: [] }`. */
  function Fresh(n: Node): AnnotatedNode
  {
    AnnotatedNode(n.id, n.title, n.owner, n.dependencies, n.closed, [], None, None, None)
  }

  /** `Object.fromEntries(nodes.map(node => [node.id, Fresh(node)]))`: a later entry overwrites an earlier one. */
  function BuildIndex(nodes: seq<Node>): Index {
    if nodes == [] then map[]
    else BuildIndex(nodes[..|nodes| - 1])[nodes[|nodes| - 1].id := Fresh(nodes[|nodes| - 1])]
  }

  /** The keys of `BuildIndex(nodes)` in the order `Object.keys` lists them: by first insertion. */
  function IndexKeys(nodes: seq<Node>): seq<string> {
    if nodes == [] then []
    else
      var ks := IndexKeys(nodes[..|nodes| - 1]);
      if nodes[|nodes| - 1].id in ks then ks else ks + [nodes[|nodes| - 1].id]
  }

  /** The tasks behind the records of an index. */
  function Shape(g: Index): (s: map<string, Node>)
    ensures s.Keys == g.Keys && forall k :: k in g ==> s[k] == g[k].Base()
  {
    map k | k in g :: g[k].Base()
  }

  /** The index has one key per distinct id among the nodes. */
  lemma {:induction false} BuildIndexKeys(nodes: seq<Node>)
    ensures BuildIndex(nodes).Keys == set i | 0 <= i < |nodes| :: nodes[i].id
  {
    if nodes != [] {
      var n := |nodes| - 1;
      BuildIndexKeys(nodes[..n]);
      assert forall i :: 0 <= i < n ==> nodes[..n][i] == nodes[i];
    }
  }

  /** The record filed under an id is the fresh record of the LAST node carrying it. */
  lemma {:induction false} BuildIndexLastWins(nodes: seq<Node>, i: nat)
    requires i < |nodes| && forall j :: i < j < |nodes| ==> nodes[j].id != nodes[i].id
    ensures nodes[i].id in BuildIndex(nodes) && BuildIndex(nodes)[nodes[i].id] == Fresh(nodes[i])
  {
    var n := |nodes| - 1;
    if i < n {
      BuildIndexLastWins(nodes[..n], i);
    }
  }

  /** Every record in the index is fresh, filed under its own id, and made from one of the nodes. */
  lemma {:induction false} BuildIndexFresh(nodes: seq<Node>, k: string)
    requires k in BuildIndex(nodes)
    ensures var a := BuildIndex(nodes)[k];
      a.id == k && a.requiredBy == [] && a.depth.None? && a.children.None? && a.active.None?
      && a.Base() in nodes
  {
    var n := |nodes| - 1;
    if k != nodes[n].id {
      BuildIndexFresh(nodes[..n], k);
    }
  }

  /** With unique ids, each node's own record is filed under its id. */
  lemma BuildIndexUnique(nodes: seq<Node>, i: nat)
    requires UniqueIds(nodes) && i < |nodes|
    ensures nodes[i].id in BuildIndex(nodes) && BuildIndex(nodes)[nodes[i].id] == Fresh(nodes[i])
  {
    BuildIndexLastWins(nodes, i);
  }

  /** `Object.keys` of the index lists every key once. */
  lemma {:induction false} IndexKeysSpec(nodes: seq<Node>)
    ensures Distinct(IndexKeys(nodes))
    ensures forall k :: k in IndexKeys(nodes) <==> k in BuildIndex(nodes)
  {
    BuildIndexKeys(nodes);
    if nodes != [] {
      var n := |nodes| - 1;
      IndexKeysSpec(nodes[..n]);
      BuildIndexKeys(nodes[..n]);
    }
  }
}
