/**
 * The queue order of the layout (src/App.tsx:217-227): deeper records first, then
 * those with the larger tie-breaking count, then active before inactive. A missing
 * value ties with everything.
 */
module Priority {
  import opened Wrappers
  import opened Graph
  import opened Sorting

  /** `compare(v1, v2)`: zero when either value is missing, otherwise `v2 - v1`. */
  function Compare(v1: Option<nat>, v2: Option<nat>): int {
    if v1.None? || v2.None? then 0 else v2.value - v1.value
  }

  /** `+!!active`: 1 for an active record, 0 for an inactive or unannotated one. */
  function Bit(active: Option<bool>): nat {
    if active == Some(true) then 1 else 0
  }

  /** `compareNodes`: the first non-zero of the three comparisons, as `||` picks it. */
  function CompareNodes(n1: AnnotatedNode, n2: AnnotatedNode): int {
    var byDepth := Compare(n1.depth, n2.depth);
    if byDepth != 0 then byDepth
    else
      var byChildren := Compare(n1.children, n2.children);
      if byChildren != 0 then byChildren
      else Compare(Some(Bit(n1.active)), Some(Bit(n2.active)))
  }

  /** Depth and tie-breaking count are both set. */
  predicate Comparable(n: AnnotatedNode) {
    n.depth.Some? && n.children.Some?
  }

  /** `n1` strictly precedes `n2` in the lexicographic order of (depth, count, activity), all descending. */
  predicate Before(n1: AnnotatedNode, n2: AnnotatedNode)
    requires Comparable(n1) && Comparable(n2)
  {
    || n1.depth.value > n2.depth.value
    || (n1.depth.value == n2.depth.value && n1.children.value > n2.children.value)
    || (n1.depth.value == n2.depth.value && n1.children.value == n2.children.value && Bit(n1.active) > Bit(n2.active))
  }

  /** `n1` and `n2` agree on depth, count and activity. */
  predicate Level(n1: AnnotatedNode, n2: AnnotatedNode)
    requires Comparable(n1) && Comparable(n2)
  {
    n1.depth == n2.depth && n1.children == n2.children && Bit(n1.active) == Bit(n2.active)
  }

  /**
   * On annotated records the comparator is negative exactly when the first comes
   * strictly first, zero exactly on a tie, and positive exactly when the second does.
   */
  lemma CompareNodesMeaning(n1: AnnotatedNode, n2: AnnotatedNode)
    requires Comparable(n1) && Comparable(n2)
    ensures CompareNodes(n1, n2) < 0 <==> Before(n1, n2)
    ensures CompareNodes(n1, n2) == 0 <==> Level(n1, n2)
    ensures CompareNodes(n1, n2) > 0 <==> Before(n2, n1)
  {
  }

  /** A record whose depth and count are unset is ordered by its activity alone. */
  lemma CompareUnannotated(n1: AnnotatedNode, n2: AnnotatedNode)
    requires n1.depth.None? && n1.children.None?
    ensures CompareNodes(n1, n2) == Bit(n2.active) - Bit(n1.active)
    ensures CompareNodes(n2, n1) == Bit(n1.active) - Bit(n2.active)
  {
  }

  /** On annotated records the comparator is a consistent preorder, so the stable sort is well behaved. */
  lemma {:induction false} CompareNodesPreorder(u: seq<AnnotatedNode>)
    requires forall k :: 0 <= k < |u| ==> Comparable(u[k])
    ensures Preorder(CompareNodes, u)
  {
    forall a, b | a in u && b in u
      ensures Flips(CompareNodes, a, b)
    {
      CompareNodesMeaning(a, b);
      CompareNodesMeaning(b, a);
    }
    forall a, b, c | a in u && b in u && c in u
      ensures Chains(CompareNodes, a, b, c)
    {
      CompareNodesMeaning(a, b);
      CompareNodesMeaning(b, c);
      CompareNodesMeaning(a, c);
    }
  }

  /** In a queue sorted by `compareNodes`, depth never increases from front to back. */
  lemma SortedDeepestFirst(r: seq<AnnotatedNode>)
    requires forall k :: 0 <= k < |r| ==> r[k].depth.Some? && r[k].children.Some?
    requires Sorted(CompareNodes, r)
    ensures forall i, j :: 0 <= i < j < |r| ==> r[i].depth.value >= r[j].depth.value
  {
    forall i, j | 0 <= i < j < |r|
      ensures r[i].depth.value >= r[j].depth.value
    {
      CompareNodesMeaning(r[i], r[j]);
    }
  }
}
