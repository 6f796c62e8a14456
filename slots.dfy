/**
 * The search for a free slot near an allocated dependent (src/App.tsx:243-265 and
 * 313-335). Every allocated dependent of the node seeds one candidate directly below
 * itself; at each further distance a candidate moves sideways in a widening ring
 * (+1, -1, +2, -2, ... around its centre) and, when it would leave the grid, drops to
 * the next row and restarts next to the dependent's column. The first free candidate
 * at the first distance that has one wins.
 */
module Slots {
  import opened Wrappers
  import opened Graph
  import opened Partition

  /** A search position derived from the allocation of `node`. */
  datatype Candidate = Candidate(node: AnnotatedNode, x: int, y: int, reset: int, initialX: int)

  /** The `throw new Error()` of a node none of whose dependents is placed. */
  datatype LayoutError = NoCandidates(id: string)

  /** `{ ...allocation, y: allocation.y + 1, reset: 0, initialX: allocation.x }`. */
  function Seed(a: Allocation): Candidate {
    Candidate(a.node, a.x, a.y + 1, 0, a.x)
  }

  /**
   * The allocations of nodes that list `node` as a requirement, in allocation order,
   * each seeded one row further down with the ring not yet started.
   */
  function InitialCandidates(placed: seq<Allocation>, node: AnnotatedNode): (cs: seq<Candidate>)
    ensures |cs| <= |placed|
  {
    if placed == [] then []
    else
      var cs := InitialCandidates(placed[..|placed| - 1], node);
      var a := placed[|placed| - 1];
      if a.node.id in node.requiredBy then cs + [Seed(a)] else cs
  }

  /**
   * One move of a candidate at the new `distance` (src/App.tsx:316-334). When the move
   * leaves the grid, the ring restarts one row down at `distance - 1`; when the column
   * right of the start is off the grid too, it goes one further left and the restart
   * distance is raised by one, to `distance`.
   */
  function Step(c: Candidate, distance: int, columns: int): Candidate {
    var d := distance - c.reset;
    var x := c.x + (if d % 2 != 0 then d else -d);
    if x < 0 || x >= columns then
      var x' := c.initialX + 1;
      if x' >= columns then c.(x := x' - 2, y := c.y + 1, reset := distance)
      else c.(x := x', y := c.y + 1, reset := distance - 1)
    else c.(x := x)
  }

  /** `candidates.map(...)`: every candidate moves. */
  function StepAll(cs: seq<Candidate>, distance: int, columns: int): seq<Candidate>
  {
    seq(|cs|, i requires 0 <= i < |cs| => Step(cs[i], distance, columns))
  }

  /** The candidates after `distance` moves. */
  function Ring(placed: seq<Allocation>, node: AnnotatedNode, columns: int, distance: nat): seq<Candidate> {
    if distance == 0 then InitialCandidates(placed, node)
    else StepAll(Ring(placed, node, columns, distance - 1), distance, columns)
  }

  /** No allocation occupies the slot of `c`. */
  predicate IsFree(placed: seq<Allocation>, c: Candidate) {
    forall i :: 0 <= i < |placed| ==> !(placed[i].x == c.x && placed[i].y == c.y)
  }

  /** `candidates.filter(...)`: the candidates whose slot is free, in candidate order. */
  function FreeSlots(placed: seq<Allocation>, cs: seq<Candidate>): (fs: seq<Candidate>)
    ensures |fs| <= |cs|
  {
    if cs == [] then []
    else
      var fs := FreeSlots(placed, cs[..|cs| - 1]);
      if IsFree(placed, cs[|cs| - 1]) then fs + [cs[|cs| - 1]] else fs
  }

  /** The lowest occupied row, or -1 when nothing is placed. */
  function MaxRow(placed: seq<Allocation>): (m: int)
    ensures forall i :: 0 <= i < |placed| ==> placed[i].y <= m
  {
    if placed == [] then -1
    else
      var m := MaxRow(placed[..|placed| - 1]);
      assert forall i :: 0 <= i < |placed| - 1 ==> placed[..|placed| - 1][i] == placed[i];
      if placed[|placed| - 1].y > m then placed[|placed| - 1].y else m
  }

  /** The sideways offset from the ring's centre after `t` moves: 0, +1, -1, +2, -2, ... */
  function Offset(t: nat): int {
    if t % 2 == 1 then (t + 1) / 2 else -(t / 2)
  }

  /**
   * The ring of `c` is on the grid: its centre is at `x - Offset(t)` for the phase
   * `t = distance - reset`, and every offset up to `t` has stayed within the columns.
   */
  ghost predicate Sound(c: Candidate, distance: int, columns: int) {
    var t := distance - c.reset;
    && 0 <= t
    && 0 <= c.initialX < columns
    && 0 <= c.x - Offset(t) - t / 2
    && c.x - Offset(t) + (t + 1) / 2 < columns
  }

  /** A sound candidate is on the grid and its phase is below the number of columns. */
  lemma SoundBounds(c: Candidate, distance: int, columns: int)
    requires Sound(c, distance, columns)
    ensures 0 <= c.x < columns && distance - c.reset < columns
  {
  }

  /** A move keeps a sound candidate sound, never raises it, and keeps its dependent. */
  lemma StepSound(c: Candidate, distance: int, columns: int)
    requires columns >= 2 && Sound(c, distance - 1, columns)
    ensures var c' := Step(c, distance, columns);
      && Sound(c', distance, columns)
      && c'.node == c.node && c'.initialX == c.initialX
      && (c'.y == c.y || c'.y == c.y + 1)
      && (c'.y == c.y ==> c'.reset == c.reset)
  {
    var t := distance - 1 - c.reset;
    assert Offset(t + 1) == Offset(t) + (if (t + 1) % 2 != 0 then t + 1 else -(t + 1));
  }

  /** The candidates after any number of moves follow their seeds: same dependent and column, never higher. */
  lemma {:induction false} RingTracks(placed: seq<Allocation>, node: AnnotatedNode, columns: int, distance: nat)
    requires columns >= 2 && OnGrid(placed, columns)
    ensures |Ring(placed, node, columns, distance)| == |InitialCandidates(placed, node)|
    ensures forall i :: 0 <= i < |Ring(placed, node, columns, distance)| ==>
      var c, c0 := Ring(placed, node, columns, distance)[i], InitialCandidates(placed, node)[i];
      c.node == c0.node && c.initialX == c0.initialX && c.y >= c0.y && Sound(c, distance, columns)
  {
    var init := InitialCandidates(placed, node);
    if distance == 0 {
      forall i | 0 <= i < |init|
        ensures Sound(init[i], 0, columns)
      {
        var k := InitialCandidatesFrom(placed, node, i);
        assert Offset(0) == 0;
      }
    } else {
      RingTracks(placed, node, columns, distance - 1);
      var prev := Ring(placed, node, columns, distance - 1);
      forall i | 0 <= i < |prev|
        ensures Sound(Step(prev[i], distance, columns), distance, columns)
        ensures Step(prev[i], distance, columns).y >= prev[i].y
      {
        StepSound(prev[i], distance, columns);
      }
    }
  }

  /** Each seed is the seed of an allocated dependent. */
  lemma {:induction false} InitialCandidatesFrom(placed: seq<Allocation>, node: AnnotatedNode, i: nat) returns (k: nat)
    requires i < |InitialCandidates(placed, node)|
    ensures k < |placed| && placed[k].node.id in node.requiredBy
    ensures InitialCandidates(placed, node)[i] == Seed(placed[k])
  {
    var n := |placed| - 1;
    var cs := InitialCandidates(placed[..n], node);
    if i < |cs| {
      k := InitialCandidatesFrom(placed[..n], node, i);
      assert placed[..n][k] == placed[k];
    } else {
      k := n;
    }
  }

  /** Whether an allocation holds a task that lists `node` as a requirement. */
  function IsDependentOf(node: AnnotatedNode): Allocation -> bool {
    (a: Allocation) => a.node.id in node.requiredBy
  }

  /** The seed of every allocation, in order. */
  function Seeds(placed: seq<Allocation>): seq<Candidate> {
    seq(|placed|, i requires 0 <= i < |placed| => Seed(placed[i]))
  }

  /**
   * The seeds are exactly those of the allocated dependents, in allocation order, so
   * the filter's laws (every dependent kept, order kept) carry over to them.
   */
  lemma {:induction false} InitialCandidatesSeeds(placed: seq<Allocation>, node: AnnotatedNode)
    ensures InitialCandidates(placed, node) == Seeds(Filter(placed, IsDependentOf(node)))
  {
    if placed != [] {
      var n := |placed| - 1;
      var p := IsDependentOf(node);
      InitialCandidatesSeeds(placed[..n], node);
      assert placed == placed[..n] + [placed[n]];
      FilterAppend(placed[..n], [placed[n]], p);
      assert Filter([placed[n]], p) == if p(placed[n]) then [placed[n]] else [] by {
        assert [placed[n]][1..] == [];
      }
      var f := Filter(placed[..n], p);
      if p(placed[n]) {
        assert Seeds(f + [placed[n]]) == Seeds(f) + [Seed(placed[n])];
      } else {
        assert f + [] == f;
      }
    }
  }

  /** Every allocated dependent seeds a candidate. */
  lemma InitialCandidatesComplete(placed: seq<Allocation>, node: AnnotatedNode, k: nat)
    requires k < |placed| && placed[k].node.id in node.requiredBy
    ensures Seed(placed[k]) in InitialCandidates(placed, node)
  {
    InitialCandidatesSeeds(placed, node);
    FilterKeeps(placed, IsDependentOf(node), placed[k]);
    var f := Filter(placed, IsDependentOf(node));
    var j :| 0 <= j < |f| && f[j] == placed[k];
    assert Seeds(f)[j] == Seed(placed[k]);
  }

  /** There are no seeds exactly when no dependent of the node is allocated. */
  lemma {:induction false} InitialCandidatesEmpty(placed: seq<Allocation>, node: AnnotatedNode)
    ensures InitialCandidates(placed, node) == [] <==> forall k :: 0 <= k < |placed| ==> placed[k].node.id !in node.requiredBy
  {
    if placed != [] {
      var n := |placed| - 1;
      InitialCandidatesEmpty(placed[..n], node);
      assert forall k :: 0 <= k < n ==> placed[..n][k] == placed[k];
    }
  }

  /** Nothing allocated lies below the lowest occupied row. */
  lemma BelowIsFree(placed: seq<Allocation>, c: Candidate)
    requires c.y > MaxRow(placed)
    ensures IsFree(placed, c)
  {
  }

  /** No distance before `distance` had a free candidate. */
  ghost predicate NoneFreeBefore(placed: seq<Allocation>, node: AnnotatedNode, columns: int, distance: nat) {
    forall t :: 0 <= t < distance ==> FreeSlots(placed, Ring(placed, node, columns, t)) == []
  }

  /** A candidate that is free is among the free slots. */
  lemma {:induction false} FreeKept(placed: seq<Allocation>, cs: seq<Candidate>, c: Candidate)
    requires c in cs && IsFree(placed, c)
    ensures FreeSlots(placed, cs) != []
  {
    var n := |cs| - 1;
    if c != cs[n] {
      assert c in cs[..n] by {
        var i :| 0 <= i < |cs| && cs[i] == c;
        assert cs[..n][i] == c;
      }
      FreeKept(placed, cs[..n], c);
    }
  }

  /** The first free slot is the first candidate whose slot is free. */
  lemma {:induction false} FreeSlotsHead(placed: seq<Allocation>, cs: seq<Candidate>) returns (i: nat)
    requires FreeSlots(placed, cs) != []
    ensures i < |cs| && FreeSlots(placed, cs)[0] == cs[i] && IsFree(placed, cs[i])
    ensures forall j :: 0 <= j < i ==> !IsFree(placed, cs[j])
  {
    var n := |cs| - 1;
    var fs := FreeSlots(placed, cs[..n]);
    if fs != [] {
      i := FreeSlotsHead(placed, cs[..n]);
      assert forall j :: 0 <= j <= i ==> cs[..n][j] == cs[j];
    } else {
      i := n;
      forall j | 0 <= j < n
        ensures !IsFree(placed, cs[j])
      {
        if IsFree(placed, cs[j]) {
          assert cs[..n][j] == cs[j];
          FreeKept(placed, cs[..n], cs[j]);
        }
      }
    }
  }

  /** How many rows the first candidate can still drop before its slot is surely free. */
  ghost function RowsLeft(placed: seq<Allocation>, cs: seq<Candidate>): int {
    if cs == [] then 0 else MaxRow(placed) + 1 - cs[0].y
  }

  /** How many more moves the first candidate can make within its row. */
  ghost function PhasesLeft(cs: seq<Candidate>, distance: int, columns: int): int {
    if cs == [] then 0 else columns - (distance - cs[0].reset)
  }

  /** The state of the slot search at `distance`: the ring so far, sound, with no free slot before. */
  ghost predicate Searching(placed: seq<Allocation>, node: AnnotatedNode, columns: int, distance: nat, cs: seq<Candidate>) {
    && cs == Ring(placed, node, columns, distance)
    && NoneFreeBefore(placed, node, columns, distance)
  }

  /** The search starts at the seeds. */
  lemma SearchStart(placed: seq<Allocation>, node: AnnotatedNode, columns: int)
    ensures Searching(placed, node, columns, 0, InitialCandidates(placed, node))
  {
  }

  /**
   * A distance with no free slot leads to the next one, and the first candidate
   * either drops a row or moves one phase further out within its row, never past
   * the lowest occupied row.
   */
  lemma SearchNext(placed: seq<Allocation>, node: AnnotatedNode, columns: int, distance: nat, cs: seq<Candidate>)
    requires columns >= 2 && OnGrid(placed, columns) && Searching(placed, node, columns, distance, cs)
    requires cs != [] && FreeSlots(placed, cs) == []
    ensures var cs' := StepAll(cs, distance + 1, columns);
      && Searching(placed, node, columns, distance + 1, cs')
      && 0 <= RowsLeft(placed, cs)
      && (|| RowsLeft(placed, cs') < RowsLeft(placed, cs)
          || (RowsLeft(placed, cs') == RowsLeft(placed, cs)
              && 0 <= PhasesLeft(cs, distance, columns)
              && PhasesLeft(cs', distance + 1, columns) < PhasesLeft(cs, distance, columns)))
  {
    var cs' := StepAll(cs, distance + 1, columns);
    assert cs' == Ring(placed, node, columns, distance + 1);
    NoneFreeNext(placed, node, columns, distance);
    RingTracks(placed, node, columns, distance);
    TakenAbove(placed, cs);
    Advance(cs[0], distance, columns);
    assert cs'[0] == Step(cs[0], distance + 1, columns);
  }

  /** A distance without a free slot extends the distances without one. */
  lemma NoneFreeNext(placed: seq<Allocation>, node: AnnotatedNode, columns: int, distance: nat)
    requires NoneFreeBefore(placed, node, columns, distance)
    requires FreeSlots(placed, Ring(placed, node, columns, distance)) == []
    ensures NoneFreeBefore(placed, node, columns, distance + 1)
  {
  }

  /** A ring with no free slot has its first candidate at or above the lowest occupied row. */
  lemma TakenAbove(placed: seq<Allocation>, cs: seq<Candidate>)
    requires cs != [] && FreeSlots(placed, cs) == []
    ensures cs[0].y <= MaxRow(placed)
  {
    if cs[0].y > MaxRow(placed) {
      BelowIsFree(placed, cs[0]);
      FreeKept(placed, cs, cs[0]);
    }
  }

  /** One move of a sound candidate: it stays sound, and drops a row or moves one phase further out with phases to spare. */
  lemma Advance(c: Candidate, distance: int, columns: int)
    requires columns >= 2 && Sound(c, distance, columns)
    ensures var c' := Step(c, distance + 1, columns);
      && Sound(c', distance + 1, columns)
      && (c'.y == c.y + 1 || (c'.y == c.y && c'.reset == c.reset && distance - c.reset < columns))
  {
    SoundBounds(c, distance, columns);
    StepSound(c, distance + 1, columns);
  }

  /**
   * What the slot search returns: the error exactly when the node has no seed, and
   * otherwise the first free slot at `distance`, the first distance that has one.
   */
  ghost predicate SearchOutcome(placed: seq<Allocation>, node: AnnotatedNode, columns: int, r: Result<Candidate, LayoutError>, distance: nat) {
    && (r.Err? <==> InitialCandidates(placed, node) == [])
    && (r.Err? ==> r.error == NoCandidates(node.id))
    && (r.Ok? ==>
         && FreeSlots(placed, Ring(placed, node, columns, distance)) != []
         && r.value == FreeSlots(placed, Ring(placed, node, columns, distance))[0])
    && NoneFreeBefore(placed, node, columns, distance)
  }

  /** The search stops with the error on an empty ring. */
  lemma SearchFails(placed: seq<Allocation>, node: AnnotatedNode, columns: int, distance: nat, cs: seq<Candidate>)
    requires columns >= 2 && OnGrid(placed, columns) && Searching(placed, node, columns, distance, cs) && cs == []
    ensures SearchOutcome(placed, node, columns, Err(NoCandidates(node.id)), distance)
  {
    RingTracks(placed, node, columns, distance);
  }

  /** The search stops at the first free slot of a ring that has one. */
  lemma SearchSucceeds(placed: seq<Allocation>, node: AnnotatedNode, columns: int, distance: nat, cs: seq<Candidate>)
    requires columns >= 2 && OnGrid(placed, columns) && Searching(placed, node, columns, distance, cs)
    requires FreeSlots(placed, cs) != []
    ensures SearchOutcome(placed, node, columns, Ok(FreeSlots(placed, cs)[0]), distance)
  {
    RingTracks(placed, node, columns, distance);
  }

  /**
   * The slot the search settles on is free, on the grid, and below the allocation of
   * a dependent of the node, the one it was seeded from; every candidate before it
   * in the ring is taken.
   */
  lemma FoundSlot(placed: seq<Allocation>, node: AnnotatedNode, columns: int, distance: nat) returns (k: nat)
    requires columns >= 2 && OnGrid(placed, columns)
    requires FreeSlots(placed, Ring(placed, node, columns, distance)) != []
    ensures var c := FreeSlots(placed, Ring(placed, node, columns, distance))[0];
      && IsFree(placed, c) && 0 <= c.x < columns
      && k < |placed| && placed[k].node.id in node.requiredBy
      && c.node == placed[k].node && c.initialX == placed[k].x && c.y > placed[k].y
  {
    var cs := Ring(placed, node, columns, distance);
    var i := FreeSlotsHead(placed, cs);
    RingTracks(placed, node, columns, distance);
    k := InitialCandidatesFrom(placed, node, i);
    SoundBounds(cs[i], distance, columns);
  }

  /**
   * `while (true)` of the slot search: throws when the node has no allocated
   * dependent, otherwise returns the first free candidate at the first distance
   * that has one. Every allocation on the grid and at least two columns make it
   * stop: each candidate either moves outwards along its row or drops a row, and
   * below the lowest occupied row every slot is free.
   */
  method RingSearch(placed: seq<Allocation>, node: AnnotatedNode, columns: int)
    returns (r: Result<Candidate, LayoutError>, distance: nat)
    requires columns >= 2 && OnGrid(placed, columns)
    ensures SearchOutcome(placed, node, columns, r, distance)
  {
    var candidates := InitialCandidates(placed, node);
    distance := 0;
    SearchStart(placed, node, columns);
    while true
      invariant Searching(placed, node, columns, distance, candidates)
      decreases RowsLeft(placed, candidates), PhasesLeft(candidates, distance, columns)
    {
      if |candidates| == 0 {
        SearchFails(placed, node, columns, distance, candidates);
        return Err(NoCandidates(node.id)), distance;
      }
      var freeSlots := FreeSlots(placed, candidates);
      if |freeSlots| > 0 {
        SearchSucceeds(placed, node, columns, distance, candidates);
        return Ok(freeSlots[0]), distance;
      }
      SearchNext(placed, node, columns, distance, candidates);
      distance := distance + 1;
      candidates := StepAll(candidates, distance, columns);
    }
  }
}
