# Roadmap layout and tracker requests

This project models the core of a small web front end that draws a task tracker's
dependency graph as a roadmap. The root task sits in the middle of the top row and
the tasks it depends on hang below it, row by row. The model covers:

- the node index and its reverse edges (`generateNodeParents`);
- the memoised depth walk that annotates every reachable task with `depth`,
  `children` and `active` (`generateNodeDepth`);
- the queue order (`compareNodes`) and the stable partition `bisect`;
- the allocation loop of the `App` component:
  - the column count from the window width;
  - the initial queue, sorted deepest first, with the root in the middle of row 0;
  - for each queued task, the ring search for the nearest free slot below an
    allocated dependent, the error when there is none, and the horizontal
    re-centring of that dependent;
  - moving the placed task's own requirements to the front of the queue;
- the request encoding of the tracker client: `objToParams` flattening a nested
  object into `a[b][c]` form fields, the token field in front, and the
  `application/x-www-form-urlencoded` body.

Modules, one per part of the source:

| module | file | models |
|---|---|---|
| `Wrappers` | wrappers.dfy | `Option`, `Result` |
| `Graph` | graph.dfy | tasks, annotated records, allocations, the node index |
| `Partition` | partition.dfy | `bisect` and the order-preserving filter that specifies it |
| `Sorting` | sorting.dfy | `Array.prototype.sort` with a comparator, as a stable insertion sort (the language fixes the order only for a consistent comparator) |
| `Parents` | parents.dfy | `generateNodeParents` |
| `Depth` | depth.dfy | `generateNodeDepth`, with recursive reference definitions of depth, count and activity |
| `Priority` | priority.dfy | `compare` and `compareNodes` |
| `Slots` | slots.dfy | the ring search for a free slot |
| `Centring` | recentre.dfy | re-centring a dependent after one of its requirements is placed |
| `Allocate` | allocate.dfy | the allocation loop |
| `App` | app.dfy | the column count, the guard, and the whole layout pass |
| `Phabricator` | params.dfy | `objToParams`, the request parameters and the body |

The code mutates the node index and the `allocated` array in place. The model threads
them as values: `map<string, AnnotatedNode>` and `seq<Allocation>`. Methods return the
updated value, and their loops keep the invariants. A record is reached only through
the index, or through an allocation that holds the same record, and nothing writes a
record after the depth pass (src/App.tsx:215). So threading the values computes what
the code computes.

Main guarantees proved:

- `App.Allocations`: with no nodes, no root id, or a root id outside the index, the
  result is the empty layout. Otherwise, a result that is not the error is a drawing:
  - every indexed task is allocated exactly once;
  - each allocated record carries the reverse edges of its task: the ids of the tasks
    that list it;
  - each allocated record carries its memo fields: they are set exactly when the root
    reaches the task, and then hold its specified depth, count and activity;
  - the root is in the middle of row 0;
  - every allocation is inside the columns;
  - no two allocations share a slot;
  - every other task sits in a lower row than one of its dependents, a task that lists
    it as a requirement.
  When every task is reachable from the root, the loop never throws. With unique ids
  it throws whenever some task is not reachable, so failure is exactly unreachability.
- `Depth.GenerateNodeDepth`:
  - it annotates exactly the tasks reachable from its start that were not yet annotated;
  - it gives them the values of the recursive reference definitions;
  - it leaves every other record as it was;
  - on an annotated start it returns the index unchanged, so a second call with the
    same start changes nothing.
  The lemmas on those definitions say what they mean:
  - `depth` is the length of the longest requirement chain;
  - the tie-breaking count is never below the depth;
  - a task is active exactly when a closed leaf lies below it.
- `Slots.RingSearch`:
  - it fails exactly when no dependent is allocated;
  - otherwise it returns the first free candidate at the first distance that has one;
  - it terminates, and the slot it returns is on the grid, free, and below the dependent
    it started from.
- `Phabricator`:
  - every field of the flattened object carries the value of the last primitive at its
    path;
  - with distinct paths, the flattening lists the primitives in entry order;
  - the token field comes first and the data can override it;
  - with an encoder that never emits `&`, the body splits at `&` into exactly one part
    per field, in order;
  - with an encoder that also never emits `=` and a decoder `dec` that inverts it
    (`dec(enc(s)) == s` for every `s`, so the encoder is injective), the body reads
    back as exactly the fields.

## Model

| member | source | states |
|---|---|---|
| Partition.Bisect | src/App.tsx:9-21 | the first half is exactly the elements satisfying the predicate and the second exactly the others, each in input order |
| Partition.FilterPartition | src/App.tsx:9-21 | the two halves together hold every element of the input, each as often as in the input |
| Partition.FilterAppend | src/App.tsx:9-21 | filtering a concatenation is concatenating the filtered parts |
| Partition.FilterKeeps | src/App.tsx:14-15 | no element that satisfies the predicate is dropped |
| Partition.FilterPositionsRead | src/App.tsx:12-19 | each half is the input read at a sequence of positions |
| Partition.FilterPositionsIncrease | src/App.tsx:12-19 | those positions strictly increase, so each half keeps input order |
| Partition.FilterPositionsComplete | src/App.tsx:12-19 | every position whose element satisfies the predicate is among them |
| Sorting.SortPermutes | src/App.tsx:230-233 | sorting only reorders: the result is a permutation of the input |
| Sorting.SortSorted | src/App.tsx:230-233 | under a comparator consistent on the elements, no element of the result strictly precedes one in front of it |
| Sorting.SortStable | src/App.tsx:230-233 | elements that tie keep their input order |
| Sorting.SortLength | src/App.tsx:230-233 | the result is as long as the input |
| Sorting.SortHeadIsFirstMinimum | src/App.tsx:307-309 | the head of the sorted sequence is the first input element that no element strictly precedes |
| Graph.BuildIndexKeys | src/App.tsx:207-211 | the index keys are exactly the ids of the nodes |
| Graph.BuildIndexLastWins | src/App.tsx:207-211 | for a repeated id the last node with that id is indexed |
| Graph.BuildIndexFresh | src/App.tsx:207-211 | every indexed record is the fresh record of one of the nodes, filed under its own id |
| Graph.BuildIndexUnique | src/App.tsx:207-211 | with distinct ids every node is indexed as its fresh record |
| Graph.IndexKeysSpec | src/App.tsx:230 | the key list lists every index key exactly once and nothing else |
| Parents.Push | src/App.tsx:29 | an indexed requirement gets the id appended to its reverse edges; a missing one is skipped; nothing else changes |
| Parents.GenerateNodeParents | src/App.tsx:23-32 | keeps the keys, and appends to each record's reverse edges the ids of the nodes that list it, in node order, once per listing |
| Parents.ParentsOfMembers | src/App.tsx:27-31 | an id is among the appended parents of `d` exactly when some node with that id lists `d` |
| Parents.ParentsOfLength | src/App.tsx:27-31 | one id is appended per occurrence of `d` in the requirement lists, duplicates included |
| Parents.CountPositive | src/App.tsx:28 | a requirement is counted exactly when it occurs in the list |
| Depth.Resolvable | src/App.tsx:42-44 | the requirements kept are indexed requirements of the node |
| Depth.ResolvableKeeps | src/App.tsx:42-44 | every indexed requirement is kept |
| Depth.MaxOf | src/App.tsx:54-55 | the maximum bounds every element and is one of them |
| Depth.AnyOf | src/App.tsx:60 | true exactly when some element is true |
| Depth.SumOfBounds | src/App.tsx:57-59 | every summand is at most the sum |
| Depth.MemoEmpty | src/App.tsx:210 | an index with no depth set satisfies the memo invariant |
| Depth.AlreadySettled | src/App.tsx:38-40 | an annotated start node returns at once and changes nothing |
| Depth.SettleLeaf | src/App.tsx:46-51 | a task without indexed requirements gets depth 0, count 0 and its own closedness |
| Depth.SettleInner | src/App.tsx:53-60 | after the requirements are walked, the node gets its specified depth, count and activity |
| Depth.SettledValues | src/App.tsx:54-60 | the maximum, sum and some over the requirements' memo fields equal the specified values |
| Depth.SettleOne | src/App.tsx:54-60 | setting the specified values keeps the memo invariant |
| Depth.WalkedStep | src/App.tsx:53 | walking one more requirement extends the annotated set by what it reaches |
| Depth.WalkedCovers | src/App.tsx:53 | after the walk the node itself is unchanged and all its requirements are annotated |
| Depth.SettleClose | src/App.tsx:53-60 | setting the node after the walk meets the walk's postcondition |
| Depth.ReachesUnfold | src/App.tsx:42-53 | a task reaches itself and whatever its indexed requirements reach, and nothing else |
| Depth.ReachesSomeSnoc | src/App.tsx:53 | reaching from one more requirement adds what it reaches |
| Depth.GenerateNodeDepth | src/App.tsx:34-61 | annotates exactly the tasks reachable from the start that had no depth, with their specified values; keeps the memo invariant and every other record; on an annotated start returns the index unchanged |
| Depth.DepthPostIdle | src/App.tsx:38-40 | under the memo invariant, a call on an annotated start can only leave the index as it was |
| Depth.DepthTwice | src/App.tsx:34-61 | a second call with the same start changes nothing |
| Depth.ReachesTrans | src/App.tsx:42-53 | what a reached task reaches is reached |
| Depth.ReachesRequirement | src/App.tsx:42-53 | an indexed requirement of a reached task is reached |
| Depth.SettleRequirements | src/App.tsx:53 | walking the requirements in order annotates exactly what they reach |
| Depth.ReachedSettled | src/App.tsx:34-61 | under the memo invariant, everything below an annotated task is annotated |
| Depth.RequirementRank | src/App.tsx:42-44 | every kept requirement is ranked below its task |
| Depth.ReachesRank | src/App.tsx:42-53 | everything a task reaches is indexed and ranked no higher |
| Depth.DepthIsLongestChain | src/App.tsx:46-55 | depth is 0 exactly without indexed requirements, every requirement is shallower, and one is exactly one shallower |
| Depth.ChildrenAtLeastDepth | src/App.tsx:56-59 | the tie-breaking count is never below the depth |
| Depth.ActiveIffClosedLeaf | src/App.tsx:49-60 | a task is active exactly when a closed task without indexed requirements lies below it |
| Depth.ActiveLeaf | src/App.tsx:49-60 | an active task reaches a closed leaf |
| Depth.LeafActive | src/App.tsx:49-60 | a task that reaches a closed leaf is active |
| Priority.CompareNodesMeaning | src/App.tsx:217-227 | on annotated records the comparator is negative, zero or positive exactly as the first is deeper, level or shallower in (depth, count, activity), all descending |
| Priority.CompareUnannotated | src/App.tsx:217-227 | a record without depth and count compares by the activity bit alone |
| Priority.CompareNodesPreorder | src/App.tsx:224-227 | on annotated records the comparator is consistent: its sign flips with its arguments and "not after" is transitive |
| Priority.SortedDeepestFirst | src/App.tsx:230-233 | a queue sorted by the comparator lists records by non-increasing depth |
| Slots.InitialCandidates | src/App.tsx:243-253 | there is at most one seed per allocation |
| Slots.InitialCandidatesSeeds | src/App.tsx:243-253 | the seeds are exactly the seeds of the placed dependents of the node, in allocation order (the filter's laws then give completeness and order) |
| Slots.InitialCandidatesComplete | src/App.tsx:243-253 | every placed dependent of the node seeds a candidate |
| Slots.InitialCandidatesFrom | src/App.tsx:243-253 | every seed is one row below a placed dependent of the node, in its column |
| Slots.InitialCandidatesEmpty | src/App.tsx:243-256 | there are no seeds exactly when no dependent of the node is placed |
| Slots.FreeSlots | src/App.tsx:258-264 | keeps at most the candidates it is given |
| Slots.MaxRow | src/App.tsx:258-264 | no allocation lies below the returned row |
| Slots.StepSound | src/App.tsx:315-335 | a step keeps the candidate's ring on the grid, its node and start column, and moves it down at most one row, keeping its restart distance within a row |
| Slots.Advance | src/App.tsx:315-335 | a step either drops a row or keeps the row with the phase still below the column count |
| Slots.SoundBounds | src/App.tsx:317-327 | a candidate on a sound ring is inside the columns |
| Slots.RingTracks | src/App.tsx:254-336 | at every distance each candidate is on the grid, of its seed's node and start column, and no higher than its seed |
| Slots.BelowIsFree | src/App.tsx:258-264 | a slot below every allocation is free |
| Slots.FreeKept | src/App.tsx:258-265 | a free candidate makes the free slots non-empty |
| Slots.FreeSlotsHead | src/App.tsx:265-266 | the first free slot is the first free candidate in candidate order |
| Slots.TakenAbove | src/App.tsx:258-265 | when no candidate is free, the first one is not below every allocation |
| Slots.SearchStart | src/App.tsx:247-253 | the search starts at the seeds |
| Slots.SearchNext | src/App.tsx:313-335 | a step without a free slot keeps the search state and strictly decreases the termination measure |
| Slots.NoneFreeNext | src/App.tsx:254-313 | failing at one more distance extends "no free slot so far" |
| Slots.SearchFails | src/App.tsx:255-257 | an empty ring ends the search with the error |
| Slots.SearchSucceeds | src/App.tsx:265-266 | a ring with a free slot ends the search at its first free slot |
| Slots.FoundSlot | src/App.tsx:254-266 | the slot found is free, inside the columns, and below the placed dependent it started from |
| Slots.RingSearch | src/App.tsx:247-336 | errs exactly when no dependent is placed; otherwise returns the first free candidate at the first distance with one, no earlier distance having one |
| Centring.Find | src/App.tsx:272-274 | the position of the first allocation of the id, or none when no allocation has it |
| Centring.Resolve | src/App.tsx:289-293 | keeps at most one neighbour per link |
| Centring.ResolveFrom | src/App.tsx:289-293 | every neighbour is a link whose id is allocated, at the column of that id's first allocation |
| Centring.ResolveAll | src/App.tsx:289-293 | when every link's id is allocated, none is dropped |
| Centring.ResolveLocates | src/App.tsx:289-293 | the neighbours are exactly the links whose ids are allocated, in link order, each at the column of its id's first allocation |
| Centring.ResolveComplete | src/App.tsx:289-293 | every link whose id is allocated contributes its neighbour, at the column of that id's first allocation |
| Centring.ScoreZero | src/App.tsx:301-305 | with positive weights a column scores zero exactly when every neighbour sits in it |
| Centring.OpenColumns | src/App.tsx:295-298 | the open columns are unoccupied columns of the row, inside the grid, in increasing order |
| Centring.OpenColumnsComplete | src/App.tsx:295-298 | every unoccupied column of the row is open |
| Centring.ByScorePreorder | src/App.tsx:307 | comparing by score is a consistent comparator |
| Centring.BestColumnChoice | src/App.tsx:295-309 | the chosen column is a free column or the parent's own, none scores lower, and every column listed before it scores strictly higher |
| Centring.BestColumnNoWorse | src/App.tsx:295-309 | the chosen column never scores worse than staying put |
| Centring.Recentre | src/App.tsx:309 | only the column of the parent's allocation changes |
| Centring.RecentreKeeps | src/App.tsx:271-310 | re-centring keeps the allocations apart and on the grid |
| Allocate.AppendKeeps | src/App.tsx:266 | appending the found slot keeps the layout |
| Allocate.RecentreLayout | src/App.tsx:271-310 | re-centring a non-root allocation keeps the layout and the placed records |
| Allocate.RepositionKeeps | src/App.tsx:271-310 | the re-centring step, for any dependent, keeps the layout and the placed records |
| Allocate.RequeueKeeps | src/App.tsx:337-341 | moving the requirements to the front keeps the rest of the queue as a permutation |
| Allocate.QueueNext | src/App.tsx:238-240 | taking the head leaves records of the index, one fewer, the head plus the rest being the old queue |
| Allocate.SameRecordsFromIndex | src/App.tsx:238-241 | a sub-multiset of index records holds index records |
| Allocate.FrontHasSeeds | src/App.tsx:243-256 | when every queued record has an anchor, the head has a placed dependent, so the loop does not throw |
| Allocate.AnchorDescendant | src/App.tsx:337-341 | a requirement of the placed node, moved to the front, is anchored by it |
| Allocate.AnchorOther | src/App.tsx:337-341 | any other record keeps an anchor after the reorder |
| Allocate.RequeueKeepsEarlier | src/App.tsx:337-341 | a record queued in front of another still is, after the reorder |
| Allocate.LeftBehindEarlier | src/App.tsx:337-341 | among the records left behind, input order is kept |
| Allocate.QueuedBehind | src/App.tsx:341 | a record of the second part sits behind the first part |
| Allocate.AnchorsNext | src/App.tsx:337-341 | after placing the head, every record of the reordered queue has an anchor |
| Allocate.PlacedGrows | src/App.tsx:266 | placing keeps the placed ids and adds the new one |
| Allocate.PlaceLayout | src/App.tsx:266-310 | placing and then re-centring keeps the layout and appends the record |
| Allocate.PlaceStep | src/App.tsx:237-342 | one iteration keeps the loop invariant and shortens the queue |
| Allocate.InitialQueueRecords | src/App.tsx:230-233 | the sorted queue is a permutation of the non-root records, all from the index, none the root |
| Allocate.InitialQueueCovers | src/App.tsx:230-233 | every non-root record is queued |
| Allocate.SortedAnchor | src/App.tsx:230-235 | in the sorted queue every record has a dependent that is the root or queued in front of it |
| Allocate.AnchorsStart | src/App.tsx:230-235 | the initial queue is anchored |
| Allocate.AllocateStart | src/App.tsx:230-235 | the root in the middle of row 0 with the sorted queue satisfies the loop invariant |
| Allocate.AllocateAll | src/App.tsx:229-342 | a result is a layout holding the root and each queued record once; when every record is annotated and has a deeper dependent, there is no error; a result places no record of a set that holds no root and no dependent of a record outside it |
| Allocate.AvoidStep | src/App.tsx:246-266 | a record placed below one of its dependents is outside such a set, so the layout still avoids the set |
| Allocate.RepositionAvoids | src/App.tsx:271-310 | re-centring keeps the records of the allocations |
| App.Columns | src/App.tsx:64-69 | the column count is odd, at least 13, and the largest odd count whose columns fit the width |
| App.ParentsPass | src/App.tsx:214 | after the parents pass the records keep their tasks and ids, have no memo fields, and mirror the requirement edges |
| App.DepthPass | src/App.tsx:215 | the depth pass keeps the ids, the keys and the mirrored edges |
| App.ParentListsChild | src/App.tsx:23-32 | with unique ids, a parent of a task is indexed with a requirement list holding the task |
| App.UniqueListed | src/App.tsx:207-211 | with unique ids, the fresh index lists every parent's requirement |
| App.ParentsAdded | src/App.tsx:209-214 | on a fresh index the parents pass adds exactly the parents and keeps the requirement lists |
| App.ParentsReversed | src/App.tsx:23-32 | when parents are listed, every reverse edge is a requirement |
| App.DepthReversed | src/App.tsx:215 | the depth pass keeps reverse edges that are requirements |
| App.UnreachedClosed | src/App.tsx:23-53 | the tasks the root does not reach are required only by tasks it does not reach, and the root is not among them |
| App.CoveredNotAvoided | src/App.tsx:229-342 | a drawing of the index avoids no indexed task |
| App.Predecessor | src/App.tsx:42-53 | a task reached from another is a kept requirement of a task reached from it |
| App.SettledDepth | src/App.tsx:215 | an annotated record holds its specified depth |
| App.ReachableAnchored | src/App.tsx:214-235 | when every task is reachable from the root, every record is annotated and has a deeper dependent |
| App.OthersRecords | src/App.tsx:230-232 | the non-root records are index records, distinct, not the root, and all of them |
| App.PlacedRecords | src/App.tsx:229-342 | every allocated record is the index record of its id |
| App.PlacedAll | src/App.tsx:229-342 | every index key is allocated |
| App.PlacedOnce | src/App.tsx:229-342 | no id is allocated twice |
| App.CoversIndex | src/App.tsx:229-342 | the allocation covers the index exactly once, each allocation holding the index record of its id |
| App.LoopDrawing | src/App.tsx:229-342 | the loop's result over an index whose reverse edges are the tasks' parents is a drawing of the tasks, each allocation holding the index record of its id |
| App.FreshIndex | src/App.tsx:207-211 | a freshly built index has no reverse edges |
| App.AnnotatedRecords | src/App.tsx:215 | after the depth pass from the root, each record is annotated exactly when the root reaches it, with its specified depth, count and activity |
| App.CoversShape | src/App.tsx:207-215 | a cover of the annotated index covers the original index |
| App.Annotate | src/App.tsx:213-215 | the two passes keep the keys, ids and tasks of the index; each record's reverse edges are the ids of the tasks listing it; each record is annotated exactly when the root reaches it, with its specified values; when every task is reachable from the root, the edges are mirrored and every record is annotated and has a deeper dependent; with unique ids every reverse edge is a requirement |
| App.GuardedLayout | src/App.tsx:213-342 | a result is a drawing of the tasks, its records carrying their reverse edges and their memo fields; when every task is reachable from the root it is not the error; with unique ids it is the error when some task is not reachable |
| App.Allocations | src/App.tsx:206-343 | the empty layout when the guard fails; otherwise a result is a drawing of the tasks at the computed column count, its records carrying their reverse edges and their memo fields, not the error when every task is reachable, and, with unique ids, the error when some task is not |
| Phabricator.Position | src/phabricator.ts:66-68 | the position of an entry with the key, or none when no entry has it |
| Phabricator.LastOfConcat | src/phabricator.ts:66-68 | a later entry hides an earlier one of the same name |
| Phabricator.LastOfOne | src/phabricator.ts:75 | a single entry gives its value to its own name only |
| Phabricator.LastOfSome | src/phabricator.ts:66-68 | a name has a value exactly when some entry carries it |
| Phabricator.LastOfDistinct | src/phabricator.ts:66-68 | in a well-formed object a name has its one entry's value |
| Phabricator.LastOfUpdate | src/phabricator.ts:66-68 | replacing an entry of another name leaves a name's value alone |
| Phabricator.AssignSpec | src/phabricator.ts:66-68 | assigning a property keeps the object well formed and acts as appending it |
| Phabricator.MergeSpec | src/phabricator.ts:66-68 | `Object.assign` of one source acts as appending its entries |
| Phabricator.MergeAllSpec | src/phabricator.ts:66-73 | `Object.assign` of several sources acts as appending all their entries |
| Phabricator.MergeFresh | src/phabricator.ts:66-68 | assigning only new names appends them in order |
| Phabricator.MergeAllFresh | src/phabricator.ts:66-73 | sources with only new names merge into their concatenation |
| Phabricator.MergeKeepsFirst | src/phabricator.ts:38-41 | merging never moves or removes a field of the target |
| Phabricator.DistinctPrefix | src/phabricator.ts:66-68 | a prefix of a well-formed object is well formed |
| Phabricator.FlattenAgree | src/phabricator.ts:66-73 | pieces that agree name by name concatenate into objects that agree |
| Phabricator.FlattenOne | src/phabricator.ts:66-73 | a single piece flattens to itself |
| Phabricator.ObjToParamsLeaves | src/phabricator.ts:64-77 | the flattening is well formed and every path has the value of the last primitive at that path |
| Phabricator.ObjToParamsKeys | src/phabricator.ts:64-77 | a path is a field exactly when some primitive sits at it |
| Phabricator.ObjToParamsDistinct | src/phabricator.ts:64-77 | with distinct leaf paths the flattening is exactly the leaves, in entry order |
| Phabricator.ConstraintsExample | src/App.tsx:114-118 | the search request's one field is `constraints[ids][0]` |
| Phabricator.RequestParamsSpec | src/phabricator.ts:38-41 | the token field comes first; it holds the token unless the data has that field; every other field is the data's |
| Phabricator.Split | src/phabricator.ts:55 | splitting always yields at least one part |
| Phabricator.SplitFirst | src/phabricator.ts:55 | a part without the separator followed by the separator is split off first |
| Phabricator.SplitNone | src/phabricator.ts:55 | a text without the separator is one part |
| Phabricator.SplitJoin | src/phabricator.ts:55 | splitting undoes joining parts that do not contain the separator |
| Phabricator.CutFirst | src/phabricator.ts:52-53 | cutting at the first `=` separates an encoded key from its encoded value |
| Phabricator.BodyParts | src/phabricator.ts:50-55 | with an encoder that never emits `&`, the body splits at `&` into the rendered fields, one part per field, in order |
| Phabricator.ParseBodyRoundTrip | src/phabricator.ts:50-55 | with an encoder that never emits `&` or `=` and a decoder `dec` with `dec(enc(s)) == s` for every `s`, the body has one part per field and reads back as the fields in order |
| Phabricator.RequestBodyParts | src/phabricator.ts:38-55 | with the same encoder and decoder, the body of a request reads back as its parameters, token field first |

## Left out

- Rendering and browser state are not modelled. This covers React state, effects and
  rendering, pan and zoom, the key listener, the window itself, `console.log`, and
  `dimensions.y` (src/App.tsx:345-348).
- Fetching is not modelled. This covers the network calls to the tracker, the
  `corsBypass` transport, `JSON.parse` of the response, the timers, and the random
  choice of the root task (src/App.tsx:101-196).
- src/Connectors.tsx is not part of this model: it only draws.
- The window width is a parameter `innerWidth` of `App.Allocations`.
- `encodeURIComponent` is a parameter `enc` of `Phabricator.Body`. Only its never
  emitting `&` is assumed for the part count (Phabricator.BodyParts). The read-back
  lemmas also assume it never emits `=` and that a decoder `dec` inverts it
  (`dec(enc(s)) == s` for every `s`, which makes it injective), as
  `decodeURIComponent` does for `encodeURIComponent`.
- Centring.Score, Centring.BestColumn: the weights 0.3 and 1 are scaled by ten to 3
  and 10, so each score is ten times the exact value of the code's score, as an
  integer. The code sums doubles, and two columns whose exact scores tie can differ in
  the last place (1.8 against 1.7999999999999998 for dependents at 0 and 6 and columns
  1 and 2). The code then picks by that rounding, the model by candidate order.
- Depth.Children, Depth.ChildrenFrom, Priority.CompareNodes: the descendant count is an
  unbounded `nat`. The code's count is a double and counts shared descendants once per
  path, so it can exceed 2^53. Counts, and the queue order they decide, are exact only
  below 2^53.
- App.Allocations, App.GuardedLayout, App.Annotate, Depth.GenerateNodeDepth: these
  require a ghost `rank` that decreases along every requirement edge of the whole
  index, so every requirement cycle is outside the model. A cycle the root reaches
  makes `generateNodeDepth` recurse without end, and the code overflows its stack. A
  cycle the root does not reach is excluded too, although the code terminates on it.
  Its tasks are not reachable, so when the first unreachable task reaches the queue
  head none of its dependents is placed, and the code throws (src/App.tsx:255-256).
  The fetch (src/App.tsx:137-175) loads the root and then the requirements of loaded
  tasks, so its tasks are reachable from the root. The exception is a response for a
  previous root: `setRoadmap` and `randomiseRoadmap` (src/App.tsx:101-123) reset the
  task list but do not cancel a pending fetch, whose result is appended to the new
  list (src/App.tsx:142-153). Such tasks can be unreachable from the new root, and
  can form a cycle the new root does not reach; the model excludes that cycle.
- `Object.keys` and `Object.entries` list integer-like keys first, in numeric order,
  and other keys in insertion order. Both the index key order and the request fields
  assume insertion order for every key. With PHID ids, integer-like keys do not
  occur. Array positions in requests are modelled as ordinary keys listed in position
  order.
- Request values are either objects or primitives, already rendered as text. The
  `typeof null === "object"` case, where `Object.entries(null)` throws, is not
  modelled. Neither are `undefined` values or the number-to-text conversion.
- Allocate.AllocateAll: requires at least two columns. The code's caller always has at
  least 13 (`App.Columns`), so no reachable input is excluded.
- Allocate.AllocateAll: the absence of the error is proved only under a sufficient
  condition: every record is annotated and has a deeper dependent. In `App.Allocations`
  that condition becomes "every task is reachable from the root". The error itself is
  modelled exactly, as the empty ring of `Slots.RingSearch`.
- App.Allocations: the converse, that an unreachable task forces the error, is proved
  only for unique ids. With a duplicated id the index keeps the last node, while the
  reverse edges come from every node, so a stale edge can still anchor the task.
- Slots.RingSearch: the distance reached when the search fails is not specified.
- Allocate.Reposition: the `as Allocation` cast at src/App.tsx:274 assumes the
  dependent is allocated. When it is not, the model leaves the layout unchanged. This
  case cannot arise, because every candidate comes from an allocation.
- Phabricator.ObjToParamsDistinct: when two primitives share a path, the position of
  the field is not stated. That happens only for a key such as `"a[b]"` beside a nested
  `a.b`. Only its value is stated, by `Phabricator.ObjToParamsLeaves`.
- src/AnnotatedNode.tsx is modelled only as the record `Graph.AnnotatedNode`. Its
  rendering component is not part of this model.
