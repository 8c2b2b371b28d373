# qtree in Dafny

A model of JAForbes/qtree, a point quadtree in JavaScript, and of the
axis-aligned bounding-box module it is built on. Its properties are proved
with Dafny.

- `aabb.dfy` (module `AABB`) models `lib/aabb.js`.
  - A rectangle is four reals in the slot order TOP, RIGHT, BOTTOM, LEFT.
  - `normalize` and `_swap` overwrite a caller's array in place, so they are
    methods over `array<real>`. They are specified by the pure function
    `Normalized`.
  - `outside`, `intersects`, `contains` and `_point_as_bounds` are pure
    functions on rectangle values.
  - `AABB.create` returns an object holding the caller's own array, normalized
    in place. It is the class `Box`. Its `intersects` and `outside` accept a
    bare array or another `Box`; that argument is the datatype `RectArg`.
- `qnode.dfy` (module `QNode`) holds the node of `lib/qtree.js`:
  - the node `{points, children, bounds}` as a value;
  - `qtree` (`Empty`) and `_subdivision` (`Subdivision`);
  - the pre-order list of stored ids (`Stored`);
  - the node invariants that `add` keeps (`Tiled`, `WithinCapacity`, `Placed`);
  - paths from the root to a node, and the breadth-first order on them.
- `qtree_add.dfy` (module `QTreeAdd`) models `add`.
  - `Insert` is the recursive definition. `InsertChildren` is its loop over
    the children.
  - The method `Add` keeps the source's `for` loop with its early return. It
    is proved to compute `Insert`.
- `qtree_query.dfy` (module `QTreeQuery`) models `query`: the pruned
  pre-order search.
- `qtree_remove.dfy` (module `QTreeRemove`) models `iterator` and `remove`.
  - The method `Remove` runs the breadth-first walk with an explicit queue:
    take the head, push its children.
  - It splices the first occurrence out of the first node holding the id.
  - Nodes are values here, so the queue holds paths from the root, and the
    splice rebuilds the nodes along the path.
- `qtree_create.dfy` (module `QTreeCreate`) models `create`.
  - The object it returns is the class `Tree`, with fields `points`,
    `children`, `bounds`, `store` (`_points`) and `sequenceId`
    (`_sequence_id`).
  - The methods are `Add`, `Remove`, `Query` and `Reset`.
  - The state change of `add` and `remove` is computed on values by
    `AddPoint` and `RemovePoint`. The class methods write the result back to
    the fields.
  - A caller's point object is the class `Item`. Its coordinates are the
    constant `pos`; the `_id` that `add` writes is the field `tag`.
- `outcomes.dfy` (module `Outcomes`) holds `Option` and `Result`, with the two
  JavaScript errors the core can raise:
  - `ReadOfUndefined`: reading `children` of `undefined` in the walk;
  - `NotAFunction`: calling the missing `QTree.normalize`.

### Where the code departs from its own comments and dead code

The model follows what the code does in each case.

- `normalize` (lib/aabb.js:14-25) carries a commented-out copy of its
  argument (lib/aabb.js:15). Without it, the code swaps the slots of the
  given array in place and returns that same array. `Normalize` is therefore
  a method that changes its argument.
- `remove` ends in `return false` (lib/qtree.js:87), and that line is never
  reached.
  - `found` is never set (lib/qtree.js:67-70), so the walk's loop never ends
    on its own. It pauses at each `yield`, and `remove`'s `return true`
    abandons it.
  - When no node holds the id, the queue runs dry, `stack.shift()` gives
    `undefined`, and reading its `children` throws. `Remove` returns
    `Err(ReadOfUndefined)` there.
  - The wrapper's `remove` then leaves `_points` as it was, because the
    delete at lib/qtree.js:124 comes after the throw.
- `reset(bounds)` calls `QTree.normalize` (lib/qtree.js:134). The `QTree`
  object does not define it, since `normalize` belongs to `AABB`. The call
  throws before anything is changed, and `Reset` returns `Err(NotAFunction)`.
- `reset()` with no bounds sets `_sequence_id` to 1 (lib/qtree.js:138), where
  `create` starts it at 0 (lib/qtree.js:114). So the first id after a reset
  is `point_2`.

### Babel copies

`aabb.js` and `qtree.js` are the Babel output of `lib/aabb.js` and
`lib/qtree.js`. They have the same functions, so every member below models
both. The table below maps each function's `lib/` lines to its lines in the
Babel copy.

| function | lib/ lines | Babel copy lines |
|---|---|---|
| `_swap` | lib/aabb.js:4-8 | aabb.js:6-10 |
| `_point_as_bounds` | lib/aabb.js:10-12 | aabb.js:12-14 |
| `normalize` | lib/aabb.js:14-25 | aabb.js:16-27 |
| `contains` | lib/aabb.js:27-29 | aabb.js:29-31 |
| `intersects` | lib/aabb.js:31-33 | aabb.js:33-35 |
| `outside` | lib/aabb.js:35-45 | aabb.js:37-41 |
| `create` | lib/aabb.js:47-64 | aabb.js:43-59 |
| `qtree` | lib/qtree.js:11-19 | qtree.js:19-25 |
| `_subdivision` | lib/qtree.js:21-40 | qtree.js:27-45 |
| `add` | lib/qtree.js:42-63 | qtree.js:47-67 |
| `iterator` | lib/qtree.js:65-76 | qtree.js:69-98 |
| `remove` | lib/qtree.js:78-88 | qtree.js:100-131 |
| `query` | lib/qtree.js:90-109 | qtree.js:133-152 |
| `create` | lib/qtree.js:111-145 | qtree.js:154-187 |

In the Babel `remove`, the iterator's error is caught and rethrown, so an
absent id still throws.

## Model

| member | source | states |
|---|---|---|
| AABB.Swap | lib/aabb.js:4-8 | the two slots are exchanged in place and every other slot keeps its value |
| AABB.Normalized | lib/aabb.js:14-25 | the normalized rectangle has TOP <= BOTTOM and LEFT <= RIGHT, holds the min and max of each pair, and is otherwise the same four numbers |
| AABB.Normalize | lib/aabb.js:14-25 | the array is reordered in place to `Normalized` of its old contents, and the same array is returned |
| AABB.NormalizedKeepsNormal | lib/aabb.js:17-22 | a rectangle whose pairs are already in order is left unchanged |
| AABB.NormalizedIdempotent | lib/aabb.js:14-25 | normalizing twice equals normalizing once |
| AABB.PointAsBounds | lib/aabb.js:10-12 | the degenerate rectangle is normalized, and the point itself is the only point lying in it |
| AABB.Outside | lib/aabb.js:35-45 | separated rectangles share no point; for two normalized rectangles that are not separated, the corner (max of the LEFTs, max of the TOPs) lies in both |
| AABB.Intersects | lib/aabb.js:31-33 | two normalized rectangles intersect exactly when that overlap corner lies in both |
| AABB.Contains | lib/aabb.js:27-29 | testing against the degenerate rectangle [y, x, y, x] holds exactly when LEFT <= x <= RIGHT and TOP <= y <= BOTTOM, edges included |
| AABB.OutsideSymmetric | lib/aabb.js:35-45 | `outside(a, b)` equals `outside(b, a)` |
| AABB.IntersectsIffCommonPoint | lib/aabb.js:31-33 | two normalized rectangles intersect exactly when some point lies in both, so rectangles touching on an edge intersect |
| AABB.CommonPointIntersects | lib/aabb.js:27-33 | a point contained in two rectangles makes them intersect, normalized or not |
| AABB.ContainsCentre | test/aabb.js:21-32 | the centre of a normalized rectangle, computed as in the test, is contained in it |
| AABB.IntersectionScenarios | test/aabb.js:46-71 | the overlapping pair of the test intersects and its separated pair is outside; two rectangles sharing only an edge also intersect |
| AABB.Box.constructor | lib/aabb.js:47-51 | the wrapper keeps the caller's own array, normalized in place |
| AABB.Box.ContainsPoint | lib/aabb.js:52-54 | the wrapper's `contains` is the free `contains` on its bounds: inclusive on all four edges |
| AABB.Box.IntersectsWith | lib/aabb.js:55-58 | the wrapper's `intersects` is the free one on its bounds and the argument's array, and a wrapper argument is replaced by its `bounds` |
| AABB.Box.OutsideOf | lib/aabb.js:59-62 | the wrapper's `outside` is the free one after unwrapping, and is the negation of the wrapper's `intersects` |
| QNode.Empty | lib/qtree.js:11-19 | the node `qtree` builds, as `_subdivision` calls it for each quadrant: over the given bounds, with no children, storing nothing |
| QNode.Subdivision | lib/qtree.js:21-40 | four empty children in NE, SE, SW, NW order, split at midX = (W+E)/2 and midY = (N+S)/2 exactly as listed; unbounded bounds give four unbounded children |
| QNode.QuadrantInsideParent | lib/qtree.js:21-40 | every point of a quadrant lies in the parent, even when the parent is not normalized |
| QNode.QuadrantsNested | lib/qtree.js:21-40 | the quadrants of a normalized rectangle are normalized and lie inside it |
| QNode.FirstContaining | lib/qtree.js:54-59 | the index of the first child whose bounds contain the point: all earlier ones do not, or none does |
| QNode.FirstQuadrantByMidlines | lib/qtree.js:21-40 | the first quadrant holding a contained point is decided by the midlines; the vertical midline goes east, the horizontal one north in the east half and south in the west half |
| QNode.QuadrantsCover | lib/qtree.js:21-40 | every point of the parent lies in some quadrant |
| QNode.QuadrantsMeetOnMidlines | lib/qtree.js:21-40 | two different quadrants share only points on a midline |
| QNode.SubdivisionScenarios | test/qtree.js:67-81 | the quadrants of [-10,0,0,-10] are [-10,0,-5,-5], [-5,0,0,-5], [-5,-5,0,-10], [-10,-5,-5,-10], and NE of [0,10,10,0] is [0,10,5,5] |
| QNode.LexLessTotal | lib/qtree.js:65-76 | two different paths of the same depth are ordered left to right one way or the other, so breadth-first order is total |
| QNode.BeforeTransitive | lib/qtree.js:65-76 | breadth-first order (shallower first, then left to right) is transitive |
| QTreeAdd.Targets | lib/qtree.js:51-53 | a full node hands the id to its own children, or to a fresh subdivision when it has none; under the tiling invariant these are exactly the four quadrants of its bounds |
| QTreeAdd.Insert | lib/qtree.js:42-63 | bounds never change, accepting implies the point is contained, the node's own list is unchanged or gets the id appended below capacity; a node with fewer than 4 ids that contains the point accepts, gets the id appended and keeps its children as they were; existing children keep their number and bounds, and children appear only on a full node that contains the point, as exactly the four quadrants |
| QTreeAdd.InsertChildren | lib/qtree.js:54-59 | the loop over the children keeps their number and bounds |
| QTreeAdd.Add | lib/qtree.js:42-63 | the procedure with the `for` loop and early return computes exactly `Insert` |
| QTreeAdd.EmptyValid | lib/qtree.js:11-19 | an empty node stores nothing and meets every node invariant |
| QTreeAdd.InsertAcceptsContained | lib/qtree.js:43-59 | under the tiling invariant a node accepts an id exactly when its bounds contain the point, edges included |
| QTreeAdd.InsertChildrenAccepts | lib/qtree.js:54-59 | the loop succeeds when a later child is tiled and contains the point |
| QTreeAdd.InsertFailureUnchanged | lib/qtree.js:43-62 | a rejected id leaves the node exactly as it was, with or without invariants |
| QTreeAdd.InsertChildrenFailureUnchanged | lib/qtree.js:54-62 | a loop in which no child accepts leaves every child as it was |
| QTreeAdd.InsertStoresOnce | lib/qtree.js:42-63 | an accepted id is stored exactly once more and nothing else is added or lost; a rejected one changes nothing |
| QTreeAdd.AppendStoresOnce | lib/qtree.js:47-50 | pushing onto the node's own list stores the id once more |
| QTreeAdd.BelowStoresOnce | lib/qtree.js:51-59 | a full node that contains the point stores the id once more below it, or nothing |
| QTreeAdd.InsertChildrenStoresOnce | lib/qtree.js:54-59 | the loop adds exactly one occurrence when a child accepts, none otherwise |
| QTreeAdd.InsertKeepsValid | lib/qtree.js:42-63 | insertion keeps the tiling, at most 4 ids per node, and every stored point inside the bounds of each node above it |
| QTreeAdd.InsertPlacesTop | lib/qtree.js:42-63 | after an insertion every id stored under the node has its point in the node's bounds |
| QTreeAdd.ChildrenKeepValid | lib/qtree.js:51-59 | the children after an insertion meet every node invariant |
| QTreeAdd.InsertChildrenKeepsValid | lib/qtree.js:54-59 | the loop keeps every child's invariants |
| QTreeAdd.InsertRoutesToFirstQuadrant | lib/qtree.js:51-59 | a full node of a tiled tree hands a contained point to the first quadrant, in NE, SE, SW, NW order, that contains it, and leaves the other children untouched |
| QTreeAdd.InsertChildrenRoutes | lib/qtree.js:54-59 | the loop skips children that do not contain the point and stops at the first one that does |
| QTreeQuery.Inside | lib/qtree.js:98-102 | the node's own ids in order, kept exactly when their points lie in the rectangle |
| QTreeQuery.Query | lib/qtree.js:90-109 | soundness: every returned id is stored in the subtree and its point lies in the rectangle |
| QTreeQuery.QueryAll | lib/qtree.js:104-106 | the children's results, concatenated, are sound in the same way |
| QTreeQuery.QueryIsFilter | lib/qtree.js:90-109 | under the placement invariant, pruning loses nothing: the result is exactly the stored ids in pre-order whose points lie in the rectangle |
| QTreeQuery.QueryAllIsFilter | lib/qtree.js:104-106 | the same for the concatenation over the children |
| QTreeQuery.QueryComplete | lib/qtree.js:90-109 | under the placement invariant an id is returned exactly when it is stored and its point lies in the rectangle |
| QTreeRemove.IndexOf | lib/qtree.js:80 | -1 exactly when the id is absent, otherwise the position of its first occurrence |
| QTreeRemove.Splice | lib/qtree.js:82 | the list loses exactly the entry at that index and is one shorter |
| QTreeRemove.UpdateAt | lib/qtree.js:82 | rewriting one node's list keeps the root's bounds and number of children |
| QTreeRemove.UpdateAtOnlyThere | lib/qtree.js:78-88 | changing the node at one path changes no other node's list and no node's bounds or children count |
| QTreeRemove.UpdateAtStored | lib/qtree.js:82 | the whole tree trades that node's old ids for the new ones |
| QTreeRemove.UpdateAtShrinks | lib/qtree.js:82 | narrowing a node's list stores nothing new |
| QTreeRemove.UpdateAtKeepsTiled | lib/qtree.js:78-88 | removal never removes or replaces children, so the tiling is kept |
| QTreeRemove.UpdateAtKeepsCapacity | lib/qtree.js:82 | shortening a list keeps every node within capacity |
| QTreeRemove.UpdateAtKeepsPlaced | lib/qtree.js:82 | narrowing a list keeps every stored point placed |
| QTreeRemove.UpdateAtKeepsValid | lib/qtree.js:78-88 | narrowing a list keeps every node invariant |
| QTreeRemove.Kids | lib/qtree.js:72 | the walk pushes one path per child, in child order |
| QTreeRemove.FirstHolderUnique | lib/qtree.js:65-88 | the first holder in breadth-first order is unique |
| QTreeRemove.BfsStart | lib/qtree.js:66 | the queue holding only the root meets the walk's invariant |
| QTreeRemove.BfsStep | lib/qtree.js:70-75 | taking a head that does not hold the id and pushing its children keeps the walk's invariant |
| QTreeRemove.BfsStepValid | lib/qtree.js:70-75 | the pushed paths lead to nodes |
| QTreeRemove.RestBeforeKids | lib/qtree.js:70-75 | everything still queued comes before every child of the head in breadth-first order |
| QTreeRemove.BfsStepOrdered | lib/qtree.js:70-75 | shifting the head and pushing its children keeps the queue in breadth-first order |
| QTreeRemove.BfsStepLevels | lib/qtree.js:70-75 | the queue stays within two adjacent levels |
| QTreeRemove.BfsStepCovers | lib/qtree.js:70-75 | every node holding the id is still below some queued path |
| QTreeRemove.BfsFound | lib/qtree.js:79-83 | a head that holds the id is the first holder in breadth-first order |
| QTreeRemove.BfsEmpty | lib/qtree.js:70-72 | when the queue is empty no node holds the id |
| QTreeRemove.WeightStep | lib/qtree.js:70-72 | each step of the walk shrinks the queued subtrees, so the walk ends |
| QTreeRemove.Remove | lib/qtree.js:78-88 | an error exactly when no node holds the id, and then reading of `undefined`; otherwise the tree with the first occurrence spliced from the first holder in breadth-first order, one occurrence fewer stored, and the node invariants kept |
| QTreeRemove.SpliceAt | lib/qtree.js:80-82 | `indexOf` and `splice(index, 1)` on the holder's list; the root keeps its bounds and number of children |
| QTreeRemove.SpliceAtHolder | lib/qtree.js:80-82 | the same paths lead to nodes; at the holder the list is one shorter with one occurrence of the id fewer, and every other node keeps its list |
| QTreeRemove.SpliceAtStored | lib/qtree.js:80-83 | the splice removes exactly one occurrence of the id from the tree |
| QTreeRemove.SpliceAtKeepsValid | lib/qtree.js:78-88 | the splice keeps every node invariant |
| QTreeRemove.RemovedIdGone | lib/qtree.js:78-88 | with ids stored at most once, a removed id is gone from every node |
| QTreeCreate.MakeNode | lib/qtree.js:11-19 | an empty node over the bare array, over a wrapper's `bounds`, or unbounded when none is given, not normalized |
| QTreeCreate.MakeNodeValid | lib/qtree.js:11-19 | a fresh node stores nothing and meets every node invariant |
| QTreeCreate.UnnormalizedAcceptsNothing | lib/qtree.js:15-17 | a node over reversed bounds accepts no point |
| QTreeCreate.Decimal | lib/qtree.js:117 | the numeral is never empty and has one digit exactly below 10 |
| QTreeCreate.DecimalInjective | lib/qtree.js:117 | different counters give different numerals |
| QTreeCreate.DecimalDigits | lib/qtree.js:117 | the numeral that string concatenation writes is all decimal digits, with no leading zero unless the number is 0 |
| QTreeCreate.IdOfShape | lib/qtree.js:117 | the id `IdOf(n)` that `add` writes is `point_` followed by the digits of n, never with a leading zero for the counters `add` uses, which start at 1 |
| QTreeCreate.IdOfInjective | lib/qtree.js:117 | different counters give different ids |
| QTreeCreate.IdScenarios | lib/qtree.js:117 | the first ids are `point_1`, `point_2`, and the twelfth is `point_12` |
| QTreeCreate.NotIssued | lib/qtree.js:117 | an id made from a later counter is not among those issued so far |
| QTreeCreate.MakeNodeConsistent | lib/qtree.js:111-114 | a fresh object with an empty store meets the object invariant |
| QTreeCreate.InsertKeepsUnique | lib/qtree.js:116-121 | inserting an id not yet stored keeps every id stored at most once |
| QTreeCreate.InsertKeepsNodes | lib/qtree.js:116-121 | inserting the id of a new point keeps the node invariants, and the tree accepts it exactly when the root's bounds contain it |
| QTreeCreate.AddConsistent | lib/qtree.js:116-121 | the next id is new to the store and the tree, and adding it keeps the object invariant |
| QTreeCreate.RemoveConsistent | lib/qtree.js:122-126 | splicing out a stored id and deleting its point keeps the object invariant, and the id is gone |
| QTreeCreate.AddPoint | lib/qtree.js:116-121 | the store gains the object under the next id even when the tree rejects it; the tree becomes `Insert` of that id; the id is accepted exactly when the root's bounds contain the point; the invariant holds after |
| QTreeCreate.RemovePoint | lib/qtree.js:122-126 | an error exactly when the object has no id or no node holds it; otherwise the splice at the first holder, then the id deleted from the store, with the invariant kept |
| QTreeCreate.Tree.constructor | lib/qtree.js:111-114 | the node `qtree(bounds)` makes, an empty store and the counter at 0 |
| QTreeCreate.Tree.Add | lib/qtree.js:116-121 | the counter is pre-incremented, the id is written into the point object and registered in the store, and the tree is `Insert` of that id, accepted exactly when the bounds contain the point |
| QTreeCreate.Tree.Remove | lib/qtree.js:122-126 | an error, with tree and store untouched, exactly when the object has no id or no node holds it; otherwise the first holder's splice and the id deleted from the store |
| QTreeCreate.Tree.Query | lib/qtree.js:127-132 | the stored point objects of the ids `query` returns, in the same order; all and only the stored points inside the rectangle |
| QTreeCreate.Tree.Reset | lib/qtree.js:133-143 | with bounds, a not-a-function error and nothing changed; without, no ids, no children, an empty store, the counter at 1 and the same bounds |

## Left out

- Floating point. Coordinates are exact reals, so there is no rounding, NaN or
  signed zero.
- The default bounds `[-Infinity, Infinity, Infinity, -Infinity]` are the
  `Unbounded` case, and so is every quadrant `_subdivision` derives from
  them. In IEEE arithmetic those bounds hold -Infinity or NaN in TOP and
  LEFT, and Infinity or NaN in RIGHT and BOTTOM.
  - So the four comparisons `outside` makes with a finite coordinate are all
    false: x < LEFT, x > RIGHT, y > BOTTOM and y < TOP.
  - They therefore contain every finite point and intersect every finite
    rectangle, which is what `Unbounded` does.
- Partially infinite bounds, such as one infinite edge, are not modelled.
- The generator protocol of `iterator`: laziness, `Symbol.iterator`, and the
  Babel regenerator and `try`/`finally` plumbing. The walk is the same queue
  loop in the same visiting order, inlined into `Remove`.
- The `Symbol.iterator` property that `reset` installs. It does not change
  the tree.
- Aliasing of a node's bounds array. `qtree(aabb)` keeps the caller's array,
  so later writes to that array would move the node. Nodes hold their bounds
  as values.
- In-place updates of nodes. `add` and `remove` rebuild the node values along
  the path they change. Nodes are never shared inside the tree. But `qtree`
  and `create` hand the caller the root object, so a caller can keep a
  reference to an inner node, as test/qtree.js:45 does with the NE child.
  In the source that reference sees every later insertion or removal
  (lib/qtree.js:49, 58, 82). The model has no node references, so it cannot
  express this.
- Point objects beyond their `x`, `y` and `_id` properties.
- `remove`'s `points` parameter, which the source never reads.
- Module loading, lodash and the test runner.
- QTreeCreate.Tree.Add: the multiset and freshness facts about the new id are
  not restated in its contract. `AddPoint`, `AddConsistent` and
  `InsertStoresOnce` state them on the same values.
- QTreeCreate.Tree.Remove: the facts that exactly one occurrence is removed
  and that the id is gone are not restated in its contract.
  `QTreeRemove.Remove`, `RemoveConsistent` and `RemovedIdGone` state them on
  the same values.
- QTreeCreate.Tree.Query: the query rectangle is taken as a four-number value.
  The source passes the caller's array straight to the free functions, and
  does not unwrap a wrapper.
- QTreeAdd.Insert: `requires id in pts` leaves out the TypeError that
  lib/qtree.js:43 raises when `points[point_id]` is `undefined`. The wrapper
  registers the point before it calls `add` (lib/qtree.js:119-120), so that
  case never arises through `create`.
- QTreeAdd.Add: the same precondition, for the same reason.
- QTreeQuery.Query: `requires Known(n, pts)` leaves out the TypeError that
  lib/qtree.js:99 raises for a stored id without a point. Through `create`
  every stored id has one: `Consistent` includes `Valid`, whose `Placed`
  requires it.
- QTreeCreate.Tree.Query: a point object's coordinates are fixed. `Item.pos`
  is a constant, while `query` re-reads the caller's `x` and `y` every time
  (lib/qtree.js:99).
  - The completeness clause holds only because points cannot move after
    `add`.
  - In the source, a point moved out of its node's bounds may not be found
    by a query whose rectangle misses that node.
- QTreeCreate.Tree.Add: the counter `sequenceId` is an unbounded natural
  number. `++_sequence_id` (lib/qtree.js:117) works on a double, which stops
  growing at 2^53. Past that, ids repeat, and the freshness that `NotIssued`
  and `AddConsistent` prove no longer describes the source.
