# rustytowers map: walls, neighbours and the came-from flow field

This project models the grid map of the rustytowers tower-defense game
(`src/map.rs`) in Dafny.

- **Cells and bounds.** A cell is an integer coordinate pair. The bounds are
  centred on the base at the origin: a cell is in the map when
  `|x| <= width / 2` and `|y| <= height / 2`, using unsigned division. The
  check is inclusive at both ends, so the map has `2 * (width / 2) + 1`
  columns and `2 * (height / 2) + 1` rows. That is one column more than
  `width` when `width` is even, and one row more than `height` when `height`
  is even: the source's 26 x 13 test map has 27 x 13 cells.
- **Walls.** They live in a table from cell to flag, and a cell with no
  entry has no wall.
- **Neighbours.** `get_neighbors` walks the offsets +x, -x, +y, -y in that
  order. It keeps each adjacent cell that is in the map and not walled.
- **`build_map`** works in three stages:
  - It lays out 99 random wall runs. Each run walls up to three cells along
    +x and up to three along +y from a random start.
  - It clears the 4 x 4 block around the origin.
  - It runs a breadth-first search from the origin over a FIFO queue,
    filling `came_from`. The origin points at itself, and every other cell
    the search discovers points at the cell it was discovered from.

The model follows the source's form:

- `Queue<T>` is a Dafny class over a `seq` field.
- `Map` is a class whose `walls` and `cameFrom` maps are fields the
  methods reassign.
- `set_wall` is a method that updates `walls` in place.
- `get_neighbors`, the wall layout and the search are methods with loops.
- `has_wall`, `in_map` and the neighbour list are functions they are
  proved against.

The search is proved against an invariant on ghost state:

- `order` is the sequence of enqueued cells, and `pos` gives each cell's
  position in it.
- Among other things, the invariant gives:
  - no cell is enqueued twice;
  - every back-pointer is a neighbour step to an earlier key;
  - every key is in the map, and every key other than the origin is
    unwalled;
  - `depth` gives each key its number of back-pointer steps to the origin,
    and depths never decrease along the order.
- From the invariant we prove three things:
  - the search terminates;
  - its keys are exactly the cells reachable from the origin;
  - `depth` is the length of a shortest route. The trail of back-pointers
    from a key `k`, read from the origin (`Trail`), is a route with
    `depth[k]` steps, and no route from the origin reaches `k` in fewer
    steps.
- Following `came_from` from any key reaches the origin within one step
  fewer than there are keys.
- The search also records which shortest predecessor each key gets
  (`FirstDiscovered`):
  - every key other than the origin points at the first cell of the order
    that has it as a neighbour;
  - the cells after the origin are in the order the FIFO queue enqueues
    them. That is the position of their back-pointer first, then the
    offset (+x, -x, +y, -y) that leads from the back-pointer to them.
- Two tables of one map with these properties are the same table
  (`FlowFieldUnique`). So the search's result is fully determined, down to
  the choice among equally short predecessors.
- One round of the search is also stated on its own. `Undiscovered` lists
  the neighbours that are not yet keys, in `get_neighbors` order and each
  once. The round appends exactly those to the order, and `Marked` is the
  table that points each of them back at the visited cell.

Modules:

- `Cells` has cells, offsets and adjacency.
- `Queues` has the queue.
- `Grid` has the map and the wall layout.
- `Search` has the search invariant and the lemmas about came-from tables.
- `FlowField` has the search loop and `build_map`.

## Model

| member | source | states |
|---|---|---|
| Cells.Direction | src/map.rs:98 | the offset index leading from c to n is below 4 exactly when n is orthogonally adjacent to c, and that offset step lands on n |
| Cells.StepDirection | src/map.rs:98 | each of the four offset steps is adjacent, and the four offsets lead to four different cells |
| Queues.Queue.constructor | src/map.rs:46-48 | a new queue is empty |
| Queues.Queue.Length | src/map.rs:50-52 | the length is the number of queued items |
| Queues.Queue.Enqueue | src/map.rs:54-56 | the item is appended at the back and the length grows by one |
| Queues.Queue.Dequeue | src/map.rs:58-60 | the oldest item is returned and removed, and the rest keep their order |
| Queues.Queue.IsEmpty | src/map.rs:62-64 | true exactly when the length is zero |
| Queues.Queue.Peek | src/map.rs:66-68 | None exactly when the queue is empty, otherwise the oldest item |
| Queues.FirstInFirstOut | src/map.rs:45-69 | two enqueued items come out in the order they went in, peek shows the next one, and the queue ends empty |
| Grid.Half | src/map.rs:88-89 | unsigned halving: twice the result is the extent or one less |
| Grid.Map.constructor | src/map.rs:122-125 | a map of the given size with empty wall and came-from tables |
| Grid.Map.HasWall | src/map.rs:72-77 | false for a cell with no entry, the stored flag otherwise |
| Grid.Map.SetWall | src/map.rs:79-85 | the table maps the cell to the new flag, as an overwrite or an insert; has_wall of the cell is the new flag and every other cell's is unchanged |
| Grid.Map.InMap | src/map.rs:87-92 | a cell is in the map exactly when twice the magnitude of each coordinate is at most the extent, i.e. within plus or minus half of it |
| Grid.Map.InMapCells | src/map.rs:87-92 | only finitely many cells pass the bounds check |
| Grid.Map.OpenAmongSpec | src/map.rs:98-103 | after the first k offsets, the output holds at most k cells, each open and reached by one of those offsets, in offset order, and holds every open one of them |
| Grid.Map.Neighbors | src/map.rs:94-105 | at most four neighbours, and a cell is among them exactly when it is adjacent, in the map and unwalled |
| Grid.Map.NeighborsInOffsetOrder | src/map.rs:98 | the neighbours come in +x, -x, +y, -y order and none repeats |
| Grid.Map.GetNeighbors | src/map.rs:94-105 | the loop over the offsets returns exactly the neighbour list |
| Grid.Map.AddRun | src/map.rs:139-145 | one run walls off its x stretch and its y stretch and changes nothing else |
| Grid.Map.ClearCentre | src/map.rs:148-152 | the 4 x 4 block around the origin is unwalled and nothing else changes |
| Grid.Map.LayOutWalls | src/map.rs:130-152 | a cell is walled exactly when it is outside the centre block and covered by some run or walled before; afterwards all four steps from the origin are neighbours |
| Grid.Map.AllStepsOpen | src/map.rs:98-103 | when the first k offset steps are open, all k are kept |
| Grid.Map.NoStepOpen | src/map.rs:98-103 | when none of the first k offset steps is open, nothing is kept |
| Grid.EmptyMapNeighbourCounts | src/map.rs:237-266 | the 26 x 13 wall-free map of the source's unit tests gives the origin four neighbours and (100, 100) none |
| Search.DiscoveryOrderDistinct | src/map.rs:178-182 | a discovery order lists no cell twice, so no cell is enqueued twice |
| Search.DiscoveryOrderParents | src/map.rs:181 | every back-pointer is itself a key |
| Search.DiscoveryOrderKeys | src/map.rs:180-181 | the keys are exactly the enqueued cells |
| Search.KeyCount | src/map.rs:180-181 | the came-from table has one key per enqueued cell |
| Search.OrderFits | src/map.rs:173 | a discovery order inside a finite set is no longer than that set, which bounds the search loop |
| Search.FollowFromOrigin | src/map.rs:170 | the origin points at itself, so following from it stays there |
| Search.FollowPastOrigin | src/map.rs:170 | a back-pointer walk that reaches the origin stays there |
| Search.FollowReachesOrigin | src/map.rs:168-184 | from a key discovered at position p, p back-pointer steps reach the origin |
| Search.KeyRouteEndsAtOrigin | src/map.rs:168-184 | from one key, one step fewer than there are keys reaches the origin |
| Search.RoutesEndAtOrigin | src/map.rs:168-184 | from every key, one step fewer than there are keys reaches the origin |
| Search.ExtendDiscoveryOrder | src/map.rs:180-181 | enqueuing a new cell that points at an existing key extends the discovery order |
| Search.DiscoverKeepsExplored | src/map.rs:179-182 | recording a new neighbour of a discovered cell keeps the search invariant |
| Search.StartExplored | src/map.rs:168-170 | the origin alone, pointing at itself, satisfies the search invariant |
| Search.StartVisiting | src/map.rs:178 | visiting a dequeued cell starts with none of its neighbours handled |
| Search.SkipKeepsVisiting | src/map.rs:179 | a neighbour that is already a key is passed over |
| Search.DiscoverKeepsVisiting | src/map.rs:179-182 | a neighbour that is not yet a key is enqueued and pointed back at the visited cell |
| Search.FinishVisiting | src/map.rs:178-183 | once all its neighbours are keys, the visited cell counts as done |
| Search.Trail | src/map.rs:170-181 | the trail of n back-pointers from k has n + 1 cells; it starts where the walk ends, ends at k, holds only keys, and each cell is the back-pointer of the next |
| Search.TrailIsRoute | src/map.rs:178-182 | when depth counts back-pointer steps and back-pointers are neighbour steps, the trail of depth[k] steps from a key k is a route from the origin to k |
| Search.DepthBoundsRoutes | src/map.rs:173-184 | when the origin has depth 0 and no neighbour of a key is more than one deeper, every route from the origin ends at a key no deeper than the route's length |
| Search.Undiscovered | src/map.rs:178-179 | a cell is listed exactly when it is among the first n neighbours and not yet a key |
| Search.ExtendLayered | src/map.rs:180 | enqueuing a cell one deeper than the dequeued cell keeps depths non-decreasing along the order |
| Search.ExtendDepths | src/map.rs:181 | a new key one deeper than the key it points at keeps depth counting back-pointer steps |
| Search.ExtendGrounded | src/map.rs:178-181 | pointing a neighbour of a key back at that key keeps every key in the map and every back-pointer a neighbour step |
| Search.ExtendClosed | src/map.rs:180-181 | recording a new key keeps the neighbours of the already dequeued cells keys at most one deeper |
| Search.HandleKey | src/map.rs:179 | a neighbour that is already a key changes nothing |
| Search.HandleFresh | src/map.rs:179-182 | a neighbour that is not a key is pointed back at the visited cell, appended to the order, and made one deeper |
| Search.HandleKeepsVisiting | src/map.rs:178-182 | handling the next neighbour keeps the round's invariant, with one more neighbour a key at most one deeper |
| Search.VisitKeepsVisiting | src/map.rs:178-183 | the rest of a round leaves every neighbour of the visited cell a key at most one deeper |
| Search.VisitKeepsExplored | src/map.rs:176-183 | a whole round over the neighbours of the dequeued cell keeps the search invariant with that cell done |
| Search.NothingAppended | src/map.rs:178 | before the round nothing is appended |
| Search.UndiscoveredNext | src/map.rs:179 | the next neighbour is a key, either old or just appended, exactly when it adds nothing to the undiscovered list; otherwise it is new and extends that list |
| Search.AppendedStep | src/map.rs:179-182 | recording one more undiscovered neighbour extends the appended cells, their back-pointers and their depths by that cell |
| Search.VisitAppends | src/map.rs:178-183 | a round appends to the order exactly the neighbours that were not keys, each once and in list order. Each points back at the visited cell and is one deeper, and nothing else changes |
| Search.RoundTable | src/map.rs:178-183 | after a round, every old key keeps its back-pointer and every neighbour is a key. The neighbours that were not keys point at the visited cell, and no other cell becomes a key |
| Search.UndiscoveredInOrder | src/map.rs:178-179 | the undiscovered neighbours keep the offset order of the neighbour list |
| Search.RoundKeeps | src/map.rs:178-182 | a round keeps every old position and back-pointer, and every new key is one of the appended cells and points at the dequeued cell |
| Search.RoundKeepsFirstParents | src/map.rs:178-182 | a round whose new keys were keys of no earlier dequeued cell's neighbours keeps every back-pointer the first cell of the order having that key as a neighbour |
| Search.RoundKeepsQueueOrder | src/map.rs:178-182 | appending the new keys in offset order keeps the order sorted by back-pointer position, then offset, and every back-pointer before the next cell to dequeue |
| Search.RoundKeepsFirstDiscovered | src/map.rs:176-183 | a round that appends the undiscovered neighbours of the dequeued cell, each pointing back at it, keeps the FIFO choices |
| FlowField.VisitNeighbors | src/map.rs:176-183 | one dequeue round keeps the search invariant, with the dequeued cell now done, and the queue stays the undone part of the order. The neighbours of the dequeued cell that were not keys are appended to the order in get_neighbors order, each once; each points back at the dequeued cell and is one deeper. Every old key keeps its back-pointer, every neighbour is a key afterwards, and no other cell becomes a key. The walls are untouched, so the old table's search invariant and FIFO choices read the same afterwards |
| FlowField.SearchComplete | src/map.rs:173-184 | when the queue is empty, the keys hold every neighbour of every key and are exactly the reachable cells, and each key's depth is the length of a shortest route to it |
| FlowField.FirstNeighbourPosition | src/map.rs:176-182 | in two orders that agree on a prefix, the first position whose cell has k as a neighbour is the same |
| FlowField.SameParent | src/map.rs:176-182 | two tables making the FIFO choices and agreeing on their first n cells give a key whose back-pointer lies among them the same back-pointer at the same position |
| FlowField.ParentCarries | src/map.rs:176-182 | where two such tables agree on the first i cells, the i-th cell of one is a key of the other, no earlier, with the same back-pointer |
| FlowField.SameRank | src/map.rs:176-182 | two such tables that agree on the first i cells agree on cell i as well, since each other order would break the order of enqueuing |
| FlowField.SamePrefix | src/map.rs:176-182 | two such tables agree on their first n cells, for every n up to both lengths |
| FlowField.NextCell | src/map.rs:179-181 | the cell after the first n of a discovery order points back into those n, is a neighbour of its back-pointer, and is not among them |
| FlowField.WholePrefix | src/map.rs:173-184 | a table whose order is a prefix of another's, with its keys closed under neighbours, is that whole order |
| FlowField.SamePositions | src/map.rs:180-181 | two discovery orders over the same sequence give the same positions and the same keys |
| FlowField.SameParents | src/map.rs:176-182 | two tables making the FIFO choices over the same order and keys have the same back-pointers |
| FlowField.SameTable | src/map.rs:168-184 | two tables of one map making the FIFO choices, with back-pointers that are neighbour steps and keys closed under neighbours, are the same table |
| FlowField.FlowFieldUnique | src/map.rs:168-184 | two flow fields of one map that make the FIFO choices have the same order, positions and back-pointers |
| FlowField.RoutesOfDepths | src/map.rs:173-184 | when back-pointers are neighbour steps, depth counts them and no neighbour of a key is more than one deeper, the depths are shortest route lengths and the keys are exactly the reachable cells |
| FlowField.TrailsAreRoutes | src/map.rs:178-182 | when back-pointers are neighbour steps, every key's trail is a route from the origin |
| FlowField.RoutesAreBounded | src/map.rs:173-184 | when no neighbour of a key is more than one deeper, every route from the origin ends at a key no deeper than its length |
| FlowField.ShortestReachable | src/map.rs:173-184 | with shortest depths, a cell is a key exactly when it is reachable from the origin |
| FlowField.KeysReachable | src/map.rs:178-182 | a key whose trail is a route is reachable from the origin |
| FlowField.ReachableKeys | src/map.rs:173-184 | when every route from the origin ends at a key, every reachable cell is a key |
| FlowField.SearchStep | src/map.rs:176-183 | one pass of the loop body dequeues the next cell and visits it, keeping the search invariant and the FIFO choices with one more cell done; the old order is a prefix of the new one and the keys stay among the map's cells |
| FlowField.SearchLoop | src/map.rs:173-184 | the loop ends with every enqueued cell done, the search invariant and the FIFO choices kept |
| FlowField.BuildFlowField | src/map.rs:168-184 | the loop terminates. The table forms a discovery order from the origin, and every back-pointer is a neighbour step. The keys are closed under neighbours and are exactly the reachable cells. A key's depth is its number of back-pointer steps to the origin, its trail is a route of that many steps, and no route from the origin to it is shorter. Each key points at the first dequeued cell that has it as a neighbour, and the order is the FIFO enqueue order: by back-pointer position, then by offset. By FlowFieldUnique these properties determine the table |
| FlowField.BuildMap | src/map.rs:109-197 | walls are exactly the covered cells outside the centre block. The flow field has the properties above, shortest depths and the FIFO choice of predecessor included, and all four cells next to the origin are keys |

## Left out

- Coordinates are unbounded integers, and the source's `i32` overflow is not modelled. It can happen in two places.
  - The wall runs compute `x + dx` with `dx` at most 3 and `x` below `half_width`. That overflows only when `x >= i32::MAX - 2`, which needs a map at least 2^32 - 4 cells wide or high.
  - `get_neighbors` (src/map.rs:99) computes `x + dx` and `y + dy` with a step of plus or minus 1.
    - For cells in the map, as the search calls it, a coordinate is never below `-(2^31 - 1)`. So only `i32::MAX + 1` can overflow, and that needs a map at least 2^32 - 2 cells wide or high.
    - `get_neighbors` is public, and the source's tests call it on (100, 100), outside their 26 x 13 map. On such an arbitrary cell, a coordinate at `i32::MAX` overflows on +1 and one at `i32::MIN` on -1, whatever the map's size. A debug build panics there, which `GetNeighbors` does not: it returns the neighbours that are in the map and unwalled. A release build wraps around. `i32::MAX + 1` becomes `i32::MIN`, which is never in the map. `i32::MIN - 1` becomes `i32::MAX`, which is in the map only when the map is at least 2^32 - 2 cells wide or high. On smaller maps, the wrapped neighbour is dropped as the model drops the unwrapped one.
- The map's size comes from the window size divided by the floating-point `CELL_SIZE`. That division and the cast to `u32` are not modelled; `BuildMap` takes `width` and `height` directly.
- The random draws of `rand::thread_rng().gen_range` become the `runs` input. Each run is constrained to the ranges the source draws from.
- Grid.Map.LayOutWalls: requires 99 runs, each within its drawing range. No run fits a map narrower or shorter than two cells, because `gen_range` panics on the empty range `0..0` there, so those sizes are excluded.
- Spawning wall sprites, logging with `info!` and spawning the map entity are ECS and rendering effects, so they are left out.
- `update_map` only converts a click position to a cell with floating-point arithmetic and spawns a sprite. It is left out for the same reasons.
- The Bevy plugin registration (`MapPlugin`) and the `GameState` check are left out.
- Queues.Queue.Dequeue: `Vec::remove(0)` panics on an empty vector. The model makes non-emptiness a precondition, which the search loop establishes from its `!is_empty()` guard.
- FlowField.BuildFlowField: requires an empty came-from table. This is the state `build_map` creates before it runs the search.
- The map stores wall flags for cells outside its bounds when a run reaches past the edge, as the source does. Those entries only matter through `in_map`, which excludes them.
- The other files of the game (`enemy.rs`, `tower.rs`, `bullet.rs`, `base.rs`, `season.rs`, `game.rs`, `main.rs`) are not part of this model.
