# Maze bot search, modelled in Dafny

This project models the grid-search core of `maze_algorithm.py`, a pygame
"maze bot". The program keeps a square grid of nodes. Each node is empty,
the start, the end, a barrier, open, closed or on the path. Before a search,
every node caches the list of its up/down/left/right neighbours that are on
the grid and not barriers (`setNeighbors`). `AI` then runs a best-first
search from the start node. It uses these parts:

- a cost map `g` (unit edges; a missing entry stands for +inf);
- an estimate map `f = g + h`;
- a predecessor map `previous`;
- a `PriorityQueue` of `(priority, count, node)` tuples;
- a set `open_hash` that mirrors which nodes are queued.

When the end node is popped, `drawOptimalPath` follows `previous` back from
it, painting every predecessor as path, and the end is painted end again.

Modules, one per part of the program:

- `Cells`: states, positions, nodes and the grid; the state setters; walks
  over the cached neighbour lists; the colour table.
- `Neighbors`: `setNeighbors` and the loop in `main` that calls it on every
  node.
- `Heuristic`: `h`, kept exactly as written: `|r1 - r2| + (c1 - c2)`. The
  column term has no absolute value, so despite the comment "using manhattan
  distance" it is not symmetric and can be negative. It never exceeds
  Manhattan distance, so it never overestimates a walk's length
  (`Heuristic.HAdmissible`).
- `Frontier`: the priority queue as a sequence of entries with
  least-element extraction under Python's tuple order on
  `(priority, count)`.
- `PathWalk`: `drawOptimalPath`.
- `Search`: the search state, one relaxation, the neighbour loop, pop and
  expand, the invariants each step keeps, and `AI` itself.

The invariants of a run are these (`Search.Running`):

- The start costs 0 and never gets a predecessor.
- Every predecessor is strictly cheaper than its successor and lists it as a
  neighbour, so the chain back from any reached node is acyclic and ends at
  the start.
- `f` is `g + h` on every reached node.
- `open_hash` is exactly the set of queued nodes.
- No node is queued twice and no two entries share a count.
- The start's entry has priority 0, not `f[start]`.
- Every other entry's priority is at least its node's current `f`. It can be
  larger, because an improved node that is already queued keeps its stale
  entry.
- Once reached, the end stays queued until it is popped.
- A reached node that is no longer queued has all its neighbours reached.
- The cells the run painted are exactly the reached cells other than the
  start: Open while queued, Closed after.

From these, `Search.AI` proves what the run delivers:

- It returns true exactly when the end is reachable over the cached
  neighbour lists.
- On success, the drawn path leads back from a neighbour of the end to the
  start without repeating a cell.
- On failure, exactly the reachable cells other than the start end up
  Closed.

Termination uses a measure: the set of pairs `(cell, k)` with `k` below the
cell's cost, where an unreached cell counts as costing the number of cells.
Every strict improvement removes a pair. A pop that improves nothing shortens
the queue.

## Model

| member | source | states |
|---|---|---|
| Cells.NewGrid | maze_algorithm.py:218-222 | main's grid-building loop: every node, built by Node.__init__ (lines 24-43), is Empty with an empty neighbour list and knows its own index and the grid dimension; the grid is valid. |
| Cells.SetState | maze_algorithm.py:66-85 | Each state setter writes the state of exactly one node: that node now has the new state, every other node is unchanged, and no neighbour list changes. |
| Cells.Repaint | maze_algorithm.py:196-204 | Applying the open/close calls made during a run: each marked cell ends in the state it was last given, every other cell keeps its state, and no neighbour list changes. |
| Cells.Paint | maze_algorithm.py:112-114 | Calling optimalPath on a list of cells paints each of them Path and leaves every other cell's state and every neighbour list alone. |
| Cells.AdjInBounds | maze_algorithm.py:87-104 | On a valid grid every cached neighbour of an in-bounds node is an in-bounds cell one step away. |
| Cells.Color | maze_algorithm.py:11-18 | The colour table: the colour each state is drawn in (no contract; its meaning is stated by Cells.ColorAliasing). |
| Cells.IsEndByColor | maze_algorithm.py:54-55 | isEnd as written, a colour comparison (no contract; see Cells.OpenNodeReadsAsEnd). |
| Cells.IsOpenByColor | maze_algorithm.py:60-61 | isOpen as written, a colour comparison (no contract; see Cells.OpenNodeReadsAsEnd). |
| Cells.ColorAliasing | maze_algorithm.py:11-18 | Two states share a colour exactly when they are equal or both are End/Open: the colour encodes the state except for that pair. |
| Cells.OpenNodeReadsAsEnd | maze_algorithm.py:54-61 | As written, an Open node passes isEnd and an End node passes isOpen. |
| Cells.SameNeighborsSameReachable | maze_algorithm.py:66-85 | The state setters never touch neighbour lists, so two grids with the same lists have the same reachability; with Search.AI's SameNeighbors clause, the result grid has the same reachability as the input. |
| Cells.IsEnd | maze_algorithm.py:54-61 | isEnd as intended: a test of the node's state, not its colour (no contract; see Cells.EndOpenExclusive). |
| Cells.IsOpen | maze_algorithm.py:54-61 | isOpen as intended: a test of the node's state, not its colour (no contract; see Cells.EndOpenExclusive). |
| Cells.EndOpenExclusive | maze_algorithm.py:54-61 | Reading the state instead of the colour, isEnd and isOpen never both hold, and each agrees with its colour test apart from the aliased pair. |
| Neighbors.IsBarrier | maze_algorithm.py:63-64 | isBarrier, as a state test; the barrier colour is shared with no other state (Cells.ColorAliasing), so it agrees with the colour comparison. No contract. |
| Neighbors.NeighborList | maze_algorithm.py:87-104 | Every listed cell is on the grid, one step from the node and not a barrier; the list follows the probe order row+1, row-1, col+1, col-1 (so it has no duplicates). |
| Neighbors.NeighborListComplete | maze_algorithm.py:87-104 | Every on-grid, non-barrier cell one step from the node is listed. |
| Neighbors.SetNeighbors | maze_algorithm.py:87-104 | The node's list is replaced by exactly the passable neighbours; nothing else about the node changes. |
| Neighbors.SetAllNeighbors | maze_algorithm.py:254-256 | Refreshing every node keeps every state and leaves each node's list holding exactly its passable neighbours. |
| Neighbors.NeighborsSymmetric | maze_algorithm.py:87-104 | If q is listed for p and p is not a barrier, then p is listed for q. |
| Neighbors.NeighborListReadsStatesOnly | maze_algorithm.py:87-104 | The list depends only on the grid's states, not on the lists cached before. |
| Neighbors.SetAllNeighborsIdempotent | maze_algorithm.py:87-104 | setNeighbors starts from an empty list, so refreshing every node twice gives the same grid as refreshing once. |
| Heuristic.H | maze_algorithm.py:145-148 | h never exceeds Manhattan distance and equals it exactly when the first column is not left of the second; h(p, p) = 0; h is negative exactly when the second column lies further right than the rows differ. |
| Heuristic.HNotSymmetric | maze_algorithm.py:145-148 | h((0,0),(0,5)) = -5 while h((0,5),(0,0)) = 5. |
| Heuristic.HConsistent | maze_algorithm.py:145-148 | One step changes h by at most one. |
| Heuristic.HAdmissible | maze_algorithm.py:145-148 | Along any walk over the cached lists, both Manhattan distance and h between the ends are at most the number of steps. |
| Frontier.Before | maze_algorithm.py:180 | Python's tuple comparison on (priority, count, node) as far as the first two components decide it (no contract; see Frontier.BeforeOrder). |
| Frontier.BeforeOrder | maze_algorithm.py:180 | The order is irreflexive, asymmetric and transitive, and any two entries with different counts are ordered one way or the other. |
| Frontier.MinIndex | maze_algorithm.py:180 | The chosen entry is not preceded by any other in (priority, count) order; with unique counts it precedes every other. |
| Frontier.Get | maze_algorithm.py:180 | get removes exactly one entry (the rest is kept as a multiset), and no remaining entry comes before it; with unique counts it comes before all of them. |
| Frontier.RemoveAtKeepsUnique | maze_algorithm.py:180-181 | Removing one entry keeps nodes and counts unique and removes exactly its node from the queued set. |
| Frontier.GetKeepsUnique | maze_algorithm.py:180-181 | get keeps nodes and counts unique and takes exactly the popped node out of the queued set. |
| Frontier.PutKeepsUnique | maze_algorithm.py:196-199 | Adding an entry for an unqueued node with a larger count than all others keeps nodes and counts unique and adds exactly that node. |
| PathWalk.WalkBack | maze_algorithm.py:111-113 | When costs fall strictly along previous, the walk from n is non-empty exactly when n has a predecessor; it starts at previous[n], follows previous step by step with strictly falling cost, stops at a cell without a predecessor, and is no longer than n's cost. |
| PathWalk.DrawOptimalPath | maze_algorithm.py:111-115 | It reports exactly the cells of the walk back from n and paints each of them Path; every other cell and every neighbour list is unchanged. |
| Search.Init | maze_algorithm.py:152-172 | The start is queued alone as (0, 0, start) with g = 0 and f = h(start, end), nothing else is reached, and the run invariants hold. |
| Search.Improves | maze_algorithm.py:189-192 | The test g_temp < g[neighbor] with unit weight, an unreached neighbour counting as +inf. No contract. |
| Search.Relax | maze_algorithm.py:188-200 | Without strict improvement nothing changes. With it, previous, g and f of the neighbour are set together to current, g[current] + 1 and g[current] + 1 + h. A neighbour already queued keeps its entry: queue, open_hash, count and colours are unchanged. A neighbour not yet queued gets the entry (f, count + 1, neighbour), joins open_hash and is painted Open. No cost rises; the start keeps cost 0 and gains no predecessor. |
| Search.RelaxKeepsStaleEntry | maze_algorithm.py:192-199 | When an already-queued node improves, its old entry stays in the queue with a priority strictly above the node's new f: the queue is not decrease-key. |
| Search.RelaxAll | maze_algorithm.py:188-200 | After the neighbour loop each listed neighbour costs exactly the smaller of its old cost and g[current] + 1, every other reached cell keeps its cost, the reached set grows by exactly the listed cells, and the start keeps cost 0 without a predecessor. |
| Search.Pop | maze_algorithm.py:180-181 | The popped entry is removed and its node taken out of open_hash; no remaining entry comes before it; with the queue invariants its node was queued and it precedes every remaining entry. |
| Search.Close | maze_algorithm.py:203-204 | Only the colours change: the node is recorded Closed unless it is the start, in which case nothing changes. |
| Search.Expand | maze_algorithm.py:188-204 | After expansion each cached neighbour costs exactly the smaller of its old cost and g[node] + 1, every other reached cell keeps its cost, and the node is closed unless it is the start, which is left as the neighbour loop painted it. |
| Search.RelaxKeepsLinked | maze_algorithm.py:192-194 | After an improvement every predecessor is still strictly cheaper than its successor and lists it as a neighbour. |
| Search.RelaxKeepsBounded | maze_algorithm.py:189-194 | After a relaxation every reached cell is on the grid and costs less than the number of reached cells. |
| Search.RelaxKeepsEstimates | maze_algorithm.py:192-195 | After a relaxation the start is still the cost-0 root and f = g + h on exactly the reached cells. |
| Search.RelaxShrinksBudget | maze_algorithm.py:192-194 | A relaxation either changes nothing or strictly shrinks the termination measure. |
| Search.RelaxKeepsQueueShape | maze_algorithm.py:196-199 | After an improvement open_hash is still exactly the set of queued nodes, with unique nodes and counts, counts at most the counter, and only reached nodes queued. |
| Search.RelaxKeepsQueuePriorities | maze_algorithm.py:195-199 | After an improvement the start's entry is still (0, 0, start) and every other entry's priority is still at least its node's f: the stale one as well as the new one. |
| Search.RelaxKeepsEndPending | maze_algorithm.py:196-199 | If the end is reached it is queued, after a relaxation as before. |
| Search.RelaxKeepsInv | maze_algorithm.py:188-200 | Relaxing an edge out of a reached node keeps every run invariant. |
| Search.RelaxKeepsClosed | maze_algorithm.py:188-200 | A relaxation keeps every unqueued reached node's neighbours reached and never queues the node being expanded. |
| Search.RelaxKeepsColours | maze_algorithm.py:196-200 | A relaxation keeps the painted cells equal to the reached cells other than the start, painted Open exactly while queued. |
| Search.RelaxAllKeepsInv | maze_algorithm.py:188-200 | The whole neighbour loop keeps every run invariant. |
| Search.RelaxAllKeepsClosed | maze_algorithm.py:188-200 | The neighbour loop keeps unqueued reached nodes' neighbours reached and never queues the node being expanded. |
| Search.RelaxAllKeepsColours | maze_algorithm.py:188-200 | The neighbour loop keeps the colours in step with the queue. |
| Search.RelaxAllShrinksBudget | maze_algorithm.py:188-200 | The neighbour loop either changes nothing or strictly shrinks the termination measure. |
| Search.PopKeepsQueueShape | maze_algorithm.py:180-181 | Popping keeps open_hash equal to the queued nodes with nodes and counts unique; the popped node was reached. |
| Search.PopKeepsInv | maze_algorithm.py:180-183 | Popping a node other than the end keeps every run invariant; popping any node, the end included, keeps the grid, root, bound, estimate and link invariants (GridOk, Rooted, Bounded, Estimates, Linked). |
| Search.PopOpensGap | maze_algorithm.py:180-181 | After a pop only the popped node can be unqueued with unreached neighbours or unqueued but still Open. |
| Search.CloseRestores | maze_algorithm.py:203-204 | Closing an unqueued node whose neighbours are all reached restores closure and colours for every node; the start is never painted. |
| Search.ExpandKeepsInv | maze_algorithm.py:188-204 | Expanding a reached node keeps every run invariant. |
| Search.ExpandClosesCurrent | maze_algorithm.py:188-204 | Expanding the popped node restores the loop invariant: every unqueued reached node has its neighbours reached and the colours match the queue. |
| Search.ExpandShrinksBudget | maze_algorithm.py:174-204 | An iteration either shrinks the termination measure or leaves the costs alone with the same queue length, so the loop ends. |
| Search.ReachedIsReachable | maze_algorithm.py:192-194 | Every reached cell is reachable from the start over the cached neighbour lists. |
| Search.ExhaustedReachesAll | maze_algorithm.py:174-206 | When the queue runs dry the reached cells are exactly the cells reachable from the start, and the end is not among them. |
| Search.WalkBackReachesStart | maze_algorithm.py:111-115 | From the reached end, the walk back is empty when the end is the start; otherwise it starts at a cell listing the end as a neighbour, each cell lists the one before it, it visits no cell twice, it misses the end and it finishes at the start. |
| Search.Succeed | maze_algorithm.py:183-186 | After drawOptimalPath and endNode.end(): the end is End, every path cell is in bounds and Path, every other changed cell is a reached cell painted Open or Closed, and no neighbour list changes. |
| Search.SucceedPaints | maze_algorithm.py:183-186 | Every cell changed besides the path and the end is Open or Closed and reachable from the start. |
| Search.SucceedOutcome | maze_algorithm.py:183-186 | When the end is popped it is reachable and the grid and path meet DrawsPath. |
| Search.ExhaustedOutcome | maze_algorithm.py:174-206 | When the queue runs dry the end is unreachable and exactly the reachable cells other than the start are Closed. |
| Search.AI | maze_algorithm.py:151-206 | Returns true exactly when the end is reachable from the start over the cached lists; then the end is End and the drawn path walks back from a neighbour of the end to the start without repeats, painted Path, with every other change an Open or Closed reachable cell; otherwise exactly the reachable cells other than the start are Closed; no neighbour list changes. |

## Left out

- Window setup, drawing and grid lines (`drawOnGrid`, `drawGridLines`, `draw`, lines 6-8, 45-46, 117-133) are rendering. The `draw` callback that `AI` and `drawOptimalPath` call is a no-op here.
- Event polling inside the search loop (lines 175-177) and the whole `main` event loop (lines 211-282) are input handling. That includes mouse placement of the start, end and barriers, the 'c' reset and the 'p' random maze (`random.randint`). The parts of `main` that are modelled are the grid-building loop (lines 218-222, `Cells.NewGrid`) and the `setNeighbors` loop run before each search (lines 254-256, `Neighbors.SetAllNeighbors`).
- `retrieveClickedNode` (lines 135-141) and the pixel fields `x`, `y` and `width` of a node are mouse and screen geometry.
- `float("inf")`: a cell without an entry in `g` or `f` is at +inf.
- Python's `PriorityQueue` internals: the queue is a sequence with least-element extraction. Its tie-break on the node object is never reached, because counts are unique.
- Nodes are Python objects hashed by identity; here a node is named by its position.
- The search paints cells one call at a time. The model records those calls in a map and applies them to the grid when the run ends (`Cells.Repaint`). No draw happens in between, so the two cannot be told apart.
- Search.AI: returns the grid and the list of cells `drawOptimalPath` painted, instead of mutating nodes in place. The list is an extra out-parameter that the source does not return.
- Search.AI: does not state that the drawn path is a shortest one. The start is queued with priority 0 and improved nodes keep stale entries, so that claim would need a separate argument.
- `isStart` (lines 51-52) and `isClosed` (lines 57-58) are not called by the search or by `setNeighbors`, and are not modelled. `isBarrier` is modelled as a state test (`Neighbors.IsBarrier`). `isEnd` and `isOpen` are discussed under Findings.
- `getPosition` (lines 48-49) is the node's `Pos`.
- PathWalk.WalkBack: takes the cost map `g` as an extra argument and requires that costs fall strictly along `previous` (`Ranked`). The loop at lines 112-113 would never end on a cyclic `prevNodes`; the model does not describe that case. `AI` never builds such a map: its invariant `Linked` implies `Ranked`.
- PathWalk.DrawOptimalPath: the same extra `g` argument and the same `Ranked` requirement as `PathWalk.WalkBack`, and additionally that every cell with a cost is on the grid, so that each cell it paints exists. `AI` meets this through its invariant `Bounded`.

## Findings

| source | as written | input that shows it | evidently intended | confidence | as-written member | corrected member |
|---|---|---|---|---|---|---|
| maze_algorithm.py:13-16 | `END_COLOR` and `OPEN_COLOR` are the same tuple `(239, 99, 81)`, so `isEnd` and `isOpen` (lines 54-61) cannot tell an end node from an open one | any node after `open()`: `isEnd()` returns true; after `end()`, `isOpen()` returns true | distinct states that the two tests separate | high, not executed | Cells.OpenNodeReadsAsEnd | Cells.EndOpenExclusive |

Neither `isEnd` nor `isOpen` is called anywhere in the file, so the search itself is unaffected. The visible effect is that open nodes and the end node are drawn in the same colour. The rest of the model keeps states explicit and never decodes them from colours.
