/** Grid nodes, their states and the square grid that owns them
    (maze_algorithm.py, class Node and the grid built in main). */
module Cells {

  /** The state a node's colour stands for. The source keeps only a colour;
      here the state is explicit and the colour is derived from it. */
  datatype State = Empty | Start | End | Barrier | Open | Closed | Path

  /** A grid index: row and column. */
  datatype Pos = Pos(row: nat, col: nat)

  /** A node: its index, the grid dimension it was built with (maxRow), its
      state and the neighbour list cached by its last setNeighbors call. */
  datatype Node = Node(row: nat, col: nat, maxRow: nat, state: State, neighbors: seq<Pos>)

  /** The size x size grid of nodes, indexed grid.nodes[row][col]. */
  datatype Grid = Grid(size: nat, nodes: seq<seq<Node>>)

  predicate InBounds(size: nat, p: Pos) {
    p.row < size && p.col < size
  }

  /** One step up, down, left or right. */
  predicate Adjacent(p: Pos, q: Pos) {
    || (p.row == q.row && (p.col == q.col + 1 || q.col == p.col + 1))
    || (p.col == q.col && (p.row == q.row + 1 || q.row == p.row + 1))
  }

  /** The node stored at (r, c) knows its own index and the grid dimension,
      and every neighbour it caches is an in-bounds cell one step away. */
  predicate Placed(node: Node, r: nat, c: nat, size: nat) {
    && node.row == r && node.col == c && node.maxRow == size
    && forall q :: q in node.neighbors ==> InBounds(size, q) && Adjacent(Pos(r, c), q)
  }

  ghost predicate Valid(grid: Grid) {
    && |grid.nodes| == grid.size
    && (forall r :: 0 <= r < grid.size ==> |grid.nodes[r]| == grid.size)
    && (forall p :: InBounds(grid.size, p) ==> Has(grid, p))
    && (forall r: nat, c: nat :: r < grid.size && c < grid.size ==> Placed(grid.nodes[r][c], r, c, grid.size))
  }

  /** Whether p indexes a stored node. */
  predicate Has(grid: Grid, p: Pos) {
    p.row < |grid.nodes| && p.col < |grid.nodes[p.row]|
  }

  function NodeAt(grid: Grid, p: Pos): Node
    requires Has(grid, p)
  {
    grid.nodes[p.row][p.col]
  }

  function StateAt(grid: Grid, p: Pos): State
    requires Has(grid, p)
  {
    NodeAt(grid, p).state
  }

  /** The cached neighbour list of the node at p (empty off the grid). */
  function Adj(grid: Grid, p: Pos): seq<Pos> {
    if Has(grid, p) then NodeAt(grid, p).neighbors else []
  }

  /** Every cached neighbour of an in-bounds node is an in-bounds cell one
      step away. */
  lemma AdjInBounds(grid: Grid, p: Pos, q: Pos)
    requires Valid(grid) && InBounds(grid.size, p) && q in Adj(grid, p)
    ensures InBounds(grid.size, q) && Adjacent(p, q)
  {
    assert Placed(grid.nodes[p.row][p.col], p.row, p.col, grid.size);
  }

  /** Two grids whose cached neighbour lists agree everywhere. */
  ghost predicate SameNeighbors(a: Grid, b: Grid) {
    forall p :: Adj(a, p) == Adj(b, p)
  }

  /** A fresh grid: every node Empty with an empty neighbour list. */
  function NewGrid(size: nat): (grid: Grid)
    ensures Valid(grid) && grid.size == size
    ensures forall p :: InBounds(size, p) ==> StateAt(grid, p) == Empty && Adj(grid, p) == []
  {
    Grid(size, seq(size, r requires 0 <= r < size =>
                 seq(size, c requires 0 <= c < size => Node(r, c, size, Empty, []))))
  }

  /** The state setters reset/start/end/close/open/barrier/optimalPath: an
      unconditional write of one node's state that leaves every other node
      and every cached neighbour list alone. */
  function SetState(grid: Grid, p: Pos, st: State): (r: Grid)
    requires Valid(grid) && InBounds(grid.size, p)
    ensures Valid(r) && r.size == grid.size
    ensures StateAt(r, p) == st
    ensures forall q :: InBounds(grid.size, q) && q != p ==> NodeAt(r, q) == NodeAt(grid, q)
    ensures SameNeighbors(r, grid)
  {
    var row := grid.nodes[p.row];
    Grid(grid.size, grid.nodes[p.row := row[p.col := row[p.col].(state := st)]])
  }

  /** The grid after a run of setter calls, given as the cells they wrote
      and the state each was left in. */
  function Repaint(grid: Grid, painted: map<Pos, State>): (r: Grid)
    requires Valid(grid)
    ensures Valid(r) && r.size == grid.size && SameNeighbors(r, grid)
    ensures forall p :: InBounds(grid.size, p) ==> StateAt(r, p) == (if p in painted then painted[p] else StateAt(grid, p))
  {
    Grid(grid.size, seq(grid.size, r requires 0 <= r < grid.size =>
      seq(grid.size, c requires 0 <= c < grid.size =>
        var node := grid.nodes[r][c];
        if Pos(r, c) in painted then node.(state := painted[Pos(r, c)]) else node)))
  }

  /** Paint every listed cell with st, in order. */
  function Paint(grid: Grid, cells: seq<Pos>, st: State): (r: Grid)
    requires Valid(grid) && forall q :: q in cells ==> InBounds(grid.size, q)
    ensures Valid(r) && r.size == grid.size && SameNeighbors(r, grid)
    ensures forall q :: q in cells ==> StateAt(r, q) == st
    ensures forall q :: InBounds(grid.size, q) && q !in cells ==> StateAt(r, q) == StateAt(grid, q)
    decreases |cells|
  {
    if cells == [] then grid else Paint(SetState(grid, cells[0], st), cells[1..], st)
  }

  // ---------------------------------------------------------------------
  // Walks over the cached adjacency.

  /** Consecutive cells of w are linked by cached neighbour lists. */
  ghost predicate IsWalk(grid: Grid, w: seq<Pos>) {
    |w| > 0 && forall i :: 0 <= i < |w| - 1 ==> w[i + 1] in Adj(grid, w[i])
  }

  ghost predicate Reachable(grid: Grid, a: Pos, b: Pos) {
    exists w :: IsWalk(grid, w) && w[0] == a && w[|w| - 1] == b
  }

  /** A cell set that contains a and is closed under the cached adjacency
      contains every cell reachable from a. */
  lemma {:induction false} ClosedSetHoldsReachable(grid: Grid, cells: set<Pos>, w: seq<Pos>)
    requires IsWalk(grid, w) && w[0] in cells
    requires forall n, m :: n in cells && m in Adj(grid, n) ==> m in cells
    ensures w[|w| - 1] in cells
    decreases |w|
  {
    if |w| > 1 {
      assert w[1] in Adj(grid, w[0]);
      var rest := w[1..];
      forall i | 0 <= i < |rest| - 1 ensures rest[i + 1] in Adj(grid, rest[i]) {
        assert rest[i + 1] == w[i + 2] && rest[i] == w[i + 1];
      }
      ClosedSetHoldsReachable(grid, cells, rest);
      assert rest[|rest| - 1] == w[|w| - 1];
    }
  }

  /** A reachable cell's cached neighbours are reachable. */
  lemma ReachableStep(grid: Grid, a: Pos, b: Pos, c: Pos)
    requires Reachable(grid, a, b) && c in Adj(grid, b)
    ensures Reachable(grid, a, c)
  {
    var w :| IsWalk(grid, w) && w[0] == a && w[|w| - 1] == b;
    var w' := w + [c];
    forall i | 0 <= i < |w'| - 1 ensures w'[i + 1] in Adj(grid, w'[i]) {
      if i < |w| - 1 { assert w'[i + 1] == w[i + 1] && w'[i] == w[i]; }
    }
    assert IsWalk(grid, w') && w'[0] == a && w'[|w'| - 1] == c;
  }

  /** A walk over one grid is a walk over any grid with the same neighbour
      lists. */
  lemma SameNeighborsSameWalks(a: Grid, b: Grid, w: seq<Pos>)
    requires SameNeighbors(a, b) && IsWalk(a, w)
    ensures IsWalk(b, w)
  {
    forall i | 0 <= i < |w| - 1 ensures w[i + 1] in Adj(b, w[i]) {
      assert Adj(a, w[i]) == Adj(b, w[i]);
    }
  }

  /** Reachability depends on the cached neighbour lists only, so repainting
      cells never changes it. */
  lemma SameNeighborsSameReachable(a: Grid, b: Grid, x: Pos, y: Pos)
    requires SameNeighbors(a, b)
    ensures Reachable(a, x, y) <==> Reachable(b, x, y)
  {
    if Reachable(a, x, y) {
      var w :| IsWalk(a, w) && w[0] == x && w[|w| - 1] == y;
      SameNeighborsSameWalks(a, b, w);
    }
    if Reachable(b, x, y) {
      var w :| IsWalk(b, w) && w[0] == x && w[|w| - 1] == y;
      SameNeighborsSameWalks(b, a, w);
    }
  }

  // ---------------------------------------------------------------------
  // Cells and their count (used to bound path costs).

  function AllCells(size: nat): set<Pos> {
    set r: nat, c: nat | r < size && c < size :: Pos(r, c)
  }

  lemma InAllCells(size: nat, p: Pos)
    ensures p in AllCells(size) <==> InBounds(size, p)
  {
    if InBounds(size, p) {
      assert p == Pos(p.row, p.col);
    }
  }

  lemma {:induction false} SubsetCard<T>(a: set<T>, b: set<T>)
    requires a <= b
    ensures |a| <= |b|
    decreases a
  {
    if a != {} {
      var x :| x in a;
      SubsetCard(a - {x}, b - {x});
    }
  }

  /** A subset that misses one element of b is strictly smaller than b. */
  lemma ProperSubsetCard<T>(a: set<T>, b: set<T>, x: T)
    requires a <= b && x in b && x !in a
    ensures |a| < |b|
  {
    SubsetCard(a, b - {x});
  }

  // ---------------------------------------------------------------------
  // Colours, as the source encodes states.

  datatype Rgb = Rgb(red: nat, green: nat, blue: nat)

  /** EMPTY_COLOR ... PATH_COLOR. END_COLOR and OPEN_COLOR are the same tuple. */
  function Color(s: State): Rgb {
    match s
    case Empty => Rgb(52, 58, 64)
    case Start => Rgb(251, 195, 188)
    case End => Rgb(239, 99, 81)
    case Barrier => Rgb(0, 0, 0)
    case Open => Rgb(239, 99, 81)
    case Closed => Rgb(243, 131, 117)
    case Path => Rgb(255, 255, 255)
  }

  /** isEnd as written: a colour comparison. */
  predicate IsEndByColor(n: Node) {
    Color(n.state) == Color(End)
  }

  /** isOpen as written: a colour comparison. */
  predicate IsOpenByColor(n: Node) {
    Color(n.state) == Color(Open)
  }

  /** Colour decodes state except that End and Open share a colour. */
  lemma ColorAliasing(s: State, t: State)
    ensures Color(s) == Color(t) <==> s == t || (s in {End, Open} && t in {End, Open})
  {
  }

  /** Counterexample: an Open node passes isEnd and an End node passes isOpen. */
  lemma OpenNodeReadsAsEnd(n: Node)
    requires n.state == Open || n.state == End
    ensures IsEndByColor(n) && IsOpenByColor(n)
  {
  }

  /** The state tests as intended: read the state, not the colour. */
  predicate IsEnd(n: Node) {
    n.state == End
  }

  predicate IsOpen(n: Node) {
    n.state == Open
  }

  /** With explicit states, isEnd and isOpen never hold together, and each
      agrees with the colour test except on the aliased pair. */
  lemma EndOpenExclusive(n: Node)
    ensures !(IsEnd(n) && IsOpen(n))
    ensures IsEnd(n) ==> IsEndByColor(n)
    ensures IsEndByColor(n) && !IsOpen(n) ==> IsEnd(n)
  {
  }
}
