/** Node.setNeighbors: the 4-connected, in-bounds, non-barrier neighbour list
    a node caches before a search, and the rebuild of every node's list. */
module Neighbors {
  import opened Cells

  /** q is one step from p, on the grid, and not a barrier. */
  ghost predicate Passable(grid: Grid, p: Pos, q: Pos)
    requires Valid(grid)
  {
    InBounds(grid.size, q) && Adjacent(p, q) && StateAt(grid, q) != Barrier
  }

  /** The position of q among setNeighbors' four probes around p:
      row + 1, row - 1, col + 1, col - 1. */
  function Direction(p: Pos, q: Pos): nat {
    if q.row == p.row + 1 then 0
    else if q.row + 1 == p.row then 1
    else if q.col == p.col + 1 then 2
    else 3
  }

  predicate IsBarrier(grid: Grid, p: Pos)
    requires Has(grid, p)
  {
    StateAt(grid, p) == Barrier
  }

  /** One of setNeighbors' probes: the bounds test passed and the cell it
      names is not a barrier. */
  predicate Clear(grid: Grid, inside: bool, q: Pos)
    requires Valid(grid) && (inside ==> InBounds(grid.size, q))
  {
    inside && !IsBarrier(grid, q)
  }

  /** The list built from the outcome of the four probes around c, in
      probe order: row + 1, row - 1, col + 1, col - 1. */
  function Assemble(c: Pos, down: bool, up: bool, left: bool, right: bool): (r: seq<Pos>)
    requires up ==> c.row > 0
    requires right ==> c.col > 0
    ensures forall x :: x in r <==>
              || (down && x == Pos(c.row + 1, c.col)) || (up && x == Pos(c.row - 1, c.col))
              || (left && x == Pos(c.row, c.col + 1)) || (right && x == Pos(c.row, c.col - 1))
    ensures forall i, j :: 0 <= i < j < |r| ==> Direction(c, r[i]) < Direction(c, r[j])
  {
    (if down then [Pos(c.row + 1, c.col)] else []) + (if up then [Pos(c.row - 1, c.col)] else [])
    + (if left then [Pos(c.row, c.col + 1)] else []) + (if right then [Pos(c.row, c.col - 1)] else [])
  }

  /** The list setNeighbors builds for the node at p. Bounds are checked
      against the node's own maxRow, which a valid grid sets to its size. */
  function NeighborList(grid: Grid, p: Pos): (r: seq<Pos>)
    requires Valid(grid) && InBounds(grid.size, p)
    ensures forall q :: q in r ==> Passable(grid, p, q)
    ensures forall i, j :: 0 <= i < j < |r| ==> Direction(p, r[i]) < Direction(p, r[j])
  {
    var node := NodeAt(grid, p);
    assert Pos(node.row, node.col) == p && node.maxRow == grid.size by {
      assert Placed(grid.nodes[p.row][p.col], p.row, p.col, grid.size);
    }
    var down := Clear(grid, node.row < node.maxRow - 1, Pos(node.row + 1, node.col));
    var up := node.row > 0 && Clear(grid, true, Pos(node.row - 1, node.col));
    var left := Clear(grid, node.col < node.maxRow - 1, Pos(node.row, node.col + 1));
    var right := node.col > 0 && Clear(grid, true, Pos(node.row, node.col - 1));
    Assemble(Pos(node.row, node.col), down, up, left, right)
  }

  /** setNeighbors misses no passable cell. */
  lemma NeighborListComplete(grid: Grid, p: Pos, q: Pos)
    requires Valid(grid) && InBounds(grid.size, p) && Passable(grid, p, q)
    ensures q in NeighborList(grid, p)
  {
    assert Placed(grid.nodes[p.row][p.col], p.row, p.col, grid.size);
  }

  /** setNeighbors on the node at p: the old list is discarded and rebuilt;
      nothing else about the node changes. */
  function SetNeighbors(grid: Grid, p: Pos): (n: Node)
    requires Valid(grid) && InBounds(grid.size, p)
    ensures n.(neighbors := []) == NodeAt(grid, p).(neighbors := [])
    ensures forall q :: q in n.neighbors <==> Passable(grid, p, q)
    ensures Placed(n, p.row, p.col, grid.size)
  {
    NodeAt(grid, p).(neighbors := NeighborList(grid, p))
  }

  /** The loop in main that calls setNeighbors on every node before a search.
      setNeighbors only reads barrier states and writes neighbour lists, so
      the order the nodes are visited in does not matter. */
  function SetAllNeighbors(grid: Grid): (r: Grid)
    requires Valid(grid)
    ensures Valid(r) && r.size == grid.size
    ensures forall p :: InBounds(grid.size, p) ==> StateAt(r, p) == StateAt(grid, p)
    ensures forall p, q :: InBounds(grid.size, p) ==> (q in Adj(r, p) <==> Passable(grid, p, q))
  {
    Grid(grid.size, seq(grid.size, r requires 0 <= r < grid.size =>
                      seq(grid.size, c requires 0 <= c < grid.size => SetNeighbors(grid, Pos(r, c)))))
  }

  /** Adjacency between non-barrier cells is symmetric. */
  lemma NeighborsSymmetric(grid: Grid, p: Pos, q: Pos)
    requires Valid(grid) && InBounds(grid.size, p)
    requires q in NeighborList(grid, p) && StateAt(grid, p) != Barrier
    ensures p in NeighborList(grid, q)
  {
  }

  /** The list depends on the barrier layout only: two grids with the same
      states give the same list, whatever either node cached before. */
  lemma NeighborListReadsStatesOnly(a: Grid, b: Grid, p: Pos)
    requires Valid(a) && Valid(b) && a.size == b.size && InBounds(a.size, p)
    requires forall q :: InBounds(a.size, q) ==> StateAt(a, q) == StateAt(b, q)
    ensures NeighborList(a, p) == NeighborList(b, p)
  {
    assert Placed(a.nodes[p.row][p.col], p.row, p.col, a.size);
    assert Placed(b.nodes[p.row][p.col], p.row, p.col, b.size);
  }

  /** Rebuilding every list twice in a row gives the lists of rebuilding once. */
  lemma SetAllNeighborsIdempotent(grid: Grid)
    requires Valid(grid)
    ensures SetAllNeighbors(SetAllNeighbors(grid)) == SetAllNeighbors(grid)
  {
    var once := SetAllNeighbors(grid);
    var twice := SetAllNeighbors(once);
    forall r: nat, c: nat | r < grid.size && c < grid.size
      ensures twice.nodes[r][c] == once.nodes[r][c]
    {
      var p := Pos(r, c);
      NeighborListReadsStatesOnly(once, grid, p);
      assert twice.nodes[r][c] == SetNeighbors(once, p);
      assert once.nodes[r][c] == SetNeighbors(grid, p);
    }
    forall r | 0 <= r < grid.size ensures twice.nodes[r] == once.nodes[r] {
    }
  }
}
