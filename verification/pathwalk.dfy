/** drawOptimalPath: follow the predecessor map back from a node, painting
    every predecessor met as part of the path. */
module PathWalk {
  import opened Cells

  /** Every predecessor has a cost strictly below its successor's. This is
      what makes following the map terminate. */
  ghost predicate Ranked(previous: map<Pos, Pos>, g: map<Pos, nat>) {
    forall n :: n in previous ==> n in g && previous[n] in g && g[previous[n]] < g[n]
  }

  /** The cells the walk-back loop visits from n: previous[n], then its
      predecessor, and so on until a cell with no entry. */
  function WalkBack(previous: map<Pos, Pos>, g: map<Pos, nat>, n: Pos): (path: seq<Pos>)
    requires Ranked(previous, g)
    ensures |path| > 0 <==> n in previous
    ensures |path| > 0 ==> path[0] == previous[n] && path[|path| - 1] !in previous
    ensures forall i :: 0 <= i < |path| - 1 ==> path[i] in previous && previous[path[i]] == path[i + 1]
    ensures forall i :: 0 <= i < |path| ==> path[i] in g && g[path[i]] < g[n]
    ensures forall i, j :: 0 <= i < j < |path| ==> g[path[j]] < g[path[i]]
    ensures n in g ==> |path| <= g[n]
    decreases if n in g then g[n] else 0
  {
    if n in previous then [previous[n]] + WalkBack(previous, g, previous[n]) else []
  }

  /** drawOptimalPath(prevNodes, currentNode, draw): paints the visited cells
      as path (the draw callback is a no-op here) and reports them in visiting
      order, nearest-to-n first. n itself is not painted. */
  function DrawOptimalPath(grid: Grid, previous: map<Pos, Pos>, g: map<Pos, nat>, n: Pos): (r: (Grid, seq<Pos>))
    requires Valid(grid) && Ranked(previous, g)
    requires forall m :: m in g ==> InBounds(grid.size, m)
    ensures r.1 == WalkBack(previous, g, n)
    ensures Valid(r.0) && r.0.size == grid.size && SameNeighbors(r.0, grid)
    ensures forall q :: q in r.1 ==> StateAt(r.0, q) == Path
    ensures forall q :: InBounds(grid.size, q) && q !in r.1 ==> StateAt(r.0, q) == StateAt(grid, q)
  {
    var path := WalkBack(previous, g, n);
    (Paint(grid, path, Path), path)
  }
}
