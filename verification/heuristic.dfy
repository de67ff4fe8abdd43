/** The heuristic h: the absolute row difference plus the SIGNED column
    difference, kept exactly as written. */
module Heuristic {
  import opened Cells

  function Abs(x: int): nat {
    if x < 0 then -x else x
  }

  /** Manhattan distance, the reference h is compared against. */
  function Manhattan(a: Pos, b: Pos): nat {
    Abs(a.row - b.row) + Abs(a.col - b.col)
  }

  /** h(a, b) as written. It never exceeds Manhattan distance, agrees with it
      exactly when a's column is not left of b's, is zero on equal
      positions, and is negative exactly when b lies further right of a than
      the rows differ. */
  function H(a: Pos, b: Pos): (r: int)
    ensures r <= Manhattan(a, b)
    ensures r == Manhattan(a, b) <==> a.col >= b.col
    ensures r < 0 <==> b.col - a.col > Abs(a.row - b.row)
    ensures a == b ==> r == 0
  {
    Abs(a.row - b.row) + (a.col - b.col)
  }

  /** h is not symmetric and can be negative. */
  lemma HNotSymmetric()
    ensures H(Pos(0, 0), Pos(0, 5)) == -5
    ensures H(Pos(0, 5), Pos(0, 0)) == 5
  {
  }

  /** One step changes h by at most one: h is consistent for unit edges. */
  lemma HConsistent(p: Pos, q: Pos, e: Pos)
    requires Adjacent(p, q)
    ensures H(p, e) <= 1 + H(q, e)
  {
  }

  /** h never overestimates: along any walk over a valid grid's cached
      adjacency, the number of steps is at least Manhattan distance, hence at
      least h. */
  lemma {:induction false} HAdmissible(grid: Grid, w: seq<Pos>)
    requires Valid(grid) && IsWalk(grid, w) && InBounds(grid.size, w[0])
    ensures Manhattan(w[0], w[|w| - 1]) <= |w| - 1
    ensures H(w[0], w[|w| - 1]) <= |w| - 1
    decreases |w|
  {
    if |w| > 1 {
      var p := w[0];
      assert w[1] in Adj(grid, p);
      assert Placed(grid.nodes[p.row][p.col], p.row, p.col, grid.size);
      assert InBounds(grid.size, w[1]) && Adjacent(p, w[1]);
      var rest := w[1..];
      forall i | 0 <= i < |rest| - 1 ensures rest[i + 1] in Adj(grid, rest[i]) {
        assert rest[i + 1] == w[i + 2] && rest[i] == w[i + 1];
      }
      HAdmissible(grid, rest);
      assert rest[|rest| - 1] == w[|w| - 1];
    }
  }
}
