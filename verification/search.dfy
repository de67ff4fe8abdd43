/** The search AI(draw, grid, startNode, endNode): best-first search with
    unit edges over the cached neighbour lists, ordered by (f, insertion
    count), with open_hash mirroring which nodes are queued. */
module Search {
  import opened Cells
  import opened Heuristic
  import opened Frontier
  import opened PathWalk

  /** The locals of one run. A cell absent from g or f has cost +inf. The
      grid is read for its cached neighbour lists only; the open/close
      calls made so far are collected in painted and applied to the grid
      when the run ends. */
  datatype SearchState = SearchState(
    grid: Grid,
    painted: map<Pos, State>,
    start: Pos,
    end: Pos,
    g: map<Pos, nat>,
    f: map<Pos, int>,
    previous: map<Pos, Pos>,
    frontier: seq<Entry>,
    openHash: set<Pos>,
    count: nat)

  // ---------------------------------------------------------------------
  // Invariants of a run.

  ghost predicate GridOk(s: SearchState) {
    Valid(s.grid) && InBounds(s.grid.size, s.start) && InBounds(s.grid.size, s.end)
  }

  /** The start costs 0 and has no predecessor; every other reached cell
      has one. */
  ghost predicate Rooted(s: SearchState) {
    && s.start in s.g && s.g[s.start] == 0
    && s.start !in s.previous
    && s.g.Keys == s.previous.Keys + {s.start}
  }

  /** Reached cells lie on the grid, and no finite cost reaches the number
      of reached cells. */
  ghost predicate Bounded(s: SearchState) {
    forall n :: n in s.g ==> InBounds(s.grid.size, n) && s.g[n] < |s.g|
  }

  /** f is g plus h towards the end on exactly the reached cells. */
  ghost predicate Estimates(s: SearchState) {
    s.f.Keys == s.g.Keys && forall n :: n in s.g ==> s.f[n] == s.g[n] + H(n, s.end)
  }

  /** Every predecessor is strictly cheaper than its successor and lists it
      as a neighbour. */
  ghost predicate Linked(s: SearchState) {
    && Ranked(s.previous, s.g)
    && forall n :: n in s.previous ==> n in Adj(s.grid, s.previous[n])
  }

  /** open_hash is exactly the set of queued nodes; each node is queued at
      most once; counts are unique and never above the counter; every
      queued node has been reached. */
  ghost predicate QueueShape(s: SearchState) {
    && s.openHash == Nodes(s.frontier)
    && UniqueNodes(s.frontier) && UniqueCounts(s.frontier)
    && (forall e :: e in s.frontier ==> e.count <= s.count && e.node in s.g)
  }

  /** The count-0 entry is the start's, queued with priority 0; every later
      entry's priority is the f its node had when queued, which may since
      have dropped (a queued entry is never updated). */
  ghost predicate QueuePriorities(s: SearchState) {
    && (forall e :: e in s.frontier && e.count == 0 ==> e == Entry(0, 0, s.start))
    && (forall e :: e in s.frontier && e.count > 0 && e.node in s.f ==> e.priority >= s.f[e.node])
  }

  ghost predicate Queued(s: SearchState) {
    QueueShape(s) && QueuePriorities(s)
  }

  /** Once the end is reached it stays queued until it is popped. */
  ghost predicate EndPending(s: SearchState) {
    s.end in s.g ==> s.end in s.openHash
  }

  /** Every reached cell but the start has been painted, Open while queued
      and Closed otherwise (cells in x may still be Open though unqueued);
      the start is never painted. */
  ghost predicate Colours(s: SearchState, x: set<Pos>) {
    && s.painted.Keys == s.g.Keys - {s.start}
    && (forall n :: n in s.painted ==> s.painted[n] == Open || s.painted[n] == Closed)
    && (forall n :: n in s.painted && n !in x ==> (s.painted[n] == Open <==> n in s.openHash))
  }

  ghost predicate Inv(s: SearchState) {
    GridOk(s) && Rooted(s) && Bounded(s) && Estimates(s) && Linked(s) && Queued(s) && EndPending(s)
  }

  /** Every reached cell that is not queued (and not in x) has all its
      neighbours reached. */
  ghost predicate ClosedExcept(s: SearchState, x: set<Pos>) {
    forall n, m :: n in s.g && n !in s.openHash && n !in x && m in Adj(s.grid, n) ==> m in s.g
  }

  /** The loop invariant of the search. */
  ghost predicate Running(s: SearchState) {
    Inv(s) && ClosedExcept(s, {}) && Colours(s, {})
  }

  // ---------------------------------------------------------------------
  // Termination measure: a unit for every cost step still available.

  function Potential(g: map<Pos, nat>, size: nat, p: Pos): nat {
    if p in g then g[p] else |AllCells(size)|
  }

  ghost function Budget(g: map<Pos, nat>, size: nat): set<(Pos, nat)> {
    set p: Pos, k: nat | p in AllCells(size) && k < Potential(g, size, p) :: (p, k)
  }

  /** Lowering one cell's potential strictly shrinks the budget. */
  lemma BudgetShrinks(g: map<Pos, nat>, size: nat, p: Pos, v: nat)
    requires p in AllCells(size) && v < Potential(g, size, p)
    ensures Budget(g[p := v], size) < Budget(g, size)
  {
    var g' := g[p := v];
    forall x | x in Budget(g', size) ensures x in Budget(g, size) {
      var (q, k) := x;
      assert q in AllCells(size) && k < Potential(g', size, q);
    }
    assert (p, v) in Budget(g, size);
    assert (p, v) !in Budget(g', size);
  }

  /** While some cell is unreached, fewer cells are reached than exist. */
  lemma UnreachedLeavesRoom(g: map<Pos, nat>, size: nat, nb: Pos)
    requires forall n :: n in g ==> InBounds(size, n)
    requires InBounds(size, nb) && nb !in g
    ensures |g| < |AllCells(size)|
  {
    forall n | n in g.Keys ensures n in AllCells(size) {
      InAllCells(size, n);
    }
    InAllCells(size, nb);
    ProperSubsetCard(g.Keys, AllCells(size), nb);
  }

  // ---------------------------------------------------------------------
  // Operations.

  /** Initialisation: count = 0, the start queued as (0, 0, start), g = 0
      and f = h at the start, every other cell at +inf. The queued priority
      is 0 rather than f[start]. */
  function Init(grid: Grid, start: Pos, end: Pos): (s: SearchState)
    requires Valid(grid) && InBounds(grid.size, start) && InBounds(grid.size, end)
    ensures Running(s)
    ensures s.grid == grid && s.start == start && s.end == end && s.painted == map[]
    ensures s.g.Keys == {start} && s.f[start] == H(start, end)
    ensures s.frontier == [Entry(0, 0, start)]
  {
    var s := SearchState(grid, map[], start, end, map[start := 0], map[start := H(start, end)], map[],
                         [Entry(0, 0, start)], {start}, 0);
    assert Nodes(s.frontier) == {start} by {
      assert s.frontier[0].node == start;
    }
    s
  }

  /** A strictly cheaper route to nb through current. */
  predicate Improves(s: SearchState, current: Pos, nb: Pos)
    requires current in s.g
  {
    nb !in s.g || s.g[current] + 1 < s.g[nb]
  }

  /** One iteration of the neighbour loop: on strict improvement, set
      previous, g and f of nb together; queue nb (with a fresh count) and
      paint it Open only when it is not already queued. */
  function Relax(s: SearchState, current: Pos, nb: Pos): (r: SearchState)
    requires current in s.g
    ensures r.grid == s.grid && r.start == s.start && r.end == s.end
    ensures r.g.Keys == s.g.Keys + {nb}
    ensures forall n :: n in s.g ==> r.g[n] <= s.g[n]
    ensures r.g[nb] <= s.g[current] + 1 && r.g[current] == s.g[current]
    ensures !Improves(s, current, nb) ==> r == s
    ensures Improves(s, current, nb) ==> r.previous == s.previous[nb := current] && r.g == s.g[nb := s.g[current] + 1]
    ensures Improves(s, current, nb) ==> r.f == s.f[nb := s.g[current] + 1 + H(nb, s.end)]
    ensures Improves(s, current, nb) && nb in s.openHash ==>
              r.frontier == s.frontier && r.openHash == s.openHash && r.count == s.count && r.painted == s.painted
    ensures Improves(s, current, nb) && nb !in s.openHash ==>
              && r.frontier == s.frontier + [Entry(s.g[current] + 1 + H(nb, s.end), s.count + 1, nb)]
              && r.count == s.count + 1 && r.openHash == s.openHash + {nb} && r.painted == s.painted[nb := Open]
    ensures s.start in s.g && s.g[s.start] == 0 ==> r.g[s.start] == 0 && (s.start in r.previous <==> s.start in s.previous)
  {
    var gTemp := s.g[current] + 1;
    if nb in s.g && gTemp >= s.g[nb] then s
    else
      var fNb := gTemp + H(nb, s.end);
      var t := s.(previous := s.previous[nb := current], g := s.g[nb := gTemp], f := s.f[nb := fNb]);
      if nb in s.openHash then t
      else t.(count := s.count + 1, frontier := s.frontier + [Entry(fNb, s.count + 1, nb)],
              openHash := s.openHash + {nb}, painted := s.painted[nb := Open])
  }

  /** The loop over currentNode.neighbors, in list order. */
  function RelaxAll(s: SearchState, current: Pos, nbrs: seq<Pos>): (r: SearchState)
    requires current in s.g
    ensures r.grid == s.grid && r.start == s.start && r.end == s.end
    ensures r.g.Keys == s.g.Keys + (set q | q in nbrs)
    ensures r.g[current] == s.g[current]
    ensures forall n :: n in s.g && n !in nbrs ==> r.g[n] == s.g[n]
    ensures forall q :: q in nbrs ==> r.g[q] == (if q in s.g && s.g[q] <= s.g[current] + 1 then s.g[q] else s.g[current] + 1)
    ensures s.start in s.g && s.g[s.start] == 0 ==> r.g[s.start] == 0 && (s.start in r.previous <==> s.start in s.previous)
    decreases |nbrs|
  {
    if nbrs == [] then s
    else
      var t := Relax(s, current, nbrs[0]);
      var r := RelaxAll(t, current, nbrs[1..]);
      assert forall q :: q in nbrs <==> q == nbrs[0] || q in nbrs[1..];
      assert t.g[current] == s.g[current];
      r
  }

  /** open_set.get() followed by open_hash.remove: the popped entry and the
      state without it. */
  function Pop(s: SearchState): (r: (Entry, SearchState))
    requires |s.frontier| > 0
    ensures r.1 == s.(frontier := r.1.frontier, openHash := s.openHash - {r.0.node})
    ensures multiset(r.1.frontier) + multiset{r.0} == multiset(s.frontier)
    ensures forall e :: e in r.1.frontier ==> !Before(e, r.0)
    ensures Queued(s) ==> r.0.node in s.openHash && forall e :: e in r.1.frontier ==> Before(r.0, e)
  {
    var (e, rest) := Get(s.frontier);
    assert e in s.frontier by {
      assert e in multiset(s.frontier);
    }
    (e, s.(frontier := rest, openHash := s.openHash - {e.node}))
  }

  /** currentNode.close(), skipped for the start. */
  function Close(s: SearchState, current: Pos): (r: SearchState)
    ensures r == s.(painted := r.painted)
    ensures current != s.start ==> r.painted == s.painted[current := Closed]
    ensures current == s.start ==> r.painted == s.painted
  {
    if current != s.start then s.(painted := s.painted[current := Closed]) else s
  }

  /** Expanding a popped node that is not the end: relax every cached
      neighbour, then close the node. */
  function Expand(s: SearchState, current: Pos): (r: SearchState)
    requires current in s.g
    ensures r.grid == s.grid && r.start == s.start && r.end == s.end
    ensures forall n :: n in s.g ==> n in r.g && r.g[n] <= s.g[n]
    ensures forall q :: q in Adj(s.grid, current) ==> q in r.g && r.g[q] <= s.g[current] + 1
    ensures forall n :: n in s.g && n !in Adj(s.grid, current) ==> r.g[n] == s.g[n]
    ensures forall q :: q in Adj(s.grid, current) ==>
              r.g[q] == (if q in s.g && s.g[q] <= s.g[current] + 1 then s.g[q] else s.g[current] + 1)
    ensures current != s.start ==> current in r.painted && r.painted[current] == Closed
    ensures current == s.start ==> r.painted == RelaxAll(s, current, Adj(s.grid, current)).painted
  {
    Close(RelaxAll(s, current, Adj(s.grid, current)), current)
  }

  // ---------------------------------------------------------------------
  // Invariant preservation.

  /** A relaxation keeps predecessors strictly cheaper and adjacent. */
  lemma RelaxKeepsLinked(s: SearchState, current: Pos, nb: Pos)
    requires Rooted(s) && Linked(s) && current in s.g && nb in Adj(s.grid, current)
    requires Improves(s, current, nb)
    ensures Linked(Relax(s, current, nb))
  {
    var r := Relax(s, current, nb);
    assert r.g == s.g[nb := s.g[current] + 1];
    assert nb != current;
    forall n | n in r.previous
      ensures n in r.g && r.previous[n] in r.g && r.g[r.previous[n]] < r.g[n]
    {
      if n != nb {
        assert r.previous[n] == s.previous[n];
      }
    }
  }

  /** Lowering (or first setting) one cost to a reached cost plus one keeps
      every cost below the number of reached cells. */
  lemma CostUpdateBounded(g: map<Pos, nat>, size: nat, c: Pos, nb: Pos)
    requires forall n :: n in g ==> InBounds(size, n) && g[n] < |g|
    requires c in g && InBounds(size, nb) && (nb !in g || g[c] + 1 < g[nb])
    ensures forall n :: n in g[nb := g[c] + 1] ==> InBounds(size, n) && g[nb := g[c] + 1][n] < |g[nb := g[c] + 1]|
  {
    var g' := g[nb := g[c] + 1];
    if nb in g {
      assert |g'| == |g| by { assert g'.Keys == g.Keys; }
    } else {
      assert |g'| == |g| + 1 by { assert g'.Keys == g.Keys + {nb}; }
    }
  }

  /** ... and strictly shrinks the budget. */
  lemma CostUpdateShrinks(g: map<Pos, nat>, size: nat, c: Pos, nb: Pos)
    requires forall n :: n in g ==> InBounds(size, n) && g[n] < |g|
    requires c in g && InBounds(size, nb) && (nb !in g || g[c] + 1 < g[nb])
    ensures Budget(g[nb := g[c] + 1], size) < Budget(g, size)
  {
    InAllCells(size, nb);
    if nb !in g {
      UnreachedLeavesRoom(g, size, nb);
    }
    BudgetShrinks(g, size, nb, g[c] + 1);
  }

  /** A relaxation either changes nothing or strictly shrinks the budget. */
  lemma RelaxShrinksBudget(s: SearchState, current: Pos, nb: Pos)
    requires Bounded(s) && current in s.g && InBounds(s.grid.size, nb)
    ensures Relax(s, current, nb) == s || Budget(Relax(s, current, nb).g, s.grid.size) < Budget(s.g, s.grid.size)
  {
    if Improves(s, current, nb) {
      assert Relax(s, current, nb).g == s.g[nb := s.g[current] + 1];
      CostUpdateShrinks(s.g, s.grid.size, current, nb);
    }
  }

  /** A relaxation keeps open_hash mirroring the queue and the queue's
      entries unique. */
  lemma RelaxKeepsQueueShape(s: SearchState, current: Pos, nb: Pos)
    requires QueueShape(s) && current in s.g && Improves(s, current, nb)
    ensures QueueShape(Relax(s, current, nb))
  {
    var r := Relax(s, current, nb);
    if nb !in s.openHash {
      var e := Entry(s.g[current] + 1 + H(nb, s.end), s.count + 1, nb);
      assert r.frontier == s.frontier + [e] && r.count == e.count;
      forall j | 0 <= j < |s.frontier| ensures s.frontier[j].count < e.count {
        assert s.frontier[j] in s.frontier;
      }
      PutKeepsUnique(s.frontier, e);
    } else {
      assert r.frontier == s.frontier && r.openHash == s.openHash && r.count == s.count;
    }
  }

  /** A relaxation only lowers f, so a stale entry's priority stays at or
      above its node's f; a new entry is queued with its node's new f; the
      start's entry is left alone. */
  lemma RelaxKeepsQueuePriorities(s: SearchState, current: Pos, nb: Pos)
    requires Rooted(s) && Estimates(s) && QueuePriorities(s) && current in s.g
    requires forall e :: e in s.frontier ==> e.node in s.g
    requires Improves(s, current, nb)
    ensures QueuePriorities(Relax(s, current, nb))
  {
    var r := Relax(s, current, nb);
    var fNb := s.g[current] + 1 + H(nb, s.end);
    var added := Entry(fNb, s.count + 1, nb);
    assert nb != s.start;
    assert r.f == s.f[nb := fNb] && r.start == s.start;
    assert r.frontier == s.frontier || r.frontier == s.frontier + [added];
    forall e | e in r.frontier && e.count > 0 && e.node in r.f ensures e.priority >= r.f[e.node] {
      if e != added {
        assert e in s.frontier && e.priority >= s.f[e.node];
        if e.node == nb {
          assert s.f[nb] == s.g[nb] + H(nb, s.end);
        }
      }
    }
    forall e | e in r.frontier && e.count == 0 ensures e == Entry(0, 0, r.start) {
      assert e != added;
    }
  }

  /** An improved node that is already queued keeps its old entry, whose
      priority now lies strictly above the node's new f: the queue holds a
      stale priority, it is not decreased. */
  lemma RelaxKeepsStaleEntry(s: SearchState, current: Pos, nb: Pos, e: Entry)
    requires Estimates(s) && QueueShape(s) && current in s.g && Improves(s, current, nb)
    requires e in s.frontier && e.node == nb && e.priority >= s.f[nb]
    ensures e in Relax(s, current, nb).frontier
    ensures Relax(s, current, nb).f[nb] < e.priority
  {
  }

  /** A relaxation that reaches the end queues it. */
  lemma RelaxKeepsEndPending(s: SearchState, current: Pos, nb: Pos)
    requires QueueShape(s) && EndPending(s) && current in s.g
    ensures EndPending(Relax(s, current, nb))
  {
  }

  /** A relaxation keeps the start as the root and f equal to g plus h. */
  lemma RelaxKeepsEstimates(s: SearchState, current: Pos, nb: Pos)
    requires Rooted(s) && Estimates(s) && current in s.g
    ensures Rooted(Relax(s, current, nb)) && Estimates(Relax(s, current, nb))
  {
    if Improves(s, current, nb) {
      var r := Relax(s, current, nb);
      assert r.f == s.f[nb := s.g[current] + 1 + H(nb, s.end)];
    }
  }

  /** A relaxation keeps costs below the number of reached cells. */
  lemma RelaxKeepsBounded(s: SearchState, current: Pos, nb: Pos)
    requires Bounded(s) && current in s.g && InBounds(s.grid.size, nb)
    ensures Bounded(Relax(s, current, nb))
  {
    if Improves(s, current, nb) {
      CostUpdateBounded(s.g, s.grid.size, current, nb);
    }
  }

  /** Relaxing an edge out of a reached node keeps every invariant. */
  lemma RelaxKeepsInv(s: SearchState, current: Pos, nb: Pos)
    requires Inv(s) && current in s.g && nb in Adj(s.grid, current)
    ensures Inv(Relax(s, current, nb))
  {
    AdjInBounds(s.grid, current, nb);
    RelaxKeepsEstimates(s, current, nb);
    RelaxKeepsBounded(s, current, nb);
    if Improves(s, current, nb) {
      RelaxKeepsLinked(s, current, nb);
      RelaxKeepsQueueShape(s, current, nb);
      RelaxKeepsQueuePriorities(s, current, nb);
      RelaxKeepsEndPending(s, current, nb);
    }
  }

  /** A relaxation keeps every unqueued reached node's neighbours reached,
      and never queues the node being expanded. */
  lemma RelaxKeepsClosed(s: SearchState, current: Pos, nb: Pos, x: set<Pos>)
    requires current in s.g && ClosedExcept(s, x)
    ensures ClosedExcept(Relax(s, current, nb), x)
    ensures current !in s.openHash ==> current !in Relax(s, current, nb).openHash
  {
  }

  /** A relaxation paints exactly the newly queued node Open. */
  lemma RelaxKeepsColours(s: SearchState, current: Pos, nb: Pos, x: set<Pos>)
    requires Rooted(s) && QueueShape(s) && current in s.g && Colours(s, x)
    ensures Colours(Relax(s, current, nb), x)
  {
  }

  /** The neighbour loop keeps every invariant. */
  lemma {:induction false} RelaxAllKeepsInv(s: SearchState, current: Pos, nbrs: seq<Pos>)
    requires Inv(s) && current in s.g && forall q :: q in nbrs ==> q in Adj(s.grid, current)
    ensures Inv(RelaxAll(s, current, nbrs))
    decreases |nbrs|
  {
    if nbrs != [] {
      RelaxKeepsInv(s, current, nbrs[0]);
      RelaxAllKeepsInv(Relax(s, current, nbrs[0]), current, nbrs[1..]);
    }
  }

  /** The reached-cell bookkeeping a relaxation needs to keep the colours
      in step: the start is the root, f matches g, and open_hash mirrors a
      queue of reached nodes. */
  ghost predicate Tracked(s: SearchState) {
    Rooted(s) && Estimates(s) && QueueShape(s)
  }

  lemma RelaxKeepsTracked(s: SearchState, current: Pos, nb: Pos)
    requires Tracked(s) && current in s.g
    ensures Tracked(Relax(s, current, nb))
  {
    RelaxKeepsEstimates(s, current, nb);
    if Improves(s, current, nb) {
      RelaxKeepsQueueShape(s, current, nb);
    }
  }

  /** The neighbour loop keeps every unqueued reached node's neighbours
      reached, and never queues the node being expanded. */
  lemma {:induction false} RelaxAllKeepsClosed(s: SearchState, current: Pos, nbrs: seq<Pos>, x: set<Pos>)
    requires current in s.g && ClosedExcept(s, x)
    ensures ClosedExcept(RelaxAll(s, current, nbrs), x)
    ensures current !in s.openHash ==> current !in RelaxAll(s, current, nbrs).openHash
    decreases |nbrs|
  {
    if nbrs != [] {
      RelaxKeepsClosed(s, current, nbrs[0], x);
      RelaxAllKeepsClosed(Relax(s, current, nbrs[0]), current, nbrs[1..], x);
    }
  }

  /** The neighbour loop keeps the colours in step with the queue. */
  lemma {:induction false} RelaxAllKeepsColours(s: SearchState, current: Pos, nbrs: seq<Pos>, x: set<Pos>)
    requires Tracked(s) && current in s.g && Colours(s, x)
    ensures Colours(RelaxAll(s, current, nbrs), x)
    decreases |nbrs|
  {
    if nbrs != [] {
      RelaxKeepsTracked(s, current, nbrs[0]);
      RelaxKeepsColours(s, current, nbrs[0], x);
      RelaxAllKeepsColours(Relax(s, current, nbrs[0]), current, nbrs[1..], x);
    }
  }

  /** The neighbour loop either changes nothing or strictly shrinks the
      budget. */
  lemma {:induction false} RelaxAllShrinksBudget(s: SearchState, current: Pos, nbrs: seq<Pos>)
    requires Inv(s) && current in s.g && forall q :: q in nbrs ==> q in Adj(s.grid, current)
    ensures RelaxAll(s, current, nbrs) == s || Budget(RelaxAll(s, current, nbrs).g, s.grid.size) < Budget(s.g, s.grid.size)
    decreases |nbrs|
  {
    if nbrs != [] {
      var t := Relax(s, current, nbrs[0]);
      AdjInBounds(s.grid, current, nbrs[0]);
      RelaxKeepsInv(s, current, nbrs[0]);
      RelaxShrinksBudget(s, current, nbrs[0]);
      RelaxAllShrinksBudget(t, current, nbrs[1..]);
    }
  }

  /** Popping keeps open_hash mirroring the queue and the entries unique;
      the popped node was reached. */
  lemma PopKeepsQueueShape(s: SearchState)
    requires QueueShape(s) && |s.frontier| > 0
    ensures Pop(s).0 in s.frontier && Pop(s).0.node in s.g
    ensures QueueShape(Pop(s).1)
    ensures forall d :: d in Pop(s).1.frontier ==> d in s.frontier
  {
    var (e, t) := Pop(s);
    assert t.frontier == Get(s.frontier).1;
    GetKeepsUnique(s.frontier);
    assert e in s.frontier by {
      assert e in multiset(s.frontier);
    }
    forall d | d in t.frontier ensures d in s.frontier {
      assert d in multiset(t.frontier);
    }
  }

  /** Popping a node other than the end keeps every invariant; popping any
      node keeps those that do not mention the queue. */
  lemma PopKeepsInv(s: SearchState)
    requires Inv(s) && |s.frontier| > 0
    ensures Pop(s).0.node in s.g
    ensures Pop(s).0.node != s.end ==> Inv(Pop(s).1)
    ensures GridOk(Pop(s).1) && Rooted(Pop(s).1) && Bounded(Pop(s).1) && Estimates(Pop(s).1) && Linked(Pop(s).1)
  {
    PopKeepsQueueShape(s);
    var t := Pop(s).1;
    assert t.g == s.g && t.f == s.f && t.start == s.start && t.grid == s.grid && t.previous == s.previous;
  }

  /** After a pop, only the popped node may still have unreached neighbours
      and still be painted Open while unqueued. */
  lemma PopOpensGap(s: SearchState)
    requires QueueShape(s) && ClosedExcept(s, {}) && Colours(s, {}) && |s.frontier| > 0
    ensures ClosedExcept(Pop(s).1, {Pop(s).0.node}) && Colours(Pop(s).1, {Pop(s).0.node})
  {
    PopKeepsQueueShape(s);
  }

  /** Expanding the popped node keeps every invariant. */
  lemma ExpandKeepsInv(s: SearchState, current: Pos)
    requires Inv(s) && current in s.g
    ensures Inv(Expand(s, current))
  {
    RelaxAllKeepsInv(s, current, Adj(s.grid, current));
  }

  /** Closing a node whose neighbours are all reached, and which is no
      longer queued, restores closure and the colours for every node. */
  lemma CloseRestores(t: SearchState, current: Pos)
    requires t.start in t.g && current in t.g && current !in t.openHash
    requires ClosedExcept(t, {current}) && Colours(t, {current})
    requires forall q :: q in Adj(t.grid, current) ==> q in t.g
    ensures ClosedExcept(Close(t, current), {}) && Colours(Close(t, current), {})
  {
  }

  /** Expanding the popped node reaches all its neighbours and closes it,
      which restores closure and the colours for every node. */
  lemma ExpandClosesCurrent(s: SearchState, current: Pos)
    requires Rooted(s) && Estimates(s) && QueueShape(s)
    requires ClosedExcept(s, {current}) && Colours(s, {current})
    requires current in s.g && current !in s.openHash
    ensures ClosedExcept(Expand(s, current), {}) && Colours(Expand(s, current), {})
  {
    var t := RelaxAll(s, current, Adj(s.grid, current));
    RelaxAllKeepsClosed(s, current, Adj(s.grid, current), {current});
    RelaxAllKeepsColours(s, current, Adj(s.grid, current), {current});
    CloseRestores(t, current);
  }

  /** Expanding either leaves the costs and the queue length alone or
      shrinks the budget. */
  lemma ExpandShrinksBudget(s: SearchState, current: Pos)
    requires Inv(s) && current in s.g
    ensures || Budget(Expand(s, current).g, s.grid.size) < Budget(s.g, s.grid.size)
            || (Expand(s, current).g == s.g && |Expand(s, current).frontier| == |s.frontier|)
  {
    RelaxAllShrinksBudget(s, current, Adj(s.grid, current));
  }

  // ---------------------------------------------------------------------
  // What the invariants give at the two exits.

  /** Following predecessors from a reached cell leads back to the start,
      so every reached cell is reachable. */
  lemma {:induction false} ReachedIsReachable(s: SearchState, n: Pos)
    requires Rooted(s) && Linked(s) && n in s.g
    ensures Reachable(s.grid, s.start, n)
    decreases s.g[n]
  {
    if n == s.start {
      assert IsWalk(s.grid, [n]);
    } else {
      var p := s.previous[n];
      ReachedIsReachable(s, p);
      ReachableStep(s.grid, s.start, p, n);
    }
  }


  /** With the queue empty, the reached cells are exactly the cells
      reachable from the start, and the end is not among them. */
  lemma ExhaustedReachesAll(s: SearchState)
    requires Running(s) && s.frontier == []
    ensures forall p :: p in s.g <==> Reachable(s.grid, s.start, p)
    ensures !Reachable(s.grid, s.start, s.end)
  {
    assert s.openHash == {};
    forall p ensures p in s.g <==> Reachable(s.grid, s.start, p) {
      if p in s.g {
        ReachedIsReachable(s, p);
      }
      if Reachable(s.grid, s.start, p) {
        var w :| IsWalk(s.grid, w) && w[0] == s.start && w[|w| - 1] == p;
        ClosedSetHoldsReachable(s.grid, s.g.Keys, w);
      }
    }
  }

  /** Following predecessors back from the end gives a path that walks
      back to the start. */
  lemma WalkBackReachesStart(s: SearchState)
    requires Rooted(s) && Linked(s) && s.end in s.g
    ensures WalksBack(s.grid, s.start, s.end, WalkBack(s.previous, s.g, s.end))
  {
    var path := WalkBack(s.previous, s.g, s.end);
    if s.start != s.end {
      forall i, j | 0 <= i < j < |path| ensures path[i] != path[j] {
        assert s.g[path[j]] < s.g[path[i]];
      }
      forall i | 0 <= i < |path| ensures path[i] != s.end {
        assert s.g[path[i]] < s.g[s.end];
      }
    }
  }

  /** The end was popped: draw the path back from it, then paint the end
      itself End (drawOptimalPath followed by endNode.end()). Every cell
      the run changed is a path cell, the end, or a reached cell painted
      Open or Closed. */
  function Succeed(s: SearchState): (r: (Grid, seq<Pos>))
    requires GridOk(s) && Rooted(s) && Bounded(s) && Ranked(s.previous, s.g) && Colours(s, {s.end})
    requires s.end in s.g
    ensures r.1 == WalkBack(s.previous, s.g, s.end)
    ensures Valid(r.0) && r.0.size == s.grid.size && SameNeighbors(r.0, s.grid)
    ensures StateAt(r.0, s.end) == End
    ensures forall q :: q in r.1 ==> q in s.g && InBounds(s.grid.size, q)
    ensures forall q :: q in r.1 && q != s.end ==> StateAt(r.0, q) == Path
    ensures forall p :: InBounds(s.grid.size, p) && p != s.end && p !in r.1 && StateAt(r.0, p) != StateAt(s.grid, p) ==>
              (StateAt(r.0, p) == Open || StateAt(r.0, p) == Closed) && p in s.g
  {
    var canvas := Repaint(s.grid, s.painted);
    var (drawn, path) := DrawOptimalPath(canvas, s.previous, s.g, s.end);
    (SetState(drawn, s.end, End), path)
  }

  /** The path runs back from a neighbour of the end to the start through
      cached neighbour lists and visits no cell twice; it is empty when the
      start is the end. */
  ghost predicate WalksBack(grid: Grid, start: Pos, end: Pos, path: seq<Pos>) {
    && (start == end ==> path == [])
    && (start != end ==>
          && |path| > 0 && path[|path| - 1] == start
          && end in Adj(grid, path[0])
          && (forall i :: 0 <= i < |path| - 1 ==> path[i] in Adj(grid, path[i + 1]))
          && (forall i, j :: 0 <= i < j < |path| ==> path[i] != path[j])
          && end !in path)
  }

  /** How a run that popped the end leaves the grid: the end is painted
      End, the path walks back to the start and is painted Path, and every
      other cell the run repainted is Open or Closed and reachable from the
      start. */
  ghost predicate DrawsPath(grid: Grid, start: Pos, end: Pos, result: Grid, path: seq<Pos>) {
    && Valid(grid) && Valid(result) && result.size == grid.size && InBounds(grid.size, end)
    && StateAt(result, end) == End
    && WalksBack(grid, start, end, path)
    && (forall q :: q in path ==> InBounds(grid.size, q) && StateAt(result, q) == Path)
    && ExploredOnly(grid, start, end, result, path)
  }

  /** Every cell repainted besides the path and the end is Open or Closed
      and reachable from the start. */
  ghost predicate ExploredOnly(grid: Grid, start: Pos, end: Pos, result: Grid, path: seq<Pos>)
    requires Valid(grid) && Valid(result) && result.size == grid.size
  {
    forall p :: InBounds(grid.size, p) && p != end && p !in path && StateAt(result, p) != StateAt(grid, p) ==>
      (StateAt(result, p) == Open || StateAt(result, p) == Closed) && Reachable(grid, start, p)
  }

  /** How a run that emptied the queue leaves the grid: exactly the cells
      reachable from the start, the start itself excepted, are Closed. */
  ghost predicate ClosesReachable(grid: Grid, start: Pos, result: Grid) {
    && Valid(grid) && Valid(result) && result.size == grid.size
    && forall p :: InBounds(grid.size, p) ==>
         StateAt(result, p) == (if p != start && Reachable(grid, start, p) then Closed else StateAt(grid, p))
  }

  /** Every cell Succeed repaints besides the path and the end is Open or
      Closed and reachable from the start. */
  lemma SucceedPaints(s: SearchState)
    requires GridOk(s) && Rooted(s) && Bounded(s) && Linked(s) && Colours(s, {s.end}) && s.end in s.g
    ensures ExploredOnly(s.grid, s.start, s.end, Succeed(s).0, Succeed(s).1)
  {
    var r := Succeed(s);
    forall p | InBounds(s.grid.size, p) && p != s.end && p !in r.1 && StateAt(r.0, p) != StateAt(s.grid, p)
      ensures Reachable(s.grid, s.start, p)
    {
      ReachedIsReachable(s, p);
    }
  }

  /** When the end is popped, it is reachable and Succeed draws the path. */
  lemma SucceedOutcome(s: SearchState)
    requires GridOk(s) && Rooted(s) && Bounded(s) && Linked(s) && Colours(s, {s.end}) && s.end in s.g
    ensures Reachable(s.grid, s.start, s.end)
    ensures DrawsPath(s.grid, s.start, s.end, Succeed(s).0, Succeed(s).1)
  {
    ReachedIsReachable(s, s.end);
    WalkBackReachesStart(s);
    SucceedPaints(s);
  }

  /** When the queue runs dry, the end is unreachable and exactly the
      reachable cells other than the start are Closed. */
  lemma ExhaustedOutcome(s: SearchState)
    requires Running(s) && s.frontier == []
    ensures !Reachable(s.grid, s.start, s.end)
    ensures ClosesReachable(s.grid, s.start, Repaint(s.grid, s.painted))
  {
    ExhaustedReachesAll(s);
    assert s.openHash == {};
    var r := Repaint(s.grid, s.painted);
    forall p | InBounds(s.grid.size, p)
      ensures StateAt(r, p) == (if p != s.start && Reachable(s.grid, s.start, p) then Closed else StateAt(s.grid, p))
    {
      if p in s.painted {
        assert s.painted[p] != Open;
      }
    }
  }

  /** AI(draw, grid, startNode, endNode), with draw a no-op. Returns whether
      the end was popped, the grid with its cells repainted, and the cells
      drawOptimalPath painted (nearest the end first). It finds the end
      exactly when the end is reachable from the start over the cached
      neighbour lists, and never changes a neighbour list. */
  method AI(grid: Grid, start: Pos, end: Pos) returns (found: bool, result: Grid, path: seq<Pos>)
    requires Valid(grid) && InBounds(grid.size, start) && InBounds(grid.size, end)
    ensures Valid(result) && result.size == grid.size && SameNeighbors(result, grid)
    ensures found <==> Reachable(grid, start, end)
    ensures found ==> DrawsPath(grid, start, end, result, path)
    ensures !found ==> path == [] && ClosesReachable(grid, start, result)
  {
    var s := Init(grid, start, end);
    while |s.frontier| > 0
      invariant Running(s) && s.grid == grid && s.start == start && s.end == end
      decreases Budget(s.g, s.grid.size), |s.frontier|
    {
      PopKeepsInv(s);
      PopOpensGap(s);
      var (e, t) := Pop(s);
      var current := e.node;
      if current == end {
        SucceedOutcome(t);
        found := true;
        result, path := Succeed(t).0, Succeed(t).1;
        return;
      }
      ExpandKeepsInv(t, current);
      ExpandClosesCurrent(t, current);
      ExpandShrinksBudget(t, current);
      s := Expand(t, current);
    }
    ExhaustedOutcome(s);
    found := false;
    result := Repaint(s.grid, s.painted);
    path := [];
  }
}
