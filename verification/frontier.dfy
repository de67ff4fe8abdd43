/** The search frontier: the PriorityQueue of (priority, count, node) tuples,
    modelled as a sequence with minimum extraction. */
module Frontier {
  import opened Cells

  datatype Entry = Entry(priority: int, count: nat, node: Pos)

  /** Python's tuple order on (priority, count, node) as far as it is decided
      by the first two components. */
  predicate Before(a: Entry, b: Entry) {
    a.priority < b.priority || (a.priority == b.priority && a.count < b.count)
  }

  /** Before is a strict order, and entries with different counts are always
      ordered one way or the other, so get has exactly one answer. */
  lemma BeforeOrder(a: Entry, b: Entry, c: Entry)
    ensures !Before(a, a)
    ensures Before(a, b) ==> !Before(b, a)
    ensures Before(a, b) && Before(b, c) ==> Before(a, c)
    ensures a.count != b.count ==> Before(a, b) || Before(b, a)
  {
  }

  /** No two entries share an insertion count, so no two share a key and the
      tuple comparison never falls through to the node component. */
  ghost predicate UniqueCounts(q: seq<Entry>) {
    forall i, j :: 0 <= i < |q| && 0 <= j < |q| && i != j ==> q[i].count != q[j].count
  }

  /** No node has two entries. */
  ghost predicate UniqueNodes(q: seq<Entry>) {
    forall i, j :: 0 <= i < |q| && 0 <= j < |q| && i != j ==> q[i].node != q[j].node
  }

  /** The nodes that have an entry. */
  function Nodes(q: seq<Entry>): set<Pos> {
    set i | 0 <= i < |q| :: q[i].node
  }

  /** The index of an entry no other entry comes before; with unique counts,
      the one entry that comes before every other. */
  function MinIndex(q: seq<Entry>): (i: nat)
    requires |q| > 0
    ensures i < |q|
    ensures forall j :: 0 <= j < |q| ==> !Before(q[j], q[i])
    ensures UniqueCounts(q) ==> forall j :: 0 <= j < |q| && j != i ==> Before(q[i], q[j])
  {
    if |q| == 1 then 0
    else
      var k := MinIndex(q[..|q| - 1]);
      if Before(q[|q| - 1], q[k]) then |q| - 1 else k
  }

  function RemoveAt(q: seq<Entry>, i: nat): seq<Entry>
    requires i < |q|
  {
    q[..i] + q[i + 1..]
  }

  /** PriorityQueue.get: removes and returns the least entry. */
  function Get(q: seq<Entry>): (r: (Entry, seq<Entry>))
    requires |q| > 0
    ensures multiset(r.1) + multiset{r.0} == multiset(q)
    ensures forall e :: e in r.1 ==> !Before(e, r.0)
    ensures UniqueCounts(q) ==> forall e :: e in r.1 ==> Before(r.0, e)
  {
    var i := MinIndex(q);
    assert q == q[..i] + [q[i]] + q[i + 1..];
    (q[i], RemoveAt(q, i))
  }

  /** Taking out one entry keeps the entries unique and removes exactly its
      node from the node set. */
  lemma RemoveAtKeepsUnique(q: seq<Entry>, i: nat)
    requires i < |q| && UniqueNodes(q) && UniqueCounts(q)
    ensures UniqueNodes(RemoveAt(q, i)) && UniqueCounts(RemoveAt(q, i))
    ensures Nodes(RemoveAt(q, i)) == Nodes(q) - {q[i].node}
  {
    var r := RemoveAt(q, i);
    forall j, k | 0 <= j < |r| && 0 <= k < |r| && j != k
      ensures r[j].node != r[k].node && r[j].count != r[k].count
    {
      var j' := if j < i then j else j + 1;
      var k' := if k < i then k else k + 1;
      assert r[j] == q[j'] && r[k] == q[k'];
    }
    forall x | x in Nodes(r) ensures x in Nodes(q) - {q[i].node} {
      var j :| 0 <= j < |r| && r[j].node == x;
      var j' := if j < i then j else j + 1;
      assert r[j] == q[j'];
    }
    forall x | x in Nodes(q) - {q[i].node} ensures x in Nodes(r) {
      var j :| 0 <= j < |q| && q[j].node == x;
      var j' := if j < i then j else j - 1;
      assert r[j'] == q[j];
    }
  }

  /** PriorityQueue.get keeps the entries unique and takes exactly the
      returned entry's node out of the node set. */
  lemma GetKeepsUnique(q: seq<Entry>)
    requires |q| > 0 && UniqueNodes(q) && UniqueCounts(q)
    ensures UniqueNodes(Get(q).1) && UniqueCounts(Get(q).1)
    ensures Nodes(Get(q).1) == Nodes(q) - {Get(q).0.node}
  {
    RemoveAtKeepsUnique(q, MinIndex(q));
  }

  /** PriorityQueue.put of an entry for a node that has none. */
  lemma PutKeepsUnique(q: seq<Entry>, e: Entry)
    requires UniqueNodes(q) && UniqueCounts(q) && e.node !in Nodes(q)
    requires forall j :: 0 <= j < |q| ==> q[j].count < e.count
    ensures UniqueNodes(q + [e]) && UniqueCounts(q + [e])
    ensures Nodes(q + [e]) == Nodes(q) + {e.node}
  {
    var r := q + [e];
    forall j | 0 <= j < |q| ensures q[j].node != e.node {
      assert q[j].node in Nodes(q);
    }
    assert r[|q|] == e;
    forall x | x in Nodes(q) + {e.node} ensures x in Nodes(r) {
      if x == e.node { assert r[|q|].node == x; } else {
        var j :| 0 <= j < |q| && q[j].node == x;
        assert r[j].node == x;
      }
    }
  }
}
