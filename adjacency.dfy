/** The adjacency store of a weighted directed graph: a map from a source node
    to a map from each neighbour to the cost of the edge, and the pure
    operations on it that the class Graph applies to its field. */
module Adjacency {
  import opened Wrappers

  type Node = string

  /** Source node -> (target node -> edge cost). */
  type Nodes = map<Node, map<Node, nat>>

  /** The cost of the edge `a -> b`, if the store records one. */
  function EdgeAt(g: Nodes, a: Node, b: Node): Option<nat>
  {
    if a in g && b in g[a] then Some(g[a][b]) else None
  }

  /** The store after `set(start, end, cost)`: the neighbour map of `start`
      is created empty when missing, then `end` is bound to `cost` in it. */
  function SetEdge(g: Nodes, start: Node, end: Node, cost: nat): (r: Nodes)
    ensures EdgeAt(r, start, end) == Some(cost)
    ensures forall a, b :: (a, b) != (start, end) ==> EdgeAt(r, a, b) == EdgeAt(g, a, b)
    ensures r.Keys == g.Keys + {start}
    ensures forall a :: a in g && a != start ==> r[a] == g[a]
  {
    var row := if start in g then g[start] else map[];
    g[start := row[end := cost]]
  }

  /** The store after `remove(start, end)`: the entry `end` is deleted from
      the neighbour map of `start` when that map exists; nothing else moves. */
  function RemoveEdge(g: Nodes, start: Node, end: Node): (r: Nodes)
    ensures EdgeAt(r, start, end) == None
    ensures forall a, b :: (a, b) != (start, end) ==> EdgeAt(r, a, b) == EdgeAt(g, a, b)
    ensures r.Keys == g.Keys
    ensures EdgeAt(g, start, end) == None ==> r == g
  {
    if start in g then
      var row := g[start] - {end};
      assert end !in g[start] ==> row == g[start];
      g[start := row]
    else g
  }

  /** What `to(node)` returns: for every source with an edge into `node`,
      the singleton map from `node` to that edge's cost. */
  function Predecessors(g: Nodes, node: Node): (r: Nodes)
    ensures forall i :: i in r <==> EdgeAt(g, i, node).Some?
    ensures forall i :: i in r ==> r[i] == map[node := EdgeAt(g, i, node).value]
  {
    map i | i in g && node in g[i] :: map[node := g[i][node]]
  }

  /** Setting an existing edge again overwrites its cost: no second edge. */
  lemma SetOverwrites(g: Nodes, s: Node, e: Node, c1: nat, c2: nat)
    ensures SetEdge(SetEdge(g, s, e, c1), s, e, c2) == SetEdge(g, s, e, c2)
  {
    var row := if s in g then g[s] else map[];
    assert row[e := c1][e := c2] == row[e := c2];
  }

  /** Removing an edge that is absent leaves the store exactly as it was, so
      removing twice is the same as removing once. */
  lemma RemoveIdempotent(g: Nodes, s: Node, e: Node)
    ensures RemoveEdge(RemoveEdge(g, s, e), s, e) == RemoveEdge(g, s, e)
  {
  }

  /** Setting an edge that was absent from an existing neighbour map and then
      removing it gives back the original store. When the source had no
      neighbour map at all, the empty map created by `set` stays behind. */
  lemma SetThenRemove(g: Nodes, s: Node, e: Node, c: nat)
    requires EdgeAt(g, s, e) == None
    ensures s in g ==> RemoveEdge(SetEdge(g, s, e, c), s, e) == g
    ensures s !in g ==> RemoveEdge(SetEdge(g, s, e, c), s, e) == g[s := map[]]
  {
    var r := RemoveEdge(SetEdge(g, s, e, c), s, e);
    if s in g {
      assert r[s] == g[s];
    } else {
      assert r[s] == map[];
    }
  }

  /** The predecessors of `node` after setting an edge into it gain exactly
      that source, with the new cost. */
  lemma PredecessorsAfterSet(g: Nodes, s: Node, node: Node, c: nat)
    ensures Predecessors(SetEdge(g, s, node, c), node) == Predecessors(g, node)[s := map[node := c]]
  {
  }
}
