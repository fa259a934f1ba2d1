/** Walks through the adjacency store: node sequences whose consecutive pairs
    are recorded edges, their summed cost, and the per-edge use counters that
    the route search keys by the string "source-target". */
module Walks {
  import opened Wrappers
  import opened Adjacency

  /** The key of the edge `a -> b` in a route's use counter. Two different
      edges share a key when a node name contains '-' (`"a-b" -> "c"` and
      `"a" -> "b-c"`), exactly as with the template-string keys of `findRoutes`. */
  function EdgeKey(a: Node, b: Node): string
  {
    a + "-" + b
  }

  /** Every consecutive pair of `s` is an edge of `g`. */
  predicate IsWalk(g: Nodes, s: seq<Node>)
  {
    forall i :: 0 <= i < |s| - 1 ==> EdgeAt(g, s[i], s[i + 1]).Some?
  }

  /** No edge along `s` costs 0. */
  predicate NoZeroEdges(g: Nodes, s: seq<Node>)
  {
    forall i :: 0 <= i < |s| - 1 ==> EdgeAt(g, s[i], s[i + 1]) != Some(0)
  }

  /** Dropping the first node of a walk leaves a walk. */
  lemma WalkTail(g: Nodes, s: seq<Node>)
    requires IsWalk(g, s) && |s| >= 1
    ensures IsWalk(g, s[1..])
  {
    forall i | 0 <= i < |s[1..]| - 1
      ensures EdgeAt(g, s[1..][i], s[1..][i + 1]).Some?
    {
      assert s[1..][i] == s[i + 1] && s[1..][i + 1] == s[i + 2];
    }
  }

  /** Dropping the last node of a walk leaves a walk. */
  lemma WalkInit(g: Nodes, s: seq<Node>)
    requires IsWalk(g, s) && |s| >= 1
    ensures IsWalk(g, s[..|s| - 1])
  {
    var t := s[..|s| - 1];
    forall i | 0 <= i < |t| - 1
      ensures EdgeAt(g, t[i], t[i + 1]).Some?
    {
      assert t[i] == s[i] && t[i + 1] == s[i + 1];
    }
  }

  /** The sum of the edge costs along a walk. */
  function PathCost(g: Nodes, s: seq<Node>): nat
    requires IsWalk(g, s)
  {
    if |s| < 2 then 0
    else
      assert EdgeAt(g, s[0], s[1]).Some?;
      WalkTail(g, s);
      g[s[0]][s[1]] + PathCost(g, s[1..])
  }

  /** The value a use counter holds for key `k`; a missing key reads as 0. */
  function Count(paths: map<string, nat>, k: string): nat
  {
    if k in paths then paths[k] else 0
  }

  /** The use counter of a route with nodes `s`, built edge by edge as the
      search extends the route: each step bumps the key of the new edge. */
  function KeyCounts(s: seq<Node>): map<string, nat>
  {
    if |s| < 2 then map[]
    else
      var p := KeyCounts(s[..|s| - 1]);
      var k := EdgeKey(s[|s| - 2], s[|s| - 1]);
      p[k := Count(p, k) + 1]
  }

  /** How many consecutive pairs of `s` have key `k`. */
  function KeyUses(s: seq<Node>, k: string): nat
  {
    if |s| < 2 then 0
    else (if EdgeKey(s[0], s[1]) == k then 1 else 0) + KeyUses(s[1..], k)
  }

  /** How many times the edge `a -> b` is traversed by `s`. */
  function EdgeUses(s: seq<Node>, a: Node, b: Node): nat
  {
    if |s| < 2 then 0
    else (if s[0] == a && s[1] == b then 1 else 0) + EdgeUses(s[1..], a, b)
  }

  /** Extending a walk by one edge adds that edge's cost. */
  lemma {:induction false} PathCostSnoc(g: Nodes, s: seq<Node>, n: Node)
    requires IsWalk(g, s) && |s| >= 1
    requires EdgeAt(g, s[|s| - 1], n).Some?
    ensures IsWalk(g, s + [n])
    ensures PathCost(g, s + [n]) == PathCost(g, s) + g[s[|s| - 1]][n]
  {
    var t := s + [n];
    assert forall i :: 0 <= i < |s| ==> t[i] == s[i];
    assert t[|s|] == n;
    if |s| >= 2 {
      WalkTail(g, s);
      PathCostSnoc(g, s[1..], n);
      assert t[1..] == s[1..] + [n];
    }
  }

  /** Appending a node adds the new pair to the key count. */
  lemma {:induction false} KeyUsesSnoc(s: seq<Node>, n: Node, k: string)
    requires |s| >= 1
    ensures KeyUses(s + [n], k) == KeyUses(s, k) + (if EdgeKey(s[|s| - 1], n) == k then 1 else 0)
  {
    var t := s + [n];
    if |s| >= 2 {
      assert t[0] == s[0] && t[1] == s[1];
      assert t[1..] == s[1..] + [n];
      KeyUsesSnoc(s[1..], n, k);
    }
  }

  /** The counter that the search builds holds, for every key, the number of
      times an edge with that key occurs in the route. */
  lemma {:induction false} KeyCountsCountUses(s: seq<Node>, k: string)
    ensures Count(KeyCounts(s), k) == KeyUses(s, k)
  {
    if |s| >= 2 {
      var init := s[..|s| - 1];
      KeyCountsCountUses(init, k);
      KeyUsesSnoc(init, s[|s| - 1], k);
      assert init + [s[|s| - 1]] == s;
    }
  }

  /** A use count per key bounds the traversals of every single edge with
      that key. */
  lemma {:induction false} EdgeUsesBelowKeyUses(s: seq<Node>, a: Node, b: Node)
    ensures EdgeUses(s, a, b) <= KeyUses(s, EdgeKey(a, b))
  {
    if |s| >= 2 {
      EdgeUsesBelowKeyUses(s[1..], a, b);
    }
  }
}
