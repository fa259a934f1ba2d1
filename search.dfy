/** The pieces of the best-first route search: routes and their validity,
    the options and their defaults, the stable sort by cost, the stop filter,
    the expansion of one route, and the measure that proves the search
    terminates on graphs with cycles. */
module Search {
  import opened Wrappers
  import opened Adjacency
  import opened Walks

  /** A partial or complete route: its nodes, its use counter keyed by
      `EdgeKey`, and its accumulated cost. */
  datatype Route = Route(nodes: seq<Node>, paths: map<string, nat>, cost: nat)

  /** The options object; an option left out is `None`. A missing options
      object behaves as one with every option left out. */
  datatype Options = Options(
    routeLimit: Option<nat>,
    stopLimit: Option<nat>,
    costLimit: Option<nat>,
    pathReuseLimit: Option<nat>)

  const NoOptions := Options(None, None, None, None)

  /** `(options && options.x) || Infinity`: an option left out or given as 0
      means no limit, written `None`. */
  function LimitOf(o: Option<nat>): (r: Option<nat>)
    ensures r.Some? <==> o.Some? && o.value != 0
    ensures r.Some? ==> r == o
  {
    if o.Some? && o.value != 0 then o else None
  }

  /** `(options && options.pathReuseLimit) || 1`. */
  function ReuseLimitOf(o: Option<nat>): (r: nat)
    ensures r >= 1
    ensures o.Some? && o.value != 0 ==> r == o.value
    ensures o.None? || o.value == 0 ==> r == 1
  {
    if o.Some? && o.value != 0 then o.value else 1
  }

  /** `n <= limit`, where no limit is `Infinity`. */
  predicate Within(n: nat, limit: Option<nat>)
  {
    limit.None? || n <= limit.value
  }

  /** The stop filter `route.nodes.length <= stopLimit + 1`. */
  predicate WithinStops(r: Route, stopLimit: Option<nat>)
  {
    stopLimit.None? || |r.nodes| <= stopLimit.value + 1
  }

  function Last(s: seq<Node>): Node
    requires |s| >= 1
  {
    s[|s| - 1]
  }

  /** The one route the queue starts with. */
  function StartRoute(start: Node): Route
  {
    Route([start], map[], 0)
  }

  /** `r` extended by the edge from its last node to `n`, of cost `c`: the
      new edge's key is counted once more and its cost is added. */
  function Extend(r: Route, n: Node, c: nat): (x: Route)
    requires |r.nodes| >= 1
    ensures |x.nodes| == |r.nodes| + 1 && x.nodes[..|r.nodes|] == r.nodes && Last(x.nodes) == n
    ensures x.cost == r.cost + c
    ensures forall k :: Count(x.paths, k) == Count(r.paths, k) + (if k == EdgeKey(Last(r.nodes), n) then 1 else 0)
  {
    var k := EdgeKey(Last(r.nodes), n);
    Route(r.nodes + [n], r.paths[k := Count(r.paths, k) + 1], r.cost + c)
  }

  /** What holds of every route the search creates from `start`: a walk
      whose cost is the sum of its edge costs, whose counter holds the use
      count of each edge key, with no key used more than `reuse` times. */
  predicate ValidRoute(g: Nodes, start: Node, reuse: nat, r: Route)
  {
    && |r.nodes| >= 1
    && r.nodes[0] == start
    && IsWalk(g, r.nodes)
    && r.cost == PathCost(g, r.nodes)
    && r.paths == KeyCounts(r.nodes)
    && (forall k :: k in r.paths ==> r.paths[k] <= reuse)
  }

  /** Every visit of `end` before the last node was reached over edges of
      cost 0 only: a route that arrives at `end` with a cost is never
      extended (the case `pathReuseLimit === 1`). */
  predicate NoEarlierArrival(g: Nodes, end: Node, s: seq<Node>)
  {
    forall i, j :: 0 <= j < i < |s| - 1 && s[i] == end ==> EdgeAt(g, s[j], s[j + 1]) == Some(0)
  }

  predicate SortedByCost(q: seq<Route>)
  {
    forall i, j :: 0 <= i < j < |q| ==> q[i].cost <= q[j].cost
  }

  /** A route that costs no more than any route of a sorted queue can be put
      in front of it. */
  lemma SortedCons(a: Route, q: seq<Route>)
    requires SortedByCost(q)
    requires forall y :: y in q ==> a.cost <= y.cost
    ensures SortedByCost([a] + q)
  {
    var r := [a] + q;
    forall i, j | 0 <= i < j < |r| ensures r[i].cost <= r[j].cost {
      assert r[j] == q[j - 1];
      if i > 0 {
        assert r[i] == q[i - 1];
      }
    }
  }

  /** Inserts `x` after every route of `q` that costs no more than it. */
  function InsertByCost(x: Route, q: seq<Route>): (r: seq<Route>)
    ensures multiset(r) == multiset(q) + multiset{x}
    ensures |r| == |q| + 1
  {
    if q == [] then [x]
    else if x.cost < q[0].cost then [x] + q
    else
      assert q == [q[0]] + q[1..];
      [q[0]] + InsertByCost(x, q[1..])
  }

  /** Insertion keeps a sorted queue sorted. */
  lemma {:induction false} InsertByCostSorted(x: Route, q: seq<Route>)
    requires SortedByCost(q)
    ensures SortedByCost(InsertByCost(x, q))
  {
    if q != [] {
      if x.cost < q[0].cost {
        assert forall y :: y in q ==> x.cost <= y.cost;
        SortedCons(x, q);
      } else {
        var rest := InsertByCost(x, q[1..]);
        assert SortedByCost(q[1..]);
        InsertByCostSorted(x, q[1..]);
        assert forall y :: y in rest ==> q[0].cost <= y.cost by {
          forall y | y in rest ensures q[0].cost <= y.cost {
            assert y in multiset(rest);
            assert y in q[1..] || y == x;
          }
        }
        SortedCons(q[0], rest);
      }
    }
  }

  function SortByCost(q: seq<Route>): (r: seq<Route>)
    ensures multiset(r) == multiset(q)
    ensures |r| == |q|
    ensures SortedByCost(r)
  {
    if q == [] then []
    else
      assert q == q[..|q| - 1] + [q[|q| - 1]];
      InsertByCostSorted(q[|q| - 1], SortByCost(q[..|q| - 1]));
      InsertByCost(q[|q| - 1], SortByCost(q[..|q| - 1]))
  }

  /** `a` is `b` with some elements left out, the rest in their order. */
  predicate IsSubsequence(a: seq<Route>, b: seq<Route>)
  {
    if a == [] then true
    else if b == [] then false
    else if a[0] == b[0] then IsSubsequence(a[1..], b[1..])
    else IsSubsequence(a, b[1..])
  }

  /** `targetRoutes.filter(route => route.nodes.length <= stopLimit + 1)`. */
  function KeepWithinStops(rs: seq<Route>, stopLimit: Option<nat>): (r: seq<Route>)
    ensures forall x :: x in r <==> x in rs && WithinStops(x, stopLimit)
    ensures |r| <= |rs|
    ensures SortedByCost(rs) ==> SortedByCost(r)
  {
    if rs == [] then []
    else
      var rest := KeepWithinStops(rs[1..], stopLimit);
      assert forall x :: x in rs <==> x == rs[0] || x in rs[1..];
      assert SortedByCost(rs) ==> SortedByCost(rs[1..]);
      if WithinStops(rs[0], stopLimit) then
        if SortedByCost(rs) then
          assert forall y :: y in rest ==> rs[0].cost <= y.cost by {
            forall y | y in rest ensures rs[0].cost <= y.cost {
              var k :| 1 <= k < |rs| && rs[k] == y;
            }
          }
          SortedCons(rs[0], rest);
          [rs[0]] + rest
        else [rs[0]] + rest
      else rest
  }

  /** The stop filter keeps every copy of a route within the stop limit and
      none of the others. */
  lemma {:induction false} KeepWithinStopsCopies(rs: seq<Route>, stopLimit: Option<nat>)
    ensures forall x :: multiset(KeepWithinStops(rs, stopLimit))[x] == if WithinStops(x, stopLimit) then multiset(rs)[x] else 0
  {
    if rs != [] {
      var rest := KeepWithinStops(rs[1..], stopLimit);
      KeepWithinStopsCopies(rs[1..], stopLimit);
      assert rs == [rs[0]] + rs[1..];
      assert multiset(rs) == multiset{rs[0]} + multiset(rs[1..]);
      if WithinStops(rs[0], stopLimit) {
        assert KeepWithinStops(rs, stopLimit) == [rs[0]] + rest;
        assert multiset([rs[0]] + rest) == multiset{rs[0]} + multiset(rest);
      } else {
        assert KeepWithinStops(rs, stopLimit) == rest;
      }
    }
  }

  /** The routes the stop filter keeps stay in their original order. */
  lemma {:induction false} KeepWithinStopsInOrder(rs: seq<Route>, stopLimit: Option<nat>)
    ensures IsSubsequence(KeepWithinStops(rs, stopLimit), rs)
  {
    if rs != [] {
      var rest := KeepWithinStops(rs[1..], stopLimit);
      KeepWithinStopsInOrder(rs[1..], stopLimit);
      if WithinStops(rs[0], stopLimit) {
        var r := [rs[0]] + rest;
        assert KeepWithinStops(rs, stopLimit) == r;
        assert r[0] == rs[0] && r[1..] == rest;
      } else {
        assert KeepWithinStops(rs, stopLimit) == rest;
        assert rest != [] ==> rest[0] in rest && rest[0] != rs[0];
      }
    }
  }

  /** `children` are the extensions of `route` along the neighbours in `next`
      whose edge key is below the reuse limit: each such extension is among
      them, each of them is such an extension, and there are at most as many
      as neighbours. */
  predicate ChildrenOf(route: Route, next: map<Node, nat>, reuse: nat, children: seq<Route>)
    requires |route.nodes| >= 1
  {
    && |children| <= |next|
    && (forall c :: c in children ==>
         exists n :: n in next && Count(route.paths, EdgeKey(Last(route.nodes), n)) < reuse && c == Extend(route, n, next[n]))
    && (forall n :: n in next && Count(route.paths, EdgeKey(Last(route.nodes), n)) < reuse ==>
         Extend(route, n, next[n]) in children)
    && (forall i, j :: 0 <= i < j < |children| && |children[i].nodes| >= 1 && |children[j].nodes| >= 1 ==>
         Last(children[i].nodes) != Last(children[j].nodes))
  }

  /** The loop state of `Expand` after the neighbours outside `rest` were
      visited: the children are the eligible extensions along exactly those
      neighbours, one per neighbour. */
  predicate ExpandedSoFar(route: Route, next: map<Node, nat>, reuse: nat, rest: set<Node>, children: seq<Route>)
    requires |route.nodes| >= 1
  {
    && rest <= next.Keys
    && |children| + |rest| <= |next|
    && (forall c :: c in children ==>
         exists n :: n in next && n !in rest && Count(route.paths, EdgeKey(Last(route.nodes), n)) < reuse && c == Extend(route, n, next[n]))
    && (forall n :: n in next && n !in rest && Count(route.paths, EdgeKey(Last(route.nodes), n)) < reuse ==>
         Extend(route, n, next[n]) in children)
    && (forall i :: 0 <= i < |children| ==> |children[i].nodes| >= 1 && Last(children[i].nodes) !in rest)
    && (forall i, j :: 0 <= i < j < |children| ==> Last(children[i].nodes) != Last(children[j].nodes))
  }

  /** Visiting a neighbour whose edge key has reached the limit. */
  lemma ExpandSkip(route: Route, next: map<Node, nat>, reuse: nat, rest: set<Node>, children: seq<Route>, n: Node)
    requires |route.nodes| >= 1
    requires ExpandedSoFar(route, next, reuse, rest, children) && n in rest
    requires Count(route.paths, EdgeKey(Last(route.nodes), n)) >= reuse
    ensures ExpandedSoFar(route, next, reuse, rest - {n}, children)
  {
    assert |rest - {n}| == |rest| - 1;
  }

  /** Visiting a neighbour whose edge key is below the limit. */
  lemma ExpandAdd(route: Route, next: map<Node, nat>, reuse: nat, rest: set<Node>, children: seq<Route>, n: Node)
    requires |route.nodes| >= 1
    requires ExpandedSoFar(route, next, reuse, rest, children) && n in rest
    requires Count(route.paths, EdgeKey(Last(route.nodes), n)) < reuse
    ensures ExpandedSoFar(route, next, reuse, rest - {n}, children + [Extend(route, n, next[n])])
  {
    var c := Extend(route, n, next[n]);
    var cs := children + [c];
    assert |rest - {n}| == |rest| - 1;
    forall x | x in cs
      ensures exists m :: m in next && m !in rest - {n} && Count(route.paths, EdgeKey(Last(route.nodes), m)) < reuse && x == Extend(route, m, next[m])
    {
      if x != c {
        assert x in children;
      }
    }
    forall i | 0 <= i < |cs| ensures |cs[i].nodes| >= 1 && Last(cs[i].nodes) !in rest - {n} {
      if i < |children| {
        assert cs[i] == children[i];
      }
    }
    forall i, j | 0 <= i < j < |cs| ensures Last(cs[i].nodes) != Last(cs[j].nodes) {
      assert cs[i] == children[i];
      if j < |children| {
        assert cs[j] == children[j];
      }
    }
  }

  /** Expands `route` over the neighbour map `next` of its last node, in an
      unspecified order of the neighbours: every neighbour whose edge key is
      still below the reuse limit gives one extended route. */
  method Expand(route: Route, next: map<Node, nat>, reuse: nat) returns (children: seq<Route>)
    requires |route.nodes| >= 1 && reuse >= 1
    ensures ChildrenOf(route, next, reuse, children)
  {
    var last := Last(route.nodes);
    var rest := next.Keys;
    children := [];
    while rest != {}
      invariant ExpandedSoFar(route, next, reuse, rest, children)
      decreases |rest|
    {
      var n :| n in rest;
      var key := EdgeKey(last, n);
      if key !in route.paths || route.paths[key] == 0 || route.paths[key] < reuse {
        var pathCount := if key in route.paths && route.paths[key] != 0 then route.paths[key] + 1 else 1;
        var child := Route(route.nodes + [n], route.paths[key := pathCount], route.cost + next[n]);
        assert child == Extend(route, n, next[n]);
        ExpandAdd(route, next, reuse, rest, children, n);
        children := children + [child];
      } else {
        ExpandSkip(route, next, reuse, rest, children, n);
      }
      rest := rest - {n};
    }
  }

  // ---------------------------------------------------------------------
  // Facts about valid routes

  lemma StartRouteValid(g: Nodes, start: Node, end: Node, reuse: nat)
    ensures ValidRoute(g, start, reuse, StartRoute(start))
    ensures NoEarlierArrival(g, end, StartRoute(start).nodes)
  {
  }

  /** A walk of cost 0 uses only edges of cost 0. */
  lemma {:induction false} ZeroPathCost(g: Nodes, s: seq<Node>)
    requires IsWalk(g, s) && PathCost(g, s) == 0
    ensures forall j :: 0 <= j < |s| - 1 ==> EdgeAt(g, s[j], s[j + 1]) == Some(0)
  {
    if |s| >= 2 {
      assert EdgeAt(g, s[0], s[1]).Some?;
      WalkTail(g, s);
      ZeroPathCost(g, s[1..]);
      forall j | 0 < j < |s| - 1 ensures EdgeAt(g, s[j], s[j + 1]) == Some(0) {
        assert s[1..][j - 1] == s[j] && s[1..][j] == s[j + 1];
      }
    }
  }

  /** The counter of an extended route is the counter of its nodes, and
      stays within the reuse limit when the new edge's key was below it. */
  lemma ExtendCounts(r: Route, n: Node, c: nat, reuse: nat)
    requires |r.nodes| >= 1 && r.paths == KeyCounts(r.nodes)
    requires forall k :: k in r.paths ==> r.paths[k] <= reuse
    requires Count(r.paths, EdgeKey(Last(r.nodes), n)) < reuse
    ensures Extend(r, n, c).paths == KeyCounts(Extend(r, n, c).nodes)
    ensures forall k :: k in Extend(r, n, c).paths ==> Extend(r, n, c).paths[k] <= reuse
  {
    var t := r.nodes + [n];
    assert t[..|t| - 1] == r.nodes;
    assert t[|t| - 2] == Last(r.nodes) && t[|t| - 1] == n;
  }

  /** Extending a route that did not stop at `end` keeps every earlier visit
      of `end` free of cost. */
  lemma ExtendArrival(g: Nodes, end: Node, r: Route, n: Node, c: nat)
    requires |r.nodes| >= 1 && IsWalk(g, r.nodes) && r.cost == PathCost(g, r.nodes)
    requires NoEarlierArrival(g, end, r.nodes)
    requires Last(r.nodes) == end ==> r.cost == 0
    ensures NoEarlierArrival(g, end, Extend(r, n, c).nodes)
  {
    var s, t := r.nodes, r.nodes + [n];
    if Last(s) == end {
      ZeroPathCost(g, s);
    }
    forall i, j | 0 <= j < i < |t| - 1 && t[i] == end
      ensures EdgeAt(g, t[j], t[j + 1]) == Some(0)
    {
      assert t[j] == s[j] && t[j + 1] == s[j + 1] && t[i] == s[i];
    }
  }

  /** Extending a valid route along an edge whose key is below the reuse
      limit gives a valid route that costs at least as much. */
  lemma ExtendValid(g: Nodes, start: Node, reuse: nat, r: Route, n: Node)
    requires ValidRoute(g, start, reuse, r)
    requires EdgeAt(g, Last(r.nodes), n).Some?
    requires Count(r.paths, EdgeKey(Last(r.nodes), n)) < reuse
    ensures ValidRoute(g, start, reuse, Extend(r, n, g[Last(r.nodes)][n]))
    ensures Extend(r, n, g[Last(r.nodes)][n]).cost >= r.cost
  {
    PathCostSnoc(g, r.nodes, n);
    ExtendCounts(r, n, g[Last(r.nodes)][n], reuse);
  }

  /** A valid route with a nonzero cost has left its start node, so the start
      node has outgoing edges. */
  lemma CostlyRouteLeavesStart(g: Nodes, start: Node, reuse: nat, r: Route)
    requires ValidRoute(g, start, reuse, r) && r.cost != 0
    ensures start in g && r.nodes[1] in g[start]
  {
    assert |r.nodes| >= 2;
    assert EdgeAt(g, r.nodes[0], r.nodes[1]).Some?;
  }

  /** The reuse bound: in a valid route every edge key, and so every single
      edge, occurs at most `reuse` times, and the counter holds those
      occurrences. */
  lemma ReuseBound(g: Nodes, start: Node, reuse: nat, r: Route, a: Node, b: Node)
    requires ValidRoute(g, start, reuse, r)
    ensures Count(r.paths, EdgeKey(a, b)) == KeyUses(r.nodes, EdgeKey(a, b))
    ensures EdgeUses(r.nodes, a, b) <= KeyUses(r.nodes, EdgeKey(a, b)) <= reuse
  {
    KeyCountsCountUses(r.nodes, EdgeKey(a, b));
    EdgeUsesBelowKeyUses(r.nodes, a, b);
  }

  // ---------------------------------------------------------------------
  // Termination: the edge keys of the graph, the remaining reuse budget of a
  // route, and a weight of the queue that every iteration decreases.

  /** The keys of all edges of the graph. */
  function EdgeKeys(g: Nodes): set<string>
  {
    set a, b | a in g && b in g[a] :: EdgeKey(a, b)
  }

  lemma EdgeKeyListed(g: Nodes, a: Node, b: Node)
    requires EdgeAt(g, a, b).Some?
    ensures EdgeKey(a, b) in EdgeKeys(g)
  {
  }

  predicate NoDup(s: seq<string>)
  {
    forall i, j :: 0 <= i < j < |s| ==> s[i] != s[j]
  }

  /** The elements of a finite set, in some order, each once. */
  ghost function SeqOf(xs: set<string>): (r: seq<string>)
    ensures forall x :: x in r <==> x in xs
    ensures NoDup(r)
    ensures |r| == |xs|
  {
    if xs == {} then []
    else
      var x :| x in xs;
      [x] + SeqOf(xs - {x})
  }

  /** How many more times key `k` may be used. */
  function Slack(paths: map<string, nat>, k: string, reuse: nat): nat
  {
    if Count(paths, k) <= reuse then reuse - Count(paths, k) else 0
  }

  /** The uses still left over the keys `ks`. */
  function Budget(ks: seq<string>, paths: map<string, nat>, reuse: nat): nat
  {
    if ks == [] then 0 else Slack(paths, ks[0], reuse) + Budget(ks[1..], paths, reuse)
  }

  /** A bound on the number of routes the search can still create from a
      route with budget `b`, when no node has more than `d` neighbours. */
  function Weight(b: nat, d: nat): (w: nat)
    ensures w >= 1
  {
    if b == 0 then 1 else 1 + d * Weight(b - 1, d)
  }

  /** The weight of one route, for the queue measure. */
  ghost function RouteWeight(ks: seq<string>, reuse: nat, d: nat): Route -> nat
  {
    (r: Route) => Weight(Budget(ks, r.paths, reuse), d)
  }

  /** The sum of `w` over the routes of `q`. */
  ghost function SumOf(q: seq<Route>, w: Route -> nat): nat
  {
    if q == [] then 0 else w(q[0]) + SumOf(q[1..], w)
  }

  /** The termination measure of the search: the summed weight of the queue. */
  ghost function QueueWeight(q: seq<Route>, ks: seq<string>, reuse: nat, d: nat): nat
  {
    SumOf(q, RouteWeight(ks, reuse, d))
  }

  /** The largest number of neighbours of any node among `keys`. */
  ghost function MaxOutDegree(g: Nodes, keys: set<Node>): (d: nat)
    ensures forall a :: a in keys && a in g ==> |g[a]| <= d
    decreases keys
  {
    if keys == {} then 0
    else
      var a :| a in keys;
      var rest := MaxOutDegree(g, keys - {a});
      var here := if a in g then |g[a]| else 0;
      if here <= rest then rest else here
  }

  lemma {:induction false} BudgetIgnores(ks: seq<string>, paths: map<string, nat>, k: string, v: nat, reuse: nat)
    requires k !in ks
    ensures Budget(ks, paths[k := v], reuse) == Budget(ks, paths, reuse)
  {
    if ks != [] {
      BudgetIgnores(ks[1..], paths, k, v, reuse);
    }
  }

  /** Using a key of `ks` once more takes exactly one unit of budget. */
  lemma {:induction false} BudgetBump(ks: seq<string>, paths: map<string, nat>, k: string, reuse: nat)
    requires k in ks && NoDup(ks)
    requires Count(paths, k) < reuse
    ensures Budget(ks, paths[k := Count(paths, k) + 1], reuse) + 1 == Budget(ks, paths, reuse)
  {
    var bumped := paths[k := Count(paths, k) + 1];
    if ks[0] == k {
      assert k !in ks[1..] by {
        forall i | 0 <= i < |ks[1..]| ensures ks[1..][i] != k {
          assert ks[1..][i] == ks[i + 1];
        }
      }
      BudgetIgnores(ks[1..], paths, k, Count(paths, k) + 1, reuse);
    } else {
      assert k in ks[1..] by {
        var i :| 0 <= i < |ks| && ks[i] == k;
        assert ks[1..][i - 1] == k;
      }
      assert NoDup(ks[1..]) by {
        forall i, j | 0 <= i < j < |ks[1..]| ensures ks[1..][i] != ks[1..][j] {
          assert ks[1..][i] == ks[i + 1] && ks[1..][j] == ks[j + 1];
        }
      }
      BudgetBump(ks[1..], paths, k, reuse);
      assert Slack(bumped, ks[0], reuse) == Slack(paths, ks[0], reuse);
    }
  }

  lemma {:induction false} FullBudget(ks: seq<string>, reuse: nat)
    ensures Budget(ks, map[], reuse) == |ks| * reuse
  {
    if ks != [] {
      FullBudget(ks[1..], reuse);
    }
  }

  lemma {:induction false} WeightMonotone(b1: nat, b2: nat, d: nat)
    requires b1 <= b2
    ensures Weight(b1, d) <= Weight(b2, d)
    decreases b2
  {
    if b1 < b2 {
      WeightMonotone(b1, b2 - 1, d);
      if b2 - 1 > 0 {
        WeightMonotone(b2 - 2, b2 - 1, d);
        MulMonotone(d, Weight(b2 - 2, d), Weight(b2 - 1, d));
      }
    }
  }

  lemma MulMonotone(d: nat, x: nat, y: nat)
    requires x <= y
    ensures d * x <= d * y
  {
  }

  lemma {:induction false} SumAppend(a: seq<Route>, b: seq<Route>, w: Route -> nat)
    ensures SumOf(a + b, w) == SumOf(a, w) + SumOf(b, w)
  {
    if a != [] {
      assert (a + b)[1..] == a[1..] + b;
      SumAppend(a[1..], b, w);
    } else {
      assert a + b == b;
    }
  }

  lemma {:induction false} SumInsert(x: Route, q: seq<Route>, w: Route -> nat)
    ensures SumOf(InsertByCost(x, q), w) == w(x) + SumOf(q, w)
  {
    if q != [] && x.cost >= q[0].cost {
      SumInsert(x, q[1..], w);
      assert ([q[0]] + InsertByCost(x, q[1..]))[1..] == InsertByCost(x, q[1..]);
    } else if q != [] {
      assert ([x] + q)[1..] == q;
    }
  }

  /** Sorting the queue does not change its weight. */
  lemma {:induction false} SumSort(q: seq<Route>, w: Route -> nat)
    ensures SumOf(SortByCost(q), w) == SumOf(q, w)
  {
    if q != [] {
      var init, x := q[..|q| - 1], q[|q| - 1];
      var sorted := SortByCost(init);
      calc {
        SumOf(SortByCost(q), w);
        { assert SortByCost(q) == InsertByCost(x, sorted); }
        SumOf(InsertByCost(x, sorted), w);
        { SumInsert(x, sorted, w); }
        w(x) + SumOf(sorted, w);
        { SumSort(init, w); }
        w(x) + SumOf(init, w);
        { SumAppend(init, [x], w); assert SumOf([x], w) == w(x); }
        SumOf(init + [x], w);
        { assert q == init + [x]; }
        SumOf(q, w);
      }
    }
  }

  /** Routes that each weigh at most `m` weigh at most their number times `m`. */
  lemma {:induction false} SumBound(q: seq<Route>, w: Route -> nat, m: nat)
    requires forall c :: c in q ==> w(c) <= m
    ensures SumOf(q, w) <= |q| * m
  {
    if q != [] {
      assert q[0] in q;
      SumBound(q[1..], w, m);
      assert (|q| - 1) * m + m == |q| * m;
    }
  }

  /** The routes that one expansion adds weigh less than the route they
      replace, when they are at most `d` and each has a smaller budget. */
  lemma ChildrenWeighLess(route: Route, children: seq<Route>, ks: seq<string>, reuse: nat, d: nat)
    requires |children| <= d
    requires forall c :: c in children ==> Budget(ks, c.paths, reuse) < Budget(ks, route.paths, reuse)
    ensures QueueWeight(children, ks, reuse, d) < Weight(Budget(ks, route.paths, reuse), d)
  {
    var b := Budget(ks, route.paths, reuse);
    if children != [] {
      assert children[0] in children;
      var w, m := RouteWeight(ks, reuse, d), Weight(b - 1, d);
      forall c | c in children ensures w(c) <= m {
        WeightMonotone(Budget(ks, c.paths, reuse), b - 1, d);
      }
      SumBound(children, w, m);
      MulMonotone(m, |children|, d);
      assert |children| * m <= d * m;
    }
  }

  /** A route costing at least as much as the last of a sorted sequence can
      be appended to it. */
  lemma SortedSnoc(q: seq<Route>, x: Route)
    requires SortedByCost(q)
    requires q != [] ==> q[|q| - 1].cost <= x.cost
    ensures SortedByCost(q + [x])
  {
  }

  /** One child of an expansion along the neighbour `n`: valid, no cheaper
      than its parent, with a smaller budget, and free of earlier arrivals
      when the parent was. */
  lemma ChildStepAt(g: Nodes, start: Node, end: Node, reuse: nat, ks: seq<string>, route: Route, n: Node)
    requires ValidRoute(g, start, reuse, route)
    requires EdgeAt(g, Last(route.nodes), n).Some?
    requires Count(route.paths, EdgeKey(Last(route.nodes), n)) < reuse
    requires forall k :: k in EdgeKeys(g) ==> k in ks
    requires NoDup(ks)
    ensures ValidRoute(g, start, reuse, Extend(route, n, g[Last(route.nodes)][n]))
    ensures Extend(route, n, g[Last(route.nodes)][n]).cost >= route.cost
    ensures Budget(ks, Extend(route, n, g[Last(route.nodes)][n]).paths, reuse) < Budget(ks, route.paths, reuse)
    ensures NoEarlierArrival(g, end, route.nodes) && (Last(route.nodes) == end ==> route.cost == 0) ==> NoEarlierArrival(g, end, Extend(route, n, g[Last(route.nodes)][n]).nodes)
  {
    var last := Last(route.nodes);
    ExtendValid(g, start, reuse, route, n);
    if NoEarlierArrival(g, end, route.nodes) && (last == end ==> route.cost == 0) {
      ExtendArrival(g, end, route, n, g[last][n]);
    }
    EdgeKeyListed(g, last, n);
    BudgetBump(ks, route.paths, EdgeKey(last, n), reuse);
  }

  /** The same for a child given only as one of the extensions. */
  lemma ChildStep(g: Nodes, start: Node, end: Node, reuse: nat, ks: seq<string>, route: Route, c: Route)
    requires ValidRoute(g, start, reuse, route)
    requires Last(route.nodes) in g
    requires exists n :: n in g[Last(route.nodes)] && Count(route.paths, EdgeKey(Last(route.nodes), n)) < reuse && c == Extend(route, n, g[Last(route.nodes)][n])
    requires forall k :: k in EdgeKeys(g) ==> k in ks
    requires NoDup(ks)
    ensures ValidRoute(g, start, reuse, c)
    ensures c.cost >= route.cost
    ensures Budget(ks, c.paths, reuse) < Budget(ks, route.paths, reuse)
    ensures NoEarlierArrival(g, end, route.nodes) && (Last(route.nodes) == end ==> route.cost == 0) ==> NoEarlierArrival(g, end, c.nodes)
  {
    var last := Last(route.nodes);
    var n :| n in g[last] && Count(route.paths, EdgeKey(last, n)) < reuse && c == Extend(route, n, g[last][n]);
    ChildStepAt(g, start, end, reuse, ks, route, n);
  }

  /** One expansion of a route popped from the queue: every child is valid,
      costs at least as much as the route, has a smaller budget, and keeps
      the no-earlier-arrival property when the route was not stopped. */
  lemma ExpansionStep(g: Nodes, start: Node, end: Node, reuse: nat, ks: seq<string>, route: Route, children: seq<Route>)
    requires ValidRoute(g, start, reuse, route)
    requires Last(route.nodes) in g
    requires forall c :: c in children ==>
      exists n :: n in g[Last(route.nodes)] && Count(route.paths, EdgeKey(Last(route.nodes), n)) < reuse && c == Extend(route, n, g[Last(route.nodes)][n])
    requires forall k :: k in EdgeKeys(g) ==> k in ks
    requires NoDup(ks)
    ensures forall c :: c in children ==>
      && ValidRoute(g, start, reuse, c)
      && c.cost >= route.cost
      && Budget(ks, c.paths, reuse) < Budget(ks, route.paths, reuse)
    ensures reuse == 1 && NoEarlierArrival(g, end, route.nodes) && (Last(route.nodes) == end ==> route.cost == 0)
      ==> forall c :: c in children ==> NoEarlierArrival(g, end, c.nodes)
  {
    forall c | c in children
      ensures ValidRoute(g, start, reuse, c)
      ensures c.cost >= route.cost
      ensures Budget(ks, c.paths, reuse) < Budget(ks, route.paths, reuse)
      ensures NoEarlierArrival(g, end, route.nodes) && (Last(route.nodes) == end ==> route.cost == 0) ==> NoEarlierArrival(g, end, c.nodes)
    {
      ChildStep(g, start, end, reuse, ks, route, c);
    }
  }

  /** Along a walk whose keys are used at most `reuse` times, every step
      spends one unit of the budget over all edge keys of the graph. */
  lemma {:induction false} BudgetSpent(g: Nodes, s: seq<Node>, ks: seq<string>, reuse: nat)
    requires |s| >= 1 && IsWalk(g, s)
    requires forall k :: k in KeyCounts(s) ==> KeyCounts(s)[k] <= reuse
    requires forall k :: k in EdgeKeys(g) ==> k in ks
    requires NoDup(ks)
    ensures Budget(ks, KeyCounts(s), reuse) + |s| - 1 == |ks| * reuse
  {
    if |s| == 1 {
      FullBudget(ks, reuse);
    } else {
      var init := s[..|s| - 1];
      WalkInit(g, s);
      var p := KeyCounts(init);
      var a, b := s[|s| - 2], s[|s| - 1];
      var k := EdgeKey(a, b);
      assert KeyCounts(s) == p[k := Count(p, k) + 1];
      assert init[|init| - 1] == a;
      assert EdgeAt(g, a, b).Some?;
      EdgeKeyListed(g, a, b);
      forall k' | k' in p ensures p[k'] <= reuse {
        if k' != k {
          assert KeyCounts(s)[k'] == p[k'];
        }
      }
      assert KeyCounts(s)[k] <= reuse;
      BudgetSpent(g, init, ks, reuse);
      BudgetBump(ks, p, k, reuse);
    }
  }

  /** Why the search terminates on graphs with cycles: a valid route has at
      most (distinct edge keys of the graph) * `reuse` hops. */
  lemma RouteLengthBound(g: Nodes, start: Node, reuse: nat, r: Route)
    requires ValidRoute(g, start, reuse, r)
    ensures |r.nodes| - 1 <= |EdgeKeys(g)| * reuse
  {
    var ks := SeqOf(EdgeKeys(g));
    BudgetSpent(g, r.nodes, ks, reuse);
  }

  // ---------------------------------------------------------------------
  // The loop invariant of the search, in three parts, and one lemma per
  // step of an iteration.

  /** The pending queue: valid routes, sorted by cost. */
  predicate PendingOk(g: Nodes, start: Node, end: Node, reuse: nat, q: seq<Route>)
  {
    && (forall r :: r in q ==> ValidRoute(g, start, reuse, r))
    && (reuse == 1 ==> forall r :: r in q ==> NoEarlierArrival(g, end, r.nodes))
    && SortedByCost(q)
  }

  /** The collected routes: valid, ending at `end` with a cost within the
      cost limit, sorted by cost. */
  predicate CollectedOk(g: Nodes, start: Node, end: Node, reuse: nat, costLimit: Option<nat>, t: seq<Route>)
  {
    && (forall r :: r in t ==>
         ValidRoute(g, start, reuse, r) && Last(r.nodes) == end && r.cost != 0 && Within(r.cost, costLimit))
    && (reuse == 1 ==> forall r :: r in t ==> NoEarlierArrival(g, end, r.nodes))
    && SortedByCost(t)
  }

  /** No pending route is cheaper than the last collected one. */
  predicate CostFloor(t: seq<Route>, q: seq<Route>)
  {
    t != [] ==> forall r :: r in q ==> t[|t| - 1].cost <= r.cost
  }

  lemma StartOk(g: Nodes, start: Node, end: Node, reuse: nat, costLimit: Option<nat>)
    ensures PendingOk(g, start, end, reuse, [StartRoute(start)])
    ensures CollectedOk(g, start, end, reuse, costLimit, [])
  {
    StartRouteValid(g, start, end, reuse);
  }

  /** The state after `route` was taken off the front of the queue, leaving
      `q`, with `t` collected so far. */
  predicate Popped(g: Nodes, start: Node, end: Node, reuse: nat, t: seq<Route>, route: Route, q: seq<Route>)
  {
    && PendingOk(g, start, end, reuse, q)
    && CostFloor(t, q)
    && ValidRoute(g, start, reuse, route)
    && (reuse == 1 ==> NoEarlierArrival(g, end, route.nodes))
    && (forall r :: r in q ==> route.cost <= r.cost)
    && (t != [] ==> t[|t| - 1].cost <= route.cost)
  }

  /** Taking the cheapest route off the queue. */
  lemma PopStep(g: Nodes, start: Node, end: Node, reuse: nat, t: seq<Route>, q: seq<Route>, ks: seq<string>, d: nat)
    requires PendingOk(g, start, end, reuse, q) && CostFloor(t, q) && q != []
    ensures Popped(g, start, end, reuse, t, q[0], q[1..])
    ensures QueueWeight(q, ks, reuse, d) > QueueWeight(q[1..], ks, reuse, d)
    ensures QueueWeight(q, ks, reuse, d) == Weight(Budget(ks, q[0].paths, reuse), d) + QueueWeight(q[1..], ks, reuse, d)
  {
    assert q[0] in q;
    assert forall r :: r in q[1..] ==> r in q;
    forall r | r in q[1..] ensures q[0].cost <= r.cost {
      var k :| 0 <= k < |q[1..]| && q[1..][k] == r;
      assert q[k + 1] == r;
    }
  }

  /** Collecting a route that ends at `end` with a cost within the limit. */
  lemma CollectStep(g: Nodes, start: Node, end: Node, reuse: nat, costLimit: Option<nat>, t: seq<Route>, route: Route, q: seq<Route>)
    requires CollectedOk(g, start, end, reuse, costLimit, t)
    requires Popped(g, start, end, reuse, t, route, q)
    requires Last(route.nodes) == end && route.cost != 0 && Within(route.cost, costLimit)
    ensures CollectedOk(g, start, end, reuse, costLimit, t + [route])
    ensures Popped(g, start, end, reuse, t + [route], route, q)
  {
    SortedSnoc(t, route);
  }

  /** Re-sorting the queue with the children of the popped route. The queue
      weight drops below its weight before the pop. */
  lemma MergeStep(g: Nodes, start: Node, end: Node, reuse: nat, ks: seq<string>, d: nat,
                  t: seq<Route>, route: Route, q: seq<Route>, children: seq<Route>)
    requires Popped(g, start, end, reuse, t, route, q)
    requires reuse == 1 && Last(route.nodes) == end ==> route.cost == 0
    requires Last(route.nodes) in g
    requires ChildrenOf(route, g[Last(route.nodes)], reuse, children)
    requires forall k :: k in EdgeKeys(g) ==> k in ks
    requires NoDup(ks)
    requires forall a :: a in g ==> |g[a]| <= d
    ensures PendingOk(g, start, end, reuse, SortByCost(q + children))
    ensures CostFloor(t, SortByCost(q + children))
    ensures QueueWeight(SortByCost(q + children), ks, reuse, d) < Weight(Budget(ks, route.paths, reuse), d) + QueueWeight(q, ks, reuse, d)
  {
    ExpansionStep(g, start, end, reuse, ks, route, children);
    ChildrenWeighLess(route, children, ks, reuse, d);
    SumAppend(q, children, RouteWeight(ks, reuse, d));
    SumSort(q + children, RouteWeight(ks, reuse, d));
    var merged := q + children;
    var sorted := SortByCost(merged);
    assert forall r :: r in sorted ==> r in merged by {
      forall r | r in sorted ensures r in merged {
        assert r in multiset(sorted);
      }
    }
  }
}
