/** The class Graph: a weighted directed graph whose one field, the adjacency
    store, is replaced by `refresh` and updated in place by `set` and
    `remove`, and read by the lookups, the route search and the cost
    calculation. */
module GraphClass {
  import opened Wrappers
  import opened Adjacency
  import opened Walks
  import opened Calculation
  import opened Search

  /** What the stop filter hands back from a valid set of collected routes. */
  lemma FilteredRoutesOk(g: Nodes, start: Node, end: Node, reuse: nat, costLimit: Option<nat>, stopLimit: Option<nat>,
                         targets: seq<Route>, routes: seq<Route>)
    requires CollectedOk(g, start, end, reuse, costLimit, targets)
    requires routes == KeepWithinStops(targets, stopLimit)
    ensures forall r :: r in routes ==>
      && ValidRoute(g, start, reuse, r)
      && Last(r.nodes) == end
      && r.cost != 0
      && Within(r.cost, costLimit)
      && WithinStops(r, stopLimit)
    ensures forall r :: r in routes ==> |r.nodes| - 1 <= |EdgeKeys(g)| * reuse
    ensures forall r, a, b :: r in routes ==> EdgeUses(r.nodes, a, b) <= reuse
    ensures reuse == 1 ==> forall r :: r in routes ==> NoEarlierArrival(g, end, r.nodes)
    ensures SortedByCost(routes) && |routes| <= |targets|
    ensures start !in g ==> routes == []
    ensures forall r :: r in routes ==> CalculateRecorded(g, NodeList(r.nodes)) == Ok(r.cost)
    ensures forall r :: r in routes && NoZeroEdges(g, r.nodes) ==> Calculation.Calculate(g, NodeList(r.nodes)) == Ok(r.cost)
  {
    forall r | r in routes ensures |r.nodes| - 1 <= |EdgeKeys(g)| * reuse {
      RouteLengthBound(g, start, reuse, r);
    }
    forall r, a, b | r in routes ensures EdgeUses(r.nodes, a, b) <= reuse {
      ReuseBound(g, start, reuse, r, a, b);
    }
    if start !in g && routes != [] {
      assert routes[0] in routes;
      CostlyRouteLeavesStart(g, start, reuse, routes[0]);
    }
    forall r | r in routes && NoZeroEdges(g, r.nodes) ensures Calculation.Calculate(g, NodeList(r.nodes)) == Ok(r.cost) {
      CalculateAgreesOnPositiveCosts(g, NodeList(r.nodes));
    }
  }

  class Graph {
    var nodes: Nodes

    constructor (nodes: Nodes := map[])
      ensures this.nodes == nodes
    {
      this.nodes := nodes;
    }

    /** Replaces the whole store. */
    method Refresh(nodes: Nodes := map[])
      modifies this
      ensures this.nodes == nodes
    {
      this.nodes := nodes;
    }

    /** The neighbour map of `node`, if it has one; reading it changes
        nothing. */
    function From(node: Node): (r: Option<map<Node, nat>>)
      reads this
      ensures r.Some? <==> node in nodes
      ensures r.Some? ==> r.value == nodes[node]
    {
      if node in nodes then Some(nodes[node]) else None
    }

    /** Every source with an edge into `node`, mapped to the singleton map
        from `node` to that edge's cost; the store is scanned source by
        source and neighbour by neighbour. */
    method To(node: Node) returns (r: Nodes)
      ensures r == Predecessors(nodes, node)
      ensures forall i :: i in r <==> i in nodes && node in nodes[i]
    {
      r := map[];
      var sources := nodes.Keys;
      while sources != {}
        invariant sources <= nodes.Keys
        invariant r == map i | i in nodes.Keys - sources && node in nodes[i] :: map[node := nodes[i][node]]
        decreases sources
      {
        var i :| i in sources;
        var targets := nodes[i].Keys;
        ghost var before := r;
        while targets != {}
          invariant targets <= nodes[i].Keys
          invariant r == if node in nodes[i] && node !in targets then before[i := map[node := nodes[i][node]]] else before
          decreases targets
        {
          var j :| j in targets;
          if j == node {
            r := r[i := map[j := nodes[i][j]]];
          }
          targets := targets - {j};
        }
        sources := sources - {i};
      }
    }

    /** Adds the edge `start -> end`, or overwrites its cost. */
    method Set(start: Node, end: Node, cost: nat := 1) returns (r: Nodes)
      modifies this
      ensures nodes == SetEdge(old(nodes), start, end, cost)
      ensures r == nodes
    {
      var row: map<Node, nat> := if start in nodes then nodes[start] else map[];
      nodes := nodes[start := row];
      var updated: map<Node, nat> := nodes[start][end := cost];
      nodes := nodes[start := updated];
      r := nodes;
    }

    /** Deletes the edge `start -> end`; a missing source or edge is no
        error. */
    method Remove(start: Node, end: Node) returns (r: Nodes)
      modifies this
      ensures nodes == RemoveEdge(old(nodes), start, end)
      ensures r == nodes
    {
      if start in nodes {
        nodes := nodes[start := nodes[start] - {end}];
      }
      r := nodes;
    }

    /** Enumerates routes from `start` to `end` best-first: the queue of
        partial routes is kept sorted by cost, its cheapest route is taken,
        collected when it has a cost and ends at `end`, and otherwise (or
        also, when edges may be reused) extended by every neighbour whose
        edge key is below the reuse limit. The collected routes are then
        filtered by the number of stops. */
    method FindRoutes(start: Node, end: Node, options: Options := NoOptions) returns (routes: seq<Route>)
      ensures forall r :: r in routes ==>
        && ValidRoute(nodes, start, ReuseLimitOf(options.pathReuseLimit), r)
        && Last(r.nodes) == end
        && r.cost != 0
        && Within(r.cost, LimitOf(options.costLimit))
        && WithinStops(r, LimitOf(options.stopLimit))
      ensures forall r :: r in routes ==> |r.nodes| - 1 <= |EdgeKeys(nodes)| * ReuseLimitOf(options.pathReuseLimit)
      ensures forall r, a, b :: r in routes ==> EdgeUses(r.nodes, a, b) <= ReuseLimitOf(options.pathReuseLimit)
      ensures ReuseLimitOf(options.pathReuseLimit) == 1 ==>
        forall r :: r in routes ==> NoEarlierArrival(nodes, end, r.nodes)
      ensures SortedByCost(routes)
      ensures LimitOf(options.routeLimit).Some? ==> |routes| <= LimitOf(options.routeLimit).value
      ensures start !in nodes ==> routes == []
      ensures forall r :: r in routes ==> CalculateRecorded(nodes, NodeList(r.nodes)) == Ok(r.cost)
      ensures forall r :: r in routes && NoZeroEdges(nodes, r.nodes) ==> Calculate(NodeList(r.nodes)) == Ok(r.cost)
    {
      var routeLimit := LimitOf(options.routeLimit);
      var stopLimit := LimitOf(options.stopLimit);
      var costLimit := LimitOf(options.costLimit);
      var reuse := ReuseLimitOf(options.pathReuseLimit);

      var targetRoutes: seq<Route> := [];
      var tmpRoutes: seq<Route> := [StartRoute(start)];
      StartOk(nodes, start, end, reuse, costLimit);

      ghost var ks := SeqOf(EdgeKeys(nodes));
      ghost var d := MaxOutDegree(nodes, nodes.Keys);

      while routeLimit.None? || |targetRoutes| < routeLimit.value
        invariant PendingOk(nodes, start, end, reuse, tmpRoutes)
        invariant CollectedOk(nodes, start, end, reuse, costLimit, targetRoutes)
        invariant CostFloor(targetRoutes, tmpRoutes)
        invariant routeLimit.Some? ==> |targetRoutes| <= routeLimit.value
        decreases QueueWeight(tmpRoutes, ks, reuse, d)
      {
        if tmpRoutes == [] {
          break;
        }
        PopStep(nodes, start, end, reuse, targetRoutes, tmpRoutes, ks, d);
        var route := tmpRoutes[0];
        tmpRoutes := tmpRoutes[1..];

        var lastNode := Last(route.nodes);
        if route.cost != 0 && lastNode == end {
          if Within(route.cost, costLimit) {
            CollectStep(nodes, start, end, reuse, costLimit, targetRoutes, route, tmpRoutes);
            targetRoutes := targetRoutes + [route];
          }
          if reuse == 1 {
            continue;
          }
        }

        var next := From(lastNode);
        if next.None? {
          continue;
        }

        var children := Expand(route, next.value, reuse);
        MergeStep(nodes, start, end, reuse, ks, d, targetRoutes, route, tmpRoutes, children);
        tmpRoutes := SortByCost(tmpRoutes + children);
      }

      routes := KeepWithinStops(targetRoutes, stopLimit);
      FilteredRoutesOk(nodes, start, end, reuse, costLimit, stopLimit, targetRoutes, routes);
    }

    /** The cost of an explicit route on the current store. */
    function Calculate(route: RouteArg): (r: Result<nat, GraphError>)
      reads this
      ensures r == Calculation.Calculate(nodes, route)
      ensures r.Ok? <==> AcceptedWalk(nodes, AsList(route), true)
      ensures r.Ok? ==> IsWalk(nodes, AsList(route)) && r.value == PathCost(nodes, AsList(route))
      ensures r.Err? ==> r.error == NoSuchRoute
    {
      Calculation.Calculate(nodes, route)
    }
  }
}
