/** The cost of an explicit route: the argument is split into consecutive
    pairs, then the edge costs of the pairs are summed, failing with
    `NoSuchRoute` at the first pair that does not pass the edge check. */
module Calculation {
  import opened Wrappers
  import opened Adjacency
  import opened Walks

  /** The argument of `calculate`: an array of nodes, or a bare node that is
      treated as an array holding just that node. */
  datatype RouteArg = NodeList(nodes: seq<Node>) | Bare(node: Node)

  /** The one error of the library. */
  datatype GraphError = NoSuchRoute
  {
    /** The error's message; the words are separated by zero-width spaces
        around each blank. */
    function Message(): (m: string)
      ensures WithoutZeroWidth(m) == "No Such Route"
    {
      MessageWords();
      SpacedReadsJoined(["No", "Such", "Route"]);
      Spaced(["No", "Such", "Route"])
    }
  }

  /** The text with every zero-width space left out. */
  function WithoutZeroWidth(s: string): (r: string)
    ensures |r| <= |s|
  {
    if s == [] then []
    else (if s[0] == '\U{200B}' then [] else [s[0]]) + WithoutZeroWidth(s[1..])
  }

  lemma {:induction false} WithoutZeroWidthAppend(a: string, b: string)
    ensures WithoutZeroWidth(a + b) == WithoutZeroWidth(a) + WithoutZeroWidth(b)
  {
    if a != [] {
      assert (a + b)[1..] == a[1..] + b;
      WithoutZeroWidthAppend(a[1..], b);
    } else {
      assert a + b == b;
    }
  }

  lemma {:induction false} WithoutZeroWidthPlain(s: string)
    requires '\U{200B}' !in s
    ensures WithoutZeroWidth(s) == s
  {
    if s != [] {
      assert s[0] in s;
      assert forall c :: c in s[1..] ==> c in s;
      WithoutZeroWidthPlain(s[1..]);
    }
  }

  const ZeroWidthSpace: string := "\U{200B}"

  /** The blank of the message, with a zero-width space on each side. */
  const Gap: string := ZeroWidthSpace + " " + ZeroWidthSpace

  /** The words joined by `Gap`. */
  function Spaced(ws: seq<string>): string
  {
    if ws == [] then "" else if |ws| == 1 then ws[0] else ws[0] + Gap + Spaced(ws[1..])
  }

  /** The words joined by plain blanks. */
  function Joined(ws: seq<string>): string
  {
    if ws == [] then "" else if |ws| == 1 then ws[0] else ws[0] + " " + Joined(ws[1..])
  }

  lemma GapReadsBlank()
    ensures WithoutZeroWidth(Gap) == " "
  {
    var z := ZeroWidthSpace;
    assert |z| == 1 && z[0] == '\U{200B}' && z[1..] == [];
    assert WithoutZeroWidth(z) == [];
    WithoutZeroWidthPlain(" ");
    WithoutZeroWidthAppend(z, " ");
    WithoutZeroWidthAppend(z + " ", z);
  }

  /** Leaving the zero-width spaces out of the spaced words gives the words
      joined by blanks, when the words hold no zero-width space. */
  lemma {:induction false} SpacedReadsJoined(ws: seq<string>)
    requires forall i :: 0 <= i < |ws| ==> '\U{200B}' !in ws[i]
    ensures WithoutZeroWidth(Spaced(ws)) == Joined(ws)
  {
    if ws != [] {
      WithoutZeroWidthPlain(ws[0]);
      if |ws| > 1 {
        SpacedReadsJoined(ws[1..]);
        GapReadsBlank();
        WithoutZeroWidthAppend(ws[0], Gap);
        WithoutZeroWidthAppend(ws[0] + Gap, Spaced(ws[1..]));
      }
    }
  }

  /** The words of the message hold no zero-width space, and joined by
      blanks they read "No Such Route". */
  lemma MessageWords()
    ensures forall i :: 0 <= i < 3 ==> '\U{200B}' !in ["No", "Such", "Route"][i]
    ensures Joined(["No", "Such", "Route"]) == "No Such Route"
  {
    var ws := ["No", "Such", "Route"];
    assert ws[1..] == ["Such", "Route"] && ws[1..][1..] == ["Route"];
    var t, u := Joined(ws), "No Such Route";
    assert t == "No" + " " + ("Such" + " " + "Route");
    assert |t| == |u| == 13;
    forall i | 0 <= i < 13 ensures t[i] == u[i] {
      if i < 2 { assert t[i] == "No"[i]; }
      else if i == 2 { assert t[i] == ' '; }
      else if i < 7 { assert t[i] == "Such"[i - 3]; }
      else if i == 7 { assert t[i] == ' '; }
      else { assert t[i] == "Route"[i - 8]; }
    }
  }

  /** The message, character by character, is the one `calculate` throws. */
  lemma MessageText()
    ensures NoSuchRoute.Message() == "No\U{200B} \U{200B}Such\U{200B} \U{200B}Route"
  {
    var ws := ["No", "Such", "Route"];
    assert ws[1..] == ["Such", "Route"] && ws[1..][1..] == ["Route"];
    var t, u := Spaced(ws), "No\U{200B} \U{200B}Such\U{200B} \U{200B}Route";
    assert t == "No" + Gap + ("Such" + Gap + "Route");
    assert |Gap| == 3 && Gap[0] == '\U{200B}' && Gap[1] == ' ' && Gap[2] == '\U{200B}';
    assert |t| == |u| == 17;
    forall i | 0 <= i < 2 ensures t[i] == u[i] { assert t[i] == "No"[i]; }
    forall i | 2 <= i < 5 ensures t[i] == u[i] { assert t[i] == Gap[i - 2]; }
    forall i | 5 <= i < 9 ensures t[i] == u[i] { assert t[i] == "Such"[i - 5]; }
    forall i | 9 <= i < 12 ensures t[i] == u[i] { assert t[i] == Gap[i - 9]; }
    forall i | 12 <= i < 17 ensures t[i] == u[i] { assert t[i] == "Route"[i - 12]; }
  }

  /** `Array.isArray(x) ? x : [x]`. */
  function AsList(route: RouteArg): (r: seq<Node>)
    ensures route.NodeList? ==> r == route.nodes
    ensures route.Bare? ==> r == [route.node]
  {
    match route
    case NodeList(ns) => ns
    case Bare(n) => [n]
  }

  /** The pairing fold: from `index` on, every element that has a successor
      contributes the pair (element, successor) after `acc`. */
  function PairUp(s: seq<Node>, index: nat, acc: seq<(Node, Node)>): (r: seq<(Node, Node)>)
    requires index <= |s|
    ensures |r| == |acc| + (if index + 1 < |s| then |s| - 1 - index else 0)
    ensures r[..|acc|] == acc
    ensures forall j :: |acc| <= j < |r| ==> r[j] == (s[index + j - |acc|], s[index + j - |acc| + 1])
    decreases |s| - index
  {
    if index == |s| then acc
    else if index + 1 == |s| then PairUp(s, index + 1, acc)
    else PairUp(s, index + 1, acc + [(s[index], s[index + 1])])
  }

  /** The consecutive pairs of a node sequence. */
  function Pairs(s: seq<Node>): (r: seq<(Node, Node)>)
    ensures |r| == if |s| < 2 then 0 else |s| - 1
    ensures forall i :: 0 <= i < |r| ==> r[i] == (s[i], s[i + 1])
  {
    PairUp(s, 0, [])
  }

  /** The edge check applied to the pair `a -> b`. With `truthy`, it is the
      `nodes && nodes[path[1]]` test of `calculate`: the edge is recorded and its cost is not
      0. Without, the edge only has to be recorded. */
  predicate Accepted(g: Nodes, a: Node, b: Node, truthy: bool)
  {
    EdgeAt(g, a, b).Some? && (truthy ==> EdgeAt(g, a, b).value != 0)
  }

  /** Every consecutive pair of `s` passes the edge check. */
  predicate AcceptedWalk(g: Nodes, s: seq<Node>, truthy: bool)
  {
    |s| < 2 || (Accepted(g, s[0], s[1], truthy) && AcceptedWalk(g, s[1..], truthy))
  }

  /** The summing fold, with the exit on the first pair that fails the check. */
  function SumCosts(g: Nodes, ps: seq<(Node, Node)>, acc: nat, truthy: bool): (r: Result<nat, GraphError>)
    ensures r.Err? ==> r.error == NoSuchRoute
    ensures r.Ok? ==> r.value >= acc
  {
    if ps == [] then Ok(acc)
    else if Accepted(g, ps[0].0, ps[0].1, truthy) then SumCosts(g, ps[1..], acc + g[ps[0].0][ps[0].1], truthy)
    else Err(NoSuchRoute)
  }

  /** `calculate(route)` on the store `g`, as written: a pair whose edge costs
      0 fails like a missing edge. */
  function Calculate(g: Nodes, route: RouteArg): (r: Result<nat, GraphError>)
    ensures r.Ok? <==> AcceptedWalk(g, AsList(route), true)
    ensures r.Err? ==> r.error == NoSuchRoute
    ensures r.Ok? ==> IsWalk(g, AsList(route)) && r.value == PathCost(g, AsList(route))
  {
    var s := AsList(route);
    SumCostsSpec(g, s, 0, true);
    SumCosts(g, Pairs(s), 0, true)
  }

  /** `calculate(route)` with the edge check corrected to "the edge is
      recorded": it succeeds exactly on walks, with their path cost. */
  function CalculateRecorded(g: Nodes, route: RouteArg): (r: Result<nat, GraphError>)
    ensures r.Ok? <==> IsWalk(g, AsList(route))
    ensures r.Err? ==> r.error == NoSuchRoute
    ensures r.Ok? ==> r.value == PathCost(g, AsList(route))
  {
    var s := AsList(route);
    SumCostsSpec(g, s, 0, false);
    RecordedWalkIsWalk(g, s);
    SumCosts(g, Pairs(s), 0, false)
  }

  /** A sequence of at most one node has no pairs and costs 0. */
  lemma ShortRouteCostsZero(g: Nodes, route: RouteArg)
    requires |AsList(route)| <= 1
    ensures Calculate(g, route) == Ok(0)
  {
  }

  /** On walks whose edges all cost more than 0 the two calculations agree. */
  lemma CalculateAgreesOnPositiveCosts(g: Nodes, route: RouteArg)
    requires IsWalk(g, AsList(route))
    requires NoZeroEdges(g, AsList(route))
    ensures Calculate(g, route) == CalculateRecorded(g, route)
  {
    PositiveWalkIsTruthy(g, AsList(route));
  }

  /** A graph with a zero-cost edge: `A -> B` is a walk of cost 0, yet
      `calculate(['A', 'B'])` fails. */
  lemma ZeroCostEdgeRejected()
    ensures var g := map["A" := map["B" := 0]];
      IsWalk(g, ["A", "B"]) && PathCost(g, ["A", "B"]) == 0
      && Calculate(g, NodeList(["A", "B"])) == Err(NoSuchRoute)
      && CalculateRecorded(g, NodeList(["A", "B"])) == Ok(0)
  {
    var g := map["A" := map["B" := 0]];
    assert !Accepted(g, "A", "B", true);
    assert Accepted(g, "A", "B", false);
  }

  /** The graph of the test suite. */
  function TestGraph(): Nodes
  {
    map[
      "A" := map["B" := 1, "C" := 4, "D" := 10],
      "B" := map["E" := 3],
      "C" := map["D" := 4, "F" := 2],
      "D" := map["E" := 1],
      "E" := map["B" := 3, "A" := 2],
      "F" := map["D" := 1]]
  }

  /** The rows of the test graph that the cost checks below walk through. */
  lemma TestGraphRows()
    ensures TestGraph()["A"] == map["B" := 1, "C" := 4, "D" := 10]
    ensures TestGraph()["B"] == map["E" := 3]
    ensures TestGraph()["C"] == map["D" := 4, "F" := 2]
    ensures TestGraph()["D"] == map["E" := 1]
    ensures TestGraph()["E"] == map["B" := 3, "A" := 2]
  {
  }

  /** Prepending a node along an edge of nonzero cost keeps a walk accepted,
      and adds that edge's cost to the path cost. */
  lemma {:induction false} AcceptedCons(g: Nodes, a: Node, s: seq<Node>)
    requires s != [] && EdgeAt(g, a, s[0]).Some? && EdgeAt(g, a, s[0]).value != 0
    requires AcceptedWalk(g, s, true)
    ensures AcceptedWalk(g, [a] + s, true)
    ensures IsWalk(g, s) && IsWalk(g, [a] + s)
    ensures PathCost(g, [a] + s) == EdgeAt(g, a, s[0]).value + PathCost(g, s)
  {
    var t := [a] + s;
    assert t[1..] == s;
    AcceptedWalkIsWalk(g, s, true);
    AcceptedWalkIsWalk(g, t, true);
  }

  /** The sources with an edge into B in the test graph are A and E. */
  lemma TestGraphPredecessorsB()
    ensures Predecessors(TestGraph(), "B").Keys == {"A", "E"}
    ensures Predecessors(TestGraph(), "B")["A"] == map["B" := 1]
    ensures Predecessors(TestGraph(), "B")["E"] == map["B" := 3]
  {
    TestGraphRows();
    assert TestGraph()["F"] == map["D" := 1];
  }

  /** The costs the test suite expects on its graph. */
  lemma TestGraphCostABE()
    ensures Calculate(TestGraph(), NodeList(["A", "B", "E"])) == Ok(4)
  {
    var g := TestGraph();
    TestGraphRows();
    AcceptedCons(g, "B", ["E"]);
    AcceptedCons(g, "A", ["B", "E"]);
    assert ["A"] + ["B", "E"] == ["A", "B", "E"];
  }

  lemma TestGraphCostAD()
    ensures Calculate(TestGraph(), NodeList(["A", "D"])) == Ok(10)
  {
    var g := TestGraph();
    TestGraphRows();
    AcceptedCons(g, "A", ["D"]);
    assert ["A"] + ["D"] == ["A", "D"];
  }

  lemma TestGraphCostEACF()
    ensures Calculate(TestGraph(), NodeList(["E", "A", "C", "F"])) == Ok(8)
  {
    var g := TestGraph();
    TestGraphRows();
    AcceptedCons(g, "C", ["F"]);
    AcceptedCons(g, "A", ["C", "F"]);
    AcceptedCons(g, "E", ["A", "C", "F"]);
    assert ["C"] + ["F"] == ["C", "F"];
    assert ["A"] + ["C", "F"] == ["A", "C", "F"];
    assert ["E"] + ["A", "C", "F"] == ["E", "A", "C", "F"];
  }

  /** There is no edge D -> F, so the route A, D, F has no cost. */
  lemma TestGraphNoRouteADF()
    ensures Calculate(TestGraph(), NodeList(["A", "D", "F"])) == Err(NoSuchRoute)
  {
    var s := ["A", "D", "F"];
    TestGraphRows();
    assert s[1..] == ["D", "F"];
    assert !Accepted(TestGraph(), "D", "F", true);
  }

  lemma PairsTail(s: seq<Node>)
    requires |s| >= 2
    ensures Pairs(s)[0] == (s[0], s[1]) && Pairs(s)[1..] == Pairs(s[1..])
  {
    var p, q := Pairs(s)[1..], Pairs(s[1..]);
    assert |p| == |q|;
    forall i | 0 <= i < |p| ensures p[i] == q[i] {
      assert p[i] == Pairs(s)[i + 1];
    }
  }

  /** An accepted walk is a walk. */
  lemma {:induction false} AcceptedWalkIsWalk(g: Nodes, s: seq<Node>, truthy: bool)
    requires AcceptedWalk(g, s, truthy)
    ensures IsWalk(g, s)
  {
    if |s| >= 2 {
      var t := s[1..];
      AcceptedWalkIsWalk(g, t, truthy);
      forall i | 0 <= i < |s| - 1 ensures EdgeAt(g, s[i], s[i + 1]).Some? {
        if i > 0 {
          assert t[i - 1] == s[i] && t[i] == s[i + 1];
        }
      }
    }
  }

  /** Every walk passes the check that only asks for recorded edges. */
  lemma {:induction false} RecordedWalkIsWalk(g: Nodes, s: seq<Node>)
    ensures AcceptedWalk(g, s, false) <==> IsWalk(g, s)
  {
    if AcceptedWalk(g, s, false) {
      AcceptedWalkIsWalk(g, s, false);
    }
    if IsWalk(g, s) && |s| >= 2 {
      assert EdgeAt(g, s[0], s[1]).Some?;
      WalkTail(g, s);
      RecordedWalkIsWalk(g, s[1..]);
    }
  }

  /** A walk whose edges all cost more than 0 passes the truthiness
      test of `calculate`. */
  lemma {:induction false} PositiveWalkIsTruthy(g: Nodes, s: seq<Node>)
    requires IsWalk(g, s)
    requires NoZeroEdges(g, s)
    ensures AcceptedWalk(g, s, true)
  {
    if |s| >= 2 {
      assert EdgeAt(g, s[0], s[1]).Some? && EdgeAt(g, s[0], s[1]) != Some(0);
      var t := s[1..];
      WalkTail(g, s);
      forall i | 0 <= i < |t| - 1 ensures EdgeAt(g, t[i], t[i + 1]) != Some(0) {
        assert t[i] == s[i + 1] && t[i + 1] == s[i + 2];
      }
      PositiveWalkIsTruthy(g, t);
    }
  }

  /** One step of the summing fold over the pairs of a sequence. */
  lemma SumCostsStep(g: Nodes, s: seq<Node>, acc: nat, truthy: bool)
    requires |s| >= 2
    ensures Accepted(g, s[0], s[1], truthy) ==>
      SumCosts(g, Pairs(s), acc, truthy) == SumCosts(g, Pairs(s[1..]), acc + g[s[0]][s[1]], truthy)
    ensures !Accepted(g, s[0], s[1], truthy) ==> SumCosts(g, Pairs(s), acc, truthy) == Err(NoSuchRoute)
  {
    PairsTail(s);
    var ps := Pairs(s);
    assert ps != [] && ps[0] == (s[0], s[1]);
  }

  /** The summing fold over the pairs of a sequence adds up the path cost
      when every pair passes the check, and fails with `NoSuchRoute`,
      whatever it had accumulated, otherwise. */
  lemma SumCostsSpec(g: Nodes, s: seq<Node>, acc: nat, truthy: bool)
    ensures AcceptedWalk(g, s, truthy) ==>
      IsWalk(g, s) && SumCosts(g, Pairs(s), acc, truthy) == Ok(acc + PathCost(g, s))
    ensures !AcceptedWalk(g, s, truthy) ==> SumCosts(g, Pairs(s), acc, truthy) == Err(NoSuchRoute)
  {
    if AcceptedWalk(g, s, truthy) {
      SumCostsAlongWalk(g, s, acc, truthy);
    } else {
      SumCostsOffWalk(g, s, acc, truthy);
    }
  }

  lemma {:induction false} SumCostsAlongWalk(g: Nodes, s: seq<Node>, acc: nat, truthy: bool)
    requires AcceptedWalk(g, s, truthy)
    ensures IsWalk(g, s) && SumCosts(g, Pairs(s), acc, truthy) == Ok(acc + PathCost(g, s))
  {
    AcceptedWalkIsWalk(g, s, truthy);
    if |s| >= 2 {
      SumCostsStep(g, s, acc, truthy);
      var c := g[s[0]][s[1]];
      SumCostsAlongWalk(g, s[1..], acc + c, truthy);
      WalkTail(g, s);
      assert PathCost(g, s) == c + PathCost(g, s[1..]);
    } else {
      assert Pairs(s) == [];
    }
  }

  lemma {:induction false} SumCostsOffWalk(g: Nodes, s: seq<Node>, acc: nat, truthy: bool)
    ensures !AcceptedWalk(g, s, truthy) ==> SumCosts(g, Pairs(s), acc, truthy) == Err(NoSuchRoute)
  {
    if |s| >= 2 {
      SumCostsStep(g, s, acc, truthy);
      if Accepted(g, s[0], s[1], truthy) {
        SumCostsOffWalk(g, s[1..], acc + g[s[0]][s[1]], truthy);
      }
    }
  }
}
