/**
  Route finding and the minutes of a route (`get_shortest_way`).

  The route itself comes from `networkx.shortest_path(graph, a, b,
  weight='weight')`, which is an oracle here: only its contract is modelled.
  No edge carries a `weight` attribute (the minutes are stored under
  `distance_in_minutes`), so networkx counts every edge as 1 and the route it
  returns is one with the fewest edges, whatever the minutes.
*/
module Routing {
  import opened Wrappers
  import opened Graphs

  /** The router's two exceptions, which `get_shortest_way` lets through:
      a query label that is not a node (`NodeNotFound`), and no route between
      the two labels (`NetworkXNoPath`). */
  datatype RouteError = UnknownNode | NoRoute

  /** What the router hands back: a route, or one of its exceptions. */
  datatype RouteAnswer = Found(path: seq<Label>) | Raised(error: RouteError)

  /** A non-empty label sequence whose consecutive labels are joined by edges. */
  predicate IsWalk(edges: set<set<Label>>, p: seq<Label>)
  {
    |p| >= 1 && forall i :: 0 <= i < |p| - 1 ==> Key(p[i], p[i + 1]) in edges
  }

  /** `p` is a route of the graph from `a` to `b`. */
  predicate Connects(nodes: set<Label>, edges: set<set<Label>>, p: seq<Label>, a: Label, b: Label)
  {
    && IsWalk(edges, p)
    && p[0] == a
    && p[|p| - 1] == b
    && forall i :: 0 <= i < |p| ==> p[i] in nodes
  }

  ghost predicate Reachable(nodes: set<Label>, edges: set<set<Label>>, a: Label, b: Label)
  {
    exists p :: Connects(nodes, edges, p, a, b)
  }

  /** `p` is a route from `a` to `b` and no route between them has fewer labels. */
  ghost predicate FewestHops(nodes: set<Label>, edges: set<set<Label>>, p: seq<Label>, a: Label, b: Label)
  {
    && Connects(nodes, edges, p, a, b)
    && forall q :: Connects(nodes, edges, q, a, b) ==> |p| <= |q|
  }

  /** The contract of `nx.shortest_path` with every edge weighing 1. It
      depends on the edges only, never on their minutes. A router meeting
      it finds a route exactly when both labels are nodes and some route
      joins them. */
  ghost predicate RouterContract(nodes: set<Label>, edges: set<set<Label>>, a: Label, b: Label, answer: RouteAnswer): (ok: bool)
    ensures ok ==> (answer.Found? <==> a in nodes && b in nodes && Reachable(nodes, edges, a, b))
    ensures ok && answer.Found? ==> |answer.path| >= 1 && answer.path[0] == a && answer.path[|answer.path| - 1] == b
  {
    match answer
    case Raised(UnknownNode) => a !in nodes || b !in nodes
    case Raised(NoRoute) => a in nodes && b in nodes && !Reachable(nodes, edges, a, b)
    case Found(p) => a in nodes && b in nodes && FewestHops(nodes, edges, p, a, b)
  }

  /** Python's `zip(xs, ys)`: pairs up to the shorter of the two. */
  function Zip<A, B>(xs: seq<A>, ys: seq<B>): (r: seq<(A, B)>)
    ensures |r| == if |xs| <= |ys| then |xs| else |ys|
    ensures forall i :: 0 <= i < |r| ==> r[i] == (xs[i], ys[i])
  {
    if xs == [] || ys == [] then []
    else [(xs[0], ys[0])] + Zip(xs[1..], ys[1..])
  }

  /** `zip(g_path, g_path[1:])`: the consecutive pairs of a route, one
      fewer than the labels on it. */
  function Hops(p: seq<Label>): (r: seq<(Label, Label)>)
    ensures |r| == if p == [] then 0 else |p| - 1
    ensures forall i :: 0 <= i < |p| - 1 ==> r[i] == (p[i], p[i + 1])
  {
    if p == [] then [] else Zip(p, p[1..])
  }

  /** The minutes of the edge a pair travels. */
  function HopMinutes(w: map<set<Label>, int>, h: (Label, Label)): int
    requires Key(h.0, h.1) in w
  {
    w[Key(h.0, h.1)]
  }

  predicate AllEdges(w: map<set<Label>, int>, hs: seq<(Label, Label)>)
  {
    forall i :: 0 <= i < |hs| ==> Key(hs[i].0, hs[i].1) in w
  }

  /** The sum of the minutes of the pairs, added up front to back. */
  function SumMinutes(w: map<set<Label>, int>, hs: seq<(Label, Label)>): int
    requires AllEdges(w, hs)
  {
    if hs == [] then 0
    else SumMinutes(w, hs[..|hs| - 1]) + HopMinutes(w, hs[|hs| - 1])
  }

  /** Every pair of a walk travels an edge. */
  lemma HopsAreEdges(w: map<set<Label>, int>, p: seq<Label>)
    requires IsWalk(w.Keys, p)
    ensures AllEdges(w, Hops(p))
  {
    var hs := Hops(p);
    forall i | 0 <= i < |hs|
      ensures Key(hs[i].0, hs[i].1) in w
    {
      assert hs[i] == (p[i], p[i + 1]);
    }
  }

  /** The sum over a prefix one pair longer adds that pair's minutes. */
  lemma SumMinutesStep(w: map<set<Label>, int>, hs: seq<(Label, Label)>, n: nat)
    requires AllEdges(w, hs)
    requires n < |hs|
    ensures AllEdges(w, hs[..n]) && AllEdges(w, hs[..n + 1])
    ensures SumMinutes(w, hs[..n + 1]) == SumMinutes(w, hs[..n]) + HopMinutes(w, hs[n])
  {
    assert hs[..n + 1][..n] == hs[..n];
    assert forall i :: 0 <= i <= n ==> hs[..n + 1][i] == hs[i];
  }

  /** The minutes of a route: `distance_in_minutes` summed over each
      consecutive pair of labels. */
  function PathMinutes(w: map<set<Label>, int>, p: seq<Label>): (r: int)
    requires IsWalk(w.Keys, p)
    ensures |p| == 1 ==> r == 0
  {
    SumMinutes(w, Hops(p))
  }

  /** The minutes of a route of two or more labels are those of its first
      edge plus those of the rest of the route. */
  lemma PathMinutesFront(w: map<set<Label>, int>, p: seq<Label>)
    requires IsWalk(w.Keys, p) && |p| >= 2
    ensures IsWalk(w.Keys, p[1..])
    ensures PathMinutes(w, p) == w[Key(p[0], p[1])] + PathMinutes(w, p[1..])
  {
    var tail := p[1..];
    assert forall i :: 0 <= i < |tail| ==> tail[i] == p[i + 1];
    assert Hops(p) == [(p[0], p[1])] + Hops(tail);
    HopsAreEdges(w, tail);
    SumMinutesFront(w, (p[0], p[1]), Hops(tail));
  }

  /** What `get_shortest_way` returns: `(minutes_to_reach, g_path)`. */
  datatype Way = Way(minutes: int, path: seq<Label>)

  /** `get_shortest_way` on the router's answer: the route unchanged, with
      its minutes, or the router's exception passed on. */
  function WayOf(w: map<set<Label>, int>, answer: RouteAnswer): (r: Result<Way, RouteError>)
    requires answer.Found? ==> IsWalk(w.Keys, answer.path)
    ensures r.Success? <==> answer.Found?
    ensures r.Success? ==> r.value.path == answer.path && r.value.minutes == PathMinutes(w, answer.path)
    ensures answer.Raised? ==> r == Failure(answer.error)
  {
    match answer
    case Raised(err) => Failure(err)
    case Found(p) => Success(Way(PathMinutes(w, p), p))
  }

  /** `get_shortest_way(point_a, point_b, graph)`, given what
      `nx.shortest_path` returned for the same arguments: it adds up the
      minutes of every consecutive pair of the route in a loop. */
  method GetShortestWay(a: Label, b: Label, g: Graph, answer: RouteAnswer) returns (r: Result<Way, RouteError>)
    requires answer.Found? ==> Connects(g.nodes, g.minutes.Keys, answer.path, a, b)
    ensures r == WayOf(g.minutes, answer)
    ensures r.Success? ==> r.value.path == answer.path && r.value.path[0] == a && r.value.path[|r.value.path| - 1] == b
  {
    match answer {
      case Raised(err) => return Failure(err);
      case Found(path) =>
        var hops := Hops(path);
        HopsAreEdges(g.minutes, path);
        var minutesToReach := 0;
        assert hops[..0] == [];
        for i := 0 to |hops|
          invariant AllEdges(g.minutes, hops[..i])
          invariant minutesToReach == SumMinutes(g.minutes, hops[..i])
        {
          var (sourceNode, targetNode) := hops[i];
          SumMinutesStep(g.minutes, hops, i);
          minutesToReach := minutesToReach + g.minutes[Key(sourceNode, targetNode)];
        }
        assert hops[..|hops|] == hops;
        return Success(Way(minutesToReach, path));
    }
  }

  /** A route of one label, from a node to itself, takes no minutes. */
  lemma SingleLabelRouteIsFree(w: map<set<Label>, int>, a: Label)
    ensures IsWalk(w.Keys, [a]) && PathMinutes(w, [a]) == 0
  {
  }

  /** Asked for a route from a node to itself, the router answers `[a]`
      (and `get_shortest_way` then reports 0 minutes). */
  lemma {:induction false} RouteToSelf(nodes: set<Label>, edges: set<set<Label>>, a: Label, answer: RouteAnswer)
    requires RouterContract(nodes, edges, a, a, answer)
    ensures a in nodes ==> answer == Found([a])
    ensures a !in nodes ==> answer == Raised(UnknownNode)
  {
    if a in nodes {
      assert Connects(nodes, edges, [a], a, a);
      if answer.Found? {
        var p := answer.path;
        assert |p| <= 1;
        assert p == [a];
      }
    }
  }

  /** The labels of a route, last to first. */
  function Reverse(p: seq<Label>): (r: seq<Label>)
    ensures |r| == |p|
    ensures forall i :: 0 <= i < |p| ==> r[i] == p[|p| - 1 - i]
  {
    seq(|p|, i requires 0 <= i < |p| => p[|p| - 1 - i])
  }

  /** Read backwards, a walk is a walk: the edges are undirected. */
  lemma ReverseWalk(edges: set<set<Label>>, p: seq<Label>)
    requires IsWalk(edges, p)
    ensures IsWalk(edges, Reverse(p))
  {
    var r := Reverse(p);
    var n := |p|;
    forall i | 0 <= i < n - 1
      ensures Key(r[i], r[i + 1]) in edges
    {
      assert Key(r[i], r[i + 1]) == Key(p[n - 2 - i], p[n - 1 - i]);
    }
  }

  /** Read backwards, a route from `a` to `b` is a route from `b` to `a`. */
  lemma ReverseConnects(nodes: set<Label>, edges: set<set<Label>>, p: seq<Label>, a: Label, b: Label)
    requires Connects(nodes, edges, p, a, b)
    ensures Connects(nodes, edges, Reverse(p), b, a)
  {
    ReverseWalk(edges, p);
  }

  /** The pairs of a route read backwards, each turned around. */
  function Flip(hs: seq<(Label, Label)>): (r: seq<(Label, Label)>)
    ensures |r| == |hs|
    ensures forall i :: 0 <= i < |hs| ==> r[i] == (hs[|hs| - 1 - i].1, hs[|hs| - 1 - i].0)
  {
    seq(|hs|, i requires 0 <= i < |hs| => (hs[|hs| - 1 - i].1, hs[|hs| - 1 - i].0))
  }

  lemma {:induction false} SumMinutesFront(w: map<set<Label>, int>, h: (Label, Label), hs: seq<(Label, Label)>)
    requires Key(h.0, h.1) in w
    requires AllEdges(w, hs)
    ensures AllEdges(w, [h] + hs)
    ensures SumMinutes(w, [h] + hs) == HopMinutes(w, h) + SumMinutes(w, hs)
  {
    var all := [h] + hs;
    assert forall i :: 0 <= i < |hs| ==> hs[i] == all[i + 1];
    if hs != [] {
      assert all[..|all| - 1] == [h] + hs[..|hs| - 1];
      SumMinutesFront(w, h, hs[..|hs| - 1]);
    } else {
      assert all[..0] == [];
    }
  }

  /** Travelling the pairs backwards, each turned around, takes the same
      minutes: an edge weighs the same in both directions. */
  lemma {:induction false} SumMinutesFlip(w: map<set<Label>, int>, hs: seq<(Label, Label)>)
    requires AllEdges(w, hs)
    ensures AllEdges(w, Flip(hs))
    ensures SumMinutes(w, Flip(hs)) == SumMinutes(w, hs)
  {
    var f := Flip(hs);
    forall i | 0 <= i < |f|
      ensures Key(f[i].0, f[i].1) in w
    {
      var h := hs[|hs| - 1 - i];
      assert Key(f[i].0, f[i].1) == Key(h.0, h.1);
    }
    if hs != [] {
      var init := hs[..|hs| - 1];
      var last := hs[|hs| - 1];
      assert f == [(last.1, last.0)] + Flip(init);
      assert Key(last.1, last.0) == Key(last.0, last.1);
      assert Key(last.0, last.1) in w;
      SumMinutesFlip(w, init);
      SumMinutesFront(w, (last.1, last.0), Flip(init));
    }
  }

  /** The pairs of a reversed route are the flipped pairs of the route. */
  lemma HopsReverse(p: seq<Label>)
    ensures Hops(Reverse(p)) == Flip(Hops(p))
  {
    var n := |p|;
    if n > 0 {
      var r, hs := Reverse(p), Hops(p);
      var left, right := Hops(r), Flip(hs);
      assert |left| == n - 1 == |right|;
      forall i | 0 <= i < n - 1
        ensures left[i] == right[i]
      {
        var j := n - 2 - i;
        assert r[i] == p[j + 1] && r[i + 1] == p[j];
        assert hs[j] == (p[j], p[j + 1]);
      }
    }
  }

  /** A route and its reverse take the same minutes. */
  lemma ReverseRouteMinutes(w: map<set<Label>, int>, p: seq<Label>)
    requires IsWalk(w.Keys, p)
    ensures IsWalk(w.Keys, Reverse(p))
    ensures PathMinutes(w, Reverse(p)) == PathMinutes(w, p)
  {
    ReverseWalk(w.Keys, p);
    HopsReverse(p);
    SumMinutesFlip(w, Hops(p));
  }

  /** Asked both ways, the router answers alike: a route both times or not
      at all, and routes with the same number of labels. */
  lemma {:induction false} RouteSymmetry(nodes: set<Label>, edges: set<set<Label>>, a: Label, b: Label, there: RouteAnswer, back: RouteAnswer)
    requires RouterContract(nodes, edges, a, b, there)
    requires RouterContract(nodes, edges, b, a, back)
    ensures there == Raised(UnknownNode) <==> back == Raised(UnknownNode)
    ensures there == Raised(NoRoute) <==> back == Raised(NoRoute)
    ensures there.Found? <==> back.Found?
    ensures there.Found? ==> |there.path| == |back.path|
  {
    if there.Found? {
      ReverseConnects(nodes, edges, there.path, a, b);
    }
    if back.Found? {
      ReverseConnects(nodes, edges, back.path, b, a);
    }
  }

  /** Three cities: A-B takes 5 minutes, B-C 3, A-C 10. */
  function Triangle(): seq<EdgeLine>
  {
    [EdgeLine("A", "B", 5), EdgeLine("B", "C", 3), EdgeLine("A", "C", 10)]
  }

  lemma TriangleGraph()
    ensures Weights(Triangle()) == map[Key("A", "B") := 5, Key("B", "C") := 3, Key("A", "C") := 10]
    ensures Nodes(Triangle()) == {"A", "B", "C"}
  {
    var es := Triangle();
    var e1, e2 := es[..1], es[..2];
    assert e1[..0] == [] && e2[..1] == e1 && es[..2] == e2;
    assert Weights(e1) == map[Key("A", "B") := 5] && Nodes(e1) == {"A", "B"};
    assert Weights(e2) == map[Key("A", "B") := 5, Key("B", "C") := 3] && Nodes(e2) == {"A", "B", "C"};
  }

  /** On `Triangle`, the router must take the direct edge A-C, so the
      script reports 10 minutes although A-B-C takes 8: the route is chosen
      by the number of edges, not by the minutes. */
  lemma TriangleRouteIgnoresMinutes(answer: RouteAnswer)
    requires RouterContract(Nodes(Triangle()), Weights(Triangle()).Keys, "A", "C", answer)
    ensures answer == Found(["A", "C"])
    ensures WayOf(Weights(Triangle()), answer) == Success(Way(10, ["A", "C"]))
    ensures IsWalk(Weights(Triangle()).Keys, ["A", "B", "C"])
    ensures PathMinutes(Weights(Triangle()), ["A", "B", "C"]) == 8
  {
    TriangleGraph();
    var w := Weights(Triangle());
    var nodes, edges := Nodes(Triangle()), w.Keys;
    var ac: seq<Label> := ["A", "C"];
    assert Connects(nodes, edges, ac, "A", "C");
    if answer.Found? {
      var p := answer.path;
      assert |p| <= 2 && p[0] == "A" && p[|p| - 1] == "C";
      assert p == ac;
    }
    TriangleMinutes();
  }

  /** The minutes of the direct route and of the detour on `Triangle`. */
  lemma TriangleMinutes()
    ensures IsWalk(Weights(Triangle()).Keys, ["A", "C"])
    ensures IsWalk(Weights(Triangle()).Keys, ["A", "B", "C"])
    ensures PathMinutes(Weights(Triangle()), ["A", "C"]) == 10
    ensures PathMinutes(Weights(Triangle()), ["A", "B", "C"]) == 8
  {
    TriangleGraph();
    var ac: seq<Label> := ["A", "C"];
    var abc: seq<Label> := ["A", "B", "C"];
    assert Hops(ac) == [("A", "C")];
    assert Hops(abc) == [("A", "B"), ("B", "C")];
    assert Hops(abc)[..1] == [("A", "B")];
  }

  /** Four cities on a square: A-B and B-D take 1 minute, A-C and C-D take 5. */
  function Square(): seq<EdgeLine>
  {
    [EdgeLine("A", "B", 1), EdgeLine("B", "D", 1), EdgeLine("A", "C", 5), EdgeLine("C", "D", 5)]
  }

  lemma SquareGraph()
    ensures Weights(Square()) == map[Key("A", "B") := 1, Key("B", "D") := 1, Key("A", "C") := 5, Key("C", "D") := 5]
    ensures Nodes(Square()) == {"A", "B", "C", "D"}
    ensures Key("A", "D") !in Weights(Square())
  {
    var es := Square();
    var e1, e2, e3 := es[..1], es[..2], es[..3];
    assert e1[..0] == [] && e2[..1] == e1 && e3[..2] == e2 && es[..3] == e3;
    assert Weights(e1) == map[Key("A", "B") := 1] && Nodes(e1) == {"A", "B"};
    assert Weights(e2) == map[Key("A", "B") := 1, Key("B", "D") := 1] && Nodes(e2) == {"A", "B", "D"};
    assert Weights(e3) == map[Key("A", "B") := 1, Key("B", "D") := 1, Key("A", "C") := 5];
    assert Nodes(e3) == {"A", "B", "C", "D"};
    assert "D" in Key("A", "D") && "D" !in Key("A", "B") && "D" !in Key("A", "C");
    assert "A" in Key("A", "D") && "A" !in Key("B", "D") && "A" !in Key("C", "D");
  }

  /** No route on `Square` between A and D has fewer than three labels. */
  lemma SquareNoShortcut(q: seq<Label>, a: Label, d: Label)
    requires Key(a, d) == Key("A", "D")
    requires Connects(Nodes(Square()), Weights(Square()).Keys, q, a, d)
    ensures 3 <= |q|
  {
    SquareGraph();
    assert a != d by {
      assert "A" in Key(a, d) && "D" in Key(a, d);
    }
  }

  /** A-B-D is a route from A to D with the fewest edges, and D-C-A one
      from D to A. */
  lemma SquareRoutes()
    ensures RouterContract(Nodes(Square()), Weights(Square()).Keys, "A", "D", Found(["A", "B", "D"]))
    ensures RouterContract(Nodes(Square()), Weights(Square()).Keys, "D", "A", Found(["D", "C", "A"]))
  {
    SquareGraph();
    var nodes, edges := Nodes(Square()), Weights(Square()).Keys;
    forall q | Connects(nodes, edges, q, "A", "D")
      ensures 3 <= |q|
    {
      SquareNoShortcut(q, "A", "D");
    }
    forall q | Connects(nodes, edges, q, "D", "A")
      ensures 3 <= |q|
    {
      assert Key("D", "A") == Key("A", "D");
      SquareNoShortcut(q, "D", "A");
    }
    assert Key("C", "A") == Key("A", "C") && Key("D", "C") == Key("C", "D");
    var abd: seq<Label> := ["A", "B", "D"];
    var dca: seq<Label> := ["D", "C", "A"];
    assert Connects(nodes, edges, abd, "A", "D");
    assert Connects(nodes, edges, dca, "D", "A");
  }

  /** On `Square`, a router meeting the contract may report 2 minutes
      from A to D and 10 minutes from D to A: both routes have the fewest
      edges, so the minutes of a query and of its reverse need not agree. */
  lemma SquareMinutesDependOnDirection()
    ensures RouterContract(Nodes(Square()), Weights(Square()).Keys, "A", "D", Found(["A", "B", "D"]))
    ensures RouterContract(Nodes(Square()), Weights(Square()).Keys, "D", "A", Found(["D", "C", "A"]))
    ensures WayOf(Weights(Square()), Found(["A", "B", "D"])) == Success(Way(2, ["A", "B", "D"]))
    ensures WayOf(Weights(Square()), Found(["D", "C", "A"])) == Success(Way(10, ["D", "C", "A"]))
  {
    SquareRoutes();
    SquareMinutes();
  }

  /** The minutes of A-B-D and of D-C-A on `Square`. */
  lemma SquareMinutes()
    ensures IsWalk(Weights(Square()).Keys, ["A", "B", "D"]) && IsWalk(Weights(Square()).Keys, ["D", "C", "A"])
    ensures PathMinutes(Weights(Square()), ["A", "B", "D"]) == 2
    ensures PathMinutes(Weights(Square()), ["D", "C", "A"]) == 10
  {
    SquareGraph();
    var abd: seq<Label> := ["A", "B", "D"];
    var dca: seq<Label> := ["D", "C", "A"];
    assert Key("C", "A") == Key("A", "C") && Key("D", "C") == Key("C", "D");
    assert Hops(abd) == [("A", "B"), ("B", "D")];
    assert Hops(dca) == [("D", "C"), ("C", "A")];
    assert Hops(abd)[..1] == [("A", "B")] && Hops(abd)[..1][..0] == [];
    assert Hops(dca)[..1] == [("D", "C")] && Hops(dca)[..1][..0] == [];
    var w := Weights(Square());
    assert SumMinutes(w, [("A", "B")]) == 1;
    assert SumMinutes(w, [("D", "C")]) == 5;
  }
}
