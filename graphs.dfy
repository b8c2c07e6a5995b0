/**
  Building the undirected road graph from lines `city1,city2,minutes`
  (`parse_graph`). The graph keeps a set of city labels and a map from
  unordered city pairs to the `distance_in_minutes` of the edge between them.
*/
module Graphs {
  import opened Wrappers
  import Text

  type Label = string

  /** The unordered pair that names the edge between `u` and `v`
      (a one-element set for a self-loop). */
  function Key(u: Label, v: Label): set<Label>
  {
    {u, v}
  }

  /** A label as it can come out of a stripped, comma-split line. */
  predicate CleanLabel(c: Label)
  {
    ',' !in c && '\n' !in c
  }

  /** One parsed input line. */
  datatype EdgeLine = EdgeLine(city1: Label, city2: Label, minutes: int)
  {
    function EdgeKey(): set<Label> { Key(city1, city2) }
  }

  /** Why a line is rejected: unpacking `line.split(',')` into three names
      fails, or the third field is not an integer literal. */
  datatype LineError = WrongFieldCount(fields: nat) | NotAnInteger(field: string)

  /** `city1, city2, distance_in_minutes = line.split(',')` followed by
      `int(distance_in_minutes)`. A line is accepted exactly when it holds
      two commas and its last field is an integer literal. */
  function ParseLine(line: string): (r: Result<EdgeLine, LineError>)
    ensures r.Success? ==> multiset(line)[','] == 2 && |Text.Split(line, ',')| == 3
    ensures multiset(line)[','] != 2 ==> r == Failure(WrongFieldCount(multiset(line)[','] + 1))
    ensures r.Success? ==> ',' !in r.value.city1 && ',' !in r.value.city2
    ensures r.Success? && '\n' !in line ==> '\n' !in r.value.city1 && '\n' !in r.value.city2
    ensures r.Success? ==> Text.ParseInt(Text.Split(line, ',')[2]) == Some(r.value.minutes)
  {
    var fields := Text.Split(line, ',');
    Text.SplitCount(line, ',');
    if |fields| != 3 then Failure(WrongFieldCount(|fields|))
    else match Text.ParseInt(fields[2])
      case None => Failure(NotAnInteger(fields[2]))
      case Some(m) =>
        Text.SplitKeeps(line, ',');
        Success(EdgeLine(fields[0], fields[1], m))
  }

  /** What a line with two commas becomes: it is accepted exactly when its
      third field is an integer literal, the two labels are the text before
      the first comma and between the commas, and otherwise the error names
      the third field. */
  lemma ParseLineFields(line: string)
    requires multiset(line)[','] == 2
    ensures
      var fields := Text.Split(line, ',');
      && |fields| == 3
      && (ParseLine(line).Success? <==> Text.ParseInt(fields[2]).Some?)
      && (ParseLine(line).Success? ==> line == ParseLine(line).value.city1 + "," + ParseLine(line).value.city2 + "," + fields[2])
      && (Text.ParseInt(fields[2]).None? ==> ParseLine(line) == Failure(NotAnInteger(fields[2])))
  {
    var fields := Text.Split(line, ',');
    Text.SplitThree(line, ',');
    match Text.ParseInt(fields[2]) {
      case None =>
        assert ParseLine(line) == Failure(NotAnInteger(fields[2]));
      case Some(m) =>
        assert ParseLine(line) == Success(EdgeLine(fields[0], fields[1], m));
    }
  }

  /** The line that describes an edge. */
  function FormatLine(e: EdgeLine): string
  {
    Text.Join([e.city1, e.city2, Text.IntToString(e.minutes)], ',')
  }

  /** Every edge whose labels hold no comma is read back from its line. */
  lemma ParseFormatLine(e: EdgeLine)
    requires ',' !in e.city1 && ',' !in e.city2
    ensures ParseLine(FormatLine(e)) == Success(e)
  {
    var parts := [e.city1, e.city2, Text.IntToString(e.minutes)];
    Text.SplitJoin(parts, ',');
    Text.IntToStringRoundTrip(e.minutes);
  }

  /** The lines parsed in order; the first rejected line decides the error,
      as the exception it raises ends `parse_graph`. */
  function ParseLines(lines: seq<string>): (r: Result<seq<EdgeLine>, LineError>)
    ensures r.Success? ==> |r.value| == |lines|
    ensures r.Success? ==> forall i :: 0 <= i < |lines| ==> ParseLine(lines[i]) == Success(r.value[i])
    ensures (forall i :: 0 <= i < |lines| ==> ParseLine(lines[i]).Success?) ==> r.Success?
  {
    if lines == [] then Success([])
    else match ParseLines(lines[..|lines| - 1])
      case Failure(err) => Failure(err)
      case Success(es) =>
        match ParseLine(lines[|lines| - 1])
        case Failure(err) => Failure(err)
        case Success(e) => Success(es + [e])
  }

  /** When parsing fails, the error is that of the first rejected line. */
  lemma {:induction false} ParseLinesFirstError(lines: seq<string>)
    requires ParseLines(lines).Failure?
    ensures exists i ::
              && 0 <= i < |lines|
              && (forall j :: 0 <= j < i ==> ParseLine(lines[j]).Success?)
              && ParseLine(lines[i]) == Failure(ParseLines(lines).error)
  {
    var init := lines[..|lines| - 1];
    if ParseLines(init).Failure? {
      ParseLinesFirstError(init);
      var i :| 0 <= i < |init|
        && (forall j :: 0 <= j < i ==> ParseLine(init[j]).Success?)
        && ParseLine(init[i]) == Failure(ParseLines(init).error);
      assert forall j :: 0 <= j <= i ==> init[j] == lines[j];
    } else {
      var k := |lines| - 1;
      assert forall j :: 0 <= j < k ==> lines[j] == init[j];
      assert ParseLine(lines[k]) == Failure(ParseLines(lines).error);
    }
  }

  /** A failure in the lines read so far is the failure of all the lines. */
  lemma {:induction false} ParseLinesKeepsFailure(lines: seq<string>, n: nat)
    requires n <= |lines|
    requires ParseLines(lines[..n]).Failure?
    ensures ParseLines(lines) == ParseLines(lines[..n])
  {
    if n < |lines| {
      var init := lines[..|lines| - 1];
      assert init[..n] == lines[..n];
      ParseLinesKeepsFailure(init, n);
      ParseLinesDropLast(lines);
    } else {
      assert lines[..n] == lines;
    }
  }

  /** A failure before the last line is the failure of all the lines. */
  lemma ParseLinesDropLast(lines: seq<string>)
    requires lines != [] && ParseLines(lines[..|lines| - 1]).Failure?
    ensures ParseLines(lines) == ParseLines(lines[..|lines| - 1])
  {
  }

  /** The labels registered by the edges: both cities of every line. */
  function Nodes(es: seq<EdgeLine>): (r: set<Label>)
    ensures forall i :: 0 <= i < |es| ==> es[i].city1 in r && es[i].city2 in r
  {
    if es == [] then {}
    else Nodes(es[..|es| - 1]) + es[|es| - 1].EdgeKey()
  }

  /** The minutes stored per pair after adding the edges in order: a later
      edge on the same pair, in either orientation, overwrites the attribute. */
  function Weights(es: seq<EdgeLine>): (w: map<set<Label>, int>)
    ensures forall k :: k in w ==> k <= Nodes(es)
  {
    if es == [] then map[]
    else Weights(es[..|es| - 1])[es[|es| - 1].EdgeKey() := es[|es| - 1].minutes]
  }

  /** The node set is exactly the set of city names on the lines. */
  lemma {:induction false} NodesAreEndpoints(es: seq<EdgeLine>, c: Label)
    ensures c in Nodes(es) <==> exists i :: 0 <= i < |es| && (es[i].city1 == c || es[i].city2 == c)
  {
    if es != [] {
      var init := es[..|es| - 1];
      NodesAreEndpoints(init, c);
      assert forall i :: 0 <= i < |init| ==> init[i] == es[i];
      if c in Nodes(init) {
        var i :| 0 <= i < |init| && (init[i].city1 == c || init[i].city2 == c);
        assert es[i] == init[i];
      }
    }
  }

  /** Exactly the pairs named on some line are edges. */
  lemma {:induction false} WeightsDomain(es: seq<EdgeLine>, k: set<Label>)
    ensures k in Weights(es) <==> exists i :: 0 <= i < |es| && es[i].EdgeKey() == k
  {
    if es != [] {
      var init := es[..|es| - 1];
      WeightsDomain(init, k);
      assert forall i :: 0 <= i < |init| ==> init[i] == es[i];
      if k in Weights(init) {
        var i :| 0 <= i < |init| && init[i].EdgeKey() == k;
        assert es[i] == init[i];
      }
    }
  }

  /** The minutes of an edge are those of the last line naming its pair. */
  lemma {:induction false} WeightsLastWins(es: seq<EdgeLine>, i: nat)
    requires i < |es|
    requires forall j :: i < j < |es| ==> es[j].EdgeKey() != es[i].EdgeKey()
    ensures es[i].EdgeKey() in Weights(es)
    ensures Weights(es)[es[i].EdgeKey()] == es[i].minutes
  {
    if i < |es| - 1 {
      var init := es[..|es| - 1];
      assert init[i] == es[i];
      assert forall j :: i < j < |init| ==> init[j] == es[j];
      WeightsLastWins(init, i);
    }
  }

  /** The labels of lines without newlines hold neither a comma nor a newline. */
  lemma {:induction false} NodesAreClean(lines: seq<string>, es: seq<EdgeLine>)
    requires forall i :: 0 <= i < |lines| ==> '\n' !in lines[i]
    requires ParseLines(lines) == Success(es)
    ensures forall c :: c in Nodes(es) ==> CleanLabel(c)
  {
    if es != [] {
      var init := lines[..|lines| - 1];
      assert ParseLines(init) == Success(es[..|es| - 1]);
      NodesAreClean(init, es[..|es| - 1]);
      var e := es[|es| - 1];
      assert ParseLine(lines[|lines| - 1]) == Success(e);
    }
  }

  /** The `networkx.Graph` that `parse_graph` fills. */
  class Graph {
    var nodes: set<Label>
    var minutes: map<set<Label>, int>

    /** Every edge joins registered nodes. */
    ghost predicate Valid()
      reads this
    {
      forall k :: k in minutes ==> k <= nodes
    }

    /** `nx.Graph()`: no nodes, no edges. */
    constructor ()
      ensures Valid()
      ensures nodes == {} && minutes == map[]
    {
      nodes := {};
      minutes := map[];
    }

    /** `add_edge(u, v, distance_in_minutes=m)`: registers both nodes and
        sets the pair's minutes, leaving every other edge as it was. */
    method AddEdge(u: Label, v: Label, m: int)
      requires Valid()
      modifies this
      ensures Valid()
      ensures nodes == old(nodes) + {u, v}
      ensures minutes == old(minutes)[Key(u, v) := m]
      ensures forall k :: k in old(minutes) && k != Key(u, v) ==> k in minutes && minutes[k] == old(minutes)[k]
    {
      nodes := nodes + {u, v};
      minutes := minutes[Key(u, v) := m];
    }
  }

  /** `parse_graph`: one `add_edge` per line, in order; a rejected line ends
      the construction with its error and no graph. */
  method ParseGraph(lines: seq<string>) returns (r: Result<Graph, LineError>)
    ensures ParseLines(lines).Failure? ==> r == Failure(ParseLines(lines).error)
    ensures ParseLines(lines).Success? ==>
      && r.Success?
      && fresh(r.value)
      && r.value.Valid()
      && r.value.nodes == Nodes(ParseLines(lines).value)
      && r.value.minutes == Weights(ParseLines(lines).value)
  {
    var graph := new Graph();
    ghost var es: seq<EdgeLine> := [];
    for i := 0 to |lines|
      invariant graph.Valid()
      invariant ParseLines(lines[..i]) == Success(es)
      invariant graph.nodes == Nodes(es)
      invariant graph.minutes == Weights(es)
    {
      assert lines[..i + 1][..i] == lines[..i];
      match ParseLine(lines[i]) {
        case Failure(err) =>
          ParseLinesKeepsFailure(lines, i + 1);
          return Failure(err);
        case Success(e) =>
          assert (es + [e])[..|es|] == es;
          graph.AddEdge(e.city1, e.city2, e.minutes);
          es := es + [e];
      }
    }
    assert lines[..|lines|] == lines;
    r := Success(graph);
  }
}
