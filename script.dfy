/**
  The body of the script (`if __name__ == '__main__'`) without its file
  handling: the input lines lose their newlines, the first line is the query
  `a,b`, the other lines build the graph, and the report is the route's
  labels joined by commas, a newline, and the route's minutes.
*/
module Script {
  import opened Wrappers
  import Text
  import opened Graphs
  import opened Routing

  /** Everything that ends the script with an exception. */
  datatype Error =
    | NoQueryLine                    // `lines.pop(0)` on an empty file
    | BadQuery(fields: nat)          // `a, b = ...` unpacks the wrong number of fields
    | BadEdgeLine(lineError: LineError)  // raised in `parse_graph`
    | RouteFailed(routeError: RouteError) // raised by the router

  /** `[line.replace('\n', '') for line in file.readlines()]`. */
  function StripLines(raw: seq<string>): (r: seq<string>)
    ensures |r| == |raw|
    ensures forall i :: 0 <= i < |r| ==> '\n' !in r[i]
    ensures forall i :: 0 <= i < |r| ==> r[i] == Text.StripNewlines(raw[i])
  {
    seq(|raw|, i requires 0 <= i < |raw| => Text.StripNewlines(raw[i]))
  }

  /** `a, b = line.split(',')`: the line must hold exactly one comma, and
      the two labels are the text on either side of it. */
  function ParseQuery(line: string): (r: Result<(Label, Label), Error>)
    ensures r.Success? <==> multiset(line)[','] == 1
    ensures r.Failure? ==> r == Failure(BadQuery(multiset(line)[','] + 1))
    ensures r.Success? ==> line == r.value.0 + "," + r.value.1
    ensures r.Success? ==> ',' !in r.value.0 && ',' !in r.value.1
  {
    var fields := Text.Split(line, ',');
    Text.SplitCount(line, ',');
    if |fields| == 2 then
      Text.JoinSplit(line, ',');
      Success((fields[0], fields[1]))
    else Failure(BadQuery(|fields|))
  }

  /** What the script writes: `','.join(g_path) + '\n'`, then `str(minutes)`.
      The report starts with the joined labels, ends with the minutes, whose
      last character is a digit, and holds exactly one character between
      them, the newline. */
  function FormatOutput(path: seq<Label>, minutes: int): (r: string)
    ensures |path| >= 1 ==> path[0] <= r
    ensures r != [] && Text.IsDigit(r[|r| - 1])
    ensures |Text.IntToString(minutes)| < |r| && r[|r| - |Text.IntToString(minutes)|..] == Text.IntToString(minutes)
    ensures r[|r| - |Text.IntToString(minutes)| - 1] == '\n'
    ensures |r| == |Text.Join(path, ',')| + 1 + |Text.IntToString(minutes)|
    ensures r[..|Text.Join(path, ',')|] == Text.Join(path, ',')
  {
    var labels, digits := Text.Join(path, ','), Text.IntToString(minutes);
    var report := labels + "\n" + digits;
    assert report[|report| - |digits|..] == digits;
    assert report[..|labels|] == labels;
    if |path| >= 1 then
      Text.JoinEnds(path, ',');
      report
    else report
  }

  /** Reading a report back: a line of comma-separated labels, then a line
      holding the minutes. */
  function ReadOutput(text: string): Option<(seq<Label>, int)>
  {
    var rows := Text.Split(text, '\n');
    if |rows| != 2 then None
    else match Text.ParseInt(rows[1])
      case None => None
      case Some(m) => Some((Text.Split(rows[0], ','), m))
  }

  /** A report holds exactly one newline and gives back the route and the
      minutes, as long as no label holds a comma or a newline. */
  lemma FormatOutputRoundTrip(path: seq<Label>, minutes: int)
    requires |path| >= 1
    requires forall i :: 0 <= i < |path| ==> CleanLabel(path[i])
    ensures multiset(FormatOutput(path, minutes))['\n'] == 1
    ensures ReadOutput(FormatOutput(path, minutes)) == Some((path, minutes))
    ensures Text.Split(FormatOutput(path, minutes), '\n') == [Text.Join(path, ','), Text.IntToString(minutes)]
  {
    var labels := Text.Join(path, ',');
    var digits := Text.IntToString(minutes);
    var report := FormatOutput(path, minutes);
    assert report == labels + "\n" + digits;
    Text.JoinAvoids(path, ',', '\n');
    ReportLines(labels, digits);
    Text.SplitJoin(path, ',');
    Text.IntToStringRoundTrip(minutes);
  }

  /** Two newline-free lines joined by a newline split back into those two. */
  lemma ReportLines(labels: string, digits: string)
    requires '\n' !in labels && '\n' !in digits
    ensures Text.Split(labels + "\n" + digits, '\n') == [labels, digits]
    ensures multiset(labels + "\n" + digits)['\n'] == 1
  {
    Text.SplitAtFirstSeparator(labels, '\n', digits);
    Text.SplitWithoutSeparator(digits, '\n');
    assert multiset(labels)['\n'] == 0 && multiset(digits)['\n'] == 0;
  }

  /** A router: for every graph built from edge lines, and every query, an
      answer that meets the router's contract. The answer may depend on
      the order of the lines, as networkx's tie-breaking does. */
  ghost predicate IsRouter(route: (seq<EdgeLine>, Label, Label) -> RouteAnswer)
  {
    forall es, a, b :: RouterContract(Nodes(es), Weights(es).Keys, a, b, route(es, a, b))
  }

  /** The report the script writes for the lines of its input file, or the
      exception that stops it. The query line is split before the graph is
      built, and the graph is built before the route is asked for. */
  function ScriptOutput(raw: seq<string>, route: (seq<EdgeLine>, Label, Label) -> RouteAnswer): (r: Result<string, Error>)
    requires IsRouter(route)
    ensures r == Failure(NoQueryLine) <==> raw == []
  {
    var lines := StripLines(raw);
    if lines == [] then Failure(NoQueryLine)
    else match ParseQuery(lines[0])
      case Failure(err) => Failure(err)
      case Success((a, b)) =>
        match ParseLines(lines[1..])
        case Failure(err) => Failure(BadEdgeLine(err))
        case Success(es) =>
          var answer := route(es, a, b);
          assert RouterContract(Nodes(es), Weights(es).Keys, a, b, answer);
          Report(Weights(es), answer)
  }

  /** The end of the run: the report for the router's route, or its
      exception. */
  function Report(w: map<set<Label>, int>, answer: RouteAnswer): Result<string, Error>
    requires answer.Found? ==> IsWalk(w.Keys, answer.path)
  {
    match WayOf(w, answer)
    case Failure(err) => Failure(RouteFailed(err))
    case Success(way) => Success(FormatOutput(way.path, way.minutes))
  }

  /** Once the query and the edge lines parse, the run succeeds exactly
      when both query labels are cities of the graph and a route joins
      them, and then it writes the labels of a route with the fewest edges
      and that route's minutes; otherwise it fails with the router's
      exception for an unknown city or for no route. */
  lemma ScriptOutputRoute(raw: seq<string>, route: (seq<EdgeLine>, Label, Label) -> RouteAnswer, a: Label, b: Label, es: seq<EdgeLine>)
    requires IsRouter(route)
    requires raw != [] && ParseQuery(StripLines(raw)[0]) == Success((a, b))
    requires ParseLines(StripLines(raw)[1..]) == Success(es)
    ensures ScriptOutput(raw, route).Success? <==> a in Nodes(es) && b in Nodes(es) && Reachable(Nodes(es), Weights(es).Keys, a, b)
    ensures a !in Nodes(es) || b !in Nodes(es) ==> ScriptOutput(raw, route) == Failure(RouteFailed(UnknownNode))
    ensures a in Nodes(es) && b in Nodes(es) && !Reachable(Nodes(es), Weights(es).Keys, a, b) ==>
      ScriptOutput(raw, route) == Failure(RouteFailed(NoRoute))
    ensures a in Nodes(es) && b in Nodes(es) && Reachable(Nodes(es), Weights(es).Keys, a, b) ==>
      var answer := route(es, a, b);
      && answer.Found?
      && FewestHops(Nodes(es), Weights(es).Keys, answer.path, a, b)
      && ScriptOutput(raw, route) == Success(FormatOutput(answer.path, PathMinutes(Weights(es), answer.path)))
  {
    var lines := StripLines(raw);
    var answer := route(es, a, b);
    assert RouterContract(Nodes(es), Weights(es).Keys, a, b, answer);
    assert ScriptOutput(raw, route) == Report(Weights(es), answer) by {
      assert lines != [];
    }
    match answer {
      case Found(p) =>
        assert Connects(Nodes(es), Weights(es).Keys, p, a, b);
        assert Report(Weights(es), answer) == Success(FormatOutput(p, PathMinutes(Weights(es), p)));
      case Raised(err) =>
        assert Report(Weights(es), answer) == Failure(RouteFailed(err));
        assert err == NoRoute <==> a in Nodes(es) && b in Nodes(es);
    }
  }

  /** A query line without exactly one comma stops the run with the number
      of fields it splits into. */
  lemma ScriptOutputBadQuery(raw: seq<string>, route: (seq<EdgeLine>, Label, Label) -> RouteAnswer)
    requires IsRouter(route)
    requires raw != [] && multiset(StripLines(raw)[0])[','] != 1
    ensures ScriptOutput(raw, route) == Failure(BadQuery(multiset(StripLines(raw)[0])[','] + 1))
  {
  }

  /** After a good query line, the first edge line that `parse_graph`
      rejects stops the run with that line's error. */
  lemma ScriptOutputBadEdgeLine(raw: seq<string>, route: (seq<EdgeLine>, Label, Label) -> RouteAnswer)
    requires IsRouter(route)
    requires raw != [] && multiset(StripLines(raw)[0])[','] == 1
    requires ParseLines(StripLines(raw)[1..]).Failure?
    ensures
      var lines := StripLines(raw);
      exists i ::
        && 1 <= i < |lines|
        && (forall j :: 1 <= j < i ==> ParseLine(lines[j]).Success?)
        && ParseLine(lines[i]).Failure?
        && ScriptOutput(raw, route) == Failure(BadEdgeLine(ParseLine(lines[i]).error))
  {
    var lines := StripLines(raw);
    assert ParseQuery(lines[0]).Success?;
    assert ScriptOutput(raw, route) == Failure(BadEdgeLine(ParseLines(lines[1..]).error));
    FirstBadEdgeLine(lines);
  }

  /** The error of the edge lines after the query line is that of the first
      of them that `parse_graph` rejects. */
  lemma FirstBadEdgeLine(lines: seq<string>)
    requires lines != [] && ParseLines(lines[1..]).Failure?
    ensures exists i ::
      && 1 <= i < |lines|
      && (forall j :: 1 <= j < i ==> ParseLine(lines[j]).Success?)
      && ParseLine(lines[i]) == Failure(ParseLines(lines[1..]).error)
  {
    var body := lines[1..];
    ParseLinesFirstError(body);
    var k :| && 0 <= k < |body|
             && (forall j :: 0 <= j < k ==> ParseLine(body[j]).Success?)
             && ParseLine(body[k]) == Failure(ParseLines(body).error);
    assert forall j :: 1 <= j < k + 1 ==> lines[j] == body[j - 1];
    assert lines[k + 1] == body[k];
  }

  /** A run that succeeds has a query line, which splits into two labels,
      and edge lines that all parse. */
  lemma ScriptOutputParsed(raw: seq<string>, route: (seq<EdgeLine>, Label, Label) -> RouteAnswer)
    requires IsRouter(route)
    requires ScriptOutput(raw, route).Success?
    ensures raw != []
    ensures ParseQuery(StripLines(raw)[0]).Success?
    ensures ParseLines(StripLines(raw)[1..]).Success?
  {
    var lines := StripLines(raw);
    if raw != [] && multiset(lines[0])[','] == 1 && ParseLines(lines[1..]).Failure? {
      ScriptOutputBadEdgeLine(raw, route);
    }
  }

  /** A report that the script writes reads back as a route with the fewest
      edges between the two query labels and the minutes of that route. */
  lemma ScriptOutputReadsBack(raw: seq<string>, route: (seq<EdgeLine>, Label, Label) -> RouteAnswer, a: Label, b: Label, es: seq<EdgeLine>)
    requires IsRouter(route)
    requires raw != [] && ParseQuery(StripLines(raw)[0]) == Success((a, b))
    requires ParseLines(StripLines(raw)[1..]) == Success(es)
    requires ScriptOutput(raw, route).Success?
    ensures route(es, a, b).Found?
    ensures FewestHops(Nodes(es), Weights(es).Keys, route(es, a, b).path, a, b)
    ensures ReadOutput(ScriptOutput(raw, route).value) == Some((route(es, a, b).path, PathMinutes(Weights(es), route(es, a, b).path)))
  {
    ScriptOutputRoute(raw, route, a, b, es);
    var p := route(es, a, b).path;
    var m := PathMinutes(Weights(es), p);
    assert ScriptOutput(raw, route).value == FormatOutput(p, m);
    var edgeLines := StripLines(raw)[1..];
    assert forall i :: 0 <= i < |edgeLines| ==> '\n' !in edgeLines[i];
    RouteReadsBack(edgeLines, es, p, a, b);
  }

  /** The report of a route of the graph built from newline-free edge
      lines reads back as that route and its minutes. */
  lemma RouteReadsBack(lines: seq<string>, es: seq<EdgeLine>, p: seq<Label>, a: Label, b: Label)
    requires forall i :: 0 <= i < |lines| ==> '\n' !in lines[i]
    requires ParseLines(lines) == Success(es)
    requires Connects(Nodes(es), Weights(es).Keys, p, a, b)
    ensures ReadOutput(FormatOutput(p, PathMinutes(Weights(es), p))) == Some((p, PathMinutes(Weights(es), p)))
  {
    NodesAreClean(lines, es);
    FormatOutputRoundTrip(p, PathMinutes(Weights(es), p));
  }

  /** The report for a route of clean labels reads back as that route and
      its minutes. */
  lemma ReportReadsBack(w: map<set<Label>, int>, p: seq<Label>)
    requires IsWalk(w.Keys, p)
    requires forall i :: 0 <= i < |p| ==> CleanLabel(p[i])
    ensures Report(w, Found(p)) == Success(FormatOutput(p, PathMinutes(w, p)))
    ensures ReadOutput(Report(w, Found(p)).value) == Some((p, PathMinutes(w, p)))
  {
    FormatOutputRoundTrip(p, PathMinutes(w, p));
  }

  /** A query from a city of the graph to itself reports that city alone
      and 0 minutes. */
  lemma ScriptQueryToSelf(raw: seq<string>, route: (seq<EdgeLine>, Label, Label) -> RouteAnswer, a: Label)
    requires IsRouter(route)
    requires raw != [] && ParseQuery(StripLines(raw)[0]) == Success((a, a))
    requires ParseLines(StripLines(raw)[1..]).Success?
    requires a in Nodes(ParseLines(StripLines(raw)[1..]).value)
    ensures ScriptOutput(raw, route) == Success(a + "\n0")
  {
    var lines := StripLines(raw);
    var es := ParseLines(lines[1..]).value;
    var answer := route(es, a, a);
    assert RouterContract(Nodes(es), Weights(es).Keys, a, a, answer);
    RouteToSelf(Nodes(es), Weights(es).Keys, a, answer);
    SingleLabelRouteIsFree(Weights(es), a);
    assert WayOf(Weights(es), answer) == Success(Way(0, [a]));
    SingleCityReport(a);
  }

  /** The report for a route of one city and 0 minutes. */
  lemma SingleCityReport(a: Label)
    ensures FormatOutput([a], 0) == a + "\n0"
  {
    assert Text.IntToString(0) == "0" by {
      assert Text.DigitChar(0) == '0';
    }
  }
}
