# Fewest-edge route between two cities, and its minutes

The repository is a small script (`solve.py`). It reads a text file. The first
line is a query `a,b`. Every other line is an undirected road
`city1,city2,minutes`. The script builds a networkx graph from the roads. It
asks networkx for a route from `a` to `b`, adds up the minutes along that route,
and writes the route's cities joined by commas, a newline, and the total.

This Dafny project models that script in five modules:

- `Wrappers`: the `Option` and `Result` types, which stand for the script's exceptions.
- `Text`: the string operations the script uses. These are `str.split` and
  `str.join` on one character, `str.replace('\n', '')`, `int(...)` and `str(...)`.
- `Graphs`: `parse_graph`. A line becomes an `EdgeLine`, or it is rejected with
  the reason. The graph is a class `Graph` with a node set and a map from
  unordered city pairs (`{u, v}`) to minutes. `Graph.AddEdge` is networkx's
  `add_edge`. The method `ParseGraph` has the source's loop. It is proved
  against the functions `ParseLines`, `Nodes` and `Weights`, and lemmas state
  what those functions guarantee.
- `Routing`: `get_shortest_way`. The router `nx.shortest_path` is not
  implemented. It is an oracle, described by `RouterContract`. Its answer is
  passed to the method `GetShortestWay`, whose `for` loop over
  `zip(g_path, g_path[1:])` adds up the minutes. That loop is proved against
  `PathMinutes`.
- `Script`: the `__main__` block as pure functions. It covers line stripping,
  splitting the query, the report format and a reader for it, and the whole run
  (`ScriptOutput`).

The route that the code picks has the fewest edges, not the fewest minutes.
The call is `nx.shortest_path(graph, a, b, weight='weight')`, but the minutes
are stored under `distance_in_minutes` (solve.py:25). The `weight` attribute is
never set, so networkx gives every edge a weight of 1. The model follows the
code here, not a minimum-minutes design:

- `RouterContract` asks for a route with the fewest labels. It depends only on
  which pairs are edges.
- `TriangleRouteIgnoresMinutes` proves what this means for the edges A-B 5,
  B-C 3 and A-C 10. The only answer the router may give is `A,C`, with 10
  minutes. The route `A,B,C` would take 8.
- `SquareMinutesDependOnDirection` shows that a router meeting the contract may
  report different minutes for a query and for its reverse, so the code does
  not promise that they agree. What holds is `RouteSymmetry`: a
  route exists in both directions or in neither, and both routes have the same
  number of labels. `ReverseRouteMinutes` proves that a route taken backwards
  takes the same minutes.

The code also differs from a textbook design in these ways, and the model
follows the code:

- Negative minutes are accepted, because `int()` takes a sign.
- A later line for the same pair of cities, in either order, replaces the
  earlier minutes. The smaller value does not win.
- An unknown city or an unreachable target is an exception. The model gives it
  as an error value. There is no "unreachable" result.

## Model

| member | source | states |
|---|---|---|
| Text.Split | solve.py:21 | `str.split` on one character: there is at least one piece, and no piece holds the separator |
| Text.SplitCount | solve.py:21 | there is one more piece than there are separators, which is the count the unpacking on lines 21 and 39 checks |
| Text.SplitKeeps | solve.py:21 | every character of a piece comes from the text that was split |
| Text.SplitThree | solve.py:21 | a text with two separators is its three pieces with a separator between each |
| Text.JoinSplit | solve.py:39 | joining the pieces of a split with the separator gives back the text that was split |
| Text.SplitJoin | solve.py:42 | splitting a join of one or more separator-free parts gives back those parts |
| Text.SplitWithoutSeparator | solve.py:21 | a text without the separator splits into itself alone |
| Text.SplitAtFirstSeparator | solve.py:21 | splitting `x + sep + y`, where `x` holds no separator, gives `x` followed by the pieces of `y` |
| Text.JoinAvoids | solve.py:42 | a character other than the separator that no part holds does not occur in the join |
| Text.JoinEnds | solve.py:42 | `','.join` begins with the first part and ends with the last one, and holds the separator once there are two parts |
| Text.StripNewlines | solve.py:36 | `replace('\n', '')` leaves no newline and keeps every other character as often as it occurred |
| Text.StripNewlinesConcat | solve.py:36 | stripping distributes over concatenation, so the kept characters stay in order |
| Text.StripNewlinesKeepsClean | solve.py:36 | a text without newlines is unchanged, so stripping twice is the same as stripping once |
| Text.NatToDigits | solve.py:46 | the decimal digits of a natural number are non-empty, have no leading zero, and denote that number |
| Text.IntToString | solve.py:46 | `str(n)` is `NatToDigits(n)` for `n >= 0` and `-` followed by `NatToDigits(-n)` otherwise: a sign only for a negative number, then the canonical digits of the magnitude with no leading zero, space or `+`; it holds no comma or newline |
| Text.IntToStringRoundTrip | solve.py:25 | `int(str(n)) == n` for every integer |
| Text.ParseIntDigits | solve.py:25 | `int()` of a run of decimal digits is the number they denote; a field without any digit is rejected; a negative value needs a minus sign |
| Text.ParseIntSkipsSpace | solve.py:25 | white space before or after the field does not change what `int()` reads |
| Text.TrimKeeps | solve.py:25 | trimming white space only removes characters, so the text `int()` reads comes from the field |
| Graphs.ParseLine | solve.py:21-25 | a line is accepted only with exactly two commas, into three fields; any other comma count is rejected with that field count; accepted labels hold no comma, and hold no newline when the line holds none; the minutes are `int()` of the third field |
| Graphs.ParseLineFields | solve.py:21-25 | a line with two commas is accepted exactly when `int()` takes its third field; then `city1` is the text before the first comma and `city2` the text between the commas; otherwise it is rejected with `NotAnInteger` naming the third field |
| Graphs.ParseFormatLine | solve.py:21-25 | every edge whose labels hold no comma is read back from its `city1,city2,minutes` line |
| Graphs.ParseLines | solve.py:20-26 | parsing all lines succeeds exactly when every line parses, and then yields one edge per line, in order |
| Graphs.ParseLinesFirstError | solve.py:20-26 | a failed parse reports the error of the first rejected line, and every line before it parses |
| Graphs.Nodes | solve.py:20-26 | both cities of every line are nodes of the graph |
| Graphs.ParseLinesKeepsFailure | solve.py:20-26 | once a prefix of the lines fails, all the lines fail with the same error, because the exception ends the loop |
| Graphs.Weights | solve.py:22-26 | every edge joins cities that are in the node set |
| Graphs.NodesAreEndpoints | solve.py:20-26 | the node set is exactly the set of `city1` and `city2` fields over all lines |
| Graphs.WeightsDomain | solve.py:22-26 | an unordered pair is an edge exactly when some line names it, in either order |
| Graphs.WeightsLastWins | solve.py:22-26 | an edge's minutes are those of the last line that names its pair |
| Graphs.NodesAreClean | solve.py:21 | the city labels of newline-free lines hold neither a comma nor a newline |
| Graphs.Graph.constructor | solve.py:19 | `nx.Graph()` has no nodes and no edges |
| Graphs.Graph.AddEdge | solve.py:22-26 | `add_edge` registers both cities and sets the pair's minutes; every other edge keeps its minutes; edges only join registered nodes |
| Graphs.ParseGraph | solve.py:18-27 | `parse_graph` fails with the error of the first rejected line, or returns a new graph whose nodes are `Nodes` and whose minutes are `Weights` of the parsed lines |
| Routing.RouterContract | solve.py:8 | `nx.shortest_path` with every edge weighing 1: a route with the fewest labels from `a` to `b`, `NodeNotFound` when a label is not a node, `NetworkXNoPath` when no route exists; it finds a route exactly when both labels are nodes and a route joins them, and the route starts at `a` and ends at `b` |
| Routing.Zip | solve.py:12 | `zip` has the length of the shorter input and pairs equal positions |
| Routing.Hops | solve.py:12 | `zip(g_path, g_path[1:])` gives one pair fewer than there are labels, and pair `i` is `(path[i], path[i+1])` |
| Routing.HopsAreEdges | solve.py:13 | every consecutive pair of a route is an edge, so the lookup on line 13 succeeds |
| Routing.SumMinutesStep | solve.py:14 | each iteration adds that pair's minutes to the total |
| Routing.PathMinutes | solve.py:10-15 | the minutes of a one-label route are 0 |
| Routing.PathMinutesFront | solve.py:12-14 | the minutes of a longer route are the first edge's minutes plus those of the rest of the route |
| Routing.WayOf | solve.py:7-15 | `get_shortest_way` returns a result exactly when the router found a route; the result is that route unchanged with its minutes; a router exception is passed on unchanged |
| Routing.GetShortestWay | solve.py:7-15 | for a route from the router, returns that route unchanged, from `a` to `b`, with the sum of the minutes over its consecutive pairs (`WayOf`); the router's two exceptions come back as errors |
| Routing.SingleLabelRouteIsFree | solve.py:10-15 | a one-label route takes 0 minutes |
| Routing.RouteToSelf | solve.py:8 | asked for a route from a node to itself, the router answers `[a]`; for a label that is not a node it raises `UnknownNode` |
| Routing.ReverseWalk | solve.py:13 | read backwards, a walk is still a walk, because edge lookup does not depend on direction |
| Routing.ReverseConnects | solve.py:13 | read backwards, a route from `a` to `b` is a route from `b` to `a` |
| Routing.SumMinutesFront | solve.py:12-14 | the total also decomposes from the front: first pair plus the rest |
| Routing.SumMinutesFlip | solve.py:13-14 | the pairs taken in reverse order, each turned around, take the same minutes |
| Routing.HopsReverse | solve.py:12 | the pairs of a reversed route are the route's pairs in reverse order, each turned around |
| Routing.ReverseRouteMinutes | solve.py:12-14 | a route and its reverse take the same minutes |
| Routing.RouteSymmetry | solve.py:8 | asked both ways, the router either finds a route both times or neither time, reports an unknown node both times or neither time, and its routes have the same length |
| Routing.TriangleMinutes | solve.py:10-15 | on that graph A,C takes 10 minutes and A,B,C takes 8 |
| Routing.TriangleGraph | solve.py:20-26 | the lines A-B 5, B-C 3, A-C 10 build exactly those three edges on nodes A, B, C |
| Routing.TriangleRouteIgnoresMinutes | solve.py:8-14 | on that graph the router must answer A,C, reported as 10 minutes, although A,B,C takes 8: `weight='weight'` makes every edge count 1 |
| Routing.SquareGraph | solve.py:20-26 | the lines A-B 1, B-D 1, A-C 5, C-D 5 build exactly those four edges, and A-D is not an edge |
| Routing.SquareNoShortcut | solve.py:8 | on the square, every route between A and D has at least three labels |
| Routing.SquareRoutes | solve.py:8 | A,B,D and D,C,A both meet the router's contract |
| Routing.SquareMinutesDependOnDirection | solve.py:8-15 | the router may report 2 minutes from A to D and 10 minutes from D to A |
| Routing.SquareMinutes | solve.py:10-15 | on the square A,B,D takes 2 minutes and D,C,A takes 10 |
| Script.StripLines | solve.py:36 | every input line is stripped of all its newlines, and the number of lines is unchanged |
| Script.ParseQuery | solve.py:39 | the query is accepted exactly when it holds one comma; the two labels are comma-free and rebuild the line around that comma; otherwise the error gives the field count |
| Script.FormatOutput | solve.py:42-46 | the report is exactly the joined labels, one newline and `str(minutes)`: it starts with `','.join(path)`, ends with `str(minutes)`, has the newline directly before the minutes and no other character; its first character is the route's first city and its last a digit |
| Script.FormatOutputRoundTrip | solve.py:42-46 | if no label holds a comma or newline, the report holds exactly one newline, its two lines are `','.join(path)` and `str(minutes)`, and reading it back gives the route and the minutes |
| Script.ReportLines | solve.py:42-46 | two newline-free lines joined by one newline split back into those two lines, and the text holds one newline |
| Script.ScriptOutput | solve.py:36-46 | the run fails with "no query line" exactly when the file has no lines |
| Script.ScriptOutputBadQuery | solve.py:39 | a query line without exactly one comma stops the run with its field count |
| Script.ScriptOutputBadEdgeLine | solve.py:18-27 | after a good query line, the first edge line that `parse_graph` rejects stops the run with that line's error, and every edge line before it parses |
| Script.FirstBadEdgeLine | solve.py:20-26 | the error of the edge lines after the query line is that of the first of them that is rejected, and every one before it parses |
| Script.ScriptOutputRoute | solve.py:39-46 | once the query and the edge lines parse, the run succeeds exactly when both labels are cities and a route joins them, and it then writes exactly `FormatOutput` of a fewest-edge route and its minutes; otherwise it fails with `UnknownNode` or `NoRoute` |
| Script.ScriptOutputParsed | solve.py:36-40 | a successful run had a query line that split into two labels and edge lines that all parsed |
| Script.ScriptOutputReadsBack | solve.py:36-46 | when the run succeeds on a parsed query and parsed edge lines, the router found a route with the fewest edges, and the report reads back as that route and its minutes |
| Script.RouteReadsBack | solve.py:42-46 | the report of a route of a graph built from newline-free edge lines reads back as that route and its minutes |
| Script.ReportReadsBack | solve.py:42-46 | the report for a route of clean labels is `FormatOutput` of its minutes and reads back as the route and its minutes |
| Script.ScriptQueryToSelf | solve.py:39-46 | a query from a city of the graph to itself reports that city alone and 0 minutes |
| Script.SingleCityReport | solve.py:42-46 | the report for one city and 0 minutes is the city, a newline and `0` |

## Left out

- File handling and the command line are not modelled (solve.py:31-35, 37, 44-47). This means the `sys.argv` check, opening and reading the input, and writing `test.out`. The model starts from the list of lines that `readlines()` returns and ends with the report text.
- The internals of `nx.shortest_path` and `nx.Graph` are not modelled. They belong to a library whose source is not part of this model. The router is an oracle that meets `RouterContract`: a route with the fewest edges, or an exception for an unknown city or an unreachable target.
- In `ScriptOutput` the router is a function of the parsed edge lines and the query. The line order determines the networkx graph, including its insertion order. Which of several equally short routes networkx returns is not modelled.
- networkx's exceptions are modelled as a router answer `Raised(error)` with two error values: `UnknownNode` stands for `NodeNotFound` and `NoRoute` for `NetworkXNoPath`. `get_shortest_way` passes them on unchanged. The model follows networkx 3.x, whose `bidirectional_dijkstra` checks that both labels are nodes before its shortcut for `a == b`, so a query from an unknown label to itself raises `UnknownNode`. No other exception class is modelled.
- Text.ParseInt: it models Python's `int()` for ASCII white space, an optional sign and ASCII decimal digits. It does not accept the non-ASCII digits and white space or the `_` digit separators that Python also takes; a field written with them is rejected by the model but accepted by Python. It also accepts a field of any length, while Python 3.11 and later (and the security releases of 3.7 to 3.10) by default raise `ValueError` for an `int()` of more than 4300 digits.
- Text.IntToString: it gives `str(n)` for every integer, while those Python versions by default raise `ValueError` when `str()` would produce more than 4300 digits. On solve.py:46 that would happen after line 45 has already written the route; the model reports the route and the minutes together.
- Graphs.Graph: it holds only the `distance_in_minutes` attribute per edge. networkx's general attribute dictionaries and its node attributes are not modelled, because the script sets nothing else.
