/**
 * `parseInput` (dijkstra.js:91-124): the input text is trimmed and split
 * into lines; the second token of line 0 is the edge count `M`; lines 1
 * to `M` are edges `from to deaths`; line `M + 1` holds `start goal`. The
 * loop fills the adjacency map, the first-seen node list and the edge list
 * in place. A line the source would index past the end of the input, and a
 * token it could not convert, end the parse with an error.
 */
module Parser {
  import opened Wrappers
  import opened Graph
  import opened Text

  /** What `parseInput` returns. */
  datatype Parsed = Parsed(graph: Adjacency, start: Node, goal: Node, nodes: seq<Node>, edges: seq<Edge>)

  /**
   * Why a parse fails: the line with this index is missing, the edge count
   * is not an integer, the edge line with this index is malformed, or the
   * last line names no goal.
   */
  datatype ParseError = MissingLine(index: int) | BadCount | BadEdge(index: int) | MissingGoal

  /** `inputText.trim().split('\n')`. */
  function Lines(text: string): seq<string>
  {
    Split(Trim(text), '\n')
  }

  /** `M`, the second token of line 0 read with `Number`; `None` when it is missing or not an integer. */
  function EdgeCount(header: string): Option<int>
  {
    var tokens := Split(header, ' ');
    if |tokens| < 2 then None else NumberValue(tokens[1])
  }

  /** One edge line: tokens `from`, `to` and `deaths`, the last read with `parseInt`. */
  function ParseEdge(line: string): Option<Edge>
  {
    var parts := Split(Trim(line), ' ');
    if |parts| < 3 then None
    else
      match ParseIntPrefix(parts[2])
      case None => None
      case Some(w) => Some(Edge(parts[0], parts[1], w))
  }

  /** `start` and `goal`: the first two tokens of the trimmed line. */
  function ParseQuery(line: string): Option<(Node, Node)>
  {
    var parts := Split(Trim(line), ' ');
    if |parts| < 2 then None else Some((parts[0], parts[1]))
  }

  /** Every line read as an edge line: `parsed[k]` is `ParseEdge(lines[k])`. */
  function ParsedLines(lines: seq<string>): (parsed: seq<Option<Edge>>)
    ensures |parsed| == |lines|
  {
    if lines == [] then [] else [ParseEdge(lines[0])] + ParsedLines(lines[1..])
  }

  /** `parsed` holds the reading of each of `lines` as an edge line. */
  ghost predicate LinesParsed(lines: seq<string>, parsed: seq<Option<Edge>>)
  {
    |parsed| == |lines| && forall k {:trigger ParseEdge(lines[k])} :: 0 <= k < |lines| ==> parsed[k] == ParseEdge(lines[k])
  }

  lemma {:induction false} ParsedLinesFacts(lines: seq<string>)
    ensures LinesParsed(lines, ParsedLines(lines))
  {
    if lines != [] {
      ParsedLinesFacts(lines[1..]);
      forall k | 0 <= k < |lines|
        ensures ParsedLines(lines)[k] == ParseEdge(lines[k])
      {
        if k > 0 {
          assert lines[1..][k - 1] == lines[k];
        }
      }
    }
  }

  /**
   * The edges of lines 1 to `m`, given the reading `parsed` of every line,
   * or the error at the first line that is missing or malformed.
   */
  function EdgeLines(parsed: seq<Option<Edge>>, m: int): Result<seq<Edge>, ParseError>
    decreases m
  {
    if m <= 0 then Ok([])
    else
      match EdgeLines(parsed, m - 1)
      case Err(e) => Err(e)
      case Ok(es) =>
        if m >= |parsed| then Err(MissingLine(m))
        else
          match parsed[m]
          case None => Err(BadEdge(m))
          case Some(e) => Ok(es + [e])
  }

  /** Appends arc `e.to` to the list of `e.from`, creating the list first if needed. */
  function AddEdge(g: Adjacency, e: Edge): Adjacency
  {
    g[e.from := Out(g, e.from) + [Arc(e.to, e.deaths)]]
  }

  /** The adjacency map built from `es` in order. */
  function AdjacencyOf(es: seq<Edge>): Adjacency
  {
    if es == [] then map[] else AddEdge(AdjacencyOf(es[..|es| - 1]), es[|es| - 1])
  }

  /** `nodes.add(v)` on an insertion-ordered set held as a sequence. */
  function AddNode(ns: seq<Node>, v: Node): seq<Node>
  {
    if v in ns then ns else ns + [v]
  }

  /** The node list built from `es` in order: `from` then `to` of each edge. */
  function FirstSeen(es: seq<Edge>): seq<Node>
  {
    if es == [] then []
    else AddNode(AddNode(FirstSeen(es[..|es| - 1]), es[|es| - 1].from), es[|es| - 1].to)
  }

  /** The result of `parseInput(text)`. */
  function Parse(text: string): Result<Parsed, ParseError>
  {
    var lines := Lines(text);
    match EdgeCount(lines[0])
    case None => Err(BadCount)
    case Some(m) =>
      match EdgeLines(ParsedLines(lines), m)
      case Err(e) => Err(e)
      case Ok(es) =>
        if m + 1 < 0 || m + 1 >= |lines| then Err(MissingLine(m + 1))
        else
          match ParseQuery(lines[m + 1])
          case None => Err(MissingGoal)
          case Some(q) => Ok(Parsed(AdjacencyOf(es), q.0, q.1, FirstSeen(es), es))
  }

  /** A failure at line `i` is the failure of every longer prefix of edge lines. */
  lemma {:induction false} ErrorPersists(parsed: seq<Option<Edge>>, i: int, m: int)
    requires i <= m && EdgeLines(parsed, i).Err?
    ensures EdgeLines(parsed, m) == EdgeLines(parsed, i)
    decreases m - i
  {
    if i < m {
      ErrorPersists(parsed, i, m - 1);
    }
  }

  /** Appending one edge to the list appends its arc in the adjacency map. */
  lemma AdjacencyStep(es: seq<Edge>, e: Edge, es': seq<Edge>)
    requires es' == es + [e]
    ensures AdjacencyOf(es') == AddEdge(AdjacencyOf(es), e)
    ensures FirstSeen(es') == AddNode(AddNode(FirstSeen(es), e.from), e.to)
  {
    assert es'[..|es'| - 1] == es;
  }

  /**
   * Creating the missing list of `e.from` and then pushing its arc is
   * `AddEdge` (dijkstra.js:109-112).
   */
  lemma PushArc(g0: Adjacency, g1: Adjacency, g2: Adjacency, e: Edge)
    requires g1 == if e.from in g0 then g0 else g0[e.from := []]
    requires e.from in g1 && g2 == g1[e.from := g1[e.from] + [Arc(e.to, e.deaths)]]
    ensures g2 == AddEdge(g0, e)
  {
    if e.from !in g0 {
      assert g1[e.from] + [Arc(e.to, e.deaths)] == Out(g0, e.from) + [Arc(e.to, e.deaths)];
      assert g2.Keys == AddEdge(g0, e).Keys;
    }
  }

  /**
   * The body of the edge loop once the line is read (dijkstra.js:105-112):
   * `nodes.add(from)`, `nodes.add(to)`, `edges.push(...)`, then the arc is
   * pushed onto the list of `from`, which is created first if missing.
   */
  method RecordEdge(graph0: Adjacency, nodes0: seq<Node>, edges0: seq<Edge>, e: Edge)
    returns (graph: Adjacency, nodes: seq<Node>, edges: seq<Edge>)
    ensures graph == AddEdge(graph0, e)
    ensures nodes == AddNode(AddNode(nodes0, e.from), e.to)
    ensures edges == edges0 + [e]
  {
    nodes := AddNode(AddNode(nodes0, e.from), e.to);
    edges := edges0 + [e];
    graph := graph0;
    if e.from !in graph {
      graph := graph[e.from := []];
    }
    ghost var graph1 := graph;
    graph := graph[e.from := graph[e.from] + [Arc(e.to, e.deaths)]];
    PushArc(graph0, graph1, graph, e);
  }

  /** What the edge loop builds from the edges of lines 1 to `m`: the adjacency map, the node list and the edge list. */
  function Built(parsed: seq<Option<Edge>>, m: int): Result<(Adjacency, seq<Node>, seq<Edge>), ParseError>
  {
    match EdgeLines(parsed, m)
    case Err(e) => Err(e)
    case Ok(es) => Ok((AdjacencyOf(es), FirstSeen(es), es))
  }

  /**
   * The edge loop of `parseInput` (dijkstra.js:99-113): for each of lines
   * 1 to `m`, adds both endpoints to the node list, appends the edge and
   * appends its arc to the list of its `from` node.
   */
  method ReadEdges(lines: seq<string>, m: int) returns (r: Result<(Adjacency, seq<Node>, seq<Edge>), ParseError>)
    ensures r == Built(ParsedLines(lines), m)
  {
    ghost var parsed := ParsedLines(lines);
    ParsedLinesFacts(lines);
    var graph: Adjacency := map[];
    var nodes: seq<Node> := [];
    var edges: seq<Edge> := [];
    if m < 1 {
      return Ok((graph, nodes, edges));
    }
    for i := 1 to m + 1
      invariant EdgeLines(parsed, i - 1) == Ok(edges)
      invariant graph == AdjacencyOf(edges)
      invariant nodes == FirstSeen(edges)
    {
      if i >= |lines| {
        ErrorPersists(parsed, i, m);
        return Err(MissingLine(i));
      }
      var edge := ParseEdge(lines[i]);
      if edge.None? {
        ErrorPersists(parsed, i, m);
        return Err(BadEdge(i));
      }
      var e := edge.value;
      ghost var edges0 := edges;
      graph, nodes, edges := RecordEdge(graph, nodes, edges, e);
      AdjacencyStep(edges0, e, edges);
    }
    r := Ok((graph, nodes, edges));
  }

  /**
   * `parseInput(inputText)` (dijkstra.js:91-124): splits the input into
   * lines, reads the edge count, reads the edge lines and then `start` and
   * `goal`.
   */
  method ParseInput(text: string) returns (r: Result<Parsed, ParseError>)
    ensures r == Parse(text)
  {
    var lines := Lines(text);
    var count := EdgeCount(lines[0]);
    if count.None? {
      return Err(BadCount);
    }
    var m := count.value;
    var built := ReadEdges(lines, m);
    if built.Err? {
      return Err(built.error);
    }
    var (graph, nodes, edges) := built.value;
    if m + 1 < 0 || m + 1 >= |lines| {
      return Err(MissingLine(m + 1));
    }
    var query := ParseQuery(lines[m + 1]);
    if query.None? {
      return Err(MissingGoal);
    }
    var (start, goal) := query.value;
    r := Ok(Parsed(graph, start, goal, nodes, edges));
  }
}
