/**
 * What `parseInput` (dijkstra.js:91-124) produces, stated without its
 * loop: which edge count succeeds, that edge `k` is the reading of line
 * `k + 1`, which line an error names, the arcs each node gets in the
 * adjacency map, and the order of the node list.
 */
module ParseFacts {
  import opened Wrappers
  import opened Graph
  import opened Parser

  /**
   * Lines 1 to `m` are all present and all read as edges, stated on the
   * per-line readings `parsed` that the edge loop consumes. The proofs about
   * `EdgeLines` work on this form; `EdgeLinesPresent` states the same on
   * the input lines, and `PresentIsRead` shows the two agree.
   */
  ghost predicate AllRead(parsed: seq<Option<Edge>>, m: int)
  {
    m <= 0 || (m < |parsed| && forall k :: 1 <= k <= m ==> parsed[k].Some?)
  }

  /**
   * Reading the edge lines succeeds exactly when lines 1 to `m` are present
   * and well formed; the edges are then the readings of those lines in order.
   */
  lemma {:induction false} EdgeLinesOk(parsed: seq<Option<Edge>>, m: int)
    ensures EdgeLines(parsed, m).Ok? <==> AllRead(parsed, m)
    ensures EdgeLines(parsed, m).Ok? ==>
              var es := EdgeLines(parsed, m).value;
              && |es| == (if m <= 0 then 0 else m)
              && forall k :: 0 <= k < |es| ==> parsed[k + 1] == Some(es[k])
    decreases m
  {
    if m > 0 {
      EdgeLinesOk(parsed, m - 1);
      if EdgeLines(parsed, m).Ok? {
        var es := EdgeLines(parsed, m).value;
        var es0 := EdgeLines(parsed, m - 1).value;
        assert es == es0 + [parsed[m].value];
        assert forall k :: 0 <= k < |es0| ==> es[k] == es0[k];
      }
    }
  }

  /**
   * `err` names the first of lines 1 to `m` that is missing (`MissingLine`,
   * the first index past the input) or malformed (`BadEdge`); every line
   * before it reads as an edge. This is the form on the per-line readings
   * that the proofs about `EdgeLines` use; `FirstBadLine` states it on the
   * input lines, and `FailureOnLines` carries one to the other.
   */
  ghost predicate FirstFailure(parsed: seq<Option<Edge>>, m: int, err: ParseError)
  {
    match err
    case BadEdge(i) =>
      && 1 <= i <= m && i < |parsed| && parsed[i].None?
      && forall k :: 1 <= k < i ==> parsed[k].Some?
    case MissingLine(i) =>
      && 1 <= i <= m && (i == |parsed| || (i == 1 && parsed == []))
      && forall k :: 1 <= k < i ==> parsed[k].Some?
    case _ => false
  }

  /** A failed read of the edge lines reports the first line that fails. */
  lemma {:induction false} EdgeLinesErr(parsed: seq<Option<Edge>>, m: int)
    ensures EdgeLines(parsed, m).Err? ==> FirstFailure(parsed, m, EdgeLines(parsed, m).error)
    decreases m
  {
    if m > 0 {
      EdgeLinesErr(parsed, m - 1);
      EdgeLinesOk(parsed, m - 1);
      var prev := EdgeLines(parsed, m - 1);
      if prev.Ok? {
        if m >= |parsed| {
          assert EdgeLines(parsed, m) == Err(MissingLine(m));
          assert forall k :: 1 <= k < m ==> parsed[k].Some?;
        } else if parsed[m].None? {
          assert EdgeLines(parsed, m) == Err(BadEdge(m));
        }
      } else {
        assert EdgeLines(parsed, m) == prev;
      }
    }
  }

  /** The arcs of the edges leaving `v`, in input order. */
  function ArcsFrom(es: seq<Edge>, v: Node): seq<Arc>
  {
    if es == [] then []
    else (if es[0].from == v then [Arc(es[0].to, es[0].deaths)] else []) + ArcsFrom(es[1..], v)
  }

  lemma {:induction false} ArcsFromSnoc(es: seq<Edge>, e: Edge, v: Node)
    ensures ArcsFrom(es + [e], v) == ArcsFrom(es, v) + (if e.from == v then [Arc(e.to, e.deaths)] else [])
  {
    if es != [] {
      assert (es + [e])[1..] == es[1..] + [e];
      ArcsFromSnoc(es[1..], e, v);
    }
  }

  /** `ArcsFrom` holds one arc `to, deaths` for each edge `v to deaths`. */
  lemma {:induction false} ArcsFromMember(es: seq<Edge>, v: Node, a: Arc)
    ensures a in ArcsFrom(es, v) <==> Edge(v, a.to, a.deaths) in es
  {
    if es != [] {
      ArcsFromMember(es[1..], v, a);
      assert es == [es[0]] + es[1..];
    }
  }

  /**
   * The adjacency map lists, for every node, the arcs of exactly the edges
   * leaving it, in input order; its keys are the nodes some edge leaves.
   */
  lemma {:induction false} AdjacencyExact(es: seq<Edge>, v: Node)
    ensures Out(AdjacencyOf(es), v) == ArcsFrom(es, v)
    ensures v in AdjacencyOf(es) <==> exists e :: e in es && e.from == v
    decreases |es|
  {
    if es != [] {
      var es0, e := es[..|es| - 1], es[|es| - 1];
      assert es == es0 + [e];
      AdjacencyExact(es0, v);
      ArcsFromSnoc(es0, e, v);
      if v in AdjacencyOf(es) && e.from != v {
        var e' :| e' in es0 && e'.from == v;
        assert e' in es;
      }
    }
  }

  /** The total length of the arc lists of the nodes `vs`. */
  function OutTotal(g: Adjacency, vs: seq<Node>): nat
  {
    if vs == [] then 0 else |Out(g, vs[0])| + OutTotal(g, vs[1..])
  }

  /** How many of `vs` are `x`. */
  function Occurrences(vs: seq<Node>, x: Node): nat
  {
    if vs == [] then 0 else (if vs[0] == x then 1 else 0) + Occurrences(vs[1..], x)
  }

  /** The number of edges leaving `x` is the length of `ArcsFrom(es, x)`, summed over `vs`. */
  function ArcTotal(es: seq<Edge>, vs: seq<Node>): nat
  {
    if vs == [] then 0 else |ArcsFrom(es, vs[0])| + ArcTotal(es, vs[1..])
  }

  lemma {:induction false} OutTotalIsArcTotal(es: seq<Edge>, vs: seq<Node>)
    ensures OutTotal(AdjacencyOf(es), vs) == ArcTotal(es, vs)
  {
    if vs != [] {
      AdjacencyExact(es, vs[0]);
      OutTotalIsArcTotal(es, vs[1..]);
    }
  }

  lemma {:induction false} ArcTotalCons(e: Edge, es: seq<Edge>, vs: seq<Node>)
    ensures ArcTotal([e] + es, vs) == Occurrences(vs, e.from) + ArcTotal(es, vs)
  {
    if vs != [] {
      assert ([e] + es)[1..] == es;
      ArcTotalCons(e, es, vs[1..]);
    }
  }

  /** A node of a duplicate-free sequence occurs in it once. */
  lemma {:induction false} OccursOnce(vs: seq<Node>, x: Node)
    requires NoDup(vs)
    ensures Occurrences(vs, x) == if x in vs then 1 else 0
  {
    if vs != [] {
      assert NoDup(vs[1..]) by {
        forall i, j | 0 <= i < j < |vs| - 1
          ensures vs[1..][i] != vs[1..][j]
        {
          assert vs[1..][i] == vs[i + 1] && vs[1..][j] == vs[j + 1];
        }
      }
      OccursOnce(vs[1..], x);
      if vs[0] == x {
        assert x !in vs[1..] by {
          forall j | 0 <= j < |vs| - 1
            ensures vs[1..][j] != x
          {
            assert vs[1..][j] == vs[j + 1];
          }
        }
      }
      assert x in vs <==> vs[0] == x || x in vs[1..];
    }
  }

  /** Over duplicate-free nodes covering every `from`, the edges leaving them are all the edges. */
  lemma {:induction false} ArcTotalCounts(es: seq<Edge>, vs: seq<Node>)
    requires NoDup(vs)
    requires forall e :: e in es ==> e.from in vs
    ensures ArcTotal(es, vs) == |es|
  {
    if es == [] {
      ArcTotalEmpty(vs);
    } else {
      ArcTotalCons(es[0], es[1..], vs);
      assert es == [es[0]] + es[1..];
      OccursOnce(vs, es[0].from);
      ArcTotalCounts(es[1..], vs);
    }
  }

  lemma {:induction false} ArcTotalEmpty(vs: seq<Node>)
    ensures ArcTotal([], vs) == 0
  {
    if vs != [] {
      ArcTotalEmpty(vs[1..]);
    }
  }

  /** The arc lists of the adjacency map, over the node list, hold `M` arcs together. */
  lemma ArcsSumToEdges(es: seq<Edge>)
    ensures OutTotal(AdjacencyOf(es), FirstSeen(es)) == |es|
  {
    FirstSeenOrder(es);
    forall e | e in es
      ensures e.from in FirstSeen(es)
    {
      EndpointsMember(es, e);
    }
    OutTotalIsArcTotal(es, FirstSeen(es));
    ArcTotalCounts(es, FirstSeen(es));
  }

  /** The endpoints of the edges in order: `from` then `to` of each. */
  function Endpoints(es: seq<Edge>): seq<Node>
  {
    if es == [] then [] else [es[0].from, es[0].to] + Endpoints(es[1..])
  }

  lemma {:induction false} EndpointsSnoc(es: seq<Edge>, e: Edge)
    ensures Endpoints(es + [e]) == Endpoints(es) + [e.from, e.to]
  {
    if es != [] {
      assert (es + [e])[1..] == es[1..] + [e];
      EndpointsSnoc(es[1..], e);
    }
  }

  /** Both ends of every edge are endpoints. */
  lemma {:induction false} EndpointsMember(es: seq<Edge>, e: Edge)
    requires e in es
    ensures e.from in Endpoints(es) && e.to in Endpoints(es)
  {
    if es[0] != e {
      EndpointsMember(es[1..], e);
    }
  }

  /** No node occurs twice. */
  ghost predicate NoDup(ns: seq<Node>)
  {
    forall i, j :: 0 <= i < j < |ns| ==> ns[i] != ns[j]
  }

  /** The index of the first occurrence of `v` in `xs`. */
  function FirstIndex(xs: seq<Node>, v: Node): (i: nat)
    requires v in xs
    ensures i < |xs| && xs[i] == v && v !in xs[..i]
  {
    if xs[0] == v then 0 else 1 + FirstIndex(xs[1..], v)
  }

  /** Extending a sequence keeps the first occurrence of every node already in it. */
  lemma FirstIndexPrefix(xs: seq<Node>, ys: seq<Node>, v: Node)
    requires v in xs
    ensures FirstIndex(xs + ys, v) == FirstIndex(xs, v)
  {
    var i := FirstIndex(xs, v);
    var j := FirstIndex(xs + ys, v);
    assert (xs + ys)[..i] == xs[..i];
    assert (xs + ys)[i] == v;
  }

  /**
   * `ns` lists each node of `xs` once, in the order of their first
   * occurrences in `xs`.
   */
  ghost predicate FirstOccurrences(ns: seq<Node>, xs: seq<Node>)
  {
    && NoDup(ns)
    && (forall v :: v in ns <==> v in xs)
    && forall i, j :: 0 <= i < j < |ns| ==> ns[i] in xs && ns[j] in xs && FirstIndex(xs, ns[i]) < FirstIndex(xs, ns[j])
  }

  /** `nodes.add(v)` keeps the list in first-occurrence order. */
  lemma AddNodeKeeps(ns: seq<Node>, xs: seq<Node>, v: Node)
    requires FirstOccurrences(ns, xs)
    ensures FirstOccurrences(AddNode(ns, v), xs + [v])
  {
    var ns', xs' := AddNode(ns, v), xs + [v];
    forall u | u in xs
      ensures FirstIndex(xs', u) == FirstIndex(xs, u)
    {
      FirstIndexPrefix(xs, [v], u);
    }
    if v !in ns {
      assert FirstIndex(xs', v) == |xs|;
      forall i, j | 0 <= i < j < |ns'|
        ensures ns'[i] in xs' && ns'[j] in xs' && FirstIndex(xs', ns'[i]) < FirstIndex(xs', ns'[j])
      {
        if j == |ns| {
          assert ns'[i] == ns[i];
        } else {
          assert ns'[i] == ns[i] && ns'[j] == ns[j];
        }
      }
    }
  }

  /**
   * The node list holds every endpoint of the edges once, in the order in
   * which the edge lines first name them.
   */
  lemma {:induction false} FirstSeenOrder(es: seq<Edge>)
    ensures FirstOccurrences(FirstSeen(es), Endpoints(es))
    decreases |es|
  {
    if es != [] {
      var es0, e := es[..|es| - 1], es[|es| - 1];
      assert es == es0 + [e];
      FirstSeenOrder(es0);
      EndpointsSnoc(es0, e);
      AddNodeKeeps(FirstSeen(es0), Endpoints(es0), e.from);
      AddNodeKeeps(AddNode(FirstSeen(es0), e.from), Endpoints(es0) + [e.from], e.to);
      assert Endpoints(es0) + [e.from] + [e.to] == Endpoints(es0) + [e.from, e.to];
    }
  }

  /**
   * Lines 1 to `m` of the input are all present and all well-formed edge
   * lines: `AllRead` restated on the input lines, for the statements about
   * `Parse` (see `PresentIsRead`).
   */
  ghost predicate EdgeLinesPresent(lines: seq<string>, m: int)
  {
    m <= 0 || (m < |lines| && forall k :: 1 <= k <= m ==> ParseEdge(lines[k]).Some?)
  }

  /** Both forms of "lines 1 to `m` are well-formed edge lines" agree. */
  lemma PresentIsRead(lines: seq<string>, m: int)
    ensures EdgeLinesPresent(lines, m) <==> AllRead(ParsedLines(lines), m)
  {
    ParsedLinesFacts(lines);
    var parsed := ParsedLines(lines);
    if m > 0 && m < |lines| {
      if EdgeLinesPresent(lines, m) {
        forall k | 1 <= k <= m
          ensures parsed[k].Some?
        {
          assert ParseEdge(lines[k]).Some?;
        }
      }
      if AllRead(parsed, m) {
        forall k | 1 <= k <= m
          ensures ParseEdge(lines[k]).Some?
        {
          assert parsed[k].Some?;
        }
      }
    }
  }

  /**
   * `parseInput` succeeds exactly when line 0 holds an integer edge count
   * `M`, lines 1 to `M` are well-formed edge lines and line `M + 1` exists
   * and names a start and a goal. Edge `k` of the result is then the
   * reading of line `k + 1`.
   */
  lemma ParseSucceeds(text: string)
    ensures var lines := Lines(text);
            var count := EdgeCount(lines[0]);
            Parse(text).Ok? <==>
              && count.Some?
              && EdgeLinesPresent(lines, count.value)
              && 0 <= count.value + 1 < |lines|
              && ParseQuery(lines[count.value + 1]).Some?
    ensures Parse(text).Ok? ==>
              var lines := Lines(text);
              var m := EdgeCount(lines[0]).value;
              var p := Parse(text).value;
              && |p.edges| == (if m <= 0 then 0 else m)
              && (forall k :: 0 <= k < |p.edges| ==> ParseEdge(lines[k + 1]) == Some(p.edges[k]))
              && ParseQuery(lines[m + 1]) == Some((p.start, p.goal))
              && p.graph == AdjacencyOf(p.edges)
              && p.nodes == FirstSeen(p.edges)
  {
    var lines := Lines(text);
    var count := EdgeCount(lines[0]);
    if count.Some? {
      var m := count.value;
      var parsed := ParsedLines(lines);
      ParsedLinesFacts(lines);
      EdgeLinesOk(parsed, m);
      PresentIsRead(lines, m);
      if EdgeLines(parsed, m).Ok? {
        var es := EdgeLines(parsed, m).value;
        forall k | 0 <= k < |es|
          ensures ParseEdge(lines[k + 1]) == Some(es[k])
        {
          assert parsed[k + 1] == Some(es[k]);
        }
      }
    }
  }

  /**
   * `FirstFailure` restated on the input lines, for the statements about
   * `Parse` (see `FailureOnLines`).
   */
  ghost predicate FirstBadLine(lines: seq<string>, m: int, err: ParseError)
  {
    match err
    case BadEdge(i) =>
      && 1 <= i <= m && i < |lines| && ParseEdge(lines[i]).None?
      && forall k :: 1 <= k < i ==> ParseEdge(lines[k]).Some?
    case MissingLine(i) =>
      && 1 <= i <= m && (i == |lines| || (i == 1 && lines == []))
      && forall k :: 1 <= k < i ==> ParseEdge(lines[k]).Some?
    case _ => false
  }

  /** A first failure on the readings is the same first failure on the lines. */
  lemma FailureOnLines(lines: seq<string>, m: int, err: ParseError)
    requires FirstFailure(ParsedLines(lines), m, err)
    ensures FirstBadLine(lines, m, err)
  {
    var parsed := ParsedLines(lines);
    ParsedLinesFacts(lines);
    match err
    case BadEdge(i) =>
      forall k | 1 <= k < i
        ensures ParseEdge(lines[k]).Some?
      {
        assert parsed[k].Some?;
      }
      assert parsed[i].None?;
    case MissingLine(i) =>
      forall k | 1 <= k < i
        ensures ParseEdge(lines[k]).Some?
      {
        assert parsed[k].Some?;
      }
  }

  /** An input with fewer than `M + 2` lines fails to parse. */
  lemma TooFewLines(text: string, m: int)
    requires EdgeCount(Lines(text)[0]) == Some(m)
    requires |Lines(text)| < m + 2
    ensures Parse(text).Err?
  {
    ParseSucceeds(text);
  }

  /**
   * `err` is what `parseInput` reports for the lines `lines`: an edge count
   * that is not an integer, the first malformed or missing edge line, the
   * line after the edges when it is past the input, or a last line without
   * a goal.
   */
  ghost predicate Cause(lines: seq<string>, err: ParseError)
  {
    && lines != []
    && match EdgeCount(lines[0])
       case None => err == BadCount
       case Some(m) =>
         match err
         case BadCount => false
         case MissingGoal =>
           && EdgeLinesPresent(lines, m)
           && 0 <= m + 1 < |lines|
           && ParseQuery(lines[m + 1]).None?
         case _ =>
           || FirstBadLine(lines, m, err)
           || (err == MissingLine(m + 1) && EdgeLinesPresent(lines, m) && (m + 1 < 0 || |lines| <= m + 1))
  }

  /** Every error of `parseInput` names its cause. */
  lemma ParseFails(text: string)
    ensures Parse(text).Err? ==> Cause(Lines(text), Parse(text).error)
  {
    var lines := Lines(text);
    var count := EdgeCount(lines[0]);
    if count.Some? {
      var m := count.value;
      var parsed := ParsedLines(lines);
      EdgeLinesOk(parsed, m);
      EdgeLinesErr(parsed, m);
      PresentIsRead(lines, m);
      if EdgeLines(parsed, m).Err? {
        FailureOnLines(lines, m, EdgeLines(parsed, m).error);
      }
    }
  }

  /** Lines 1 to `|es|` that read as the edges `es` give exactly `es`. */
  lemma EdgeLinesOf(lines: seq<string>, es: seq<Edge>)
    requires |es| < |lines|
    requires forall k :: 0 <= k < |es| ==> ParseEdge(lines[k + 1]) == Some(es[k])
    ensures EdgeLines(ParsedLines(lines), |es|) == Ok(es)
  {
    var parsed := ParsedLines(lines);
    ParsedLinesFacts(lines);
    forall k | 1 <= k <= |es|
      ensures parsed[k] == Some(es[k - 1])
    {
      assert ParseEdge(lines[k - 1 + 1]) == Some(es[k - 1]);
    }
    EdgeLinesOk(parsed, |es|);
    var r := EdgeLines(parsed, |es|).value;
    assert forall k :: 0 <= k < |es| ==> parsed[k + 1] == Some(r[k]);
    assert r == es;
  }
}
