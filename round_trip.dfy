/**
 * The input format of `parseInput` (dijkstra.js:91-124) written out: a
 * header `N M`, one line `from to deaths` per edge and a last line
 * `start goal`. Parsing the text of any graph whose names are non-empty
 * and free of white space gives back its edges, in order, with the start
 * and the goal.
 */
module RoundTrip {
  import opened Wrappers
  import opened Graph
  import opened Text
  import opened Parser
  import opened ParseFacts

  /** A name the format can carry: non-empty and without white space. */
  ghost predicate Plain(v: string)
  {
    v != [] && forall k :: 0 <= k < |v| ==> !IsSpace(v[k])
  }

  /** The line of one edge: `from to deaths`. */
  function EdgeText(e: Edge): string
  {
    Join([e.from, e.to, IntString(e.deaths)], ' ')
  }

  /** The edge lines, one per edge. */
  function EdgeTexts(es: seq<Edge>): (ls: seq<string>)
    ensures |ls| == |es|
  {
    if es == [] then [] else [EdgeText(es[0])] + EdgeTexts(es[1..])
  }

  /** The lines of the input: the header `n M` (`M` the number of edges), the edge lines and `start goal`. */
  function InputLines(n: int, es: seq<Edge>, start: Node, goal: Node): seq<string>
  {
    [Join([IntString(n), IntString(|es|)], ' ')] + EdgeTexts(es) + [Join([start, goal], ' ')]
  }

  /** The input text for the graph with edges `es` and the query `start goal`. */
  function Format(n: int, es: seq<Edge>, start: Node, goal: Node): string
  {
    Join(InputLines(n, es, start, goal), '\n')
  }

  /** A numeral is a plain name ending in a decimal digit. */
  lemma IntStringPlain(n: int)
    ensures Plain(IntString(n))
    ensures DigitValue(IntString(n)[|IntString(n)| - 1]) < 10
  {
    var ds := NatString(if n < 0 then -n else n);
    forall k | 0 <= k < |ds|
      ensures !IsSpace(ds[k])
    {
      assert DigitValue(ds[k]) < 10;
    }
    if n < 0 {
      assert IntString(n) == ['-'] + ds;
      forall k | 0 <= k < |IntString(n)|
        ensures !IsSpace(IntString(n)[k])
      {
        if k > 0 {
          assert IntString(n)[k] == ds[k - 1];
        }
      }
    }
  }

  /** A join of non-empty pieces starts with the first piece's first character and ends with the last piece's last. */
  lemma {:induction false} JoinEnds(ps: seq<string>, c: char)
    requires ps != [] && forall k :: 0 <= k < |ps| ==> ps[k] != []
    ensures var s := Join(ps, c);
            s != [] && s[0] == ps[0][0] && s[|s| - 1] == ps[|ps| - 1][|ps[|ps| - 1]| - 1]
  {
    if |ps| > 1 {
      JoinEnds(ps[1..], c);
    }
  }

  /** A character other than the separator is in a join only if it is in a piece. */
  lemma {:induction false} JoinWithout(ps: seq<string>, c: char, d: char)
    requires d != c
    requires forall k :: 0 <= k < |ps| ==> d !in ps[k]
    ensures d !in Join(ps, c)
  {
    if |ps| > 1 {
      JoinWithout(ps[1..], c, d);
    }
  }

  /** Plain names joined by single spaces: the line trims to itself and splits back into the names. */
  lemma WordsLine(ps: seq<string>)
    requires ps != []
    requires forall k :: 0 <= k < |ps| ==> Plain(ps[k])
    ensures Trim(Join(ps, ' ')) == Join(ps, ' ')
    ensures Split(Trim(Join(ps, ' ')), ' ') == ps
    ensures '\n' !in Join(ps, ' ')
  {
    JoinEnds(ps, ' ');
    TrimNoSpace(Join(ps, ' '));
    forall k | 0 <= k < |ps|
      ensures ' ' !in ps[k] && '\n' !in ps[k]
    {
      assert IsSpace(' ') && IsSpace('\n');
    }
    JoinSplit(ps, ' ');
    JoinWithout(ps, ' ', '\n');
  }

  /** An edge between plain names reads back from its line. */
  lemma EdgeTextParses(e: Edge)
    requires Plain(e.from) && Plain(e.to)
    ensures ParseEdge(EdgeText(e)) == Some(e)
    ensures '\n' !in EdgeText(e) && EdgeText(e) != []
  {
    var ps := [e.from, e.to, IntString(e.deaths)];
    IntStringPlain(e.deaths);
    WordsLine(ps);
    JoinEnds(ps, ' ');
    ParseIntOfIntString(e.deaths, []);
    assert IntString(e.deaths) + [] == IntString(e.deaths);
  }

  lemma {:induction false} EdgeTextsAt(es: seq<Edge>, k: nat)
    requires k < |es|
    ensures EdgeTexts(es)[k] == EdgeText(es[k])
  {
    if k > 0 {
      EdgeTextsAt(es[1..], k - 1);
    }
  }

  /** Every edge between plain names comes back from its line of `InputLines`. */
  lemma InputLinesAt(n: int, es: seq<Edge>, start: Node, goal: Node, k: nat)
    requires k < |es|
    requires Plain(es[k].from) && Plain(es[k].to)
    ensures InputLines(n, es, start, goal)[k + 1] == EdgeText(es[k])
    ensures ParseEdge(InputLines(n, es, start, goal)[k + 1]) == Some(es[k])
  {
    EdgeTextsAt(es, k);
    EdgeTextParses(es[k]);
  }

  /** The edges of `es` are the edge lines of the formatted input. */
  lemma EdgesBack(n: int, es: seq<Edge>, start: Node, goal: Node)
    requires forall e :: e in es ==> Plain(e.from) && Plain(e.to)
    ensures EdgeLines(ParsedLines(InputLines(n, es, start, goal)), |es|) == Ok(es)
  {
    var lines := InputLines(n, es, start, goal);
    forall k | 0 <= k < |es|
      ensures ParseEdge(lines[k + 1]) == Some(es[k])
    {
      InputLinesAt(n, es, start, goal, k);
    }
    EdgeLinesOf(lines, es);
  }

  /** The formatted input splits back into its lines. */
  lemma LinesBack(n: int, es: seq<Edge>, start: Node, goal: Node)
    requires forall e :: e in es ==> Plain(e.from) && Plain(e.to)
    requires Plain(start) && Plain(goal)
    ensures Lines(Format(n, es, start, goal)) == InputLines(n, es, start, goal)
  {
    var lines := InputLines(n, es, start, goal);
    var header, query := [IntString(n), IntString(|es|)], [start, goal];
    IntStringPlain(n);
    IntStringPlain(|es|);
    WordsLine(header);
    WordsLine(query);
    JoinEnds(header, ' ');
    JoinEnds(query, ' ');
    forall k | 0 <= k < |lines|
      ensures '\n' !in lines[k] && lines[k] != []
    {
      if 0 < k < |lines| - 1 {
        InputLinesAt(n, es, start, goal, k - 1);
        EdgeTextParses(es[k - 1]);
      }
    }
    JoinEnds(lines, '\n');
    TrimNoSpace(Format(n, es, start, goal));
    JoinSplit(lines, '\n');
  }

  /**
   * Parsing the formatted input of a graph whose names are plain gives
   * back its edges in order, the adjacency map and node list built from
   * them, and the start and goal; the node count `n` in the header is
   * not read.
   */
  lemma ParseFormat(n: int, es: seq<Edge>, start: Node, goal: Node)
    requires forall e :: e in es ==> Plain(e.from) && Plain(e.to)
    requires Plain(start) && Plain(goal)
    ensures Parse(Format(n, es, start, goal)) == Ok(Parsed(AdjacencyOf(es), start, goal, FirstSeen(es), es))
  {
    var lines := InputLines(n, es, start, goal);
    LinesBack(n, es, start, goal);
    IntStringPlain(n);
    IntStringPlain(|es|);
    WordsLine([IntString(n), IntString(|es|)]);
    WordsLine([start, goal]);
    NumberOfIntString(|es|);
    EdgesBack(n, es, start, goal);
  }
}
