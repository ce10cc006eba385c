/**
 * Two inputs on which equally heavy alternatives exist, showing that the
 * model fixes the same choice as `dijkstra`: the first strict improvement
 * wins a parent, and the stable sort visits tied nodes in frontier order.
 */
module Ties {
  import opened Graph
  import opened Frontier
  import opened Trace
  import opened Engine

  /** The input `a b 2`, `a c 1`, `c b 1`: both walks from `a` to `b` weigh 2. */
  function TieGraph(a: Node, b: Node, c: Node): Adjacency
  {
    map[a := [Arc(b, 2), Arc(c, 1)], c := [Arc(b, 1)]]
  }

  /** Round 1 visits `a` and gives `b` and `c` their first distances, both with parent `a`. */
  lemma TieRound1(a: Node, b: Node, c: Node)
    requires a != b && b != c && a != c
    ensures var r := Run(TieGraph(a, b, c), b, Initial(a), 1);
      && !Halted(r) && r.0.pq == [Entry(2, b), Entry(1, c)] && r.0.visited == {a}
      && r.0.dist == map[a := 0, b := 2, c := 1] && r.0.parent == map[b := a, c := a]
  {
    var g := TieGraph(a, b, c);
    var s0 := Initial(a);
    assert SortByDist(s0.pq) == [Entry(0, a)];
    assert Out(g, a) == [Arc(b, 2), Arc(c, 1)];
    assert s0.visited + {a} == {a} && SortByDist(s0.pq)[1..] == [];
    var v1 := State(s0.dist, s0.parent, [], s0.steps + [Visit(a, 0, s0.dist, {a}, [])], {a});
    assert Run(g, b, s0, 1) == Next(g, b, s0) == VisitRound(g, b, s0, a, 0, []);
    assert [Arc(b, 2), Arc(c, 1)][..1] == [Arc(b, 2)] && [Arc(b, 2)][..0] == [];
    var a1 := ArcEffect(a, 0, Arc(b, 2), v1);
    assert RelaxAll(a, 0, [Arc(b, 2)], v1) == a1;
    assert a1.pq == [Entry(2, b)] && a1.dist == map[a := 0, b := 2] && a1.parent == map[b := a];
  }

  /** Round 2 visits `c`; its arc to `b` ties at 2 and does not replace `b`'s parent. */
  lemma TieRound2(a: Node, b: Node, c: Node)
    requires a != b && b != c && a != c
    ensures var r := Run(TieGraph(a, b, c), b, Initial(a), 2);
      && !Halted(r) && r.0.pq == [Entry(2, b)] && r.0.dist == map[a := 0, b := 2, c := 1]
      && r.0.parent == map[b := a, c := a]
  {
    var g := TieGraph(a, b, c);
    TieRound1(a, b, c);
    var s1 := Run(g, b, Initial(a), 1).0;
    assert s1.pq[1..] == [Entry(1, c)] && SortByDist([Entry(1, c)]) == [Entry(1, c)];
    assert Insert(Entry(2, b), [Entry(1, c)]) == [Entry(1, c)] + Insert(Entry(2, b), []);
    assert SortByDist(s1.pq) == [Entry(1, c), Entry(2, b)];
    assert Out(g, c) == [Arc(b, 1)] && [Arc(b, 1)][..0] == [];
    assert Run(g, b, Initial(a), 2) == Next(g, b, s1);
    assert SortByDist(s1.pq)[1..] == [Entry(2, b)];
    assert Next(g, b, s1) == VisitRound(g, b, s1, c, 1, [Entry(2, b)]);
    var w := State(s1.dist, s1.parent, [Entry(2, b)], s1.steps + [Visit(c, 1, s1.dist, s1.visited + {c}, [Entry(2, b)])],
                   s1.visited + {c});
    assert RelaxAll(c, 1, [], w) == w;
    assert ArcEffect(c, 1, Arc(b, 1), w) == w;
  }

  /** Round 3 pops `b`, the goal, and the search stops. */
  lemma TieRun(a: Node, b: Node, c: Node)
    requires a != b && b != c && a != c
    ensures var r := Run(TieGraph(a, b, c), b, Initial(a), 3);
      && Halted(r) && r.0.dist == map[a := 0, b := 2, c := 1] && r.0.parent == map[b := a, c := a]
  {
    TieRound2(a, b, c);
    var s2 := Run(TieGraph(a, b, c), b, Initial(a), 2).0;
    assert SortByDist(s2.pq) == [Entry(2, b)];
    assert Run(TieGraph(a, b, c), b, Initial(a), 3) == Next(TieGraph(a, b, c), b, s2);
  }

  /**
   * On that input the search keeps the first parent of `b`: the path is
   * `a b`, not the equally heavy `a c b`.
   */
  lemma TiePath(a: Node, b: Node, c: Node, r: SearchResult)
    requires a != b && b != c && a != c
    requires exists k: nat :: Halted(Run(TieGraph(a, b, c), b, Initial(a), k)) &&
                              Reports(b, Run(TieGraph(a, b, c), b, Initial(a), k).0, r)
    ensures r.path == [a, b] && r.minDeaths == 2
  {
    var g := TieGraph(a, b, c);
    var k: nat :| Halted(Run(g, b, Initial(a), k)) && Reports(b, Run(g, b, Initial(a), k).0, r);
    TieRun(a, b, c);
    RunDetermined(g, b, Initial(a), k, 3);
    var parent := map[b := a, c := a];
    assert ParentChain(parent, [a, b], b);
    ChainUnique(parent, r.path, [a, b], b);
  }

  /** The input `a b 1`, `a c 1`, `b d 1`, `c d 1`: `b` and `c` tie at distance 1. */
  function DiamondGraph(a: Node, b: Node, c: Node, d: Node): Adjacency
  {
    map[a := [Arc(b, 1), Arc(c, 1)], b := [Arc(d, 1)], c := [Arc(d, 1)]]
  }

  /** The nodes are pairwise distinct. */
  predicate Distinct4(a: Node, b: Node, c: Node, d: Node)
  {
    a != b && a != c && a != d && b != c && b != d && c != d
  }

  /** Round 1 visits `a`; `b` then `c` enter the frontier at distance 1. */
  lemma DiamondRound1(a: Node, b: Node, c: Node, d: Node)
    requires Distinct4(a, b, c, d)
    ensures var r := Run(DiamondGraph(a, b, c, d), d, Initial(a), 1);
      && !Halted(r) && r.0.pq == [Entry(1, b), Entry(1, c)] && r.0.visited == {a}
      && r.0.dist == map[a := 0, b := 1, c := 1] && r.0.parent == map[b := a, c := a] && |r.0.steps| == 4
  {
    var g := DiamondGraph(a, b, c, d);
    var s0 := Initial(a);
    assert SortByDist(s0.pq) == [Entry(0, a)];
    assert Out(g, a) == [Arc(b, 1), Arc(c, 1)];
    assert s0.visited + {a} == {a} && SortByDist(s0.pq)[1..] == [];
    var v1 := State(s0.dist, s0.parent, [], s0.steps + [Visit(a, 0, s0.dist, {a}, [])], {a});
    assert Run(g, d, s0, 1) == Next(g, d, s0) == VisitRound(g, d, s0, a, 0, []);
    assert [Arc(b, 1), Arc(c, 1)][..1] == [Arc(b, 1)] && [Arc(b, 1)][..0] == [];
    var a1 := ArcEffect(a, 0, Arc(b, 1), v1);
    assert RelaxAll(a, 0, [Arc(b, 1)], v1) == a1;
    assert a1.pq == [Entry(1, b)] && a1.dist == map[a := 0, b := 1] && a1.parent == map[b := a] && |a1.steps| == 3;
  }

  /** Round 2: the stable sort keeps `b` ahead of `c`, so `b` is visited and relaxes `d`. */
  lemma DiamondRound2(a: Node, b: Node, c: Node, d: Node)
    requires Distinct4(a, b, c, d)
    ensures var r := Run(DiamondGraph(a, b, c, d), d, Initial(a), 2);
      && !Halted(r) && r.0.pq == [Entry(1, c), Entry(2, d)] && r.0.visited == {a, b}
      && r.0.dist == map[a := 0, b := 1, c := 1, d := 2] && r.0.parent == map[b := a, c := a, d := b]
      && |r.0.steps| == 6 && r.0.steps[4].Visit? && r.0.steps[4].node == b
  {
    var g := DiamondGraph(a, b, c, d);
    DiamondRound1(a, b, c, d);
    var s1 := Run(g, d, Initial(a), 1).0;
    assert s1.pq[1..] == [Entry(1, c)] && SortByDist([Entry(1, c)]) == [Entry(1, c)];
    assert SortByDist(s1.pq) == [Entry(1, b), Entry(1, c)];
    assert Out(g, b) == [Arc(d, 1)] && [Arc(d, 1)][..0] == [];
    assert Run(g, d, Initial(a), 2) == Next(g, d, s1);
    assert SortByDist(s1.pq)[1..] == [Entry(1, c)];
    assert Next(g, d, s1) == VisitRound(g, d, s1, b, 1, [Entry(1, c)]);
    var w := State(s1.dist, s1.parent, [Entry(1, c)], s1.steps + [Visit(b, 1, s1.dist, s1.visited + {b}, [Entry(1, c)])],
                   s1.visited + {b});
    assert RelaxAll(b, 1, [], w) == w;
    assert s1.visited + {b} == {a, b};
  }

  /** Round 3 visits `c`; its arc to `d` ties at 2 and changes nothing. */
  lemma DiamondRound3(a: Node, b: Node, c: Node, d: Node)
    requires Distinct4(a, b, c, d)
    ensures var r := Run(DiamondGraph(a, b, c, d), d, Initial(a), 3);
      && !Halted(r) && r.0.pq == [Entry(2, d)] && r.0.dist == map[a := 0, b := 1, c := 1, d := 2]
      && r.0.parent == map[b := a, c := a, d := b] && |r.0.steps| == 7 && r.0.steps[4].Visit? && r.0.steps[4].node == b
  {
    var g := DiamondGraph(a, b, c, d);
    DiamondRound2(a, b, c, d);
    var s2 := Run(g, d, Initial(a), 2).0;
    assert s2.pq[1..] == [Entry(2, d)] && SortByDist([Entry(2, d)]) == [Entry(2, d)];
    assert Insert(Entry(1, c), [Entry(2, d)]) == [Entry(1, c), Entry(2, d)];
    assert SortByDist(s2.pq) == [Entry(1, c), Entry(2, d)];
    assert Out(g, c) == [Arc(d, 1)] && [Arc(d, 1)][..0] == [];
    assert Run(g, d, Initial(a), 3) == Next(g, d, s2);
    assert SortByDist(s2.pq)[1..] == [Entry(2, d)];
    assert Next(g, d, s2) == VisitRound(g, d, s2, c, 1, [Entry(2, d)]);
    var w := State(s2.dist, s2.parent, [Entry(2, d)], s2.steps + [Visit(c, 1, s2.dist, s2.visited + {c}, [Entry(2, d)])],
                   s2.visited + {c});
    assert RelaxAll(c, 1, [], w) == w;
    assert ArcEffect(c, 1, Arc(d, 1), w) == w;
  }

  /** Round 4 pops `d`, the goal, and the search stops. */
  lemma DiamondRun(a: Node, b: Node, c: Node, d: Node)
    requires Distinct4(a, b, c, d)
    ensures var r := Run(DiamondGraph(a, b, c, d), d, Initial(a), 4);
      && Halted(r) && r.0.dist == map[a := 0, b := 1, c := 1, d := 2]
      && r.0.parent == map[b := a, c := a, d := b] && |r.0.steps| > 4 && r.0.steps[4].Visit? && r.0.steps[4].node == b
  {
    var g := DiamondGraph(a, b, c, d);
    DiamondRound3(a, b, c, d);
    var s3 := Run(g, d, Initial(a), 3).0;
    assert SortByDist(s3.pq) == [Entry(2, d)];
    assert Run(g, d, Initial(a), 4) == Next(g, d, s3);
  }

  /**
   * On that input the search visits `b`, the first of the tied nodes to
   * enter the frontier, before `c`, and the path runs through `b`.
   */
  lemma DiamondOrder(a: Node, b: Node, c: Node, d: Node, r: SearchResult)
    requires Distinct4(a, b, c, d)
    requires exists k: nat :: Halted(Run(DiamondGraph(a, b, c, d), d, Initial(a), k)) &&
                              Reports(d, Run(DiamondGraph(a, b, c, d), d, Initial(a), k).0, r)
    ensures |r.steps| > 4 && r.steps[4].Visit? && r.steps[4].node == b
    ensures r.path == [a, b, d] && r.minDeaths == 2
  {
    var g := DiamondGraph(a, b, c, d);
    var k: nat :| Halted(Run(g, d, Initial(a), k)) && Reports(d, Run(g, d, Initial(a), k).0, r);
    DiamondRun(a, b, c, d);
    RunDetermined(g, d, Initial(a), k, 4);
    var parent := map[b := a, c := a, d := b];
    assert ParentChain(parent, [a, b, d], d);
    ChainUnique(parent, r.path, [a, b, d], d);
  }
}
