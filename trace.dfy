/**
 * The step trace the search records for replay. Each step is a tagged
 * record holding value copies of the distance table, the visited set and
 * (except for `goal`) the frontier at the moment it was appended; `Follows`
 * says how a step relates to the one before it, and the lemmas derive the
 * trace-wide properties from that.
 */
module Trace {
  import opened Graph
  import opened Frontier

  /**
   * The four step kinds of the trace. The human-readable message of each
   * is not kept; the numbers it shows are: `deaths` is the distance the
   * current node was popped with, `newDeaths` the relaxed distance and
   * `arcDeaths` the weight of the arc relaxed.
   */
  datatype Step =
    | Start(node: Node, distances: map<Node, int>, queue: seq<Entry>, visited: set<Node>)
    | Visit(node: Node, deaths: int, distances: map<Node, int>, visited: set<Node>, queue: seq<Entry>)
    | Goal(node: Node, deaths: int, distances: map<Node, int>, visited: set<Node>)
    | Update(node: Node, updated: Node, newDeaths: int, arcDeaths: int,
             distances: map<Node, int>, visited: set<Node>, queue: seq<Entry>)

  /** The distance the current node of a step was reached with (0 before the first visit). */
  function Base(s: Step): int
  {
    match s
    case Start(_, _, _, _) => 0
    case Visit(_, d, _, _, _) => d
    case Goal(_, d, _, _) => d
    case Update(_, _, nd, w, _, _, _) => nd - w
  }

  /** Every key of `before` is still present in `after`, with a value no larger. */
  ghost predicate NoWorse(before: map<Node, int>, after: map<Node, int>)
  {
    before.Keys <= after.Keys && forall v :: v in before ==> after[v] <= before[v]
  }

  /** How a step `s` of the trace relates to the step `prev` just before it. */
  ghost predicate Follows(g: Adjacency, prev: Step, s: Step)
  {
    match s
    case Start(_, _, _, _) => false
    case Visit(u, d, dist, vis, q) =>
      // the frontier `prev` left is popped: its stale heads are skipped,
      // the entry taken names a node not yet visited, at its recorded
      // distance, and `q` is what remains; the node becomes visited
      && !prev.Goal? && Pops(prev.queue, prev.visited, Entry(d, u), q)
      && u !in prev.visited && vis == prev.visited + {u}
      && dist == prev.distances
      && u in dist && dist[u] == d
      && Base(prev) <= d
    case Goal(u, d, dist, vis) =>
      && prev.Visit? && prev.node == u && prev.deaths == d
      && dist == prev.distances && vis == prev.visited
    case Update(u, v, nd, w, dist, vis, q) =>
      // one strictly improving relaxation along an arc u -> v of weight w,
      // with one entry pushed onto the frontier
      && (prev.Visit? || prev.Update?) && prev.node == u
      && Base(s) == Base(prev)
      && u in g && Arc(v, w) in g[u]
      && v !in vis
      && (v !in prev.distances || nd < prev.distances[v])
      && dist == prev.distances[v := nd]
      && vis == prev.visited
      && q == prev.queue + [Entry(nd, v)]
  }

  /** Every step but the first follows the step just before it. */
  ghost predicate Chained(g: Adjacency, steps: seq<Step>)
  {
    forall i, j {:trigger steps[i], steps[j]} :: 0 <= i && j == i + 1 && j < |steps| ==> Follows(g, steps[i], steps[j])
  }

  /** The trace of one search from `start` towards `goal`. */
  ghost predicate ValidTrace(g: Adjacency, start: Node, goal: Node, steps: seq<Step>)
  {
    && |steps| > 0
    && steps[0] == Start(start, map[start := 0], [Entry(0, start)], {})
    && Chained(g, steps)
    && (forall i :: 0 <= i < |steps| && steps[i].Goal? ==> i == |steps| - 1 && steps[i].node == goal)
    && (forall i :: 0 <= i < |steps| && steps[i].Visit? && steps[i].node == goal ==>
          i == |steps| - 2 && steps[|steps| - 1].Goal?)
  }

  /** The visited set only grows along the trace. */
  lemma {:induction false} VisitedGrows(g: Adjacency, start: Node, goal: Node, steps: seq<Step>, i: nat, j: nat)
    requires ValidTrace(g, start, goal, steps)
    requires i <= j < |steps|
    ensures steps[i].visited <= steps[j].visited
    decreases j
  {
    if i < j {
      VisitedGrows(g, start, goal, steps, i, j - 1);
      assert Follows(g, steps[j - 1], steps[j]);
    }
  }

  /** No node is the current node of two `visit` steps. */
  lemma VisitedOnce(g: Adjacency, start: Node, goal: Node, steps: seq<Step>, i: nat, j: nat)
    requires ValidTrace(g, start, goal, steps)
    requires i < j < |steps| && steps[i].Visit? && steps[j].Visit?
    ensures steps[i].node != steps[j].node
  {
    assert Follows(g, steps[i - 1], steps[i]);
    assert Follows(g, steps[j - 1], steps[j]);
    VisitedGrows(g, start, goal, steps, i, j - 1);
  }

  /** A recorded distance is never removed and never increases along the trace. */
  lemma {:induction false} DistancesNeverIncrease(g: Adjacency, start: Node, goal: Node, steps: seq<Step>, i: nat, j: nat)
    requires ValidTrace(g, start, goal, steps)
    requires i <= j < |steps|
    ensures NoWorse(steps[i].distances, steps[j].distances)
    decreases j
  {
    if i < j {
      DistancesNeverIncrease(g, start, goal, steps, i, j - 1);
      assert Follows(g, steps[j - 1], steps[j]);
    }
  }

  /** Each `update` step lowers its node's distance below every value recorded for it earlier. */
  lemma UpdateImproves(g: Adjacency, start: Node, goal: Node, steps: seq<Step>, i: nat, j: nat)
    requires ValidTrace(g, start, goal, steps)
    requires i < j < |steps| && steps[j].Update?
    requires steps[j].updated in steps[i].distances
    ensures steps[j].updated in steps[j].distances && steps[j].distances[steps[j].updated] == steps[j].newDeaths
    ensures steps[j].newDeaths < steps[i].distances[steps[j].updated]
  {
    assert Follows(g, steps[j - 1], steps[j]);
    DistancesNeverIncrease(g, start, goal, steps, i, j - 1);
  }

  /** The distance of the current node never decreases along the trace. */
  lemma {:induction false} BaseGrows(g: Adjacency, start: Node, goal: Node, steps: seq<Step>, i: nat, j: nat)
    requires ValidTrace(g, start, goal, steps)
    requires i <= j < |steps|
    ensures Base(steps[i]) <= Base(steps[j])
    decreases j
  {
    if i < j {
      BaseGrows(g, start, goal, steps, i, j - 1);
      assert Follows(g, steps[j - 1], steps[j]);
    }
  }

  /** Nodes are visited in order of non-decreasing distance. */
  lemma VisitsInDistanceOrder(g: Adjacency, start: Node, goal: Node, steps: seq<Step>, i: nat, j: nat)
    requires ValidTrace(g, start, goal, steps)
    requires i < j < |steps| && steps[i].Visit? && steps[j].Visit?
    ensures steps[i].deaths <= steps[j].deaths
  {
    BaseGrows(g, start, goal, steps, i, j);
  }

  /** A node present in a step's visited snapshot is never relaxed afterwards. */
  lemma VisitedNeverRelaxed(g: Adjacency, start: Node, goal: Node, steps: seq<Step>, i: nat, j: nat)
    requires ValidTrace(g, start, goal, steps)
    requires i < j < |steps| && steps[j].Update?
    ensures steps[j].updated !in steps[i].visited
  {
    assert Follows(g, steps[j - 1], steps[j]);
    VisitedGrows(g, start, goal, steps, i, j);
  }

  /** The visited snapshot of a `visit` step holds the node it visits. */
  lemma VisitSeesItself(g: Adjacency, start: Node, goal: Node, steps: seq<Step>, i: nat)
    requires ValidTrace(g, start, goal, steps)
    requires i < |steps| && steps[i].Visit?
    ensures steps[i].node in steps[i].visited
  {
    assert Follows(g, steps[i - 1], steps[i]);
  }

  /**
   * The frontier of a `visit` step is the frontier of the step before it
   * less the entry popped and some stale entries; the popped entry was no
   * larger than any entry of an unvisited node, and none that remain is
   * smaller.
   */
  lemma VisitPopsFrontier(g: Adjacency, start: Node, goal: Node, steps: seq<Step>, i: nat)
    requires ValidTrace(g, start, goal, steps)
    requires 0 < i < |steps| && steps[i].Visit?
    ensures !steps[i - 1].Goal?
    ensures multiset(steps[i].queue) + multiset{Entry(steps[i].deaths, steps[i].node)} <= multiset(steps[i - 1].queue)
    ensures forall x :: x in steps[i - 1].queue && x.node !in steps[i - 1].visited ==> steps[i].deaths <= x.d
    ensures forall x :: x in steps[i].queue ==> steps[i].deaths <= x.d
  {
    assert Follows(g, steps[i - 1], steps[i]);
    PopsFacts(steps[i - 1].queue, steps[i - 1].visited, Entry(steps[i].deaths, steps[i].node), steps[i].queue);
  }
}
