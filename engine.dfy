/**
 * The shortest-path engine `dijkstra(graph, start, goal)`: Dijkstra's
 * algorithm over an array-backed frontier that is re-sorted every round,
 * stale entries skipped on pop, an early stop at the goal, a trace of
 * snapshot steps, and the path rebuilt from parent pointers.
 */
module Engine {
  import opened Wrappers
  import opened Graph
  import opened Frontier
  import opened Trace

  /** The result `{minDeaths, path, steps, allDistances}`. */
  datatype SearchResult = SearchResult(minDeaths: int, path: seq<Node>, steps: seq<Step>, allDistances: map<Node, int>)

  /**
   * The state the search works on: the distance table, the parent table,
   * the frontier, the trace and the visited set.
   */
  datatype State = State(dist: map<Node, int>, parent: map<Node, Node>, pq: seq<Entry>, steps: seq<Step>,
                         visited: set<Node>)

  /** The state before the first round (dijkstra.js:4-20). */
  function Initial(start: Node): State
  {
    State(map[start := 0], map[], [Entry(0, start)], [Start(start, map[start := 0], [Entry(0, start)], {})], {})
  }

  /**
   * Relaxing the arc `a` of `u`, visited at distance `d` (dijkstra.js:52-67):
   * on a strict improvement, `a.to` gets distance `d + a.deaths` and parent
   * `u`, an entry is pushed and an `update` step appended; otherwise the
   * state is unchanged.
   */
  function ArcEffect(u: Node, d: int, a: Arc, s: State): State
  {
    var nd := d + a.deaths;
    if a.to !in s.dist || nd < s.dist[a.to] then
      var dist, pq := s.dist[a.to := nd], s.pq + [Entry(nd, a.to)];
      State(dist, s.parent[a.to := u], pq, s.steps + [Update(u, a.to, nd, a.deaths, dist, s.visited, pq)], s.visited)
    else s
  }

  /** Relaxing the arcs `arcs` of `u` one after the other, in order (dijkstra.js:51-69). */
  function RelaxAll(u: Node, d: int, arcs: seq<Arc>, s: State): State
  {
    if arcs == [] then s else ArcEffect(u, d, arcs[|arcs| - 1], RelaxAll(u, d, arcs[..|arcs| - 1], s))
  }

  /** Relaxing the first `k + 1` arcs is relaxing the first `k`, then arc `k`. */
  lemma RelaxAllStep(u: Node, d: int, arcs: seq<Arc>, k: nat, s: State)
    requires k < |arcs|
    ensures RelaxAll(u, d, arcs[..k + 1], s) == ArcEffect(u, d, arcs[k], RelaxAll(u, d, arcs[..k], s))
  {
    assert arcs[..k + 1][..k] == arcs[..k];
  }

  /**
   * A round that visits `u`, popped at distance `d` with `rest` left in the
   * frontier (dijkstra.js:28-70): the `visit` step, then the `goal` step
   * and the end of the search, or the relaxation of `u`'s arcs.
   */
  function VisitRound(g: Adjacency, goal: Node, s: State, u: Node, d: int, rest: seq<Entry>): (State, bool)
  {
    var visited := s.visited + {u};
    var steps := s.steps + [Visit(u, d, s.dist, visited, rest)];
    if u == goal then (State(s.dist, s.parent, rest, steps + [Goal(goal, d, s.dist, visited)], visited), true)
    else (RelaxAll(u, d, Out(g, u), State(s.dist, s.parent, rest, steps, visited)), false)
  }

  /**
   * One round of the main loop (dijkstra.js:23-70): sort the frontier and
   * shift its head; a head of a visited node only leaves the rest of the
   * sorted frontier, any other is visited. The flag tells whether the goal
   * was reached.
   */
  function Next(g: Adjacency, goal: Node, s: State): (State, bool)
    requires s.pq != []
  {
    SortLength(s.pq);
    var sorted := SortByDist(s.pq);
    if sorted[0].node in s.visited then (s.(pq := sorted[1..]), false)
    else VisitRound(g, goal, s, sorted[0].node, sorted[0].d, sorted[1..])
  }

  /** The loop has stopped: the goal was reached or the frontier is empty. */
  predicate Halted(r: (State, bool))
  {
    r.1 || r.0.pq == []
  }

  /** The state after `k` rounds of the main loop from `s`, stopping early once the loop stops. */
  function Run(g: Adjacency, goal: Node, s: State, k: nat): (State, bool)
  {
    if k == 0 then (s, false)
    else
      var r := Run(g, goal, s, k - 1);
      if Halted(r) then r else Next(g, goal, r.0)
  }

  /** Once the loop has stopped, further rounds change nothing. */
  lemma {:induction false} RunStays(g: Adjacency, goal: Node, s: State, k: nat, k': nat)
    requires k <= k' && Halted(Run(g, goal, s, k))
    ensures Run(g, goal, s, k') == Run(g, goal, s, k)
    decreases k'
  {
    if k < k' {
      RunStays(g, goal, s, k, k' - 1);
    }
  }

  /** The loop stops in exactly one state: any two stopped runs from the same state agree. */
  lemma RunDetermined(g: Adjacency, goal: Node, s: State, k1: nat, k2: nat)
    requires Halted(Run(g, goal, s, k1)) && Halted(Run(g, goal, s, k2))
    ensures Run(g, goal, s, k1) == Run(g, goal, s, k2)
  {
    if k1 <= k2 {
      RunStays(g, goal, s, k1, k2);
    } else {
      RunStays(g, goal, s, k2, k1);
    }
  }

  /**
   * `path` is the parent walk from `goal` (dijkstra.js:73-81): it ends at
   * `goal`, each node's parent is the node before it, and the first node
   * has no parent.
   */
  ghost predicate ParentChain(parent: map<Node, Node>, path: seq<Node>, goal: Node)
  {
    && path != [] && path[|path| - 1] == goal && path[0] !in parent
    && forall i :: 0 < i < |path| ==> path[i] in parent && parent[path[i]] == path[i - 1]
  }

  /** The parent walk from a node is unique. */
  lemma {:induction false} ChainUnique(parent: map<Node, Node>, p: seq<Node>, q: seq<Node>, goal: Node)
    requires ParentChain(parent, p, goal) && ParentChain(parent, q, goal)
    ensures p == q
    decreases |p|
  {
    if |p| > 1 && |q| > 1 {
      var v := parent[goal];
      assert ParentChain(parent, p[..|p| - 1], v);
      assert ParentChain(parent, q[..|q| - 1], v);
      ChainUnique(parent, p[..|p| - 1], q[..|q| - 1], v);
      assert p == p[..|p| - 1] + [goal] && q == q[..|q| - 1] + [goal];
    }
  }

  /** The result `dijkstra` returns for the final state `s` of the loop (dijkstra.js:73-88). */
  ghost predicate Reports(goal: Node, s: State, r: SearchResult)
  {
    && r.steps == s.steps && r.allDistances == s.dist
    && r.minDeaths == (if goal in s.dist then s.dist[goal] else -1)
    && (goal in s.dist ==> ParentChain(s.parent, r.path, goal))
    && (goal !in s.dist ==> r.path == [])
  }

  /** The loop's run fixes the result: two results reported from stopped runs agree. */
  lemma ReportsUnique(g: Adjacency, goal: Node, s: State, k1: nat, k2: nat, r1: SearchResult, r2: SearchResult)
    requires Halted(Run(g, goal, s, k1)) && Reports(goal, Run(g, goal, s, k1).0, r1)
    requires Halted(Run(g, goal, s, k2)) && Reports(goal, Run(g, goal, s, k2).0, r2)
    ensures r1 == r2
  {
    RunDetermined(g, goal, s, k1, k2);
    var t := Run(g, goal, s, k1).0;
    if goal in t.dist {
      ChainUnique(t.parent, r1.path, r2.path, goal);
    }
  }

  /**
   * The parent pointers form a tree rooted at `start`: every node with a
   * distance other than `start` has a parent, reached over an arc whose
   * weight (`via`) makes the distances add up, and a visited node's parent
   * was visited before it (`rank` is the visiting order).
   */
  ghost predicate ParentTree(g: Adjacency, start: Node, dist: map<Node, int>, parent: map<Node, Node>,
                             via: map<Node, int>, rank: map<Node, nat>)
  {
    && start in dist && dist[start] == 0 && start !in parent
    && (forall v :: v in dist ==> v == start || v in parent)
    && (forall v :: v in parent ==>
          && v in dist && v in via && parent[v] in rank && parent[v] in dist
          && parent[v] in g && Arc(v, via[v]) in g[parent[v]]
          && dist[v] == dist[parent[v]] + via[v]
          && (v in rank ==> rank[parent[v]] < rank[v]))
  }

  /**
   * Every frontier entry names a node with a distance no larger than the
   * entry's, and not below `floor`; every unvisited node with a distance
   * has an entry at exactly that distance.
   */
  ghost predicate FrontierOk(dist: map<Node, int>, visited: set<Node>, pq: seq<Entry>, floor: int)
  {
    && (forall e :: e in pq ==> e.node in dist && dist[e.node] <= e.d && floor <= e.d)
    && (forall v :: v in dist && v !in visited ==> Entry(dist[v], v) in pq)
  }

  /** Visited nodes have a distance, and none above `floor`. */
  ghost predicate Bounded(dist: map<Node, int>, visited: set<Node>, floor: int)
  {
    && visited <= dist.Keys
    && forall v :: v in visited ==> dist[v] <= floor
  }

  /** Visited nodes carry their shortest distance from `start`. */
  ghost predicate Shortest(g: Adjacency, start: Node, dist: map<Node, int>, visited: set<Node>)
  {
    && visited <= dist.Keys
    && forall v, p, ws :: v in visited && IsWalk(g, p, ws, start, v) ==> dist[v] <= Sum(ws)
  }

  /** Every arc leaving a node of `done` has been relaxed. */
  ghost predicate Relaxed(g: Adjacency, dist: map<Node, int>, done: set<Node>)
  {
    && done <= dist.Keys
    && forall x, a :: x in done && a in Out(g, x) ==> a.to in dist && dist[a.to] <= dist[x] + a.deaths
  }

  /** Every arc of `arcs`, leaving a node at distance `d`, has been relaxed. */
  ghost predicate ArcsRelaxed(arcs: seq<Arc>, d: int, dist: map<Node, int>)
  {
    forall j :: 0 <= j < |arcs| ==> arcs[j].to in dist && dist[arcs[j].to] <= d + arcs[j].deaths
  }

  /** `v` is the target of an arc leaving `u`. */
  ghost predicate ArcTarget(g: Adjacency, u: Node, v: Node)
  {
    exists a :: a in Out(g, u) && a.to == v
  }

  /** A trace of the search still running: no goal step yet, and the goal not visited. */
  ghost predicate PartialTrace(g: Adjacency, start: Node, goal: Node, steps: seq<Step>)
  {
    && |steps| > 0
    && steps[0] == Start(start, map[start := 0], [Entry(0, start)], {})
    && Chained(g, steps)
    && (forall i :: 0 <= i < |steps| ==> !steps[i].Goal? && !(steps[i].Visit? && steps[i].node == goal))
  }

  /** The last step of the trace shows the live distance table and visited set, and the current distance `floor`. */
  ghost predicate LastIs(steps: seq<Step>, dist: map<Node, int>, visited: set<Node>, floor: int)
  {
    |steps| > 0 && steps[|steps| - 1].distances == dist && steps[|steps| - 1].visited == visited &&
    Base(steps[|steps| - 1]) == floor
  }

  /**
   * The rounds since the last step only popped stale entries: skipping the
   * stale heads of the frontier the last step shows, or of the live
   * frontier `pq`, leaves the same entries.
   */
  ghost predicate LiveQueue(steps: seq<Step>, visited: set<Node>, pq: seq<Entry>)
  {
    |steps| > 0 && !steps[|steps| - 1].Goal? && Drain(steps[|steps| - 1].queue, visited) == Drain(pq, visited)
  }

  /**
   * Walking out of a set `S` of nodes whose arcs are all relaxed costs at
   * least the smallest distance `m` of a node outside `S`.
   */
  lemma {:induction false} ExitBound(g: Adjacency, S: set<Node>, dist: map<Node, int>, m: int,
                                     p: seq<Node>, ws: seq<int>, x: Node, t: Node)
    requires NonNegative(g)
    requires IsWalk(g, p, ws, x, t) && x in S && t !in S
    requires Relaxed(g, dist, S)
    requires forall v :: v in dist && v !in S ==> m <= dist[v]
    ensures m <= dist[x] + Sum(ws)
  {
    var y, w := p[1], ws[0];
    assert Arc(y, w) in Out(g, x);
    WalkSuffix(g, p, ws, x, t);
    if y in S {
      ExitBound(g, S, dist, m, p[1..], ws[1..], y, t);
    } else {
      WalkSumNonNegative(g, p[1..], ws[1..], y, t);
    }
  }

  /** A walk from a node of a set closed under arcs stays in that set. */
  lemma {:induction false} WalkStaysInside(g: Adjacency, K: set<Node>, p: seq<Node>, ws: seq<int>, x: Node, t: Node)
    requires IsWalk(g, p, ws, x, t) && x in K
    requires forall y, a :: y in K && a in Out(g, y) ==> a.to in K
    ensures t in K
  {
    if ws != [] {
      assert Arc(p[1], ws[0]) in Out(g, x);
      WalkSuffix(g, p, ws, x, t);
      WalkStaysInside(g, K, p[1..], ws[1..], p[1], t);
    }
  }

  /** Appending a step that follows the last one, and is neither a goal step nor the goal's visit. */
  lemma PartialExtend(g: Adjacency, start: Node, goal: Node, steps: seq<Step>, s: Step)
    requires PartialTrace(g, start, goal, steps)
    requires Follows(g, steps[|steps| - 1], s)
    requires !s.Goal? && !(s.Visit? && s.node == goal)
    ensures PartialTrace(g, start, goal, steps + [s])
  {
    var steps' := steps + [s];
    forall i, j | 0 <= i && j == i + 1 && j < |steps'|
      ensures Follows(g, steps'[i], steps'[j])
    {
      if j < |steps| {
        assert steps'[i] == steps[i] && steps'[j] == steps[j];
      }
    }
  }

  /** A trace still running is a valid trace. */
  lemma PartialIsValid(g: Adjacency, start: Node, goal: Node, steps: seq<Step>)
    requires PartialTrace(g, start, goal, steps)
    ensures ValidTrace(g, start, goal, steps)
  {
  }

  /**
   * Popping the head of the sorted frontier when its node is already
   * visited (dijkstra.js:24-30): the rest of the frontier still covers
   * every unvisited node, and it is shorter.
   */
  lemma PopVisited(dist: map<Node, int>, visited: set<Node>, q: seq<Entry>, floor: int)
    requires q != [] && SortByDist(q)[0].node in visited
    requires FrontierOk(dist, visited, q, floor)
    ensures FrontierOk(dist, visited, SortByDist(q)[1..], floor)
    ensures |SortByDist(q)[1..]| < |q|
  {
    SortByDistFacts(q);
    var s := SortByDist(q);
    assert |s| == |multiset(s)| == |multiset(q)| == |q|;
    forall e | e in s[1..]
      ensures e.node in dist && dist[e.node] <= e.d && floor <= e.d
    {
      assert e in multiset(s);
    }
    forall v | v in dist && v !in visited
      ensures Entry(dist[v], v) in s[1..]
    {
      assert Entry(dist[v], v) in multiset(q);
      assert Entry(dist[v], v) in s;
      assert s == [s[0]] + s[1..];
    }
  }

  /**
   * Popping the head `Entry(d, u)` of the sorted frontier when `u` is not
   * visited (dijkstra.js:24-37): `d` is `u`'s recorded distance, no
   * unvisited node has a smaller one, and once `u` is visited the rest of
   * the frontier covers the other unvisited nodes, none below `d`.
   */
  lemma PopUnvisited(dist: map<Node, int>, visited: set<Node>, q: seq<Entry>, floor: int, u: Node, d: int)
    requires q != [] && SortByDist(q)[0] == Entry(d, u) && u !in visited
    requires FrontierOk(dist, visited, q, floor)
    ensures u in dist && dist[u] == d && floor <= d
    ensures forall v :: v in dist && v !in visited ==> d <= dist[v]
    ensures forall e :: e in SortByDist(q)[1..] ==> d <= e.d
    ensures FrontierOk(dist, visited + {u}, SortByDist(q)[1..], d)
  {
    SortByDistFacts(q);
    var s := SortByDist(q);
    assert s[0] in multiset(s);
    assert Entry(dist[u], u) in multiset(q);
    assert Entry(dist[u], u) in s;
    forall v | v in dist && v !in visited
      ensures d <= dist[v] && Entry(dist[v], v) in s
    {
      assert Entry(dist[v], v) in multiset(q);
      var i :| 0 <= i < |s| && s[i] == Entry(dist[v], v);
      assert s[0].d <= s[i].d;
    }
    forall e | e in s[1..]
      ensures d <= e.d && e.node in dist && dist[e.node] <= e.d
    {
      var i :| 0 <= i < |s[1..]| && s[1..][i] == e;
      assert s[0].d <= s[i + 1].d;
      assert e in multiset(s);
    }
    forall v | v in dist && v !in visited + {u}
      ensures Entry(dist[v], v) in s[1..]
    {
      assert s == [s[0]] + s[1..];
    }
  }

  /**
   * Visiting `u`, the unvisited node of least distance `d`, keeps every
   * visited distance shortest: a cheaper walk to `u` would have to leave
   * the visited set over a relaxed arc into a node below `d`.
   */
  lemma VisitSettles(g: Adjacency, start: Node, dist: map<Node, int>, visited: set<Node>, floor: int, u: Node, d: int)
    requires NonNegative(g)
    requires Bounded(dist, visited, floor) && Shortest(g, start, dist, visited)
    requires Relaxed(g, dist, visited)
    requires u in dist && dist[u] == d && floor <= d && u !in visited
    requires forall v :: v in dist && v !in visited ==> d <= dist[v]
    requires visited == {} ==> u == start
    requires visited != {} ==> start in visited
    requires start in dist && dist[start] == 0
    ensures Bounded(dist, visited + {u}, d) && Shortest(g, start, dist, visited + {u})
  {
    forall v, p, ws | v in visited + {u} && IsWalk(g, p, ws, start, v)
      ensures dist[v] <= Sum(ws)
    {
      if v == u && v !in visited {
        if visited == {} {
          WalkSumNonNegative(g, p, ws, start, u);
        } else {
          ExitBound(g, visited, dist, d, p, ws, start, u);
        }
      }
    }
  }

  /** Giving the newly visited `u` the next rank keeps the parent tree. */
  lemma RankKeeps(g: Adjacency, start: Node, dist: map<Node, int>, parent: map<Node, Node>,
                  via: map<Node, int>, rank: map<Node, nat>, u: Node, n: nat)
    requires ParentTree(g, start, dist, parent, via, rank)
    requires u !in rank && forall v :: v in rank ==> rank[v] < n
    ensures ParentTree(g, start, dist, parent, via, rank[u := n])
  {
    forall v | v in parent
      ensures parent[v] in rank[u := n] && (v in rank[u := n] ==> rank[u := n][parent[v]] < rank[u := n][v])
    {
      assert parent[v] in rank && parent[v] != u;
    }
  }

  /**
   * A round that pops an entry of the unvisited `u` from the live frontier
   * `q` is the pop the last step's frontier leads to.
   */
  lemma FreshPop(steps: seq<Step>, visited: set<Node>, q: seq<Entry>, u: Node, d: int, rest: seq<Entry>)
    requires LiveQueue(steps, visited, q) && q != [] && SortByDist(q)[0] == Entry(d, u) && rest == SortByDist(q)[1..]
    requires u !in visited
    ensures Pops(steps[|steps| - 1].queue, visited, Entry(d, u), rest)
  {
    SortLength(q);
    assert Drain(q, visited) == q;
    assert SortByDist(q) == [SortByDist(q)[0]] + SortByDist(q)[1..];
  }

  /**
   * Appending the `visit` step of `u` at distance `d` (dijkstra.js:28-37)
   * to a running trace, when `u` is not the goal.
   */
  lemma VisitStep(g: Adjacency, start: Node, goal: Node, steps: seq<Step>, dist: map<Node, int>,
                  visited: set<Node>, floor: int, q: seq<Entry>, u: Node, d: int, rest: seq<Entry>)
    requires PartialTrace(g, start, goal, steps) && LastIs(steps, dist, visited, floor)
    requires LiveQueue(steps, visited, q) && q != [] && SortByDist(q)[0] == Entry(d, u) && rest == SortByDist(q)[1..]
    requires u !in visited && u in dist && dist[u] == d && floor <= d && u != goal
    ensures var steps' := steps + [Visit(u, d, dist, visited + {u}, rest)];
      RelaxTrace(g, start, goal, u, d, steps', steps', dist, visited + {u}, rest)
  {
    FreshPop(steps, visited, q, u, d, rest);
    var s := Visit(u, d, dist, visited + {u}, rest);
    assert Follows(g, steps[|steps| - 1], s);
    PartialExtend(g, start, goal, steps, s);
    assert (steps + [s])[..|steps + [s]|] == steps + [s];
  }

  /**
   * Appending the `visit` step of the goal and the `goal` step
   * (dijkstra.js:28-44) to a running trace completes a valid trace.
   */
  lemma GoalStep(g: Adjacency, start: Node, goal: Node, steps: seq<Step>, dist: map<Node, int>,
                 visited: set<Node>, floor: int, q: seq<Entry>, d: int, rest: seq<Entry>)
    requires PartialTrace(g, start, goal, steps) && LastIs(steps, dist, visited, floor)
    requires LiveQueue(steps, visited, q) && q != [] && SortByDist(q)[0] == Entry(d, goal) && rest == SortByDist(q)[1..]
    requires goal !in visited && goal in dist && dist[goal] == d && floor <= d
    ensures ValidTrace(g, start, goal, steps + [Visit(goal, d, dist, visited + {goal}, rest),
                                                Goal(goal, d, dist, visited + {goal})])
  {
    FreshPop(steps, visited, q, goal, d, rest);
    var v := Visit(goal, d, dist, visited + {goal}, rest);
    var s' := steps + [v, Goal(goal, d, dist, visited + {goal})];
    assert Follows(g, steps[|steps| - 1], v);
    forall i, j | 0 <= i && j == i + 1 && j < |s'|
      ensures Follows(g, s'[i], s'[j])
    {
      if j < |steps| {
        assert s'[i] == steps[i] && s'[j] == steps[j];
      }
    }
  }

  /**
   * The frontier ran out (dijkstra.js:22): every node with a distance is
   * visited, the visited nodes are closed under arcs, so the goal, which was
   * never visited, has no distance and no walk leads to it.
   */
  lemma Exhausted(g: Adjacency, start: Node, goal: Node, dist: map<Node, int>, visited: set<Node>, floor: int)
    requires FrontierOk(dist, visited, [], floor)
    requires Relaxed(g, dist, visited)
    requires start in dist && goal !in visited
    ensures goal !in dist
    ensures !Reachable(g, start, goal)
  {
    forall y, a | y in visited && a in Out(g, y)
      ensures a.to in visited
    {
      assert a.to in dist;
    }
    forall p, ws
      ensures !IsWalk(g, p, ws, start, goal)
    {
      if IsWalk(g, p, ws, start, goal) {
        WalkStaysInside(g, visited, p, ws, start, goal);
        assert false;
      }
    }
  }

  /** The facts the relaxation loop over the arcs of `u`, visited at distance `d`, keeps. */
  ghost predicate RelaxInv(g: Adjacency, start: Node, u: Node, d: int, dist: map<Node, int>,
                           parent: map<Node, Node>, via: map<Node, int>, rank: map<Node, nat>,
                           visited: set<Node>, pq: seq<Entry>)
  {
    && u in visited && start in visited && rank.Keys == visited
    && u in dist && dist[u] == d
    && ParentTree(g, start, dist, parent, via, rank)
    && FrontierOk(dist, visited, pq, d)
    && Bounded(dist, visited, d)
  }

  /**
   * Since `orig`, distances only went down, never at a visited node, and
   * new keys are targets of `u`'s arcs.
   */
  ghost predicate ImprovedFrom(g: Adjacency, u: Node, orig: map<Node, int>, dist: map<Node, int>, visited: set<Node>)
  {
    && NoWorse(orig, dist)
    && (forall v :: v in visited && v in orig ==> dist[v] == orig[v])
    && (forall v :: v in dist && v !in orig ==> ArcTarget(g, u, v))
  }

  /** The trace facts the relaxation loop keeps: the last step is `u`'s visit or an update from it. */
  ghost predicate RelaxTrace(g: Adjacency, start: Node, goal: Node, u: Node, d: int, steps0: seq<Step>,
                             steps: seq<Step>, dist: map<Node, int>, visited: set<Node>, pq: seq<Entry>)
  {
    && PartialTrace(g, start, goal, steps)
    && |steps| >= |steps0| && steps[..|steps0|] == steps0
    && (forall i :: |steps0| <= i < |steps| ==> steps[i].Update? && steps[i].node == u)
    && (steps[|steps| - 1].Visit? || steps[|steps| - 1].Update?) && steps[|steps| - 1].node == u
    && LastIs(steps, dist, visited, d) && steps[|steps| - 1].queue == pq
  }

  /**
   * The effect of relaxing the arc `u -> to` of weight `w` from `u` at
   * distance `d` (dijkstra.js:55-66): when `to` has no distance or
   * `d + w` is strictly smaller, `to` gets that distance, `u` as parent, an
   * entry on the frontier and an `update` step; otherwise nothing changes.
   */
  ghost predicate ArcStep(u: Node, d: int, to: Node, w: int, visited: set<Node>,
                          dist0: map<Node, int>, parent0: map<Node, Node>, via0: map<Node, int>,
                          pq0: seq<Entry>, steps0: seq<Step>,
                          dist: map<Node, int>, parent: map<Node, Node>, via: map<Node, int>,
                          pq: seq<Entry>, steps: seq<Step>)
  {
    if to !in dist0 || d + w < dist0[to] then
      && dist == dist0[to := d + w] && parent == parent0[to := u] && via == via0[to := w]
      && pq == pq0 + [Entry(d + w, to)]
      && steps == steps0 + [Update(u, to, d + w, w, dist, visited, pq)]
    else
      dist == dist0 && parent == parent0 && via == via0 && pq == pq0 && steps == steps0
  }

  /** An improving relaxation along an arc of `u` keeps the parent tree. */
  lemma TreeKeeps(g: Adjacency, start: Node, u: Node, d: int, to: Node, w: int, visited: set<Node>,
                  dist0: map<Node, int>, parent0: map<Node, Node>, via0: map<Node, int>, rank: map<Node, nat>,
                  dist: map<Node, int>, parent: map<Node, Node>, via: map<Node, int>)
    requires u in g && Arc(to, w) in g[u]
    requires u in visited && start in visited && rank.Keys == visited && Bounded(dist0, visited, d)
    requires u in dist0 && dist0[u] == d
    requires ParentTree(g, start, dist0, parent0, via0, rank)
    requires w >= 0 && (to !in dist0 || d + w < dist0[to])
    requires dist == dist0[to := d + w] && parent == parent0[to := u] && via == via0[to := w]
    ensures to !in visited
    ensures ParentTree(g, start, dist, parent, via, rank)
  {
    assert to !in visited;
    assert to != start;
    forall v | v in parent
      ensures && v in dist && v in via && parent[v] in rank && parent[v] in dist
              && parent[v] in g && Arc(v, via[v]) in g[parent[v]]
              && dist[v] == dist[parent[v]] + via[v]
              && (v in rank ==> rank[parent[v]] < rank[v])
    {
      if v != to {
        assert parent[v] == parent0[v] && parent0[v] in visited;
      }
    }
  }

  /** An improving relaxation keeps the frontier facts: the pushed entry covers the new distance. */
  lemma FrontierKeeps(u: Node, d: int, to: Node, w: int, visited: set<Node>,
                      dist0: map<Node, int>, pq0: seq<Entry>, dist: map<Node, int>, pq: seq<Entry>)
    requires FrontierOk(dist0, visited, pq0, d) && to !in visited
    requires w >= 0 && (to !in dist0 || d + w < dist0[to])
    requires dist == dist0[to := d + w] && pq == pq0 + [Entry(d + w, to)]
    ensures FrontierOk(dist, visited, pq, d)
  {
    forall e | e in pq
      ensures e.node in dist && dist[e.node] <= e.d && d <= e.d
    {
      if e in pq0 {
        assert e.node in dist0 && dist0[e.node] <= e.d;
      }
    }
    forall v | v in dist && v !in visited
      ensures Entry(dist[v], v) in pq
    {
      if v != to {
        assert Entry(dist0[v], v) in pq0;
        assert pq[..|pq0|] == pq0;
      } else {
        assert pq[|pq0|] == Entry(dist[v], v);
      }
    }
  }

  /** Relaxing an arc of weight `w >= 0` keeps the loop's facts about distances, parents and frontier. */
  lemma RelaxKeeps(g: Adjacency, start: Node, u: Node, d: int, to: Node, w: int, visited: set<Node>,
                   dist0: map<Node, int>, parent0: map<Node, Node>, via0: map<Node, int>, pq0: seq<Entry>,
                   steps0: seq<Step>, rank: map<Node, nat>,
                   dist: map<Node, int>, parent: map<Node, Node>, via: map<Node, int>, pq: seq<Entry>,
                   steps: seq<Step>)
    requires w >= 0 && u in g && Arc(to, w) in g[u]
    requires RelaxInv(g, start, u, d, dist0, parent0, via0, rank, visited, pq0)
    requires ArcStep(u, d, to, w, visited, dist0, parent0, via0, pq0, steps0, dist, parent, via, pq, steps)
    ensures (to !in dist0 || d + w < dist0[to]) ==> to !in visited
    ensures RelaxInv(g, start, u, d, dist, parent, via, rank, visited, pq)
  {
    if to !in dist0 || d + w < dist0[to] {
      TreeKeeps(g, start, u, d, to, w, visited, dist0, parent0, via0, rank, dist, parent, via);
      FrontierKeeps(u, d, to, w, visited, dist0, pq0, dist, pq);
    }
  }

  /** Relaxing an arc of `u` keeps `ImprovedFrom` and lowers no distance's guarantee. */
  lemma ImprovedStep(g: Adjacency, u: Node, d: int, to: Node, w: int, visited: set<Node>, orig: map<Node, int>,
                     dist0: map<Node, int>, parent0: map<Node, Node>, via0: map<Node, int>, pq0: seq<Entry>,
                     steps0: seq<Step>,
                     dist: map<Node, int>, parent: map<Node, Node>, via: map<Node, int>, pq: seq<Entry>,
                     steps: seq<Step>)
    requires ImprovedFrom(g, u, orig, dist0, visited)
    requires Arc(to, w) in Out(g, u) && ((to !in dist0 || d + w < dist0[to]) ==> to !in visited)
    requires ArcStep(u, d, to, w, visited, dist0, parent0, via0, pq0, steps0, dist, parent, via, pq, steps)
    ensures NoWorse(dist0, dist)
    ensures ImprovedFrom(g, u, orig, dist, visited)
    ensures to in dist && dist[to] <= d + w
  {
    if to !in dist0 || d + w < dist0[to] {
      assert ArcTarget(g, u, to) by {
        assert Arc(to, w) in Out(g, u) && Arc(to, w).to == to;
      }
    }
  }

  /** Relaxing an arc appends at most one `update` step and keeps the loop's trace facts. */
  lemma UpdateExtends(g: Adjacency, start: Node, goal: Node, u: Node, d: int, to: Node, w: int,
                      visited: set<Node>, first: seq<Step>,
                      dist0: map<Node, int>, parent0: map<Node, Node>, via0: map<Node, int>, pq0: seq<Entry>,
                      steps0: seq<Step>,
                      dist: map<Node, int>, parent: map<Node, Node>, via: map<Node, int>, pq: seq<Entry>,
                      steps: seq<Step>)
    requires RelaxTrace(g, start, goal, u, d, first, steps0, dist0, visited, pq0)
    requires u in g && Arc(to, w) in g[u] && ((to !in dist0 || d + w < dist0[to]) ==> to !in visited)
    requires ArcStep(u, d, to, w, visited, dist0, parent0, via0, pq0, steps0, dist, parent, via, pq, steps)
    ensures RelaxTrace(g, start, goal, u, d, first, steps, dist, visited, pq)
  {
    if to !in dist0 || d + w < dist0[to] {
      var step := Update(u, to, d + w, w, dist, visited, pq);
      assert Follows(g, steps0[|steps0| - 1], step);
      PartialExtend(g, start, goal, steps0, step);
      assert steps[..|first|] == steps0[..|first|];
      assert steps[|steps| - 1] == step;
    }
  }

  /**
   * After the relaxation loop of `u`: the visited distances are unchanged,
   * so they are still shortest, and every visited node, `u` included, has
   * its arcs relaxed.
   */
  lemma AfterRelax(g: Adjacency, start: Node, u: Node, d: int, dist0: map<Node, int>, dist: map<Node, int>,
                   visited: set<Node>)
    requires Bounded(dist0, visited, d) && Shortest(g, start, dist0, visited)
    requires Relaxed(g, dist0, visited - {u})
    requires u in visited && u in dist0 && dist0[u] == d
    requires ImprovedFrom(g, u, dist0, dist, visited)
    requires ArcsRelaxed(Out(g, u), d, dist)
    ensures Bounded(dist, visited, d) && Shortest(g, start, dist, visited)
    ensures Relaxed(g, dist, visited)
  {
    forall v, p, ws | v in visited && IsWalk(g, p, ws, start, v)
      ensures dist[v] <= Sum(ws)
    {
      assert dist0[v] <= Sum(ws);
    }
    forall x, a | x in visited && a in Out(g, x)
      ensures a.to in dist && dist[a.to] <= dist[x] + a.deaths
    {
      if x == u {
        var j :| 0 <= j < |Out(g, u)| && Out(g, u)[j] == a;
      } else {
        assert x in visited - {u};
        assert a.to in dist0 && dist0[a.to] <= dist0[x] + a.deaths;
      }
    }
  }

  /** The arc targets of any node are nodes of the graph. */
  lemma TargetsInside(g: Adjacency, start: Node, u: Node)
    ensures forall v :: ArcTarget(g, u, v) ==> v in NodesOf(g, start)
  {
    forall v | ArcTarget(g, u, v)
      ensures v in NodesOf(g, start)
    {
      var a :| a in Out(g, u) && a.to == v;
      assert u in g && a in g[u];
    }
  }

  /** What the relaxation loop keeps after relaxing the arcs `done` of `u`. */
  ghost predicate RelaxLoop(g: Adjacency, start: Node, goal: Node, u: Node, d: int, done: seq<Arc>,
                            dist0: map<Node, int>, steps0: seq<Step>, rank: map<Node, nat>, visited: set<Node>,
                            dist: map<Node, int>, parent: map<Node, Node>, via: map<Node, int>,
                            pq: seq<Entry>, steps: seq<Step>)
  {
    && RelaxTrace(g, start, goal, u, d, steps0, steps, dist, visited, pq)
    && RelaxInv(g, start, u, d, dist, parent, via, rank, visited, pq)
    && ImprovedFrom(g, u, dist0, dist, visited)
    && ArcsRelaxed(done, d, dist)
  }

  /** Relaxing arc `k` of `u` extends the loop's facts from the first `k` arcs to the first `k + 1`. */
  lemma ArcKeeps(g: Adjacency, start: Node, goal: Node, u: Node, d: int, arcs: seq<Arc>, k: nat,
                 dist0: map<Node, int>, steps0: seq<Step>, rank: map<Node, nat>, visited: set<Node>,
                 dist1: map<Node, int>, parent1: map<Node, Node>, via1: map<Node, int>, pq1: seq<Entry>,
                 steps1: seq<Step>,
                 dist: map<Node, int>, parent: map<Node, Node>, via: map<Node, int>, pq: seq<Entry>,
                 steps: seq<Step>)
    requires NonNegative(g) && u in g && arcs == g[u] && k < |arcs|
    requires RelaxLoop(g, start, goal, u, d, arcs[..k], dist0, steps0, rank, visited, dist1, parent1, via1, pq1, steps1)
    requires ArcStep(u, d, arcs[k].to, arcs[k].deaths, visited, dist1, parent1, via1, pq1, steps1,
                     dist, parent, via, pq, steps)
    ensures RelaxLoop(g, start, goal, u, d, arcs[..k + 1], dist0, steps0, rank, visited, dist, parent, via, pq, steps)
  {
    var to, deaths := arcs[k].to, arcs[k].deaths;
    assert Arc(to, deaths) in g[u] && deaths >= 0;
    RelaxKeeps(g, start, u, d, to, deaths, visited, dist1, parent1, via1, pq1, steps1, rank,
               dist, parent, via, pq, steps);
    UpdateExtends(g, start, goal, u, d, to, deaths, visited, steps0, dist1, parent1, via1, pq1, steps1,
                  dist, parent, via, pq, steps);
    ImprovedStep(g, u, d, to, deaths, visited, dist0, dist1, parent1, via1, pq1, steps1,
                 dist, parent, via, pq, steps);
    assert arcs[..k + 1] == arcs[..k] + [arcs[k]];
    RelaxedSnoc(arcs[..k], arcs[k], d, dist1, dist);
  }

  /** One more relaxed arc, with no distance gone up, extends the relaxed arcs. */
  lemma RelaxedSnoc(done: seq<Arc>, a: Arc, d: int, dist1: map<Node, int>, dist: map<Node, int>)
    requires ArcsRelaxed(done, d, dist1) && NoWorse(dist1, dist)
    requires a.to in dist && dist[a.to] <= d + a.deaths
    ensures ArcsRelaxed(done + [a], d, dist)
  {
    forall j | 0 <= j < |done + [a]|
      ensures (done + [a])[j].to in dist && dist[(done + [a])[j].to] <= d + (done + [a])[j].deaths
    {
      if j < |done| {
        assert (done + [a])[j] == done[j];
      }
    }
  }

  /**
   * One arc `{to, deaths}` of the node `u` visited at distance `d`
   * (dijkstra.js:52-67). Afterwards the arc is relaxed: `to` has a
   * distance of at most `d + deaths`, and no distance went up.
   */
  method RelaxArc(u: Node, d: int, to: Node, deaths: int, visited: set<Node>,
                  dist0: map<Node, int>, parent0: map<Node, Node>, ghost via0: map<Node, int>,
                  pq0: seq<Entry>, steps0: seq<Step>)
    returns (dist: map<Node, int>, parent: map<Node, Node>, ghost via: map<Node, int>,
             pq: seq<Entry>, steps: seq<Step>)
    ensures ArcStep(u, d, to, deaths, visited, dist0, parent0, via0, pq0, steps0, dist, parent, via, pq, steps)
    ensures State(dist, parent, pq, steps, visited) == ArcEffect(u, d, Arc(to, deaths), State(dist0, parent0, pq0, steps0, visited))
    ensures to in dist && dist[to] <= d + deaths
    ensures NoWorse(dist0, dist)
  {
    if !(to in dist0) || d + deaths < dist0[to] {
      dist := dist0[to := d + deaths];
      parent := parent0[to := u];
      via := via0[to := deaths];
      pq := pq0 + [Entry(d + deaths, to)];
      steps := steps0 + [Update(u, to, d + deaths, deaths, dist, visited, pq)];
    } else {
      dist, parent, via, pq, steps := dist0, parent0, via0, pq0, steps0;
    }
  }

  /**
   * The relaxation loop over the arcs of the node `u` just visited at
   * distance `d` (dijkstra.js:50-70), skipped when `u` has no entry in the
   * adjacency map. Afterwards every arc of `u` is relaxed.
   */
  method Relax(g: Adjacency, ghost start: Node, ghost goal: Node, u: Node, d: int,
               dist0: map<Node, int>, parent0: map<Node, Node>, pq0: seq<Entry>, steps0: seq<Step>,
               visited: set<Node>, ghost via0: map<Node, int>, ghost rank: map<Node, nat>)
    returns (dist: map<Node, int>, parent: map<Node, Node>, pq: seq<Entry>, steps: seq<Step>,
             ghost via: map<Node, int>)
    requires NonNegative(g)
    requires RelaxTrace(g, start, goal, u, d, steps0, steps0, dist0, visited, pq0)
    requires RelaxInv(g, start, u, d, dist0, parent0, via0, rank, visited, pq0)
    ensures State(dist, parent, pq, steps, visited) == RelaxAll(u, d, Out(g, u), State(dist0, parent0, pq0, steps0, visited))
    ensures RelaxTrace(g, start, goal, u, d, steps0, steps, dist, visited, pq)
    ensures RelaxInv(g, start, u, d, dist, parent, via, rank, visited, pq)
    ensures ImprovedFrom(g, u, dist0, dist, visited)
    ensures ArcsRelaxed(Out(g, u), d, dist)
  {
    dist, parent, pq, steps, via := dist0, parent0, pq0, steps0, via0;
    if u in g {
      var arcs := g[u];
      for k := 0 to |arcs|
        invariant State(dist, parent, pq, steps, visited) == RelaxAll(u, d, arcs[..k], State(dist0, parent0, pq0, steps0, visited))
        invariant RelaxLoop(g, start, goal, u, d, arcs[..k], dist0, steps0, rank, visited, dist, parent, via, pq, steps)
      {
        var to, deaths := arcs[k].to, arcs[k].deaths;
        ghost var dist1, parent1, via1, pq1, steps1 := dist, parent, via, pq, steps;
        dist, parent, via, pq, steps := RelaxArc(u, d, to, deaths, visited, dist, parent, via, pq, steps);
        RelaxAllStep(u, d, arcs, k, State(dist0, parent0, pq0, steps0, visited));
        ArcKeeps(g, start, goal, u, d, arcs, k, dist0, steps0, rank, visited,
                 dist1, parent1, via1, pq1, steps1, dist, parent, via, pq, steps);
      }
      assert arcs[..|arcs|] == arcs;
    }
  }

  /**
   * The path walk (dijkstra.js:73-81): from `goal`, prepend each node and
   * move to its parent, stopping at a node without parent; nothing is
   * walked when `goal` has no distance.
   */
  method ReconstructPath(ghost g: Adjacency, ghost start: Node, goal: Node, dist: map<Node, int>,
                         parent: map<Node, Node>, ghost via: map<Node, int>, ghost rank: map<Node, nat>)
    returns (path: seq<Node>)
    requires ParentTree(g, start, dist, parent, via, rank)
    requires goal in dist ==> goal in rank
    ensures goal !in dist ==> path == []
    ensures goal in dist ==> ParentChain(parent, path, goal)
    ensures goal in dist ==> exists ws :: IsWalk(g, path, ws, start, goal) && Sum(ws) == dist[goal]
  {
    path := [];
    if goal in dist {
      var current: Option<Node> := Some(goal);
      ghost var ws: seq<int> := [];
      while current.Some?
        invariant current.Some? ==> current.value in rank && current.value in dist
        invariant path == [] ==> current == Some(goal) && ws == []
        invariant path != [] ==>
          && path[0] in dist
          && IsWalk(g, path, ws, path[0], goal)
          && Sum(ws) == dist[goal] - dist[path[0]]
          && (current.Some? ==> path[0] in parent && parent[path[0]] == current.value)
          && (current.None? ==> path[0] == start && path[0] !in parent)
          && path[|path| - 1] == goal
          && (forall i :: 0 < i < |path| ==> path[i] in parent && parent[path[i]] == path[i - 1])
        decreases if current.Some? then rank[current.value] + 1 else 0
      {
        var v := current.value;
        if path != [] {
          WalkCons(g, v, via[path[0]], path, ws, path[0], goal);
          ws := [via[path[0]]] + ws;
        }
        path := [v] + path;
        current := if v in parent then Some(parent[v]) else None;
      }
    }
  }

  /** What holds at the head of each round of the main loop (dijkstra.js:22). */
  ghost predicate SearchInv(g: Adjacency, start: Node, goal: Node, dist: map<Node, int>, parent: map<Node, Node>,
                            via: map<Node, int>, rank: map<Node, nat>, n: nat, visited: set<Node>,
                            pq: seq<Entry>, steps: seq<Step>, floor: int)
  {
    && PartialTrace(g, start, goal, steps) && LastIs(steps, dist, visited, floor)
    && LiveQueue(steps, visited, pq)
    && goal !in visited
    && (visited == {} ==> dist.Keys == {start})
    && (visited != {} ==> start in visited)
    && rank.Keys == visited && (forall v :: v in rank ==> rank[v] < n)
    && ParentTree(g, start, dist, parent, via, rank)
    && FrontierOk(dist, visited, pq, floor)
    && Bounded(dist, visited, floor) && Shortest(g, start, dist, visited)
    && Relaxed(g, dist, visited)
    && dist.Keys <= NodesOf(g, start)
  }

  /** A round that pops a stale entry (dijkstra.js:24-30) keeps the loop's facts. */
  lemma SkipKeeps(g: Adjacency, start: Node, goal: Node, dist: map<Node, int>, parent: map<Node, Node>,
                  via: map<Node, int>, rank: map<Node, nat>, n: nat, visited: set<Node>,
                  q: seq<Entry>, steps: seq<Step>, floor: int, rest: seq<Entry>)
    requires SearchInv(g, start, goal, dist, parent, via, rank, n, visited, q, steps, floor)
    requires q != [] && SortByDist(q)[0].node in visited && rest == SortByDist(q)[1..]
    ensures SearchInv(g, start, goal, dist, parent, via, rank, n, visited, rest, steps, floor)
    ensures |rest| < |q|
  {
    PopVisited(dist, visited, q, floor);
    SortLength(q);
    assert Drain(q, visited) == Drain(rest, visited);
  }

  /** The state before the first round (dijkstra.js:4-20) satisfies the loop's facts. */
  lemma SearchStarts(g: Adjacency, start: Node, goal: Node, dist: map<Node, int>, parent: map<Node, Node>,
                     via: map<Node, int>, rank: map<Node, nat>, n: nat, visited: set<Node>,
                     pq: seq<Entry>, steps: seq<Step>, floor: int)
    requires dist == map[start := 0] && parent == map[] && via == map[] && rank == map[] && n == 0
    requires visited == {} && pq == [Entry(0, start)] && steps == [Start(start, dist, pq, {})] && floor == 0
    ensures SearchInv(g, start, goal, dist, parent, via, rank, n, visited, pq, steps, floor)
  {
  }

  /**
   * A round that visits `u` at distance `d` and relaxes its arcs
   * (dijkstra.js:24-70) restores the loop's facts, with `visited` now
   * holding `u` and `d` as the current distance.
   */
  lemma RoundKeeps(g: Adjacency, start: Node, goal: Node, u: Node, d: int, visited0: set<Node>,
                   dist0: map<Node, int>, dist: map<Node, int>, parent: map<Node, Node>,
                   via: map<Node, int>, rank: map<Node, nat>, n: nat, visited: set<Node>,
                   pq: seq<Entry>, steps1: seq<Step>, steps: seq<Step>)
    requires visited == visited0 + {u} && u !in visited0
    requires RelaxTrace(g, start, goal, u, d, steps1, steps, dist, visited, pq)
    requires RelaxInv(g, start, u, d, dist, parent, via, rank, visited, pq)
    requires ImprovedFrom(g, u, dist0, dist, visited)
    requires ArcsRelaxed(Out(g, u), d, dist)
    requires Bounded(dist0, visited, d) && Shortest(g, start, dist0, visited)
    requires Relaxed(g, dist0, visited0) && u in dist0 && dist0[u] == d
    requires goal !in visited && forall v :: v in rank ==> rank[v] < n
    requires dist0.Keys <= NodesOf(g, start)
    ensures SearchInv(g, start, goal, dist, parent, via, rank, n, visited, pq, steps, d)
  {
    assert visited - {u} == visited0;
    AfterRelax(g, start, u, d, dist0, dist, visited);
    TargetsInside(g, start, u);
  }

  /**
   * What the search has established when it stops: a complete trace ending
   * in the live distance table, a parent tree to rebuild the path from, and
   * the goal's distance either shortest or absent exactly when no walk
   * reaches it.
   */
  ghost predicate Answered(g: Adjacency, start: Node, goal: Node, dist: map<Node, int>, parent: map<Node, Node>,
                           via: map<Node, int>, rank: map<Node, nat>, steps: seq<Step>)
  {
    && ValidTrace(g, start, goal, steps)
    && steps[|steps| - 1].distances == dist
    && ParentTree(g, start, dist, parent, via, rank)
    && (goal in dist ==> goal in rank && forall p, ws :: IsWalk(g, p, ws, start, goal) ==> dist[goal] <= Sum(ws))
    && (goal !in dist ==> !Reachable(g, start, goal))
    && (goal in dist <==> steps[|steps| - 1].Goal?)
    && (!steps[|steps| - 1].Goal? ==> Drain(steps[|steps| - 1].queue, steps[|steps| - 1].visited) == [])
  }

  /** The frontier ran out before the goal was popped (dijkstra.js:22). */
  lemma ExhaustedAnswered(g: Adjacency, start: Node, goal: Node, dist: map<Node, int>, parent: map<Node, Node>,
                          via: map<Node, int>, rank: map<Node, nat>, n: nat, visited: set<Node>,
                          pq: seq<Entry>, steps: seq<Step>, floor: int)
    requires SearchInv(g, start, goal, dist, parent, via, rank, n, visited, pq, steps, floor) && pq == []
    ensures Answered(g, start, goal, dist, parent, via, rank, steps)
  {
    Exhausted(g, start, goal, dist, visited, floor);
    PartialIsValid(g, start, goal, steps);
  }

  /** The goal was popped and visited (dijkstra.js:39-44). */
  lemma GoalAnswered(g: Adjacency, start: Node, goal: Node, dist: map<Node, int>, parent: map<Node, Node>,
                     via: map<Node, int>, rank: map<Node, nat>, visited: set<Node>, steps: seq<Step>)
    requires ValidTrace(g, start, goal, steps) && steps[|steps| - 1].distances == dist
    requires steps[|steps| - 1].Goal?
    requires ParentTree(g, start, dist, parent, via, rank)
    requires goal in visited && visited == rank.Keys
    requires Shortest(g, start, dist, visited)
    ensures Answered(g, start, goal, dist, parent, via, rank, steps)
  {
  }

  /**
   * Popping the unvisited `u` at distance `d` and marking it visited with
   * the next rank (dijkstra.js:24-37): its distance is final and the facts
   * about distances, parents and frontier hold for the new visited set.
   */
  lemma EnterNode(g: Adjacency, start: Node, goal: Node, u: Node, d: int, q: seq<Entry>, rest: seq<Entry>,
                  dist: map<Node, int>, parent: map<Node, Node>, via: map<Node, int>, rank0: map<Node, nat>,
                  n0: nat, visited0: set<Node>, steps0: seq<Step>, floor0: int,
                  visited: set<Node>, rank: map<Node, nat>)
    requires NonNegative(g)
    requires SearchInv(g, start, goal, dist, parent, via, rank0, n0, visited0, q, steps0, floor0)
    requires q != [] && SortByDist(q)[0] == Entry(d, u) && rest == SortByDist(q)[1..] && u !in visited0
    requires visited == visited0 + {u} && rank == rank0[u := n0]
    ensures u in dist && dist[u] == d && floor0 <= d && u in NodesOf(g, start)
    ensures forall e :: e in rest ==> d <= e.d
    ensures FrontierOk(dist, visited, rest, d)
    ensures Bounded(dist, visited, d) && Shortest(g, start, dist, visited)
    ensures ParentTree(g, start, dist, parent, via, rank)
    ensures rank.Keys == visited && forall v :: v in rank ==> rank[v] < n0 + 1
  {
    PopUnvisited(dist, visited0, q, floor0, u, d);
    VisitSettles(g, start, dist, visited0, floor0, u, d);
    RankKeeps(g, start, dist, parent, via, rank0, u, n0);
  }

  /** The popped node is the goal: the `visit` and `goal` steps end the search (dijkstra.js:39-44). */
  lemma GoalCompletes(g: Adjacency, start: Node, goal: Node, d: int, q: seq<Entry>, rest: seq<Entry>,
                      dist: map<Node, int>, parent: map<Node, Node>, via: map<Node, int>, rank0: map<Node, nat>,
                      n0: nat, visited0: set<Node>, steps0: seq<Step>, floor0: int,
                      visited: set<Node>, rank: map<Node, nat>, steps: seq<Step>)
    requires NonNegative(g)
    requires SearchInv(g, start, goal, dist, parent, via, rank0, n0, visited0, q, steps0, floor0)
    requires q != [] && SortByDist(q)[0] == Entry(d, goal) && rest == SortByDist(q)[1..] && goal !in visited0
    requires visited == visited0 + {goal} && rank == rank0[goal := n0]
    requires steps == steps0 + [Visit(goal, d, dist, visited, rest), Goal(goal, d, dist, visited)]
    ensures goal in NodesOf(g, start)
    ensures Answered(g, start, goal, dist, parent, via, rank, steps)
  {
    EnterNode(g, start, goal, goal, d, q, rest, dist, parent, via, rank0, n0, visited0, steps0, floor0, visited, rank);
    GoalStep(g, start, goal, steps0, dist, visited0, floor0, q, d, rest);
    GoalAnswered(g, start, goal, dist, parent, via, rank, visited, steps);
  }

  /**
   * The popped node `u` is not the goal: after its `visit` step the
   * relaxation loop may start (dijkstra.js:28-37).
   */
  lemma StartRelax(g: Adjacency, start: Node, goal: Node, u: Node, d: int, q: seq<Entry>, rest: seq<Entry>,
                   dist: map<Node, int>, parent: map<Node, Node>, via: map<Node, int>, rank0: map<Node, nat>,
                   n0: nat, visited0: set<Node>, steps0: seq<Step>, floor0: int,
                   visited: set<Node>, rank: map<Node, nat>, n: nat, steps: seq<Step>)
    requires NonNegative(g)
    requires SearchInv(g, start, goal, dist, parent, via, rank0, n0, visited0, q, steps0, floor0)
    requires q != [] && SortByDist(q)[0] == Entry(d, u) && rest == SortByDist(q)[1..] && u !in visited0
    requires u != goal
    requires visited == visited0 + {u} && rank == rank0[u := n0] && n == n0 + 1
    requires steps == steps0 + [Visit(u, d, dist, visited, rest)]
    ensures u in NodesOf(g, start)
    ensures RelaxTrace(g, start, goal, u, d, steps, steps, dist, visited, rest)
    ensures RelaxInv(g, start, u, d, dist, parent, via, rank, visited, rest)
    ensures Bounded(dist, visited, d) && Shortest(g, start, dist, visited)
    ensures Relaxed(g, dist, visited0) && u in dist && dist[u] == d
    ensures goal !in visited && forall v :: v in rank ==> rank[v] < n
    ensures dist.Keys <= NodesOf(g, start)
  {
    EnterNode(g, start, goal, u, d, q, rest, dist, parent, via, rank0, n0, visited0, steps0, floor0, visited, rank);
    VisitStep(g, start, goal, steps0, dist, visited0, floor0, q, u, d, rest);
  }

  /**
   * What a round that visits `u`, popped at distance `d` with `rest` left
   * on the frontier, does (dijkstra.js:28-70). `u` joins the visited set and
   * gets a `visit` step showing the live distance table, the new visited set
   * and `rest`. At the goal a `goal` step follows and the search stops with
   * the table, the parents and the frontier as they were. Otherwise the
   * relaxation of `u`'s arcs appends only update steps of `u`, the last of
   * which (or the visit) shows the new table and frontier; distances only go
   * down, and every arc of `u` ends up relaxed.
   */
  ghost predicate VisitEffect(g: Adjacency, start: Node, goal: Node, u: Node, d: int, rest: seq<Entry>,
                              dist0: map<Node, int>, parent0: map<Node, Node>, steps0: seq<Step>,
                              visited0: set<Node>, dist: map<Node, int>, parent: map<Node, Node>,
                              pq: seq<Entry>, steps: seq<Step>, visited: set<Node>, found: bool)
  {
    && visited == visited0 + {u}
    && (found <==> u == goal)
    && var visit := Visit(u, d, dist0, visited, rest);
       && |steps| > |steps0| && steps[..|steps0|] == steps0 && steps[|steps0|] == visit
       && (found ==>
             && steps == steps0 + [visit, Goal(goal, d, dist0, visited)]
             && dist == dist0 && parent == parent0 && pq == rest)
       && (!found ==>
             && RelaxTrace(g, start, goal, u, d, steps0 + [visit], steps, dist, visited, pq)
             && ImprovedFrom(g, u, dist0, dist, visited)
             && ArcsRelaxed(Out(g, u), d, dist))
  }

  /**
   * The round of the unvisited `u`, not the goal, after its arcs are relaxed
   * (dijkstra.js:50-70): the round did what `VisitRound` says, and the loop's
   * facts hold again.
   */
  lemma RelaxEnds(g: Adjacency, start: Node, goal: Node, u: Node, d: int, q: seq<Entry>, rest: seq<Entry>,
                  dist0: map<Node, int>, parent0: map<Node, Node>, steps0: seq<Step>, visited0: set<Node>,
                  visited: set<Node>, rank: map<Node, nat>, n: nat, steps1: seq<Step>,
                  dist: map<Node, int>, parent: map<Node, Node>, via: map<Node, int>, pq: seq<Entry>,
                  steps: seq<Step>)
    requires u != goal && visited == visited0 + {u} && u !in visited0
    requires steps1 == steps0 + [Visit(u, d, dist0, visited, rest)]
    requires RelaxTrace(g, start, goal, u, d, steps1, steps1, dist0, visited, rest)
    requires Bounded(dist0, visited, d) && Shortest(g, start, dist0, visited)
    requires Relaxed(g, dist0, visited0) && u in dist0 && dist0[u] == d
    requires goal !in visited && forall v :: v in rank ==> rank[v] < n
    requires dist0.Keys <= NodesOf(g, start)
    requires State(dist, parent, pq, steps, visited) == RelaxAll(u, d, Out(g, u), State(dist0, parent0, rest, steps1, visited))
    requires RelaxTrace(g, start, goal, u, d, steps1, steps, dist, visited, pq)
    requires RelaxInv(g, start, u, d, dist, parent, via, rank, visited, pq)
    requires ImprovedFrom(g, u, dist0, dist, visited)
    requires ArcsRelaxed(Out(g, u), d, dist)
    ensures (State(dist, parent, pq, steps, visited), false) ==
            VisitRound(g, goal, State(dist0, parent0, q, steps0, visited0), u, d, rest)
    ensures VisitEffect(g, start, goal, u, d, rest, dist0, parent0, steps0, visited0,
                        dist, parent, pq, steps, visited, false)
    ensures SearchInv(g, start, goal, dist, parent, via, rank, n, visited, pq, steps, d)
  {
    assert steps[..|steps0|] == steps1[..|steps0|] == steps0;
    RoundKeeps(g, start, goal, u, d, visited0, dist0, dist, parent, via, rank, n, visited, pq, steps1, steps);
  }

  /**
   * One round that pops the unvisited node `u` at distance `d`
   * (dijkstra.js:24-70): `u` becomes visited and gets a `visit` step; the
   * goal ends the search with a `goal` step, any other node has its arcs
   * relaxed.
   */
  method VisitNode(g: Adjacency, ghost start: Node, goal: Node, u: Node, d: int, dist0: map<Node, int>,
                   parent0: map<Node, Node>, ghost q: seq<Entry>, rest: seq<Entry>, steps0: seq<Step>,
                   visited0: set<Node>, ghost via0: map<Node, int>, ghost rank0: map<Node, nat>, ghost n0: nat,
                   ghost floor0: int)
    returns (dist: map<Node, int>, parent: map<Node, Node>, pq: seq<Entry>, steps: seq<Step>,
             visited: set<Node>, found: bool, ghost via: map<Node, int>, ghost rank: map<Node, nat>,
             ghost n: nat, ghost floor: int)
    requires NonNegative(g)
    requires SearchInv(g, start, goal, dist0, parent0, via0, rank0, n0, visited0, q, steps0, floor0)
    requires q != [] && SortByDist(q)[0] == Entry(d, u) && rest == SortByDist(q)[1..] && u !in visited0
    ensures u in NodesOf(g, start)
    ensures (State(dist, parent, pq, steps, visited), found) ==
            VisitRound(g, goal, State(dist0, parent0, q, steps0, visited0), u, d, rest)
    ensures VisitEffect(g, start, goal, u, d, rest, dist0, parent0, steps0, visited0,
                        dist, parent, pq, steps, visited, found)
    ensures found ==> Answered(g, start, goal, dist, parent, via, rank, steps)
    ensures !found ==> SearchInv(g, start, goal, dist, parent, via, rank, n, visited, pq, steps, floor)
  {
    visited := visited0 + {u};
    rank := rank0[u := n0];
    if u == goal {
      dist, parent, pq, via, n, floor := dist0, parent0, rest, via0, n0, floor0;
      steps := steps0 + [Visit(u, d, dist, visited, rest), Goal(goal, d, dist, visited)];
      assert steps == steps0 + [Visit(u, d, dist, visited, rest)] + [Goal(goal, d, dist, visited)];
      found := true;
      GoalCompletes(g, start, goal, d, q, rest, dist, parent, via, rank0, n0, visited0, steps0, floor0,
                    visited, rank, steps);
      return;
    }
    found := false;
    n := n0 + 1;
    floor := d;
    var steps1 := steps0 + [Visit(u, d, dist0, visited, rest)];
    StartRelax(g, start, goal, u, d, q, rest, dist0, parent0, via0, rank0, n0, visited0, steps0, floor0,
               visited, rank, n, steps1);
    dist, parent, pq, steps, via := Relax(g, start, goal, u, d, dist0, parent0, rest, steps1, visited, via0, rank);
    RelaxEnds(g, start, goal, u, d, q, rest, dist0, parent0, steps0, visited0, visited, rank, n, steps1,
              dist, parent, via, pq, steps);
  }

  /**
   * One round of the main loop (dijkstra.js:23-70): sort the frontier, take
   * its head, skip it when its node is already visited, and visit it
   * otherwise. Unless the goal was reached, either the visited set grew
   * within the graph's nodes or the frontier shrank.
   */
  method Round(g: Adjacency, ghost start: Node, goal: Node, dist0: map<Node, int>, parent0: map<Node, Node>,
               pq0: seq<Entry>, steps0: seq<Step>, visited0: set<Node>, ghost via0: map<Node, int>,
               ghost rank0: map<Node, nat>, ghost n0: nat, ghost floor0: int)
    returns (dist: map<Node, int>, parent: map<Node, Node>, pq: seq<Entry>, steps: seq<Step>,
             visited: set<Node>, found: bool, ghost via: map<Node, int>, ghost rank: map<Node, nat>,
             ghost n: nat, ghost floor: int)
    requires NonNegative(g) && pq0 != []
    requires SearchInv(g, start, goal, dist0, parent0, via0, rank0, n0, visited0, pq0, steps0, floor0)
    ensures (State(dist, parent, pq, steps, visited), found) == Next(g, goal, State(dist0, parent0, pq0, steps0, visited0))
    ensures found ==> Answered(g, start, goal, dist, parent, via, rank, steps)
    ensures !found ==> SearchInv(g, start, goal, dist, parent, via, rank, n, visited, pq, steps, floor)
    ensures !found ==>
      (visited == visited0 && |pq| < |pq0|) || NodesOf(g, start) - visited < NodesOf(g, start) - visited0
    ensures SortByDist(pq0) != []
    ensures SortByDist(pq0)[0].node in visited0 ==>
      && !found && dist == dist0 && parent == parent0 && steps == steps0 && visited == visited0
      && pq == SortByDist(pq0)[1..]
    ensures var head := SortByDist(pq0)[0];
      head.node !in visited0 ==>
        VisitEffect(g, start, goal, head.node, head.d, SortByDist(pq0)[1..], dist0, parent0, steps0, visited0,
                    dist, parent, pq, steps, visited, found)
  {
    var sorted := SortByDist(pq0);
    var currentDist, currentNode := sorted[0].d, sorted[0].node;
    var rest := sorted[1..];
    if currentNode in visited0 {
      SkipKeeps(g, start, goal, dist0, parent0, via0, rank0, n0, visited0, pq0, steps0, floor0, rest);
      dist, parent, pq, steps, visited, found := dist0, parent0, rest, steps0, visited0, false;
      via, rank, n, floor := via0, rank0, n0, floor0;
      return;
    }
    dist, parent, pq, steps, visited, found, via, rank, n, floor :=
      VisitNode(g, start, goal, currentNode, currentDist, dist0, parent0, pq0, rest, steps0, visited0,
                via0, rank0, n0, floor0);
    assert currentNode in NodesOf(g, start) - visited0 && currentNode !in NodesOf(g, start) - visited;
  }

  /** What the result reports follows from what the search established (dijkstra.js:73-88). */
  lemma Concludes(g: Adjacency, start: Node, goal: Node, dist: map<Node, int>, parent: map<Node, Node>,
                  via: map<Node, int>, rank: map<Node, nat>, steps: seq<Step>, path: seq<Node>, minDeaths: int)
    requires Answered(g, start, goal, dist, parent, via, rank, steps)
    requires goal !in dist ==> path == []
    requires goal in dist ==> exists ws :: IsWalk(g, path, ws, start, goal) && Sum(ws) == dist[goal]
    requires minDeaths == if goal in dist then dist[goal] else -1
    ensures ValidTrace(g, start, goal, steps)
    ensures dist == steps[|steps| - 1].distances
    ensures path != [] <==> steps[|steps| - 1].Goal?
    ensures !steps[|steps| - 1].Goal? ==> Drain(steps[|steps| - 1].queue, steps[|steps| - 1].visited) == []
    ensures path == [] <==> !Reachable(g, start, goal)
    ensures path == [] ==> minDeaths == -1
    ensures path != [] ==> exists ws :: IsWalk(g, path, ws, start, goal) && Sum(ws) == minDeaths
    ensures forall p, ws :: IsWalk(g, p, ws, start, goal) ==> minDeaths <= Sum(ws)
  {
    if goal in dist {
      var ws :| IsWalk(g, path, ws, start, goal) && Sum(ws) == dist[goal];
      assert Reachable(g, start, goal);
    }
  }

  /**
   * The search of `dijkstra` (dijkstra.js:4-71): from the initial state,
   * rounds run until the goal is visited or the frontier is empty. What it
   * leaves behind answers the query.
   */
  method Search(g: Adjacency, start: Node, goal: Node)
    returns (dist: map<Node, int>, parent: map<Node, Node>, steps: seq<Step>,
             ghost via: map<Node, int>, ghost rank: map<Node, nat>, ghost k: nat)
    requires NonNegative(g)
    ensures var r := Run(g, goal, Initial(start), k);
            Halted(r) && r.0.dist == dist && r.0.parent == parent && r.0.steps == steps
    ensures Answered(g, start, goal, dist, parent, via, rank, steps)
  {
    dist := map[start := 0];
    parent := map[];
    var visited: set<Node> := {};
    var pq: seq<Entry> := [Entry(0, start)];
    steps := [Start(start, dist, pq, {})];
    via := map[];
    rank := map[];
    ghost var n: nat := 0;
    ghost var floor := 0;
    ghost var U := NodesOf(g, start);
    SearchStarts(g, start, goal, dist, parent, via, rank, n, visited, pq, steps, floor);

    var found := false;
    k := 0;
    while pq != []
      invariant SearchInv(g, start, goal, dist, parent, via, rank, n, visited, pq, steps, floor)
      invariant Run(g, goal, Initial(start), k) == (State(dist, parent, pq, steps, visited), false)
      invariant !found
      decreases U - visited, |pq|
    {
      dist, parent, pq, steps, visited, found, via, rank, n, floor :=
        Round(g, start, goal, dist, parent, pq, steps, visited, via, rank, n, floor);
      k := k + 1;
      if found {
        return;
      }
    }
    ExhaustedAnswered(g, start, goal, dist, parent, via, rank, n, visited, pq, steps, floor);
  }

  /**
   * `dijkstra(graph, start, goal)` (dijkstra.js:3-89). The trace starts with
   * the `start` step and follows the step rules of `ValidTrace`; the result
   * reports the distance table of the last step, the shortest distance to
   * `goal` (or -1 when `goal` is unreachable) and a shortest path.
   */
  method Dijkstra(g: Adjacency, start: Node, goal: Node) returns (r: SearchResult)
    requires NonNegative(g)
    ensures exists k: nat :: Halted(Run(g, goal, Initial(start), k)) && Reports(goal, Run(g, goal, Initial(start), k).0, r)
    ensures ValidTrace(g, start, goal, r.steps)
    ensures r.allDistances == r.steps[|r.steps| - 1].distances
    ensures r.minDeaths == if goal in r.allDistances then r.allDistances[goal] else -1
    ensures r.path != [] <==> r.steps[|r.steps| - 1].Goal?
    ensures !r.steps[|r.steps| - 1].Goal? ==>
      Drain(r.steps[|r.steps| - 1].queue, r.steps[|r.steps| - 1].visited) == []
    ensures r.path == [] <==> !Reachable(g, start, goal)
    ensures r.path == [] ==> r.minDeaths == -1
    ensures r.path != [] ==> exists ws :: IsWalk(g, r.path, ws, start, goal) && Sum(ws) == r.minDeaths
    ensures forall p, ws :: IsWalk(g, p, ws, start, goal) ==> r.minDeaths <= Sum(ws)
  {
    var dist, parent, steps, via, rank, k := Search(g, start, goal);
    var path := ReconstructPath(g, start, goal, dist, parent, via, rank);
    var minDeaths := if goal in dist then dist[goal] else -1;
    Concludes(g, start, goal, dist, parent, via, rank, steps, path, minDeaths);
    r := SearchResult(minDeaths, path, steps, dist);
    assert Halted(Run(g, goal, Initial(start), k)) && Reports(goal, Run(g, goal, Initial(start), k).0, r);
  }
}
