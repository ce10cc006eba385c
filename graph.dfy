/**
 * The weighted directed graph the search runs on: an adjacency map from a
 * node name to its outgoing arcs `{to, deaths}` in input order, together
 * with walks through it and their total weight.
 */
module Graph {

  /** Node identifiers are opaque strings. */
  type Node = string

  /** An outgoing arc `{to, deaths}` of the adjacency map. */
  datatype Arc = Arc(to: Node, deaths: int)

  /** A parsed edge line `{from, to, deaths}`. */
  datatype Edge = Edge(from: Node, to: Node, deaths: int)

  /** `graph`: node ↦ its outgoing arcs; a node without outgoing arcs may be absent. */
  type Adjacency = map<Node, seq<Arc>>

  /** The arcs leaving `v`, empty when `v` has no entry (the `graph.has` test). */
  function Out(g: Adjacency, v: Node): seq<Arc>
  {
    if v in g then g[v] else []
  }

  /** Every arc weight is at least zero: the assumption Dijkstra's algorithm needs. */
  ghost predicate NonNegative(g: Adjacency)
  {
    forall v, a {:trigger a in g[v]} :: v in g && a in g[v] ==> a.deaths >= 0
  }

  /** Every node named anywhere in `g`, plus `s`. */
  function NodesOf(g: Adjacency, s: Node): set<Node>
  {
    {s} + g.Keys + (set v, a {:trigger a in g[v]} | v in g && a in g[v] :: a.to)
  }

  /** The sum of a sequence of weights. */
  function Sum(ws: seq<int>): int
  {
    if ws == [] then 0 else ws[0] + Sum(ws[1..])
  }

  /**
   * `p` is a walk from `s` to `t` in `g` whose i-th step uses an arc of
   * weight `ws[i]`; parallel arcs are told apart by their weights.
   */
  ghost predicate IsWalk(g: Adjacency, p: seq<Node>, ws: seq<int>, s: Node, t: Node)
  {
    && |p| == |ws| + 1
    && p[0] == s
    && p[|p| - 1] == t
    && forall i :: 0 <= i < |ws| ==> p[i] in g && Arc(p[i + 1], ws[i]) in g[p[i]]
  }

  /** Some walk leads from `s` to `t`. */
  ghost predicate Reachable(g: Adjacency, s: Node, t: Node)
  {
    exists p, ws :: IsWalk(g, p, ws, s, t)
  }

  /** A walk over non-negative arcs has a non-negative total weight. */
  lemma {:induction false} WalkSumNonNegative(g: Adjacency, p: seq<Node>, ws: seq<int>, s: Node, t: Node)
    requires NonNegative(g)
    requires IsWalk(g, p, ws, s, t)
    ensures Sum(ws) >= 0
  {
    if ws != [] {
      assert p[0] in g && Arc(p[1], ws[0]) in g[p[0]];
      WalkSuffix(g, p, ws, s, t);
      WalkSumNonNegative(g, p[1..], ws[1..], p[1], t);
    }
  }

  /** Dropping the first step of a walk leaves a walk from its second node. */
  lemma WalkSuffix(g: Adjacency, p: seq<Node>, ws: seq<int>, s: Node, t: Node)
    requires IsWalk(g, p, ws, s, t) && ws != []
    ensures IsWalk(g, p[1..], ws[1..], p[1], t)
  {
    forall i | 0 <= i < |ws| - 1
      ensures p[1..][i] in g && Arc(p[1..][i + 1], ws[1..][i]) in g[p[1..][i]]
    {
      assert p[1..][i] == p[i + 1] && p[1..][i + 1] == p[i + 2] && ws[1..][i] == ws[i + 1];
    }
  }

  /** Prefixing an arc `u → s` of weight `w` to a walk from `s` gives a walk from `u`. */
  lemma WalkCons(g: Adjacency, u: Node, w: int, p: seq<Node>, ws: seq<int>, s: Node, t: Node)
    requires IsWalk(g, p, ws, s, t)
    requires u in g && Arc(s, w) in g[u]
    ensures IsWalk(g, [u] + p, [w] + ws, u, t)
    ensures Sum([w] + ws) == w + Sum(ws)
  {
    var p', ws' := [u] + p, [w] + ws;
    assert ws'[1..] == ws;
    forall i | 0 <= i < |ws'|
      ensures p'[i] in g && Arc(p'[i + 1], ws'[i]) in g[p'[i]]
    {
      if i > 0 {
        assert p'[i] == p[i - 1] && p'[i + 1] == p[i] && ws'[i] == ws[i - 1];
      }
    }
  }
}
