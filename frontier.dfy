/**
 * The frontier `pq`: an array of `[distance, node]` entries. Each round the
 * search sorts it with the stable `Array.prototype.sort` by distance and
 * removes its head with `shift`; so the entry removed is the earliest entry
 * of minimal distance.
 */
module Frontier {
  import opened Graph

  /** One frontier entry `[d, node]`. */
  datatype Entry = Entry(d: int, node: Node)

  /** Entries appear in non-decreasing order of distance. */
  ghost predicate Sorted(q: seq<Entry>)
  {
    forall i, j :: 0 <= i < j < |q| ==> q[i].d <= q[j].d
  }

  /** The entries of `q` whose distance is `k`, in their order in `q`. */
  function WithDist(q: seq<Entry>, k: int): seq<Entry>
  {
    if q == [] then []
    else (if q[0].d == k then [q[0]] else []) + WithDist(q[1..], k)
  }

  /**
   * Puts `e` in front of the first entry that is not smaller than it; as `e`
   * came earlier than every entry of `t`, ties keep their input order.
   */
  function Insert(e: Entry, t: seq<Entry>): seq<Entry>
  {
    if t == [] || e.d <= t[0].d then [e] + t
    else [t[0]] + Insert(e, t[1..])
  }

  /** The model of `pq.sort((a, b) => a[0] - b[0])`: a stable sort by distance. */
  function SortByDist(q: seq<Entry>): seq<Entry>
  {
    if q == [] then [] else Insert(q[0], SortByDist(q[1..]))
  }

  /** The index of the earliest entry of minimal distance. */
  function FirstMin(q: seq<Entry>): (i: nat)
    requires q != []
    ensures i < |q|
    ensures forall j :: 0 <= j < |q| ==> q[i].d <= q[j].d
    ensures forall j :: 0 <= j < i ==> q[j].d > q[i].d
  {
    if |q| == 1 || q[0].d <= q[1 + FirstMin(q[1..])].d then 0
    else 1 + FirstMin(q[1..])
  }

  lemma {:induction false} InsertPermutes(e: Entry, t: seq<Entry>)
    ensures multiset(Insert(e, t)) == multiset(t) + multiset{e}
  {
    if !(t == [] || e.d <= t[0].d) {
      InsertPermutes(e, t[1..]);
      assert t == [t[0]] + t[1..];
    }
  }

  lemma {:induction false} InsertSorted(e: Entry, t: seq<Entry>)
    requires Sorted(t)
    ensures Insert(e, t) != []
    ensures Insert(e, t)[0] == e || Insert(e, t)[0] == t[0]
    ensures Sorted(Insert(e, t))
  {
    if !(t == [] || e.d <= t[0].d) {
      var r := Insert(e, t[1..]);
      assert Sorted(t[1..]);
      InsertSorted(e, t[1..]);
      assert t[0].d <= r[0].d;
      assert Insert(e, t) == [t[0]] + r;
      forall i, j | 0 <= i < j < |r| + 1
        ensures ([t[0]] + r)[i].d <= ([t[0]] + r)[j].d
      {
        if i == 0 {
          assert r[0].d <= r[j - 1].d;
        }
      }
    }
  }

  lemma WithDistCons(x: Entry, r: seq<Entry>, k: int)
    ensures WithDist([x] + r, k) == (if x.d == k then [x] else []) + WithDist(r, k)
  {
    assert ([x] + r)[1..] == r;
  }

  lemma {:induction false} InsertWithDist(e: Entry, t: seq<Entry>, k: int)
    ensures WithDist(Insert(e, t), k) == (if e.d == k then [e] else []) + WithDist(t, k)
  {
    if t == [] || e.d <= t[0].d {
      WithDistCons(e, t, k);
    } else {
      var r := Insert(e, t[1..]);
      InsertWithDist(e, t[1..], k);
      WithDistCons(t[0], r, k);
      WithDistCons(t[0], t[1..], k);
      assert [t[0]] + t[1..] == t;
      var rest := WithDist(t[1..], k);
      if t[0].d == k {
        assert WithDist(Insert(e, t), k) == [t[0]] + rest;
      } else if e.d == k {
        assert WithDist(Insert(e, t), k) == [e] + rest;
      }
    }
  }

  /** A non-empty sequence has an entry at its head's distance. */
  lemma HeadHasOwnDist(r: seq<Entry>)
    ensures r != [] ==> WithDist(r, r[0].d) != []
  {
  }

  /** The sort yields the entries of `q`, sorted by distance, with each distance's entries in input order. */
  lemma {:induction false} SortByDistFacts(q: seq<Entry>)
    ensures multiset(SortByDist(q)) == multiset(q)
    ensures Sorted(SortByDist(q))
    ensures forall k :: WithDist(SortByDist(q), k) == WithDist(q, k)
  {
    if q != [] {
      SortByDistFacts(q[1..]);
      InsertPermutes(q[0], SortByDist(q[1..]));
      InsertSorted(q[0], SortByDist(q[1..]));
      forall k
        ensures WithDist(SortByDist(q), k) == WithDist(q, k)
      {
        InsertWithDist(q[0], SortByDist(q[1..]), k);
      }
      assert q == [q[0]] + q[1..];
    }
  }

  /** After sorting, the head is the earliest entry of minimal distance in `q`. */
  lemma {:induction false} SortedHeadIsFirstMin(q: seq<Entry>)
    requires q != []
    ensures SortByDist(q) != [] && SortByDist(q)[0] == q[FirstMin(q)]
  {
    if |q| > 1 {
      SortedHeadIsFirstMin(q[1..]);
    }
  }

  /**
   * `SortByDist` is the only stable sort: a sorted sequence that keeps, for
   * every distance, the entries of `q` in input order, is `SortByDist(q)`.
   */
  lemma {:induction false} StableSortUnique(q: seq<Entry>, r: seq<Entry>)
    requires Sorted(r)
    requires forall k :: WithDist(r, k) == WithDist(q, k)
    ensures r == SortByDist(q)
  {
    SortByDistFacts(q);
    SortedByKeysUnique(r, SortByDist(q));
  }

  /** Two sorted sequences with the same entries per distance are equal. */
  lemma {:induction false} SortedByKeysUnique(r: seq<Entry>, s: seq<Entry>)
    requires Sorted(r) && Sorted(s)
    requires forall k :: WithDist(r, k) == WithDist(s, k)
    ensures r == s
    decreases |r| + |s|
  {
    if r == [] || s == [] {
      HeadHasOwnDist(r);
      HeadHasOwnDist(s);
    } else {
      HeadOfSorted(r, s);
      HeadOfSorted(s, r);
      var k := r[0].d;
      assert s[0].d == k;
      assert WithDist(r, k)[0] == r[0];
      assert WithDist(s, k)[0] == s[0];
      assert r[0] == s[0];
      forall j
        ensures WithDist(r[1..], j) == WithDist(s[1..], j)
      {
        assert WithDist(r, j) == (if r[0].d == j then [r[0]] else []) + WithDist(r[1..], j);
        assert WithDist(s, j) == (if s[0].d == j then [s[0]] else []) + WithDist(s[1..], j);
        assert WithDist(r, j) == WithDist(s, j);
        if r[0].d == j {
          var x, y := WithDist(r[1..], j), WithDist(s[1..], j);
          assert [r[0]] + x == [r[0]] + y;
          assert ([r[0]] + x)[1..] == x;
          assert ([r[0]] + y)[1..] == y;
        } else {
          assert WithDist(r, j) == WithDist(r[1..], j);
          assert WithDist(s, j) == WithDist(s[1..], j);
        }
      }
      SortedByKeysUnique(r[1..], s[1..]);
      assert r == [r[0]] + r[1..] && s == [s[0]] + s[1..];
    }
  }

  /** The head distance of a sorted sequence is at most the head distance of one with the same entries. */
  lemma HeadOfSorted(r: seq<Entry>, s: seq<Entry>)
    requires Sorted(r) && r != [] && s != []
    requires forall k :: WithDist(r, k) == WithDist(s, k)
    ensures r[0].d <= s[0].d
  {
    var k := s[0].d;
    assert WithDist(s, k) != [];
    assert WithDist(r, k) != [];
    WithDistMember(r, k);
  }

  /** An entry of distance `k` exists in `r` when `WithDist(r, k)` is not empty. */
  lemma {:induction false} WithDistMember(r: seq<Entry>, k: int)
    requires WithDist(r, k) != []
    ensures exists i :: 0 <= i < |r| && r[i].d == k
  {
    if r[0].d != k {
      WithDistMember(r[1..], k);
      var i :| 0 <= i < |r[1..]| && r[1..][i].d == k;
      assert r[i + 1].d == k;
    }
  }

  /**
   * The frontier once the rounds that pop an entry of an already visited
   * node have run (dijkstra.js:22-27): while the head of the sorted
   * frontier names a node of `visited`, it is removed and nothing else
   * happens.
   */
  function Drain(q: seq<Entry>, visited: set<Node>): seq<Entry>
    decreases |q|
  {
    if q == [] then []
    else
      SortLength(q);
      var s := SortByDist(q);
      if s[0].node in visited then Drain(s[1..], visited) else q
  }

  /**
   * The next round that visits a node pops `e` from the frontier `q`: the
   * stale heads are skipped, `e` is the head of the sorted frontier left,
   * and `rest` is what remains after the `shift`.
   */
  ghost predicate Pops(q: seq<Entry>, visited: set<Node>, e: Entry, rest: seq<Entry>)
  {
    var live := Drain(q, visited);
    live != [] && SortByDist(live) == [e] + rest
  }

  lemma {:induction false} InsertLength(e: Entry, t: seq<Entry>)
    ensures |Insert(e, t)| == |t| + 1
  {
    if !(t == [] || e.d <= t[0].d) {
      InsertLength(e, t[1..]);
    }
  }

  /** Sorting keeps the length. */
  lemma {:induction false} SortLength(q: seq<Entry>)
    ensures |SortByDist(q)| == |q|
  {
    if q != [] {
      SortLength(q[1..]);
      InsertLength(q[0], SortByDist(q[1..]));
    }
  }

  /**
   * Skipping stale heads only removes entries, and never one whose node is
   * not in `visited`; what is left, if anything, has a head of such a node.
   */
  lemma {:induction false} DrainKeeps(q: seq<Entry>, visited: set<Node>)
    ensures multiset(Drain(q, visited)) <= multiset(q)
    ensures Drain(q, visited) != [] ==> SortByDist(Drain(q, visited)) != [] && SortByDist(Drain(q, visited))[0].node !in visited
    ensures forall x :: x in q && x.node !in visited ==> x in Drain(q, visited)
    decreases |q|
  {
    if q != [] {
      SortLength(q);
    }
    if q != [] && SortByDist(q)[0].node in visited {
      var s := SortByDist(q);
      SortByDistFacts(q);
      DrainKeeps(s[1..], visited);
      assert s == [s[0]] + s[1..];
      assert multiset(s[1..]) <= multiset(s);
      forall x | x in q && x.node !in visited
        ensures x in s[1..]
      {
        assert x in multiset(q);
        assert x in s;
      }
    }
  }

  /** The head of the sorted `q` is an entry of `q` no larger than any other. */
  lemma SortedHead(q: seq<Entry>, e: Entry, rest: seq<Entry>)
    requires SortByDist(q) == [e] + rest
    ensures multiset(q) == multiset(rest) + multiset{e}
    ensures forall x :: x in q ==> e.d <= x.d
  {
    var s := SortByDist(q);
    SortByDistFacts(q);
    assert multiset(s) == multiset{e} + multiset(rest);
    forall x | x in q
      ensures e.d <= x.d
    {
      assert x in multiset(s);
      var i :| 0 <= i < |s| && s[i] == x;
      assert s[0] == e;
    }
  }

  /**
   * A pop takes an entry of a node outside `visited`, no larger than any
   * entry of such a node in `q`, and leaves the other entries of the live
   * frontier, none of them smaller.
   */
  lemma PopsFacts(q: seq<Entry>, visited: set<Node>, e: Entry, rest: seq<Entry>)
    requires Pops(q, visited, e, rest)
    ensures e.node !in visited
    ensures multiset(rest) + multiset{e} <= multiset(q)
    ensures forall x :: x in rest ==> e.d <= x.d
    ensures forall x :: x in q && x.node !in visited ==> e.d <= x.d
  {
    var live := Drain(q, visited);
    DrainKeeps(q, visited);
    SortedHead(live, e, rest);
    forall x | x in rest
      ensures e.d <= x.d
    {
      assert x in multiset(rest);
      assert x in multiset(live);
    }
  }
}
