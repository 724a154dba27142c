/** The graph object of the `graph-data-structure` package as the app uses it:
    nodes in insertion order, a successor list per node (`addEdge(u, v)`
    appends `v` to the list of `u`, adding missing nodes first) and an
    unweighted shortest-path query. The package's own search and its
    tie-breaking are not reproduced: `ShortestPath` is an independent
    iterative-deepening search, proved to return a walk of least length. */
module GraphLib {
  import opened Model

  datatype Digraph = Digraph(order: seq<string>, adj: map<string, seq<string>>)

  const Empty: Digraph := Digraph([], map[])

  /** Nodes are listed once each, and exactly the listed nodes have successor lists. */
  ghost predicate WellFormed(g: Digraph) {
    Distinct(g.order) && forall n :: n in g.adj <==> n in g.order
  }

  /** `graph.addNode(n)` as a function: a node that is present keeps its place and its successors. */
  function WithNode(g: Digraph, n: string): (h: Digraph)
    ensures WellFormed(g) ==> WellFormed(h)
    ensures n in h.adj && (n in g.adj ==> h == g)
    ensures n !in g.adj ==> h.order == g.order + [n] && h.adj == g.adj[n := []]
  {
    if n in g.adj then g else Digraph(g.order + [n], g.adj[n := []])
  }

  /** `graph.addEdge(u, v)` as a function. */
  function WithEdge(g: Digraph, u: string, v: string): (h: Digraph)
    ensures WellFormed(g) ==> WellFormed(h)
    ensures u in g.adj && v in g.adj ==> h == g.(adj := g.adj[u := g.adj[u] + [v]])
  {
    var h := WithNode(WithNode(g, u), v);
    h.(adj := h.adj[u := h.adj[u] + [v]])
  }

  /** `p` is a walk from `a` to `b` along successor lists. */
  ghost predicate IsWalk(g: Digraph, p: seq<string>, a: string, b: string) {
    |p| >= 1 && p[0] == a && p[|p| - 1] == b &&
    forall i :: 0 <= i < |p| - 1 ==> p[i] in g.adj && p[i + 1] in g.adj[p[i]]
  }

  /** A walk from `a` to `b` with at most `k` edges, found depth first. */
  function Walk(g: Digraph, a: string, b: string, k: nat): Option<seq<string>>
    decreases k, 0, 0
  {
    if a == b then Some([a])
    else if k == 0 || a !in g.adj then None
    else
      match Via(g, g.adj[a], b, k - 1)
      case None => None
      case Some(p) => Some([a] + p)
  }

  /** The first candidate, in list order, with a walk to `b` of at most `k` edges. */
  function Via(g: Digraph, cands: seq<string>, b: string, k: nat): Option<seq<string>>
    decreases k, 1, |cands|
  {
    if cands == [] then None
    else
      match Walk(g, cands[0], b, k)
      case Some(p) => Some(p)
      case None => Via(g, cands[1..], b, k)
  }

  /** Iterative deepening from bound `k` up to the number of nodes. */
  function Deepen(g: Digraph, a: string, b: string, k: nat): Option<seq<string>>
    decreases |g.order| + 1 - k
  {
    if k > |g.order| then None
    else
      match Walk(g, a, b, k)
      case Some(p) => Some(p)
      case None => Deepen(g, a, b, k + 1)
  }

  /** `graph.shortestPath(a, b)` as a function; None stands for the package
      throwing, which it always does for a missing node. An answer runs from `a`
      to `b`; that it is a least-length walk is `ShortestPathSound`. */
  function Shortest(g: Digraph, a: string, b: string): (r: Option<seq<string>>)
    ensures r.Some? ==> a in g.adj && b in g.adj
    ensures r.Some? ==> |r.value| >= 1 && r.value[0] == a && r.value[|r.value| - 1] == b
  {
    if a in g.adj && b in g.adj then
      DeepenSound(g, a, b, 0);
      Deepen(g, a, b, 0)
    else None
  }

  /** The query answers with a walk from `a` to `b` that no other walk undercuts. */
  lemma ShortestPathSound(g: Digraph, a: string, b: string)
    ensures Shortest(g, a, b).Some? ==>
      var p := Shortest(g, a, b).value;
      IsWalk(g, p, a, b) && forall q :: IsWalk(g, q, a, b) ==> |p| <= |q|
  {
    if a in g.adj && b in g.adj {
      DeepenSound(g, a, b, 0);
    }
  }

  lemma {:induction false} WalkSound(g: Digraph, a: string, b: string, k: nat)
    ensures Walk(g, a, b, k).Some? ==> IsWalk(g, Walk(g, a, b, k).value, a, b) && |Walk(g, a, b, k).value| <= k + 1
    decreases k, 0, 0
  {
    if a != b && k > 0 && a in g.adj {
      var v := Via(g, g.adj[a], b, k - 1);
      ViaSound(g, g.adj[a], b, k - 1);
      if v.Some? {
        var q := v.value;
        var p := [a] + q;
        forall i | 0 <= i < |p| - 1 ensures p[i] in g.adj && p[i + 1] in g.adj[p[i]] {
          if i > 0 {
            assert p[i] == q[i - 1] && p[i + 1] == q[i];
          }
        }
      }
    }
  }

  lemma {:induction false} ViaSound(g: Digraph, cands: seq<string>, b: string, k: nat)
    ensures Via(g, cands, b, k).Some? ==>
      var p := Via(g, cands, b, k).value;
      |p| >= 1 && p[0] in cands && IsWalk(g, p, p[0], b) && |p| <= k + 1
    decreases k, 1, |cands|
  {
    if cands != [] {
      WalkSound(g, cands[0], b, k);
      ViaSound(g, cands[1..], b, k);
    }
  }

  lemma {:induction false} WalkComplete(g: Digraph, p: seq<string>, a: string, b: string, k: nat)
    requires IsWalk(g, p, a, b) && |p| <= k + 1
    ensures Walk(g, a, b, k).Some?
    decreases |p|, 1, 0
  {
    if a != b {
      var q := p[1..];
      assert p[0] in g.adj && p[1] in g.adj[p[0]];
      assert IsWalk(g, q, p[1], b) by {
        forall i | 0 <= i < |q| - 1 ensures q[i] in g.adj && q[i + 1] in g.adj[q[i]] {
          assert q[i] == p[i + 1] && q[i + 1] == p[i + 2];
        }
      }
      ViaComplete(g, g.adj[a], q, p[1], b, k - 1);
    }
  }

  lemma {:induction false} ViaComplete(g: Digraph, cands: seq<string>, q: seq<string>, c: string, b: string, k: nat)
    requires c in cands && IsWalk(g, q, c, b) && |q| <= k + 1
    ensures Via(g, cands, b, k).Some?
    decreases |q| + 1, 0, |cands|
  {
    if cands[0] == c {
      WalkComplete(g, q, c, b, k);
    } else if Walk(g, cands[0], b, k).None? {
      ViaComplete(g, cands[1..], q, c, b, k);
    }
  }

  /** Once no walk has fewer than `k + 1` nodes, deepening from `k` returns a walk
      no longer than any other. */
  lemma {:induction false} DeepenSound(g: Digraph, a: string, b: string, k: nat)
    requires forall q :: IsWalk(g, q, a, b) ==> |q| >= k + 1
    ensures Deepen(g, a, b, k).Some? ==>
      var p := Deepen(g, a, b, k).value;
      IsWalk(g, p, a, b) && forall q :: IsWalk(g, q, a, b) ==> |p| <= |q|
    decreases |g.order| + 1 - k
  {
    if k <= |g.order| {
      WalkSound(g, a, b, k);
      if Walk(g, a, b, k).None? {
        forall q | IsWalk(g, q, a, b) ensures |q| >= k + 2 {
          if |q| <= k + 1 {
            WalkComplete(g, q, a, b, k);
          }
        }
        DeepenSound(g, a, b, k + 1);
      }
    }
  }

  lemma {:induction false} DeepenComplete(g: Digraph, q: seq<string>, a: string, b: string, k: nat)
    requires IsWalk(g, q, a, b) && k + 1 <= |q| <= |g.order| + 1
    ensures Deepen(g, a, b, k).Some?
    decreases |q| - k
  {
    if |q| == k + 1 {
      WalkComplete(g, q, a, b, k);
    } else if Walk(g, a, b, k).None? {
      DeepenComplete(g, q, a, b, k + 1);
    }
  }

  /** The nodes of a sequence number at most its length, and exactly its length
      when it has no repeats. */
  lemma {:induction false} ElementsCard(s: seq<string>)
    ensures |set x | x in s| <= |s|
    ensures Distinct(s) ==> |set x | x in s| == |s|
  {
    if s != [] {
      var t := s[..|s| - 1];
      ElementsCard(t);
      assert s == t + [s[|s| - 1]];
      assert (set x | x in s) == (set x | x in t) + {s[|s| - 1]};
    }
  }

  /** Cutting the cycle between two visits of one node leaves a walk. */
  lemma CutCycle(g: Digraph, p: seq<string>, a: string, b: string, i: nat, j: nat)
    requires IsWalk(g, p, a, b) && i < j < |p| && p[i] == p[j]
    ensures IsWalk(g, p[..i] + p[j..], a, b) && |p[..i] + p[j..]| < |p|
  {
    var r := p[..i] + p[j..];
    assert r[0] == a by {
      if i == 0 { assert r[0] == p[j]; }
    }
    forall k | 0 <= k < |r| - 1 ensures r[k] in g.adj && r[k + 1] in g.adj[r[k]] {
      if k + 1 < i {
        assert r[k] == p[k] && r[k + 1] == p[k + 1];
      } else if k + 1 == i {
        assert r[k] == p[k] && r[k + 1] == p[j] == p[k + 1];
      } else {
        assert r[k] == p[k + j - i] && r[k + 1] == p[k + 1 + j - i];
      }
    }
  }

  /** On a well-formed graph, a walk to a present node shortens to one that
      visits no node twice, and so has at most one node per listed node. */
  lemma {:induction false} Shorten(g: Digraph, p: seq<string>, a: string, b: string) returns (q: seq<string>)
    requires WellFormed(g) && b in g.adj && IsWalk(g, p, a, b)
    ensures IsWalk(g, q, a, b) && |q| <= |g.order|
    decreases |p|
  {
    if Distinct(p) {
      var visited, listed := set x | x in p, set x | x in g.order;
      forall x | x in visited ensures x in listed {
        var k :| 0 <= k < |p| && p[k] == x;
        assert x in g.adj;
      }
      assert listed == visited + (listed - visited);
      ElementsCard(p);
      ElementsCard(g.order);
      q := p;
    } else {
      var i, j :| 0 <= i < j < |p| && p[i] == p[j];
      CutCycle(g, p, a, b, i, j);
      q := Shorten(g, p[..i] + p[j..], a, b);
    }
  }

  /** Between two nodes of a well-formed graph joined by any walk, the query
      always answers. */
  lemma ShortestPathComplete(g: Digraph, q: seq<string>, a: string, b: string)
    requires WellFormed(g) && a in g.adj && b in g.adj
    requires IsWalk(g, q, a, b)
    ensures Shortest(g, a, b).Some?
  {
    var r := Shorten(g, q, a, b);
    DeepenComplete(g, r, a, b, 0);
  }

  /** `path.filter((item) => item !== a && item !== b)`. */
  function Without(p: seq<string>, a: string, b: string): (r: seq<string>)
    ensures forall x :: x in r <==> x in p && x != a && x != b
  {
    if p == [] then []
    else
      assert p == [p[0]] + p[1..];
      (if p[0] != a && p[0] != b then [p[0]] else []) + Without(p[1..], a, b)
  }

  function HopCount(p: seq<string>, a: string, b: string): nat {
    |Without(p, a, b)|
  }

  /** A friend-of-friend query: when `a` reaches `b` through `c`, the shortest
      path exists and has no intermediate node if `b` is a successor of `a` and
      exactly one otherwise. */
  lemma TwoHop(g: Digraph, a: string, c: string, b: string)
    requires WellFormed(g) && a != b
    requires a in g.adj && c in g.adj[a] && c in g.adj && b in g.adj[c] && b in g.adj
    ensures Shortest(g, a, b).Some?
    ensures HopCount(Shortest(g, a, b).value, a, b) == if b in g.adj[a] then 0 else 1
  {
    var q := [a, c, b];
    assert IsWalk(g, q, a, b);
    ShortestPathComplete(g, q, a, b);
    ShortestPathSound(g, a, b);
    var p := Shortest(g, a, b).value;
    assert |p| >= 2;
    if b in g.adj[a] {
      assert IsWalk(g, [a, b], a, b);
      assert p == [a, b];
      assert Without(p, a, b) == [] by {
        assert Without(p[1..], a, b) == [];
      }
    } else {
      assert |p| == 3;
      var x := p[1];
      assert x in g.adj[a] && b in g.adj[x];
      assert x != a && x != b;
      assert p == [a, x, b];
      assert Without(p, a, b) == [x] by {
        assert p[1..] == [x, b];
        assert p[2..] == [b];
        assert Without([b], a, b) == [];
      }
    }
  }

  /** The library's graph object; its methods apply the functions above in place. */
  class Graph {
    var state: Digraph

    constructor ()
      ensures state == Empty
    {
      state := Empty;
    }

    method AddNode(n: string)
      modifies this
      ensures state == WithNode(old(state), n)
    {
      state := WithNode(state, n);
    }

    method AddEdge(u: string, v: string)
      modifies this
      ensures state == WithEdge(old(state), u, v)
    {
      state := WithEdge(state, u, v);
    }

    /** `graph.nodes()`: on a well-formed graph, every node once. */
    function Nodes(): (r: seq<string>)
      reads this
      ensures WellFormed(state) ==> Distinct(r) && forall n :: n in r <==> n in state.adj
    {
      state.order
    }

    /** `graph.shortestPath(a, b)` on the object's current state: it throws for a
        missing node, and an answer runs from `a` to `b`. */
    function ShortestPath(a: string, b: string): (r: Option<seq<string>>)
      reads this
      ensures r.Some? ==> a in state.adj && b in state.adj
      ensures r.Some? ==> |r.value| >= 1 && r.value[0] == a && r.value[|r.value| - 1] == b
    {
      Shortest(state, a, b)
    }
  }
}
