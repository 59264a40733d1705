/** Directed graphs over item codes, as the rule DAG forest uses them: nodes in insertion order, a
    set of edges, an acyclicity predicate and a topological sort. */
module Digraphs {
  import opened Wrappers
  import opened Seqs

  datatype Digraph = Digraph(nodes: seq<int>, edges: set<(int, int)>)

  const Empty: Digraph := Digraph([], {})

  /** Nodes are listed once each and every edge joins two listed nodes. */
  predicate WellFormed(g: Digraph) {
    Unique(g.nodes) && forall e | e in g.edges :: e.0 in g.nodes && e.1 in g.nodes
  }

  /** No node is listed twice, checked from the back (Distinct, unfolded one node at a time). */
  predicate Unique(s: seq<int>)
    decreases |s|
  {
    s == [] || (s[|s| - 1] !in s[..|s| - 1] && Unique(s[..|s| - 1]))
  }

  lemma {:induction false} UniqueDistinct(s: seq<int>)
    ensures Unique(s) <==> Distinct(s)
    decreases |s|
  {
    if s != [] {
      var n := |s| - 1;
      var t := s[..n];
      UniqueDistinct(t);
      if Distinct(s) {
        assert Distinct(t) by {
          forall i, j | 0 <= i < j < |t| ensures t[i] != t[j] { assert t[i] == s[i] && t[j] == s[j]; }
        }
        assert s[n] !in t by {
          forall i | 0 <= i < |t| ensures t[i] != s[n] { assert t[i] == s[i]; }
        }
      }
      if Unique(s) {
        forall i, j | 0 <= i < j < |s| ensures s[i] != s[j] {
          assert s[i] == t[i];
          if j < n { assert s[j] == t[j]; }
        }
      }
    }
  }

  /** Appends `v` to the node list unless it is already there. */
  function AddNode(nodes: seq<int>, v: int): seq<int> {
    if v in nodes then nodes else nodes + [v]
  }

  /** add_edge(u, v): both end points join the node list, u first, and the edge joins the set. */
  function AddEdge(g: Digraph, e: (int, int)): Digraph {
    Digraph(AddNode(AddNode(g.nodes, e.0), e.1), g.edges + {e})
  }

  /** add_edges_from: the edges one after the other. */
  function AddEdges(g: Digraph, es: seq<(int, int)>): Digraph
    decreases |es|
  {
    if es == [] then g else AddEdges(AddEdge(g, es[0]), es[1..])
  }

  /** The end points of a list of edges. */
  function Ends(es: seq<(int, int)>): (r: set<int>)
    ensures forall e | e in es :: e.0 in r && e.1 in r
  {
    if es == [] then {} else {es[0].0, es[0].1} + Ends(es[1..])
  }

  /** A node joins the list once: existing nodes keep their places and stay unique. */
  lemma AddNodeShape(nodes: seq<int>, v: int)
    ensures var r := AddNode(nodes, v);
      ToSet(r) == ToSet(nodes) + {v}
      && (Unique(nodes) ==> Unique(r))
      && |nodes| <= |r| && r[..|nodes|] == nodes
  {
    if v !in nodes {
      assert (nodes + [v])[..|nodes|] == nodes;
    }
  }

  /** add_edge adds the edge and its two end points and keeps the graph well formed. */
  lemma AddEdgeShape(g: Digraph, e: (int, int))
    ensures var h := AddEdge(g, e);
      h.edges == g.edges + {e}
      && ToSet(h.nodes) == ToSet(g.nodes) + {e.0, e.1}
      && (WellFormed(g) ==> WellFormed(h))
  {
    var n1 := AddNode(g.nodes, e.0);
    AddNodeShape(g.nodes, e.0);
    AddNodeShape(n1, e.1);
    var h := AddEdge(g, e);
    if WellFormed(g) {
      forall f | f in h.edges ensures f.0 in h.nodes && f.1 in h.nodes {
        assert f.0 in ToSet(h.nodes) && f.1 in ToSet(h.nodes) by {
          if f != e {
            assert f.0 in ToSet(g.nodes) && f.1 in ToSet(g.nodes);
          }
        }
      }
    }
  }

  /** add_edges_from adds exactly the listed edges and their end points, and keeps the graph well
      formed. */
  lemma {:induction false} AddEdgesShape(g: Digraph, es: seq<(int, int)>)
    ensures var h := AddEdges(g, es);
      h.edges == g.edges + ToSet(es)
      && ToSet(h.nodes) == ToSet(g.nodes) + Ends(es)
      && (WellFormed(g) ==> WellFormed(h))
    decreases |es|
  {
    if es != [] {
      AddEdgeShape(g, es[0]);
      AddEdgesShape(AddEdge(g, es[0]), es[1..]);
      assert ToSet(es) == {es[0]} + ToSet(es[1..]);
      assert Ends(es) == {es[0].0, es[0].1} + Ends(es[1..]);
    }
  }

  // ---------------------------------------------------------------- cycles

  /** Consecutive elements of `w` are joined by edges. */
  ghost predicate IsWalk(edges: set<(int, int)>, w: seq<int>) {
    forall i | 0 <= i < |w| - 1 :: (w[i], w[i + 1]) in edges
  }

  /** A closed walk of at least one edge. */
  ghost predicate IsCycle(edges: set<(int, int)>, w: seq<int>) {
    |w| >= 2 && w[0] == w[|w| - 1] && IsWalk(edges, w)
  }

  ghost predicate Acyclic(g: Digraph) {
    forall w :: !IsCycle(g.edges, w)
  }

  /** `order` lists every node once, and no edge leads from a node to itself or to an earlier
      node of the list. */
  predicate IsTopoOrder(order: seq<int>, g: Digraph) {
    Distinct(order) && ToSet(order) == ToSet(g.nodes) && NoBackEdge(order, g.edges)
  }

  predicate NoBackEdge(order: seq<int>, edges: set<(int, int)>) {
    forall i, j | 0 <= j <= i < |order| :: (order[i], order[j]) !in edges
  }

  // ---------------------------------------------------------------- Kahn's algorithm

  /** No node of `rem` has an edge into `v`. */
  predicate IsSource(rem: seq<int>, edges: set<(int, int)>, v: int) {
    forall u | u in rem :: (u, v) !in edges
  }

  /** The position of the first source of `rem`, or |rem| when there is none. */
  function FirstSource(rem: seq<int>, edges: set<(int, int)>, from: nat): (k: nat)
    requires from <= |rem|
    ensures from <= k <= |rem|
    ensures k < |rem| ==> IsSource(rem, edges, rem[k])
    ensures forall j | from <= j < k :: !IsSource(rem, edges, rem[j])
    decreases |rem| - from
  {
    if from == |rem| then from
    else if IsSource(rem, edges, rem[from]) then from
    else FirstSource(rem, edges, from + 1)
  }

  /** Repeatedly takes out the first node with no incoming edge from the remaining nodes; fails
      when nodes remain but none of them is a source. */
  function Kahn(rem: seq<int>, edges: set<(int, int)>): Option<seq<int>>
    decreases |rem|
  {
    if rem == [] then Some([])
    else
      var k := FirstSource(rem, edges, 0);
      if k == |rem| then None
      else
        match Kahn(rem[..k] + rem[k + 1..], edges)
        case None => None
        case Some(rest) => Some([rem[k]] + rest)
  }

  function TopoSort(g: Digraph): Option<seq<int>> {
    Kahn(g.nodes, g.edges)
  }

  /** nx.is_directed_acyclic_graph */
  predicate IsDag(g: Digraph) {
    TopoSort(g).Some?
  }

  // ---------------------------------------------------------------- Kahn is correct

  lemma RemoveAt(rem: seq<int>, k: nat)
    requires k < |rem| && Distinct(rem)
    ensures var r := rem[..k] + rem[k + 1..];
      Distinct(r) && ToSet(r) == ToSet(rem) - {rem[k]} && |r| == |rem| - 1
  {
    var r := rem[..k] + rem[k + 1..];
    forall i, j | 0 <= i < j < |r| ensures r[i] != r[j] {
      var i' := if i < k then i else i + 1;
      var j' := if j < k then j else j + 1;
      assert r[i] == rem[i'] && r[j] == rem[j'];
    }
    forall x | x in ToSet(rem) - {rem[k]} ensures x in ToSet(r) {
      var i :| 0 <= i < |rem| && rem[i] == x;
      if i < k { assert r[i] == x; } else { assert r[i - 1] == x; }
    }
    forall x | x in ToSet(r) ensures x in ToSet(rem) - {rem[k]} {
      var i :| 0 <= i < |r| && r[i] == x;
      var i' := if i < k then i else i + 1;
      assert rem[i'] == x && i' != k;
    }
  }

  /** Whatever Kahn's algorithm lists is an ordering of the remaining nodes without back edges. */
  lemma {:induction false} KahnSound(rem: seq<int>, edges: set<(int, int)>)
    requires Distinct(rem) && Kahn(rem, edges).Some?
    ensures var order := Kahn(rem, edges).value;
      Distinct(order) && ToSet(order) == ToSet(rem) && NoBackEdge(order, edges)
    decreases |rem|
  {
    if rem != [] {
      var k := FirstSource(rem, edges, 0);
      var r := rem[..k] + rem[k + 1..];
      RemoveAt(rem, k);
      KahnSound(r, edges);
      var rest := Kahn(r, edges).value;
      assert Kahn(rem, edges).value == [rem[k]] + rest;
      PrependSource(rem, edges, rem[k], rest);
    }
  }

  /** Putting a source of `rem` in front of an ordering of the rest of `rem`. */
  lemma PrependSource(rem: seq<int>, edges: set<(int, int)>, v: int, rest: seq<int>)
    requires v in rem && IsSource(rem, edges, v)
    requires Distinct(rest) && ToSet(rest) == ToSet(rem) - {v} && NoBackEdge(rest, edges)
    ensures var order := [v] + rest;
      Distinct(order) && ToSet(order) == ToSet(rem) && NoBackEdge(order, edges)
  {
    var order := [v] + rest;
    assert v !in ToSet(rest);
    forall i, j | 0 <= i < j < |order| ensures order[i] != order[j] {
      if i > 0 { assert order[i] == rest[i - 1]; }
      assert order[j] == rest[j - 1];
      assert order[j] in ToSet(rest);
    }
    assert ToSet(order) == {v} + ToSet(rest);
    forall i, j | 0 <= j <= i < |order| ensures (order[i], order[j]) !in edges {
      if j == 0 {
        assert order[i] in ToSet(order);
        assert order[i] in rem;
      } else {
        assert order[i] == rest[i - 1] && order[j] == rest[j - 1];
      }
    }
  }

  /** When Kahn's algorithm gets stuck, the graph has a cycle. */
  lemma {:induction false} KahnComplete(rem: seq<int>, edges: set<(int, int)>)
    requires Kahn(rem, edges).None?
    ensures exists w :: IsCycle(edges, w)
    decreases |rem|
  {
    var k := FirstSource(rem, edges, 0);
    if k == |rem| {
      forall v | v in rem ensures !IsSource(rem, edges, v) {
        var j :| 0 <= j < |rem| && rem[j] == v;
      }
      var w := BackWalk(rem, edges, rem[0], |rem|);
      PigeonCycle(rem, edges, w);
    } else {
      KahnComplete(rem[..k] + rem[k + 1..], edges);
    }
  }

  /** Going backwards along incoming edges from `v` for `n` steps, when every node of `rem` has
      a predecessor in `rem`. */
  lemma {:induction false} BackWalk(rem: seq<int>, edges: set<(int, int)>, v: int, n: nat) returns (w: seq<int>)
    requires v in rem
    requires forall x | x in rem :: !IsSource(rem, edges, x)
    ensures |w| == n + 1 && w[n] == v && IsWalk(edges, w)
    ensures forall i | 0 <= i < |w| :: w[i] in rem
    decreases n
  {
    if n == 0 {
      w := [v];
    } else {
      assert !IsSource(rem, edges, v);
      var u :| u in rem && (u, v) in edges;
      var p := BackWalk(rem, edges, u, n - 1);
      w := p + [v];
      assert w[n - 1] == u;
    }
  }

  /** A walk through more positions than there are nodes repeats a node, and the stretch between two
      visits is a cycle. */
  lemma PigeonCycle(rem: seq<int>, edges: set<(int, int)>, w: seq<int>)
    requires |w| > |rem| && IsWalk(edges, w)
    requires forall i | 0 <= i < |w| :: w[i] in rem
    ensures exists c :: IsCycle(edges, c)
  {
    ToSetCard(w);
    ToSetCard(rem);
    assert ToSet(w) <= ToSet(rem);
    SubsetCard(ToSet(w), ToSet(rem));
    assert !Distinct(w);
    var i, j :| 0 <= i < j < |w| && w[i] == w[j];
    var c := w[i..j + 1];
    assert IsWalk(edges, c) by {
      forall t | 0 <= t < |c| - 1 ensures (c[t], c[t + 1]) in edges {
        assert c[t] == w[i + t] && c[t + 1] == w[i + t + 1];
      }
    }
    assert IsCycle(edges, c);
  }

  /** Along a walk through an ordering without back edges, positions strictly increase. */
  lemma {:induction false} WalkAscends(order: seq<int>, edges: set<(int, int)>, w: seq<int>)
    requires NoBackEdge(order, edges) && |w| >= 2 && IsWalk(edges, w)
    requires forall i | 0 <= i < |w| :: w[i] in order
    ensures FirstIndex(order, w[0]) < FirstIndex(order, w[|w| - 1])
    decreases |w|
  {
    var p, q := FirstIndex(order, w[0]), FirstIndex(order, w[1]);
    assert (w[0], w[1]) in edges;
    if |w| > 2 {
      var t := w[1..];
      assert IsWalk(edges, t) by {
        forall i | 0 <= i < |t| - 1 ensures (t[i], t[i + 1]) in edges { assert t[i] == w[i + 1]; }
      }
      WalkAscends(order, edges, t);
    }
  }

  /** A graph with a topological order has no cycle. */
  lemma TopoOrderAcyclic(order: seq<int>, g: Digraph)
    requires WellFormed(g) && IsTopoOrder(order, g)
    ensures Acyclic(g)
  {
    forall w | IsCycle(g.edges, w) ensures false {
      forall i | 0 <= i < |w| ensures w[i] in order {
        if i < |w| - 1 {
          assert (w[i], w[i + 1]) in g.edges;
        } else {
          assert (w[i - 1], w[i]) in g.edges;
        }
        assert w[i] in ToSet(g.nodes);
      }
      WalkAscends(order, g.edges, w);
    }
  }

  /** The topological sort succeeds exactly on acyclic graphs, and what it returns is a
      topological order. */
  lemma TopoSortCorrect(g: Digraph)
    requires WellFormed(g)
    ensures TopoSort(g).Some? <==> Acyclic(g)
    ensures TopoSort(g).Some? ==> IsTopoOrder(TopoSort(g).value, g)
  {
    UniqueDistinct(g.nodes);
    if TopoSort(g).Some? {
      KahnSound(g.nodes, g.edges);
      TopoOrderAcyclic(TopoSort(g).value, g);
    } else {
      KahnComplete(g.nodes, g.edges);
    }
  }

  /** In a topological order every edge leads forward. */
  lemma EdgeForward(order: seq<int>, g: Digraph, u: int, v: int)
    requires WellFormed(g) && IsTopoOrder(order, g) && (u, v) in g.edges
    ensures u in order && v in order && FirstIndex(order, u) < FirstIndex(order, v)
  {
    assert u in ToSet(g.nodes) && v in ToSet(g.nodes);
  }
}
