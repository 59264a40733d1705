/** The forest of rule DAGs: rules are packed first-fit into acyclic graphs with edges from each
    LHS item to the RHS; each graph is topologically sorted and its rules are projected onto a
    matrix of antecedent (A.) and consequent (C.) markers. */
module RuleDag {
  import opened Wrappers
  import opened Text
  import opened Seqs
  import opened PatternClasses
  import opened Dictionary
  import opened Digraphs

  // ---------------------------------------------------------------- nodes and edges of a rule

  /** np.append(rule.LHS, rule.RHS) */
  function RuleItems(r: Rule): seq<int> {
    r.lhs + [r.rhs]
  }

  /** Every item of the rule has a parent in the mapping; _create_dags raises KeyError otherwise. */
  predicate Covered(m: CodeToEvent, r: Rule) {
    (forall i | 0 <= i < |r.lhs| :: HasParent(m, r.lhs[i])) && HasParent(m, r.rhs)
  }

  /** code_to_event[str(item)]['parent'], for an item that has one. The operations require
      coverage; for other items the spec functions use the item itself. */
  function ParentOf(m: CodeToEvent, item: int): (p: int)
    ensures HasParent(m, item) ==> p == m[item].parent.value
  {
    if HasParent(m, item) then m[item].parent.value else item
  }

  /** The DAG node of an item: the item itself when tagged, its parent code otherwise. */
  function Node(m: CodeToEvent, tagged: bool, item: int): (v: int)
    ensures v == if tagged then item else ParentOf(m, item)
  {
    if tagged then item else ParentOf(m, item)
  }

  /** One edge per LHS item, into the node of `rhs`. */
  function EdgesInto(m: CodeToEvent, tagged: bool, lhs: seq<int>, rhs: int): (es: seq<(int, int)>)
    ensures |es| == |lhs|
    ensures forall i | 0 <= i < |lhs| :: es[i] == (Node(m, tagged, lhs[i]), Node(m, tagged, rhs))
  {
    if lhs == [] then [] else [(Node(m, tagged, lhs[0]), Node(m, tagged, rhs))] + EdgesInto(m, tagged, lhs[1..], rhs)
  }

  function RuleEdges(m: CodeToEvent, tagged: bool, r: Rule): seq<(int, int)> {
    EdgesInto(m, tagged, r.lhs, r.rhs)
  }

  /** The rule alone does not close a cycle: no LHS item has the RHS's node. */
  predicate StandsAlone(m: CodeToEvent, tagged: bool, r: Rule) {
    forall i | 0 <= i < |r.lhs| :: Node(m, tagged, r.lhs[i]) != Node(m, tagged, r.rhs)
  }

  /** What _create_dags needs of a rule: its items have parents and it stands alone (otherwise
      _create_dags stores None as a DAG). */
  predicate Admissible(m: CodeToEvent, tagged: bool, r: Rule) {
    Covered(m, r) && StandsAlone(m, tagged, r)
  }

  // ---------------------------------------------------------------- inserting a rule

  /** _insert_rule_to_dag: the graph with the rule's edges added, or None when that graph has a
      cycle. The argument is a value and so is left as it was. */
  function InsertRule(m: CodeToEvent, tagged: bool, g: Digraph, r: Rule): Option<Digraph> {
    var h := AddEdges(g, RuleEdges(m, tagged, r));
    if IsDag(h) then Some(h) else None
  }

  /** On success the result holds the old edges plus one edge LHS item -> RHS per LHS item;
      it fails exactly when that graph has a cycle. */
  lemma InsertRuleMeaning(m: CodeToEvent, tagged: bool, g: Digraph, r: Rule)
    requires WellFormed(g)
    ensures var h := AddEdges(g, RuleEdges(m, tagged, r));
      (InsertRule(m, tagged, g, r).Some? <==> Acyclic(h))
      && (InsertRule(m, tagged, g, r).Some? ==>
            InsertRule(m, tagged, g, r).value == h && WellFormed(h)
            && h.edges == g.edges + ToSet(RuleEdges(m, tagged, r))
            && ToSet(h.nodes) == ToSet(g.nodes) + Ends(RuleEdges(m, tagged, r)))
  {
    AddEdgesShape(g, RuleEdges(m, tagged, r));
    TopoSortCorrect(AddEdges(g, RuleEdges(m, tagged, r)));
  }

  /** A rule on its own makes a DAG exactly when it stands alone. */
  lemma AloneInsert(m: CodeToEvent, tagged: bool, r: Rule)
    ensures InsertRule(m, tagged, Empty, r).Some? <==> StandsAlone(m, tagged, r)
  {
    assert WellFormed(Empty);
    InsertRuleMeaning(m, tagged, Empty, r);
    if StandsAlone(m, tagged, r) {
      AloneAcyclic(m, tagged, r);
    } else {
      AloneCycle(m, tagged, r);
    }
  }

  /** Every edge of a rule that stands alone enters the RHS node from another node, so no walk
      has two edges and no cycle exists. */
  lemma AloneAcyclic(m: CodeToEvent, tagged: bool, r: Rule)
    requires StandsAlone(m, tagged, r)
    ensures Acyclic(AddEdges(Empty, RuleEdges(m, tagged, r)))
  {
    var t := Node(m, tagged, r.rhs);
    var es := RuleEdges(m, tagged, r);
    var edges := AddEdges(Empty, es).edges;
    AddEdgesShape(Empty, es);
    assert edges == ToSet(es);
    forall e | e in edges ensures e.1 == t && e.0 != t {
      var i :| 0 <= i < |es| && es[i] == e;
      assert es[i] == (Node(m, tagged, r.lhs[i]), t);
    }
    forall w | |w| >= 2 && IsWalk(edges, w) ensures w[0] != w[|w| - 1] {
      assert (w[0], w[1]) in edges;
      assert (w[|w| - 2], w[|w| - 1]) in edges;
    }
  }

  /** An LHS item with the RHS's node gives a self-loop. */
  lemma AloneCycle(m: CodeToEvent, tagged: bool, r: Rule)
    requires !StandsAlone(m, tagged, r)
    ensures !Acyclic(AddEdges(Empty, RuleEdges(m, tagged, r)))
  {
    var t := Node(m, tagged, r.rhs);
    var es := RuleEdges(m, tagged, r);
    var i :| 0 <= i < |r.lhs| && Node(m, tagged, r.lhs[i]) == t;
    assert es[i] == (t, t);
    AddEdgesShape(Empty, es);
    assert IsCycle(AddEdges(Empty, es).edges, [t, t]);
  }

  // ---------------------------------------------------------------- the forest

  /** A DAG of the forest with the ids of the rules it was built from. */
  datatype Dag = Dag(g: Digraph, rules: seq<string>)

  /** The position of the first DAG that takes the rule, or |dags| when none does. */
  function FirstFit(m: CodeToEvent, tagged: bool, dags: seq<Dag>, r: Rule, from: nat): (k: nat)
    requires from <= |dags|
    ensures from <= k <= |dags|
    ensures k < |dags| ==> InsertRule(m, tagged, dags[k].g, r).Some?
    ensures forall j | from <= j < k :: InsertRule(m, tagged, dags[j].g, r).None?
    decreases |dags| - from
  {
    if from == |dags| then from
    else if InsertRule(m, tagged, dags[from].g, r).Some? then from
    else FirstFit(m, tagged, dags, r, from + 1)
  }

  /** One step of _create_dags: the rule joins the first DAG that accepts it, or starts a new
      DAG at the end (for an admissible rule that DAG is InsertRule of the empty graph). */
  function Place(m: CodeToEvent, tagged: bool, dags: seq<Dag>, r: Rule): seq<Dag> {
    var k := FirstFit(m, tagged, dags, r, 0);
    if k < |dags| then
      dags[k := Dag(InsertRule(m, tagged, dags[k].g, r).value, dags[k].rules + [r.id])]
    else
      dags + [Dag(AddEdges(Empty, RuleEdges(m, tagged, r)), [r.id])]
  }

  /** The DAGs _create_dags builds. */
  function Forest(m: CodeToEvent, tagged: bool, rules: seq<Rule>): seq<Dag>
    decreases |rules|
  {
    if rules == [] then [] else Place(m, tagged, Forest(m, tagged, rules[..|rules| - 1]), rules[|rules| - 1])
  }

  /** The position of the DAG each rule went to. */
  function Placement(m: CodeToEvent, tagged: bool, rules: seq<Rule>): (p: seq<nat>)
    ensures |p| == |rules|
    decreases |rules|
  {
    if rules == [] then []
    else
      var init := rules[..|rules| - 1];
      Placement(m, tagged, init) + [FirstFit(m, tagged, Forest(m, tagged, init), rules[|rules| - 1], 0)]
  }

  /** The ids of the rules placed at DAG `d`, in input order. */
  function IdsAt(rules: seq<Rule>, p: seq<nat>, d: nat): seq<string>
    requires |p| == |rules|
    decreases |rules|
  {
    if rules == [] then []
    else
      var n := |rules| - 1;
      IdsAt(rules[..n], p[..n], d) + if p[n] == d then [rules[n].id] else []
  }

  /** The edges of the rules placed at DAG `d`. */
  function EdgesAt(m: CodeToEvent, tagged: bool, rules: seq<Rule>, p: seq<nat>, d: nat): set<(int, int)>
    requires |p| == |rules|
    decreases |rules|
  {
    if rules == [] then {}
    else
      var n := |rules| - 1;
      EdgesAt(m, tagged, rules[..n], p[..n], d) + if p[n] == d then ToSet(RuleEdges(m, tagged, rules[n])) else {}
  }

  /** The end points of the edges of the rules placed at DAG `d`. */
  function NodesAt(m: CodeToEvent, tagged: bool, rules: seq<Rule>, p: seq<nat>, d: nat): set<int>
    requires |p| == |rules|
    decreases |rules|
  {
    if rules == [] then {}
    else
      var n := |rules| - 1;
      NodesAt(m, tagged, rules[..n], p[..n], d) + if p[n] == d then Ends(RuleEdges(m, tagged, rules[n])) else {}
  }

  /** One DAG of the forest as it should be: it lists the ids of the rules placed at `d` in input
      order, holds exactly their edges and the end points of those, and is a well-formed DAG. */
  predicate DagOk(m: CodeToEvent, tagged: bool, rules: seq<Rule>, p: seq<nat>, dag: Dag, d: nat)
    requires |p| == |rules|
  {
    dag.rules == IdsAt(rules, p, d) && dag.rules != []
    && dag.g.edges == EdgesAt(m, tagged, rules, p, d)
    && ToSet(dag.g.nodes) == NodesAt(m, tagged, rules, p, d)
    && WellFormed(dag.g) && IsDag(dag.g)
  }

  /** What Place does to the forest: it changes only the DAG FirstFit picks (or appends one), and
      that DAG gains the rule's id and edges. */
  lemma PlaceShape(m: CodeToEvent, tagged: bool, f0: seq<Dag>, r: Rule)
    requires StandsAlone(m, tagged, r)
    ensures var k, f := FirstFit(m, tagged, f0, r, 0), Place(m, tagged, f0, r);
      var base := if k < |f0| then f0[k].g else Empty;
      InsertRule(m, tagged, base, r).Some?
      && |f| == (if k < |f0| then |f0| else |f0| + 1)
      && (forall d | 0 <= d < |f0| && d != k :: f[d] == f0[d])
      && f[k] == Dag(InsertRule(m, tagged, base, r).value, (if k < |f0| then f0[k].rules else []) + [r.id])
  {
    var k := FirstFit(m, tagged, f0, r, 0);
    if k == |f0| {
      AloneInsert(m, tagged, r);
    }
  }

  /** A DAG the new rule did not go to keeps its shape. */
  lemma KeptDag(m: CodeToEvent, tagged: bool, rules: seq<Rule>, p: seq<nat>, dag: Dag, d: nat)
    requires rules != [] && |p| == |rules| && p[|rules| - 1] != d
    requires DagOk(m, tagged, rules[..|rules| - 1], p[..|rules| - 1], dag, d)
    ensures DagOk(m, tagged, rules, p, dag, d)
  {
  }

  /** The DAG the new rule went to: its old ids and edges plus the rule's. */
  lemma GrownDag(m: CodeToEvent, tagged: bool, rules: seq<Rule>, p: seq<nat>, base: Dag, d: nat)
    requires rules != [] && |p| == |rules| && p[|rules| - 1] == d && WellFormed(base.g)
    requires base.rules == IdsAt(rules[..|rules| - 1], p[..|rules| - 1], d)
    requires base.g.edges == EdgesAt(m, tagged, rules[..|rules| - 1], p[..|rules| - 1], d)
    requires ToSet(base.g.nodes) == NodesAt(m, tagged, rules[..|rules| - 1], p[..|rules| - 1], d)
    requires InsertRule(m, tagged, base.g, rules[|rules| - 1]).Some?
    ensures var r := rules[|rules| - 1];
      DagOk(m, tagged, rules, p, Dag(InsertRule(m, tagged, base.g, r).value, base.rules + [r.id]), d)
  {
    InsertRuleMeaning(m, tagged, base.g, rules[|rules| - 1]);
  }

  /** What the forest looks like: every rule went to one of its DAGs, and every DAG is as DagOk
      says. */
  lemma {:induction false} ForestShape(m: CodeToEvent, tagged: bool, rules: seq<Rule>)
    requires forall i | 0 <= i < |rules| :: StandsAlone(m, tagged, rules[i])
    ensures forall i | 0 <= i < |rules| :: Placement(m, tagged, rules)[i] < |Forest(m, tagged, rules)|
    ensures forall d | 0 <= d < |Forest(m, tagged, rules)| ::
      DagOk(m, tagged, rules, Placement(m, tagged, rules), Forest(m, tagged, rules)[d], d)
    decreases |rules|
  {
    if rules != [] {
      var init := rules[..|rules| - 1];
      assert forall i | 0 <= i < |init| :: init[i] == rules[i];
      ForestShape(m, tagged, init);
      PlaceStep(m, tagged, rules, Forest(m, tagged, init), Placement(m, tagged, init));
    }
  }

  /** The induction step of ForestShape, for any forest and placement of the earlier rules. */
  lemma PlaceStep(m: CodeToEvent, tagged: bool, rules: seq<Rule>, f0: seq<Dag>, p0: seq<nat>)
    requires rules != [] && |p0| == |rules| - 1 && StandsAlone(m, tagged, rules[|rules| - 1])
    requires forall i | 0 <= i < |p0| :: p0[i] < |f0|
    requires forall d | 0 <= d < |f0| :: DagOk(m, tagged, rules[..|rules| - 1], p0, f0[d], d)
    ensures var r := rules[|rules| - 1];
      var f, p := Place(m, tagged, f0, r), p0 + [FirstFit(m, tagged, f0, r, 0)];
      (forall i | 0 <= i < |rules| :: p[i] < |f|)
      && (forall d | 0 <= d < |f| :: DagOk(m, tagged, rules, p, f[d], d))
  {
    var r := rules[|rules| - 1];
    var f, p := Place(m, tagged, f0, r), p0 + [FirstFit(m, tagged, f0, r, 0)];
    PlaceShape(m, tagged, f0, r);
    forall d | 0 <= d < |f| ensures DagOk(m, tagged, rules, p, f[d], d) {
      PlacedDag(m, tagged, rules, f0, p0, d);
    }
  }

  /** One DAG of the forest after the rule is placed. */
  lemma PlacedDag(m: CodeToEvent, tagged: bool, rules: seq<Rule>, f0: seq<Dag>, p0: seq<nat>, d: nat)
    requires rules != [] && |p0| == |rules| - 1 && StandsAlone(m, tagged, rules[|rules| - 1])
    requires forall i | 0 <= i < |p0| :: p0[i] < |f0|
    requires forall d | 0 <= d < |f0| :: DagOk(m, tagged, rules[..|rules| - 1], p0, f0[d], d)
    requires d < |Place(m, tagged, f0, rules[|rules| - 1])|
    ensures DagOk(m, tagged, rules, p0 + [FirstFit(m, tagged, f0, rules[|rules| - 1], 0)], Place(m, tagged, f0, rules[|rules| - 1])[d], d)
  {
    var n := |rules| - 1;
    var r := rules[n];
    var k := FirstFit(m, tagged, f0, r, 0);
    var p := p0 + [k];
    assert p[..n] == p0;
    PlaceShape(m, tagged, f0, r);
    if d != k {
      KeptDag(m, tagged, rules, p, f0[d], d);
    } else if k < |f0| {
      GrownDag(m, tagged, rules, p, f0[k], d);
    } else {
      NewDag(m, tagged, rules, p0, p, d);
    }
  }

  /** The DAG a rule opens for itself, beyond every DAG of the earlier rules. */
  lemma NewDag(m: CodeToEvent, tagged: bool, rules: seq<Rule>, p0: seq<nat>, p: seq<nat>, d: nat)
    requires rules != [] && |p0| == |rules| - 1 && p == p0 + [d] && StandsAlone(m, tagged, rules[|rules| - 1])
    requires forall i | 0 <= i < |p0| :: p0[i] < d
    ensures DagOk(m, tagged, rules, p, Dag(AddEdges(Empty, RuleEdges(m, tagged, rules[|rules| - 1])), [rules[|rules| - 1].id]), d)
  {
    var init := rules[..|rules| - 1];
    assert p[..|rules| - 1] == p0;
    NoIdsBeyond(init, p0, d);
    NoEdgesBeyond(m, tagged, init, p0, d);
    NoNodesBeyond(m, tagged, init, p0, d);
    assert ToSet(Empty.nodes) == {};
    assert WellFormed(Empty);
    AloneInsert(m, tagged, rules[|rules| - 1]);
    GrownDag(m, tagged, rules, p, Dag(Empty, []), d);
    assert [] + [rules[|rules| - 1].id] == [rules[|rules| - 1].id];
  }

  /** Every graph of the forest is a well-formed DAG. */
  lemma ForestDags(m: CodeToEvent, tagged: bool, rules: seq<Rule>)
    requires forall i | 0 <= i < |rules| :: StandsAlone(m, tagged, rules[i])
    ensures forall d | 0 <= d < |Forest(m, tagged, rules)| :: WellFormed(Forest(m, tagged, rules)[d].g)
    ensures forall d | 0 <= d < |Forest(m, tagged, rules)| :: IsDag(Forest(m, tagged, rules)[d].g)
  {
    ForestShape(m, tagged, rules);
  }

  /** Every DAG of the forest is acyclic. */
  lemma ForestAcyclic(m: CodeToEvent, tagged: bool, rules: seq<Rule>, d: nat)
    requires forall i | 0 <= i < |rules| :: StandsAlone(m, tagged, rules[i])
    requires d < |Forest(m, tagged, rules)|
    ensures Acyclic(Forest(m, tagged, rules)[d].g)
  {
    ForestShape(m, tagged, rules);
    TopoSortCorrect(Forest(m, tagged, rules)[d].g);
  }

  lemma {:induction false} NoIdsBeyond(rules: seq<Rule>, p: seq<nat>, d: nat)
    requires |p| == |rules| && forall i | 0 <= i < |p| :: p[i] < d
    ensures IdsAt(rules, p, d) == []
    decreases |rules|
  {
    if rules != [] {
      NoIdsBeyond(rules[..|rules| - 1], p[..|rules| - 1], d);
    }
  }

  lemma {:induction false} NoEdgesBeyond(m: CodeToEvent, tagged: bool, rules: seq<Rule>, p: seq<nat>, d: nat)
    requires |p| == |rules| && forall i | 0 <= i < |p| :: p[i] < d
    ensures EdgesAt(m, tagged, rules, p, d) == {}
    decreases |rules|
  {
    if rules != [] {
      NoEdgesBeyond(m, tagged, rules[..|rules| - 1], p[..|rules| - 1], d);
    }
  }

  lemma {:induction false} NoNodesBeyond(m: CodeToEvent, tagged: bool, rules: seq<Rule>, p: seq<nat>, d: nat)
    requires |p| == |rules| && forall i | 0 <= i < |p| :: p[i] < d
    ensures NodesAt(m, tagged, rules, p, d) == {}
    decreases |rules|
  {
    if rules != [] {
      NoNodesBeyond(m, tagged, rules[..|rules| - 1], p[..|rules| - 1], d);
    }
  }

  /** First fit: rule i went to the first DAG, among those built from the rules before it, that
      accepts it, and to a new DAG only when none of them does; that DAG then lists its id. */
  lemma FirstFitPlacement(m: CodeToEvent, tagged: bool, rules: seq<Rule>, i: nat, before: seq<Dag>, k: nat)
    requires i < |rules| && before == Forest(m, tagged, rules[..i]) && k == Placement(m, tagged, rules)[i]
    ensures k <= |before|
    ensures k < |before| ==> InsertRule(m, tagged, before[k].g, rules[i]).Some?
    ensures forall j | 0 <= j < k :: InsertRule(m, tagged, before[j].g, rules[i]).None?
  {
    PlacementIsFirstFit(m, tagged, rules, i);
  }

  lemma PlacementIsFirstFit(m: CodeToEvent, tagged: bool, rules: seq<Rule>, i: nat)
    requires i < |rules|
    ensures Placement(m, tagged, rules)[i] == FirstFit(m, tagged, Forest(m, tagged, rules[..i]), rules[i], 0)
  {
    PlacementPrefix(m, tagged, rules, i + 1);
    assert rules[..i + 1][..i] == rules[..i] && rules[..i + 1][i] == rules[i];
    var k := FirstFit(m, tagged, Forest(m, tagged, rules[..i]), rules[i], 0);
    assert Placement(m, tagged, rules[..i + 1]) == Placement(m, tagged, rules[..i]) + [k];
    assert Placement(m, tagged, rules)[i] == Placement(m, tagged, rules)[..i + 1][i];
  }

  /** Every rule is listed in the DAG it was placed in. */
  lemma RulePlaced(m: CodeToEvent, tagged: bool, rules: seq<Rule>, i: nat)
    requires forall i | 0 <= i < |rules| :: StandsAlone(m, tagged, rules[i])
    requires i < |rules|
    ensures Placement(m, tagged, rules)[i] < |Forest(m, tagged, rules)|
    ensures rules[i].id in Forest(m, tagged, rules)[Placement(m, tagged, rules)[i]].rules
  {
    ForestShape(m, tagged, rules);
    IdsAtHas(rules, Placement(m, tagged, rules), i);
  }

  lemma {:induction false} PlacementPrefix(m: CodeToEvent, tagged: bool, rules: seq<Rule>, n: nat)
    requires n <= |rules|
    ensures Placement(m, tagged, rules)[..n] == Placement(m, tagged, rules[..n])
    decreases |rules|
  {
    if n < |rules| {
      var k := |rules| - 1;
      PlacementPrefix(m, tagged, rules[..k], n);
      assert rules[..k][..n] == rules[..n];
    } else {
      assert rules[..n] == rules;
    }
  }

  /** Rule i's id is among the ids placed where rule i was placed. */
  lemma {:induction false} IdsAtHas(rules: seq<Rule>, p: seq<nat>, i: nat)
    requires |p| == |rules| && i < |rules|
    ensures rules[i].id in IdsAt(rules, p, p[i])
    decreases |rules|
  {
    var n := |rules| - 1;
    if i < n {
      IdsAtHas(rules[..n], p[..n], i);
    }
  }

  // ---------------------------------------------------------------- item frequencies

  /** The parent codes of `items`, in order. */
  function Parents(m: CodeToEvent, items: seq<int>): (ps: seq<int>)
    ensures |ps| == |items| && forall i | 0 <= i < |items| :: ps[i] == ParentOf(m, items[i])
    decreases |items|
  {
    if items == [] then [] else Parents(m, items[..|items| - 1]) + [ParentOf(m, items[|items| - 1])]
  }

  /** The parent codes of all rule items, rule by rule, LHS then RHS. */
  function AllParents(m: CodeToEvent, rules: seq<Rule>): seq<int>
    decreases |rules|
  {
    if rules == [] then [] else AllParents(m, rules[..|rules| - 1]) + Parents(m, RuleItems(rules[|rules| - 1]))
  }

  /** Σ (|LHS| + 1) */
  function ItemTotal(rules: seq<Rule>): nat {
    if rules == [] then 0 else ItemTotal(rules[..|rules| - 1]) + |rules[|rules| - 1].lhs| + 1
  }

  /** `freq` has a key for each parent code in `ps` and no other, and counts its occurrences. */
  predicate FrequencyOf(freq: map<int, nat>, ps: seq<int>) {
    freq.Keys == ToSet(ps) && forall p | p in freq :: freq[p] == Occurrences(ps, p)
  }

  /** The sum of the values of `freq` at `keys`. */
  function SumAt(freq: map<int, nat>, keys: seq<int>): nat
    requires forall i | 0 <= i < |keys| :: keys[i] in freq
  {
    if keys == [] then 0
    else
      var n := |keys| - 1;
      assert forall i | 0 <= i < n :: keys[..n][i] == keys[i];
      SumAt(freq, keys[..n]) + freq[keys[n]]
  }

  lemma {:induction false} SumAtCounts(freq: map<int, nat>, ps: seq<int>, keys: seq<int>)
    requires FrequencyOf(freq, ps) && forall i | 0 <= i < |keys| :: keys[i] in freq
    ensures SumAt(freq, keys) == SumOccurrences(ps, keys)
    decreases |keys|
  {
    if keys != [] {
      var n := |keys| - 1;
      assert forall i | 0 <= i < n :: keys[..n][i] == keys[i];
      SumAtCounts(freq, ps, keys[..n]);
      assert keys[n] in freq && freq[keys[n]] == Occurrences(ps, keys[n]);
    }
  }

  lemma {:induction false} ItemTotalParents(m: CodeToEvent, rules: seq<Rule>)
    ensures |AllParents(m, rules)| == ItemTotal(rules)
    decreases |rules|
  {
    if rules != [] {
      ItemTotalParents(m, rules[..|rules| - 1]);
    }
  }

  /** The frequencies, taken once per distinct parent code, sum to Σ (|LHS| + 1). */
  lemma FrequencyTotal(m: CodeToEvent, rules: seq<Rule>, freq: map<int, nat>)
    requires FrequencyOf(freq, AllParents(m, rules))
    ensures forall i | 0 <= i < |Dedup(AllParents(m, rules))| :: Dedup(AllParents(m, rules))[i] in freq
    ensures SumAt(freq, Dedup(AllParents(m, rules))) == ItemTotal(rules)
  {
    var ps := AllParents(m, rules);
    var d := Dedup(ps);
    assert forall i | 0 <= i < |d| :: d[i] in ToSet(d);
    SumAtCounts(freq, ps, Dedup(ps));
    CountsCoverAll(ps);
    ItemTotalParents(m, rules);
  }

  /** Counting one more occurrence of `p`. */
  lemma CountOne(freq: map<int, nat>, ps: seq<int>, p: int)
    requires FrequencyOf(freq, ps)
    ensures FrequencyOf(if p in freq then freq[p := freq[p] + 1] else freq[p := 1], ps + [p])
  {
    forall q ensures Occurrences(ps + [p], q) == Occurrences(ps, q) + if p == q then 1 else 0 {
      OccurrencesAppend(ps, p, q);
    }
  }

  // ---------------------------------------------------------------- _create_dags

  /** The inner loop of _create_dags: the first DAG that accepts the rule, |dags| when none does. */
  method FindDag(m: CodeToEvent, tagged: bool, dags: seq<Dag>, r: Rule) returns (j: nat)
    ensures j == FirstFit(m, tagged, dags, r, 0)
  {
    j := 0;
    while j < |dags|
      invariant j <= |dags|
      invariant forall k | 0 <= k < j :: InsertRule(m, tagged, dags[k].g, r).None?
    {
      var g := InsertRule(m, tagged, dags[j].g, r);
      if g.Some? {
        FirstFitFrom(m, tagged, dags, r, 0, j);
        return;
      }
      j := j + 1;
    }
    FirstFitFrom(m, tagged, dags, r, 0, j);
  }

  /** FirstFit from `from` is `j` when every DAG in between refuses the rule and `j` is the end
      or accepts it. */
  lemma {:induction false} FirstFitFrom(m: CodeToEvent, tagged: bool, dags: seq<Dag>, r: Rule, from: nat, j: nat)
    requires from <= j <= |dags|
    requires forall k | from <= k < j :: InsertRule(m, tagged, dags[k].g, r).None?
    requires j == |dags| || InsertRule(m, tagged, dags[j].g, r).Some?
    ensures FirstFit(m, tagged, dags, r, from) == j
    decreases j - from
  {
    if from < j {
      FirstFitFrom(m, tagged, dags, r, from + 1, j);
    }
  }

  /** The item loop of _create_dags: one more occurrence for the parent of each item. */
  method CountParents(m: CodeToEvent, items: seq<int>, freq0: map<int, nat>, ghost ps: seq<int>) returns (freq: map<int, nat>)
    requires forall i | 0 <= i < |items| :: HasParent(m, items[i])
    requires FrequencyOf(freq0, ps)
    ensures FrequencyOf(freq, ps + Parents(m, items))
  {
    freq := freq0;
    assert ps + Parents(m, items[..0]) == ps;
    for t := 0 to |items|
      invariant FrequencyOf(freq, ps + Parents(m, items[..t]))
    {
      assert items[..t + 1][..t] == items[..t];
      var p := m[items[t]].parent.value;
      CountOne(freq, ps + Parents(m, items[..t]), p);
      assert ps + Parents(m, items[..t + 1]) == ps + Parents(m, items[..t]) + [p];
      if p in freq {
        freq := freq[p := freq[p] + 1];
      } else {
        freq := freq[p := 1];
      }
    }
    assert items[..|items|] == items;
  }

  /** The forest of DAGs and the parent-code frequencies of the rule items. */
  method CreateDags(m: CodeToEvent, tagged: bool, rules: seq<Rule>) returns (dags: seq<Dag>, freq: map<int, nat>)
    requires forall i | 0 <= i < |rules| :: Admissible(m, tagged, rules[i])
    ensures dags == Forest(m, tagged, rules)
    ensures FrequencyOf(freq, AllParents(m, rules))
  {
    dags := [];
    freq := map[];
    for i := 0 to |rules|
      invariant dags == Forest(m, tagged, rules[..i])
      invariant FrequencyOf(freq, AllParents(m, rules[..i]))
    {
      var r := rules[i];
      assert Admissible(m, tagged, r);
      assert rules[..i + 1][..i] == rules[..i] && rules[..i + 1][i] == r;
      dags := PlaceRule(m, tagged, dags, r);
      ItemsHaveParents(m, r);
      freq := CountParents(m, RuleItems(r), freq, AllParents(m, rules[..i]));
    }
    assert rules[..|rules|] == rules;
  }

  /** One turn of the loop over the rules: the rule joins the first DAG it keeps acyclic, or a
      new DAG of its own. */
  method PlaceRule(m: CodeToEvent, tagged: bool, dags: seq<Dag>, r: Rule) returns (next: seq<Dag>)
    requires StandsAlone(m, tagged, r)
    ensures next == Place(m, tagged, dags, r)
  {
    var j := FindDag(m, tagged, dags, r);
    if j < |dags| {
      var g := InsertRule(m, tagged, dags[j].g, r);
      next := dags[j := Dag(g.value, dags[j].rules + [r.id])];
    } else {
      AloneInsert(m, tagged, r);
      var g := InsertRule(m, tagged, Empty, r);
      next := dags + [Dag(g.value, [r.id])];
    }
  }

  lemma ItemsHaveParents(m: CodeToEvent, r: Rule)
    requires Covered(m, r)
    ensures forall t | 0 <= t < |RuleItems(r)| :: HasParent(m, RuleItems(r)[t])
  {
    var items := RuleItems(r);
    forall t | 0 <= t < |items| ensures HasParent(m, items[t]) {
      if t < |r.lhs| { assert items[t] == r.lhs[t]; }
    }
  }

  // ---------------------------------------------------------------- _topol_sort_dags

  /** Each DAG replaced by a topological sort of its nodes. */
  method TopolSortDags(dags: seq<Dag>) returns (orders: seq<seq<int>>)
    requires forall d | 0 <= d < |dags| :: WellFormed(dags[d].g)
    requires forall d | 0 <= d < |dags| :: IsDag(dags[d].g)
    ensures |orders| == |dags|
    ensures forall d | 0 <= d < |dags| :: TopoSort(dags[d].g) == Some(orders[d])
    ensures forall d | 0 <= d < |dags| :: IsTopoOrder(orders[d], dags[d].g)
  {
    orders := [];
    for d := 0 to |dags|
      invariant |orders| == d
      invariant forall e | 0 <= e < d :: TopoSort(dags[e].g) == Some(orders[e])
      invariant forall e | 0 <= e < d :: IsTopoOrder(orders[e], dags[e].g)
    {
      TopoSortCorrect(dags[d].g);
      orders := orders + [TopoSort(dags[d].g).value];
    }
  }

  // ---------------------------------------------------------------- the rule matrix

  /** The cell marker of an item: kind and '.', followed in untagged mode by the upper-cased first
      letter of the item's tag and '.'. */
  function Mark(m: CodeToEvent, tagged: bool, kind: char, item: int): (s: string)
    ensures |s| >= 2 && s[..2] == [kind, '.']
  {
    if tagged then [kind, '.']
    else
      var initial := if HasTag(m, item) then m[item].tag.value[0] else ' ';
      [kind, '.', UpperChar(initial), '.']
  }

  /** The antecedent marker left in column `c` by the LHS loop: that of the last LHS item whose
      node is `c`, or '' when there is none. */
  function LhsMark(m: CodeToEvent, tagged: bool, lhs: seq<int>, c: int): string
    decreases |lhs|
  {
    if lhs == [] then ""
    else
      var n := |lhs| - 1;
      if Node(m, tagged, lhs[n]) == c then Mark(m, tagged, 'A', lhs[n]) else LhsMark(m, tagged, lhs[..n], c)
  }

  /** The cell of the rule's row in column `c`: the consequent marker overwrites any antecedent one. */
  function CellValue(m: CodeToEvent, tagged: bool, r: Rule, c: int): string {
    if c == Node(m, tagged, r.rhs) then Mark(m, tagged, 'C', r.rhs) else LhsMark(m, tagged, r.lhs, c)
  }

  function Cells(m: CodeToEvent, tagged: bool, columns: seq<int>, r: Rule): (cells: seq<string>)
    ensures |cells| == |columns|
    ensures forall j | 0 <= j < |columns| :: cells[j] == CellValue(m, tagged, r, columns[j])
  {
    seq(|columns|, j requires 0 <= j < |columns| => CellValue(m, tagged, r, columns[j]))
  }

  /** A column holds an antecedent marker exactly when some LHS item has that node, and then it is
      the marker of the last such item. */
  lemma {:induction false} LhsMarkMeaning(m: CodeToEvent, tagged: bool, lhs: seq<int>, c: int)
    ensures LhsMark(m, tagged, lhs, c) == "" <==> forall i | 0 <= i < |lhs| :: Node(m, tagged, lhs[i]) != c
    ensures LhsMark(m, tagged, lhs, c) != "" ==>
      exists i | 0 <= i < |lhs| :: Node(m, tagged, lhs[i]) == c
        && LhsMark(m, tagged, lhs, c) == Mark(m, tagged, 'A', lhs[i])
        && forall j | i < j < |lhs| :: Node(m, tagged, lhs[j]) != c
    decreases |lhs|
  {
    if lhs != [] {
      var n := |lhs| - 1;
      LhsMarkMeaning(m, tagged, lhs[..n], c);
      assert forall i | 0 <= i < n :: lhs[..n][i] == lhs[i];
      if Node(m, tagged, lhs[n]) == c {
        assert Mark(m, tagged, 'A', lhs[n]) != "";
      } else if LhsMark(m, tagged, lhs[..n], c) != "" {
        var i :| 0 <= i < n && Node(m, tagged, lhs[..n][i]) == c
          && LhsMark(m, tagged, lhs[..n], c) == Mark(m, tagged, 'A', lhs[..n][i])
          && forall j | i < j < n :: Node(m, tagged, lhs[..n][j]) != c;
        assert Node(m, tagged, lhs[i]) == c;
      }
    }
  }

  /** The row of a rule: the RHS column holds the consequent marker; every other column holds the
      antecedent marker of the last LHS item with that node, or '' when no LHS item has it. */
  lemma CellMeaning(m: CodeToEvent, tagged: bool, r: Rule, c: int)
    ensures c == Node(m, tagged, r.rhs) ==> CellValue(m, tagged, r, c) == Mark(m, tagged, 'C', r.rhs)
    ensures c != Node(m, tagged, r.rhs) ==>
      (CellValue(m, tagged, r, c) == "" <==> forall i | 0 <= i < |r.lhs| :: Node(m, tagged, r.lhs[i]) != c)
    ensures c != Node(m, tagged, r.rhs) && CellValue(m, tagged, r, c) != "" ==>
      exists i | 0 <= i < |r.lhs| :: Node(m, tagged, r.lhs[i]) == c
        && CellValue(m, tagged, r, c) == Mark(m, tagged, 'A', r.lhs[i])
        && forall j | i < j < |r.lhs| :: Node(m, tagged, r.lhs[j]) != c
  {
    LhsMarkMeaning(m, tagged, r.lhs, c);
  }

  /** One row of the matrix: index rule.id, level 1, group the position of the RHS column. */
  datatype RuleRow = RuleRow(id: string, cells: seq<string>, group: nat, level: nat, support: SupportShare, confidence: int)

  /** A rule matrix: its columns (DAG nodes), its header after the rename, its rows. */
  datatype RuleMatrix = RuleMatrix(columns: seq<int>, header: seq<string>, rows: seq<RuleRow>)

  /** The extra columns after the item columns. */
  const ExtraColumns: seq<string> := ["group", "level", "support", "confidence"]

  /** The renamed item columns: code_to_event[str(code)]['event']. */
  function ColumnNames(m: CodeToEvent, columns: seq<int>): (names: seq<string>)
    requires forall j | 0 <= j < |columns| :: columns[j] in m
    ensures |names| == |columns| && forall j | 0 <= j < |columns| :: names[j] == m[columns[j]].event
  {
    seq(|columns|, j requires 0 <= j < |columns| => m[columns[j]].event)
  }

  /** The row _create_df writes for a rule. */
  function RowOf(m: CodeToEvent, tagged: bool, columns: seq<int>, r: Rule): RuleRow
    reads r
  {
    RuleRow(r.id, Cells(m, tagged, columns, r), FirstIndex(columns, Node(m, tagged, r.rhs)), 1, r.supportPercentage, r.confidence)
  }

  /** `mat` is the matrix _create_df builds from `columns` and `rules`. */
  predicate MatrixOf(m: CodeToEvent, tagged: bool, columns: seq<int>, rules: seq<Rule>, mat: RuleMatrix)
    requires forall j | 0 <= j < |columns| :: columns[j] in m
    reads rules
  {
    mat.columns == columns && mat.header == ColumnNames(m, columns) + ExtraColumns
    && |mat.rows| == |rules| && forall i | 0 <= i < |rules| :: mat.rows[i] == RowOf(m, tagged, columns, rules[i])
  }

  /** What _create_df needs of rule items: the parent (untagged) or the tag letter exists, and the
      item's node is a column (pandas would add a column for any other label). */
  predicate Fits(m: CodeToEvent, tagged: bool, columns: seq<int>, item: int) {
    (tagged || (HasParent(m, item) && HasTag(m, item))) && Node(m, tagged, item) in columns
  }

  /** Every item of every rule fits the columns. */
  predicate AllFit(m: CodeToEvent, tagged: bool, columns: seq<int>, rules: seq<Rule>) {
    (forall i | 0 <= i < |rules| :: Fits(m, tagged, columns, rules[i].rhs))
    && forall i, k | 0 <= i < |rules| && 0 <= k < |rules[i].lhs| :: Fits(m, tagged, columns, rules[i].lhs[k])
  }

  /** The cells of one rule's row, written as the LHS loop and then the RHS write do. */
  method FillRow(m: CodeToEvent, tagged: bool, columns: seq<int>, r: Rule) returns (cells: seq<string>)
    requires Distinct(columns)
    requires forall i | 0 <= i < |r.lhs| :: Fits(m, tagged, columns, r.lhs[i])
    requires Fits(m, tagged, columns, r.rhs)
    ensures cells == Cells(m, tagged, columns, r)
  {
    cells := seq(|columns|, _ => "");
    for k := 0 to |r.lhs|
      invariant |cells| == |columns|
      invariant forall j | 0 <= j < |columns| :: cells[j] == LhsMark(m, tagged, r.lhs[..k], columns[j])
    {
      var item := r.lhs[k];
      assert r.lhs[..k + 1][..k] == r.lhs[..k] && r.lhs[..k + 1][k] == item;
      var col := if tagged then item else m[item].parent.value;
      var c := FirstIndex(columns, col);
      cells := cells[c := Mark(m, tagged, 'A', item)];
    }
    assert r.lhs[..|r.lhs|] == r.lhs;
    var col := if tagged then r.rhs else m[r.rhs].parent.value;
    var c := FirstIndex(columns, col);
    cells := cells[c := Mark(m, tagged, 'C', r.rhs)];
  }

  /** _create_df: one row per rule, columns renamed to event names. */
  method CreateDf(m: CodeToEvent, tagged: bool, columns: seq<int>, rules: seq<Rule>) returns (mat: RuleMatrix)
    requires Distinct(columns)
    requires forall j | 0 <= j < |columns| :: columns[j] in m
    requires AllFit(m, tagged, columns, rules)
    ensures MatrixOf(m, tagged, columns, rules, mat)
  {
    var rows := [];
    for i := 0 to |rules|
      invariant |rows| == i
      invariant forall e | 0 <= e < i :: rows[e] == RowOf(m, tagged, columns, rules[e])
    {
      var r := rules[i];
      var cells := FillRow(m, tagged, columns, r);
      var col := if tagged then r.rhs else m[r.rhs].parent.value;
      rows := rows + [RuleRow(r.id, cells, FirstIndex(columns, col), 1, r.supportPercentage, r.confidence)];
    }
    mat := RuleMatrix(columns, ColumnNames(m, columns) + ExtraColumns, rows);
  }

  /** In a row whose columns are a topological order of a graph holding the rule's edges, the
      consequent marker sits at the group position and every antecedent marker to its left. */
  lemma RowShape(m: CodeToEvent, tagged: bool, order: seq<int>, g: Digraph, r: Rule)
    requires WellFormed(g) && IsTopoOrder(order, g) && ToSet(RuleEdges(m, tagged, r)) <= g.edges
    requires |r.lhs| > 0 && StandsAlone(m, tagged, r)
    ensures var cells, group := Cells(m, tagged, order, r), FirstIndex(order, Node(m, tagged, r.rhs));
      group < |order| && cells[group] == Mark(m, tagged, 'C', r.rhs)
      && forall c | 0 <= c < |order| && c != group && cells[c] != "" ::
        c < group && |cells[c]| >= 2 && cells[c][..2] == "A."
  {
    var es := RuleEdges(m, tagged, r);
    assert es[0] in ToSet(es);
    EdgeForward(order, g, es[0].0, es[0].1);
    forall c | 0 <= c < |order| && order[c] != Node(m, tagged, r.rhs) && CellValue(m, tagged, r, order[c]) != ""
      ensures c < FirstIndex(order, Node(m, tagged, r.rhs))
      && |CellValue(m, tagged, r, order[c])| >= 2 && CellValue(m, tagged, r, order[c])[..2] == "A."
    {
      AntecedentLeft(m, tagged, order, g, r, c);
    }
  }

  /** One antecedent column of RowShape. */
  lemma AntecedentLeft(m: CodeToEvent, tagged: bool, order: seq<int>, g: Digraph, r: Rule, c: nat)
    requires WellFormed(g) && IsTopoOrder(order, g) && ToSet(RuleEdges(m, tagged, r)) <= g.edges
    requires c < |order| && order[c] != Node(m, tagged, r.rhs) && CellValue(m, tagged, r, order[c]) != ""
    ensures c < FirstIndex(order, Node(m, tagged, r.rhs))
    ensures |CellValue(m, tagged, r, order[c])| >= 2 && CellValue(m, tagged, r, order[c])[..2] == "A."
  {
    var es := RuleEdges(m, tagged, r);
    CellMeaning(m, tagged, r, order[c]);
    var i :| 0 <= i < |r.lhs| && Node(m, tagged, r.lhs[i]) == order[c]
      && CellValue(m, tagged, r, order[c]) == Mark(m, tagged, 'A', r.lhs[i]);
    assert es[i] in ToSet(es);
    EdgeForward(order, g, order[c], Node(m, tagged, r.rhs));
    DistinctFirstIndex(order, c);
  }

  lemma DistinctFirstIndex(s: seq<int>, c: nat)
    requires Distinct(s) && c < |s|
    ensures FirstIndex(s, s[c]) == c
  {
  }

  // ---------------------------------------------------------------- create_matrices

  /** Rule ids are pairwise different (the selection of a DAG's rules goes by id). */
  predicate DistinctIds(rules: seq<Rule>) {
    forall i, j | 0 <= i < j < |rules| :: rules[i].id != rules[j].id
  }

  /** [rule for rule in rules if rule.id in ids] */
  function Select(rules: seq<Rule>, ids: seq<string>): (sel: seq<Rule>)
    ensures |sel| <= |rules|
    decreases |rules|
  {
    if rules == [] then []
    else
      var n := |rules| - 1;
      Select(rules[..n], ids) + if rules[n].id in ids then [rules[n]] else []
  }

  /** The rules placed at DAG `d`, in input order. */
  function RulesAt(rules: seq<Rule>, p: seq<nat>, d: nat): (s: seq<Rule>)
    requires |p| == |rules|
    ensures forall k | 0 <= k < |s| :: s[k] in rules
    decreases |rules|
  {
    if rules == [] then []
    else
      var n := |rules| - 1;
      RulesAt(rules[..n], p[..n], d) + if p[n] == d then [rules[n]] else []
  }

  /** Every id listed at `d` is the id of a rule placed at `d`. */
  lemma {:induction false} IdsAtFrom(rules: seq<Rule>, p: seq<nat>, d: nat, x: string)
    requires |p| == |rules| && x in IdsAt(rules, p, d)
    ensures exists k | 0 <= k < |rules| :: rules[k].id == x && p[k] == d
    decreases |rules|
  {
    var n := |rules| - 1;
    if x !in IdsAt(rules[..n], p[..n], d) {
      assert rules[n].id == x && p[n] == d;
    } else {
      IdsAtFrom(rules[..n], p[..n], d, x);
      var k :| 0 <= k < n && rules[..n][k].id == x && p[..n][k] == d;
      assert rules[k].id == x && p[k] == d;
    }
  }

  /** With distinct ids, a rule's id is listed at DAG `d` exactly when the rule was placed there,
      so every id is recorded in exactly one DAG. */
  lemma IdsAtExact(rules: seq<Rule>, p: seq<nat>, d: nat, i: nat)
    requires |p| == |rules| && i < |rules| && DistinctIds(rules)
    ensures rules[i].id in IdsAt(rules, p, d) <==> p[i] == d
  {
    if p[i] == d {
      IdsAtHas(rules, p, i);
    }
    if rules[i].id in IdsAt(rules, p, d) {
      IdsAtFrom(rules, p, d, rules[i].id);
      var k :| 0 <= k < |rules| && rules[k].id == rules[i].id && p[k] == d;
      assert k == i;
    }
  }

  /** Selecting by two id lists that agree on the rules' ids gives the same rules. */
  lemma {:induction false} SelectSame(rules: seq<Rule>, a: seq<string>, b: seq<string>)
    requires forall i | 0 <= i < |rules| :: (rules[i].id in a <==> rules[i].id in b)
    ensures Select(rules, a) == Select(rules, b)
    decreases |rules|
  {
    if rules != [] {
      var n := |rules| - 1;
      assert forall i | 0 <= i < n :: rules[..n][i] == rules[i];
      SelectSame(rules[..n], a, b);
    }
  }

  /** Selecting the rules whose id is listed at `d` gives the rules placed at `d`, in input order. */
  lemma {:induction false} SelectPlaced(rules: seq<Rule>, p: seq<nat>, d: nat)
    requires |p| == |rules| && DistinctIds(rules)
    ensures Select(rules, IdsAt(rules, p, d)) == RulesAt(rules, p, d)
    decreases |rules|
  {
    if rules != [] {
      var n := |rules| - 1;
      var init, p0 := rules[..n], p[..n];
      assert DistinctIds(init);
      forall i | 0 <= i < n ensures (init[i].id in IdsAt(rules, p, d) <==> init[i].id in IdsAt(init, p0, d)) {
        IdsAtExact(rules, p, d, i);
        IdsAtExact(init, p0, d, i);
      }
      SelectSame(init, IdsAt(rules, p, d), IdsAt(init, p0, d));
      IdsAtExact(rules, p, d, n);
      SelectPlaced(init, p0, d);
    }
  }

  /** Every rule placed at `d` is one of the input rules whose placement is `d`. */
  lemma {:induction false} RulesAtFrom(rules: seq<Rule>, p: seq<nat>, d: nat, k: nat)
    requires |p| == |rules| && k < |RulesAt(rules, p, d)|
    ensures exists i | 0 <= i < |rules| :: p[i] == d && RulesAt(rules, p, d)[k] == rules[i]
    decreases |rules|
  {
    var n := |rules| - 1;
    var front := RulesAt(rules[..n], p[..n], d);
    if k < |front| {
      RulesAtFrom(rules[..n], p[..n], d, k);
      var i :| 0 <= i < n && p[..n][i] == d && front[k] == rules[..n][i];
      assert p[i] == d && RulesAt(rules, p, d)[k] == rules[i];
    } else {
      assert p[n] == d && RulesAt(rules, p, d)[k] == rules[n];
    }
  }

  /** The edges of rule i are among the edges listed where it was placed. */
  lemma {:induction false} EdgesAtHas(m: CodeToEvent, tagged: bool, rules: seq<Rule>, p: seq<nat>, i: nat)
    requires |p| == |rules| && i < |rules|
    ensures ToSet(RuleEdges(m, tagged, rules[i])) <= EdgesAt(m, tagged, rules, p, p[i])
    decreases |rules|
  {
    var n := |rules| - 1;
    if i < n {
      EdgesAtHas(m, tagged, rules[..n], p[..n], i);
    }
  }

  lemma {:induction false} EndsWithin(es: seq<(int, int)>, keys: set<int>)
    requires forall i | 0 <= i < |es| :: es[i].0 in keys && es[i].1 in keys
    ensures Ends(es) <= keys
    decreases |es|
  {
    if es != [] {
      EndsWithin(es[1..], keys);
    }
  }

  lemma {:induction false} NodesAtWithin(m: CodeToEvent, tagged: bool, rules: seq<Rule>, p: seq<nat>, d: nat)
    requires |p| == |rules|
    requires forall i | 0 <= i < |rules| :: Ends(RuleEdges(m, tagged, rules[i])) <= m.Keys
    ensures NodesAt(m, tagged, rules, p, d) <= m.Keys
    decreases |rules|
  {
    if rules != [] {
      var n := |rules| - 1;
      assert forall i | 0 <= i < n :: rules[..n][i] == rules[i];
      NodesAtWithin(m, tagged, rules[..n], p[..n], d);
    }
  }

  /** The mapping knows the node of an item, and its tag letter when untagged. */
  predicate Shown(m: CodeToEvent, tagged: bool, item: int) {
    (tagged || HasTag(m, item)) && Node(m, tagged, item) in m
  }

  /** What create_matrices needs of a rule: it is admissible, has an LHS item (otherwise its RHS
      is no DAG node and columns.index raises ValueError), and the mapping can name its nodes. */
  predicate Drawable(m: CodeToEvent, tagged: bool, r: Rule) {
    Admissible(m, tagged, r) && |r.lhs| > 0
    && (forall i | 0 <= i < |r.lhs| :: Shown(m, tagged, r.lhs[i])) && Shown(m, tagged, r.rhs)
  }

  /** Every DAG node is a key of the frequency dictionary, which is keyed by parent codes:
      create_matrices reads the frequency of each node and raises KeyError otherwise. */
  predicate NodesCounted(m: CodeToEvent, tagged: bool, rules: seq<Rule>) {
    forall i, x | 0 <= i < |rules| && x in RuleItems(rules[i]) :: Node(m, tagged, x) in AllParents(m, rules)
  }

  /** With untagged nodes every node is a parent code, so none is missing from the frequencies. */
  lemma UntaggedNodesCounted(m: CodeToEvent, rules: seq<Rule>)
    ensures NodesCounted(m, false, rules)
  {
    forall i, x | 0 <= i < |rules| && x in RuleItems(rules[i])
      ensures Node(m, false, x) in AllParents(m, rules)
    {
      ParentListed(m, rules, i, x);
    }
  }

  lemma {:induction false} ParentListed(m: CodeToEvent, rules: seq<Rule>, i: nat, x: int)
    requires i < |rules| && x in RuleItems(rules[i])
    ensures ParentOf(m, x) in AllParents(m, rules)
    decreases |rules|
  {
    var n := |rules| - 1;
    if i == n {
      var items := RuleItems(rules[n]);
      var k :| 0 <= k < |items| && items[k] == x;
      assert Parents(m, items)[k] == ParentOf(m, x);
    } else {
      ParentListed(m, rules[..n], i, x);
      assert rules[..n][i] == rules[i];
    }
  }

  /** The nodes of a drawable rule's edges are in the mapping. */
  lemma DrawableEnds(m: CodeToEvent, tagged: bool, r: Rule)
    requires Drawable(m, tagged, r)
    ensures Ends(RuleEdges(m, tagged, r)) <= m.Keys
  {
    EndsWithin(RuleEdges(m, tagged, r), m.Keys);
  }

  /** The items of a drawable rule fit the topological order of the DAG it went to. */
  lemma RuleFits(m: CodeToEvent, tagged: bool, rules: seq<Rule>, i: nat)
    requires forall i | 0 <= i < |rules| :: Drawable(m, tagged, rules[i])
    requires i < |rules|
    ensures var d := Placement(m, tagged, rules)[i];
      d < |Forest(m, tagged, rules)| && TopoSort(Forest(m, tagged, rules)[d].g).Some?
      && var order := TopoSort(Forest(m, tagged, rules)[d].g).value;
      Fits(m, tagged, order, rules[i].rhs)
      && forall t | 0 <= t < |rules[i].lhs| :: Fits(m, tagged, order, rules[i].lhs[t])
  {
    var p, f := Placement(m, tagged, rules), Forest(m, tagged, rules);
    ForestShape(m, tagged, rules);
    var r, g := rules[i], f[p[i]].g;
    EdgesAtHas(m, tagged, rules, p, i);
    TopoSortCorrect(g);
    var order := TopoSort(g).value;
    var es := RuleEdges(m, tagged, r);
    assert es[0] in ToSet(es);
    assert Node(m, tagged, r.rhs) in ToSet(order);
    forall t | 0 <= t < |r.lhs| ensures Fits(m, tagged, order, r.lhs[t]) {
      assert es[t] in ToSet(es);
      assert Node(m, tagged, r.lhs[t]) in ToSet(order);
    }
  }

  /** What CreateDf needs when called on DAG `d`'s order and rules. */
  lemma SelectedFit(m: CodeToEvent, tagged: bool, rules: seq<Rule>, d: nat)
    requires forall i | 0 <= i < |rules| :: Drawable(m, tagged, rules[i])
    requires d < |Forest(m, tagged, rules)|
    ensures TopoSort(Forest(m, tagged, rules)[d].g).Some?
    ensures Distinct(TopoSort(Forest(m, tagged, rules)[d].g).value)
    ensures forall j | 0 <= j < |TopoSort(Forest(m, tagged, rules)[d].g).value| ::
      TopoSort(Forest(m, tagged, rules)[d].g).value[j] in m
    ensures AllFit(m, tagged, TopoSort(Forest(m, tagged, rules)[d].g).value, RulesAt(rules, Placement(m, tagged, rules), d))
  {
    var p, f := Placement(m, tagged, rules), Forest(m, tagged, rules);
    ForestShape(m, tagged, rules);
    var g := f[d].g;
    TopoSortCorrect(g);
    var order, sel := TopoSort(g).value, RulesAt(rules, p, d);
    forall i | 0 <= i < |rules| ensures Ends(RuleEdges(m, tagged, rules[i])) <= m.Keys {
      DrawableEnds(m, tagged, rules[i]);
    }
    NodesAtWithin(m, tagged, rules, p, d);
    assert forall j | 0 <= j < |order| :: order[j] in ToSet(g.nodes);
    forall k | 0 <= k < |sel|
      ensures Fits(m, tagged, order, sel[k].rhs)
      ensures forall t | 0 <= t < |sel[k].lhs| :: Fits(m, tagged, order, sel[k].lhs[t])
    {
      RulesAtFrom(rules, p, d, k);
      var i :| 0 <= i < |rules| && p[i] == d && sel[k] == rules[i];
      RuleFits(m, tagged, rules, i);
    }
  }

  /** The dictionary's values in insertion order: the count of each key, keys in order of first
      occurrence. */
  function ValuesAt(freq: map<int, nat>, keys: seq<int>): (vals: seq<nat>)
    requires forall j | 0 <= j < |keys| :: keys[j] in freq
    ensures |vals| == |keys| && forall j | 0 <= j < |keys| :: vals[j] == freq[keys[j]]
  {
    seq(|keys|, j requires 0 <= j < |keys| => freq[keys[j]])
  }

  /** (min(vals, default=0), max(vals, default=0)) */
  function MinMax(vals: seq<nat>): (r: (nat, nat))
    ensures vals == [] ==> r == (0, 0)
    ensures vals != [] ==> r.0 in vals && r.1 in vals
    ensures forall j | 0 <= j < |vals| :: r.0 <= vals[j] <= r.1
    decreases |vals|
  {
    if vals == [] then (0, 0)
    else
      var n := |vals| - 1;
      var v := vals[n];
      if n == 0 then (v, v)
      else
        var r := MinMax(vals[..n]);
        assert forall j | 0 <= j < n :: vals[..n][j] == vals[j];
        assert r.0 in vals[..n] && r.1 in vals[..n];
        (if v < r.0 then v else r.0, if v > r.1 then v else r.1)
  }

  /** `lo` and `hi` are the least and the greatest number of occurrences of an element of
      `ps`, both 0 when `ps` is empty. */
  predicate CountRange(ps: seq<int>, lo: nat, hi: nat) {
    (ps == [] ==> lo == 0 && hi == 0)
    && (ps != [] ==> (exists i | 0 <= i < |ps| :: Occurrences(ps, ps[i]) == lo))
    && (ps != [] ==> (exists i | 0 <= i < |ps| :: Occurrences(ps, ps[i]) == hi))
    && forall i | 0 <= i < |ps| :: lo <= Occurrences(ps, ps[i]) <= hi
  }

  /** The range of the counted frequencies, taken over the keys in first-occurrence order, is
      the range of the parent-code counts. */
  lemma RangeOfCounts(freq: map<int, nat>, ps: seq<int>)
    requires FrequencyOf(freq, ps)
    ensures forall j | 0 <= j < |Dedup(ps)| :: Dedup(ps)[j] in freq
    ensures CountRange(ps, MinMax(ValuesAt(freq, Dedup(ps))).0, MinMax(ValuesAt(freq, Dedup(ps))).1)
  {
    var keys := Dedup(ps);
    assert forall j | 0 <= j < |keys| :: keys[j] in ToSet(keys);
    var vals := ValuesAt(freq, keys);
    var r := MinMax(vals);
    forall i | 0 <= i < |ps| ensures r.0 <= Occurrences(ps, ps[i]) <= r.1 {
      assert ps[i] in ToSet(keys);
      var j :| 0 <= j < |keys| && keys[j] == ps[i];
      assert vals[j] == Occurrences(ps, ps[i]);
    }
    if ps != [] {
      assert ps[0] in ToSet(keys);
      CountWitness(freq, ps, keys, r.0);
      CountWitness(freq, ps, keys, r.1);
    }
  }

  lemma CountWitness(freq: map<int, nat>, ps: seq<int>, keys: seq<int>, v: nat)
    requires FrequencyOf(freq, ps) && ToSet(keys) == ToSet(ps)
    requires forall j | 0 <= j < |keys| :: keys[j] in freq
    requires v in ValuesAt(freq, keys)
    ensures exists i | 0 <= i < |ps| :: Occurrences(ps, ps[i]) == v
  {
    var j :| 0 <= j < |keys| && ValuesAt(freq, keys)[j] == v;
    assert keys[j] in ToSet(ps);
    var i :| 0 <= i < |ps| && ps[i] == keys[j];
  }

  /** Matrix `mat` is the one create_matrices builds for DAG `d`: its columns are the DAG's
      topological sort, its rows are those of the rules placed at `d`. */
  predicate DagMatrix(m: CodeToEvent, tagged: bool, rules: seq<Rule>, d: nat, mat: RuleMatrix)
    reads rules
  {
    var f := Forest(m, tagged, rules);
    d < |f| && TopoSort(f[d].g) == Some(mat.columns)
    && (forall j | 0 <= j < |mat.columns| :: mat.columns[j] in m)
    && MatrixOf(m, tagged, mat.columns, RulesAt(rules, Placement(m, tagged, rules), d), mat)
  }

  /** The forest, frequency and matrix parts of create_matrices: one matrix per DAG of the forest,
      whose columns are a topological order of the DAG and whose rows are the DAG's rules in input
      order, and the least and greatest parent-code frequency. */
  method CreateMatrices(m: CodeToEvent, tagged: bool, rules: seq<Rule>) returns (mats: seq<RuleMatrix>, minF: nat, maxF: nat)
    requires forall i | 0 <= i < |rules| :: Drawable(m, tagged, rules[i])
    requires DistinctIds(rules)
    requires NodesCounted(m, tagged, rules)
    ensures |mats| == |Forest(m, tagged, rules)|
    ensures forall d | 0 <= d < |mats| :: DagMatrix(m, tagged, rules, d, mats[d])
    ensures CountRange(AllParents(m, rules), minF, maxF)
  {
    var dags, freq := CreateDags(m, tagged, rules);
    RangeOfCounts(freq, AllParents(m, rules));
    var range := MinMax(ValuesAt(freq, Dedup(AllParents(m, rules))));
    minF, maxF := range.0, range.1;
    ForestDags(m, tagged, rules);
    var orders := TopolSortDags(dags);
    mats := DagMatrices(m, tagged, rules, dags, orders);
  }

  /** create_matrices' comprehension: one matrix per DAG, from its order and its rules. */
  method DagMatrices(m: CodeToEvent, tagged: bool, rules: seq<Rule>, dags: seq<Dag>, orders: seq<seq<int>>) returns (mats: seq<RuleMatrix>)
    requires forall i | 0 <= i < |rules| :: Drawable(m, tagged, rules[i])
    requires DistinctIds(rules)
    requires dags == Forest(m, tagged, rules) && |orders| == |dags|
    requires forall d | 0 <= d < |dags| :: TopoSort(dags[d].g) == Some(orders[d])
    ensures |mats| == |dags|
    ensures forall d | 0 <= d < |mats| :: DagMatrix(m, tagged, rules, d, mats[d])
  {
    mats := [];
    for d := 0 to |dags|
      invariant |mats| == d
      invariant forall e | 0 <= e < d :: DagMatrix(m, tagged, rules, e, mats[e])
    {
      var mat := MatrixFor(m, tagged, rules, dags, d, orders[d]);
      ghost var prev := mats;
      mats := mats + [mat];
      assert forall e | 0 <= e < d :: mats[e] == prev[e];
    }
  }

  /** One step of create_matrices' comprehension: the matrix of DAG `d`. */
  method MatrixFor(m: CodeToEvent, tagged: bool, rules: seq<Rule>, dags: seq<Dag>, d: nat, order: seq<int>) returns (mat: RuleMatrix)
    requires forall i | 0 <= i < |rules| :: Drawable(m, tagged, rules[i])
    requires DistinctIds(rules)
    requires dags == Forest(m, tagged, rules) && d < |dags|
    requires TopoSort(dags[d].g) == Some(order)
    ensures DagMatrix(m, tagged, rules, d, mat)
  {
    ghost var p := Placement(m, tagged, rules);
    ForestShape(m, tagged, rules);
    SelectPlaced(rules, p, d);
    SelectedFit(m, tagged, rules, d);
    TopoSortCorrect(dags[d].g);
    assert DagOk(m, tagged, rules, p, dags[d], d);
    var sel := Select(rules, dags[d].rules);
    assert sel == RulesAt(rules, p, d);
    mat := CreateDf(m, tagged, order, sel);
  }

  /** The columns of each matrix list every node of its DAG once, every edge's source before its
      target. */
  lemma MatrixColumnsOrdered(m: CodeToEvent, tagged: bool, rules: seq<Rule>, d: nat, mat: RuleMatrix)
    requires forall i | 0 <= i < |rules| :: StandsAlone(m, tagged, rules[i])
    requires DagMatrix(m, tagged, rules, d, mat)
    ensures IsTopoOrder(mat.columns, Forest(m, tagged, rules)[d].g)
  {
    ForestDags(m, tagged, rules);
    TopoSortCorrect(Forest(m, tagged, rules)[d].g);
  }

  /** The point of the matrices: in the row of every rule, inside the matrix of the DAG it went
      to, the consequent marker sits in the group column and every antecedent marker is to its
      left. */
  lemma MatrixRowShape(m: CodeToEvent, tagged: bool, rules: seq<Rule>, i: nat)
    requires forall i | 0 <= i < |rules| :: StandsAlone(m, tagged, rules[i])
    requires i < |rules| && |rules[i].lhs| > 0
    ensures var d := Placement(m, tagged, rules)[i];
      d < |Forest(m, tagged, rules)| && TopoSort(Forest(m, tagged, rules)[d].g).Some?
      && var order, r := TopoSort(Forest(m, tagged, rules)[d].g).value, rules[i];
      var cells, group := Cells(m, tagged, order, r), FirstIndex(order, Node(m, tagged, r.rhs));
      group < |order| && cells[group] == Mark(m, tagged, 'C', r.rhs)
      && forall c | 0 <= c < |order| && c != group && cells[c] != "" ::
        c < group && |cells[c]| >= 2 && cells[c][..2] == "A."
  {
    var p, f := Placement(m, tagged, rules), Forest(m, tagged, rules);
    ForestShape(m, tagged, rules);
    var g := f[p[i]].g;
    EdgesAtHas(m, tagged, rules, p, i);
    TopoSortCorrect(g);
    RowShape(m, tagged, TopoSort(g).value, g, rules[i]);
  }
}
