/** Frequent-itemset layout: create_matrix groups itemsets that share items (transitively) and
    lays one row per itemset and one aggregate row per group; _create_graph links itemsets with a
    non-empty intersection. */
module ItemsetGraph {
  import opened Seqs
  import opened Text
  import opened PatternClasses
  import opened Dictionary

  type Group = set<FrequentItemSet>

  // ---------------------------------------------------------------------------------------------
  // Shared items

  /** len(set(xs).intersection(set(ys))) != 0. */
  predicate Share(xs: seq<int>, ys: seq<int>) {
    exists k | 0 <= k < |xs| :: xs[k] in ys
  }

  /** |set(xs) & set(ys)|, the weight _create_graph puts on an edge. */
  function Weight(xs: seq<int>, ys: seq<int>): nat {
    |ToSet(xs) * ToSet(ys)|
  }

  lemma ShareSym(xs: seq<int>, ys: seq<int>)
    ensures Share(xs, ys) <==> Share(ys, xs)
  {
    if Share(xs, ys) {
      var k :| 0 <= k < |xs| && xs[k] in ys;
      var l :| 0 <= l < |ys| && ys[l] == xs[k];
      assert ys[l] in xs;
    }
    if Share(ys, xs) {
      var k :| 0 <= k < |ys| && ys[k] in xs;
      var l :| 0 <= l < |xs| && xs[l] == ys[k];
      assert xs[l] in ys;
    }
  }

  /** The intersection test and the weight agree: the weight is non-zero exactly when an item is
      shared. */
  lemma WeightShare(xs: seq<int>, ys: seq<int>)
    ensures Weight(xs, ys) != 0 <==> Share(xs, ys)
  {
    if Share(xs, ys) {
      var k :| 0 <= k < |xs| && xs[k] in ys;
      assert xs[k] in ToSet(xs) * ToSet(ys);
    }
    if Weight(xs, ys) != 0 {
      var x := Pick(ToSet(xs) * ToSet(ys));
      assert x in xs;
      var k :| 0 <= k < |xs| && xs[k] == x;
      assert xs[k] in ys;
    }
  }

  // ---------------------------------------------------------------------------------------------
  // Grouping: the specification of the loop over fis_list

  /** Some pattern of group `g` shares an item with `f` (the inner loop's test with its break). */
  predicate Meets(g: Group, f: FrequentItemSet) {
    exists h | h in g :: Share(h.items, f.items)
  }

  /** belongs_to_sets: the positions of the groups that meet `f`, in increasing order. */
  function Touching(groups: seq<Group>, f: FrequentItemSet): (t: seq<nat>)
    ensures forall k | 0 <= k < |t| :: t[k] < |groups| && Meets(groups[t[k]], f)
    ensures forall j | 0 <= j < |groups| && Meets(groups[j], f) :: j in t
    ensures forall k, l | 0 <= k < l < |t| :: t[k] < t[l]
  {
    if groups == [] then []
    else
      var n := |groups| - 1;
      Touching(groups[..n], f) + (if Meets(groups[n], f) then [n] else [])
  }

  /** similar_groups.remove(x): drops the first group equal to `x`. (x is always present where the
      loop calls it; see MergeShape.) */
  function RemoveFirst(s: seq<Group>, x: Group): (r: seq<Group>)
  {
    var p := FirstIndex(s, x);
    if p < |s| then s[..p] + s[p + 1..] else s
  }

  /** groups_to_merge = [similar_groups[j] for j in belongs_to_sets]. */
  function Picked(groups: seq<Group>, t: seq<nat>): (ps: seq<Group>)
    requires forall k | 0 <= k < |t| :: t[k] < |groups|
    ensures |ps| == |t| && forall k | 0 <= k < |t| :: ps[k] == groups[t[k]]
  {
    seq(|t|, k requires 0 <= k < |t| => groups[t[k]])
  }

  /** The merge loop: each group to merge is removed from the list and poured into `group`. */
  function Merge(groups: seq<Group>, toMerge: seq<Group>, group: Group): (seq<Group>, Group)
    decreases |toMerge|
  {
    if toMerge == [] then (groups, group)
    else Merge(RemoveFirst(groups, toMerge[0]), toMerge[1..], group + toMerge[0])
  }

  /** One step of the loop over fis_list: a new singleton group when no group meets `f`, `f` added
      to the one group that meets it, or every group that meets it merged with `f` into a new group
      appended at the end. */
  function Assign(groups: seq<Group>, f: FrequentItemSet): seq<Group> {
    var t := Touching(groups, f);
    if |t| == 0 then groups + [{f}]
    else if |t| == 1 then groups[t[0] := groups[t[0]] + {f}]
    else
      var merged := Merge(groups, Picked(groups, t), {f});
      merged.0 + [merged.1]
  }

  /** similar_groups after the loop over fis_list. */
  function Grouping(fis: seq<FrequentItemSet>): seq<Group>
    decreases |fis|
  {
    if fis == [] then [] else Assign(Grouping(fis[..|fis| - 1]), fis[|fis| - 1])
  }

  // ---------------------------------------------------------------------------------------------
  // What the grouping means

  /** `x` is in some group of `gs`. */
  predicate InSome(gs: seq<Group>, x: FrequentItemSet) {
    exists g | 0 <= g < |gs| :: x in gs[g]
  }

  /** The groups are non-empty, cover `u` and are pairwise disjoint: every itemset of `u` is in
      exactly one group. */
  predicate Partitions(gs: seq<Group>, u: set<FrequentItemSet>) {
    (forall g | 0 <= g < |gs| :: gs[g] != {} && gs[g] <= u)
    && (forall x | x in u :: InSome(gs, x))
    && Disjoint(gs)
  }

  /** Groups at different positions have no itemset in common. */
  predicate Disjoint(gs: seq<Group>) {
    forall g1, g2 | 0 <= g1 < |gs| && 0 <= g2 < |gs| && g1 != g2 :: gs[g1] !! gs[g2]
  }

  /** No two itemsets of different groups share an item. */
  predicate Separated(gs: seq<Group>) {
    forall g1, g2, a: FrequentItemSet, b: FrequentItemSet | 0 <= g1 < |gs| && 0 <= g2 < |gs| && g1 != g2 && a in gs[g1] && b in gs[g2] ::
      !Share(a.items, b.items)
  }

  /** Each itemset of `w` shares an item with the next. */
  predicate Walk(w: seq<FrequentItemSet>) {
    forall k | 0 <= k < |w| - 1 :: Share(w[k].items, w[k + 1].items)
  }

  /** `w` is a chain of itemsets of `s` from `a` to `b`, each sharing an item with the next. */
  predicate Chain(older w: seq<FrequentItemSet>, a: FrequentItemSet, b: FrequentItemSet, s: Group) {
    |w| > 0 && w[0] == a && w[|w| - 1] == b && (forall k | 0 <= k < |w| :: w[k] in s) && Walk(w)
  }

  /** `a` reaches `b` through a chain of non-empty intersections inside `s`. */
  ghost predicate Linked(a: FrequentItemSet, b: FrequentItemSet, s: Group) {
    exists w :: Chain(w, a, b, s)
  }

  /** Any two itemsets of `g` are linked by a chain of non-empty intersections inside `g`. */
  ghost predicate Connected(g: Group) {
    forall a, b {:trigger Linked(a, b, g)} | a in g && b in g :: Linked(a, b, g)
  }

  ghost predicate AllConnected(gs: seq<Group>) {
    forall g | 0 <= g < |gs| :: Connected(gs[g])
  }

  ghost predicate GroupingOk(gs: seq<Group>, u: set<FrequentItemSet>) {
    Partitions(gs, u) && Separated(gs) && AllConnected(gs)
  }

  /** Every itemset is in exactly one group. */
  lemma ExactlyOne(gs: seq<Group>, u: set<FrequentItemSet>, x: FrequentItemSet)
    requires Partitions(gs, u) && x in u
    ensures exists g | 0 <= g < |gs| :: x in gs[g]
    ensures forall g1, g2 | 0 <= g1 < |gs| && 0 <= g2 < |gs| && x in gs[g1] && x in gs[g2] :: g1 == g2
  {
  }

  // ---------------------------------------------------------------------------------------------
  // Chains

  lemma LinkedSelf(a: FrequentItemSet, s: Group)
    requires a in s
    ensures Linked(a, a, s)
  {
    assert Chain([a], a, a, s);
  }

  lemma LinkedShare(a: FrequentItemSet, b: FrequentItemSet, s: Group)
    requires a in s && b in s && Share(a.items, b.items)
    ensures Linked(a, b, s)
  {
    assert Chain([a, b], a, b, s);
  }

  lemma LinkedWiden(a: FrequentItemSet, b: FrequentItemSet, s: Group, t: Group)
    requires Linked(a, b, s) && s <= t
    ensures Linked(a, b, t)
  {
    var w: seq<FrequentItemSet> :| Chain(w, a, b, s);
    assert Chain(w, a, b, t);
  }

  lemma LinkedTrans(a: FrequentItemSet, b: FrequentItemSet, c: FrequentItemSet, s: Group)
    requires Linked(a, b, s) && Linked(b, c, s)
    ensures Linked(a, c, s)
  {
    var w1: seq<FrequentItemSet> :| Chain(w1, a, b, s);
    var w2: seq<FrequentItemSet> :| Chain(w2, b, c, s);
    var w := w1 + w2[1..];
    forall k | 0 <= k < |w| - 1 ensures Share(w[k].items, w[k + 1].items) {
      if k < |w1| - 1 {
        assert w[k] == w1[k] && w[k + 1] == w1[k + 1];
      } else {
        var j := k - |w1| + 1;
        assert w[k] == w2[j] && w[k + 1] == w2[j + 1];
      }
    }
    forall k | 0 <= k < |w| ensures w[k] in s {
      if k >= |w1| {
        assert w[k] == w2[k - |w1| + 1];
      }
    }
    assert Chain(w, a, c, s);
  }

  /** Two connected groups joined by a shared item form a connected group. */
  lemma ConnectedJoin(g: Group, s: Group, a: FrequentItemSet, b: FrequentItemSet)
    requires Connected(g) && Connected(s) && a in g && b in s && Share(a.items, b.items)
    ensures Connected(g + s)
  {
    var u := g + s;
    LinkedShare(a, b, u);
    ShareSym(a.items, b.items);
    LinkedShare(b, a, u);
    forall x: FrequentItemSet, y: FrequentItemSet | x in u && y in u ensures Linked(x, y, u) {
      if x in g && y in g {
        LinkedWiden(x, y, g, u);
      } else if x in s && y in s {
        LinkedWiden(x, y, s, u);
      } else if x in g {
        LinkedWiden(x, a, g, u);
        LinkedWiden(b, y, s, u);
        LinkedTrans(x, a, b, u);
        LinkedTrans(x, b, y, u);
      } else {
        LinkedWiden(x, b, s, u);
        LinkedWiden(a, y, g, u);
        LinkedTrans(x, b, a, u);
        LinkedTrans(x, a, y, u);
      }
    }
  }

  // ---------------------------------------------------------------------------------------------
  // The three cases of Assign keep the grouping meaningful

  /** Distinct positions of a partition hold different groups. */
  lemma GroupsDiffer(gs: seq<Group>, u: set<FrequentItemSet>, g1: nat, g2: nat)
    requires Partitions(gs, u) && g1 < |gs| && g2 < |gs| && g1 != g2
    ensures gs[g1] != gs[g2]
  {
    assert gs[g1] != {};
    var x :| x in gs[g1];
    assert gs[g1] !! gs[g2];
  }

  /** Appending {f} for an itemset not yet grouped keeps a partition. */
  lemma PartitionsSingleton(gs: seq<Group>, u: set<FrequentItemSet>, f: FrequentItemSet)
    requires Partitions(gs, u) && f !in u
    ensures Partitions(gs + [{f}], u + {f})
  {
    var gs' := gs + [{f}];
    forall x | x in u + {f} ensures InSome(gs', x) {
      if x == f {
        assert x in gs'[|gs|];
      } else {
        var g :| 0 <= g < |gs| && x in gs[g];
        assert x in gs'[g];
      }
    }
    SingletonDisjoint(gs, u, f);
  }

  lemma SingletonDisjoint(gs: seq<Group>, u: set<FrequentItemSet>, f: FrequentItemSet)
    requires (forall g | 0 <= g < |gs| :: gs[g] <= u) && Disjoint(gs) && f !in u
    ensures Disjoint(gs + [{f}])
  {
    var gs' := gs + [{f}];
    forall g1, g2 | 0 <= g1 < |gs'| && 0 <= g2 < |gs'| && g1 != g2 ensures gs'[g1] !! gs'[g2] {
      if g1 < |gs| && g2 < |gs| {
        assert gs'[g1] == gs[g1] && gs'[g2] == gs[g2];
      }
    }
  }

  /** Separation, apart from pairs involving `f`. */
  predicate SeparatedBut(gs: seq<Group>, f: FrequentItemSet) {
    forall g1, g2, a: FrequentItemSet, b: FrequentItemSet | 0 <= g1 < |gs| && 0 <= g2 < |gs| && g1 != g2 && a in gs[g1] && b in gs[g2] && a != f && b != f ::
      !Share(a.items, b.items)
  }

  lemma SingletonSeparatedBut(gs: seq<Group>, f: FrequentItemSet)
    requires Separated(gs)
    ensures SeparatedBut(gs + [{f}], f)
  {
    var gs' := gs + [{f}];
    forall g1, g2, a: FrequentItemSet, b: FrequentItemSet | 0 <= g1 < |gs'| && 0 <= g2 < |gs'| && g1 != g2 && a in gs'[g1] && b in gs'[g2] && a != f && b != f
      ensures !Share(a.items, b.items)
    {
      assert g1 < |gs| && g2 < |gs|;
      assert gs'[g1] == gs[g1] && gs'[g2] == gs[g2];
    }
  }

  lemma SingletonConnected(gs: seq<Group>, f: FrequentItemSet)
    requires AllConnected(gs)
    ensures AllConnected(gs + [{f}])
  {
    LinkedSelf(f, {f});
    forall g | 0 <= g < |gs| + 1 ensures Connected((gs + [{f}])[g]) {
      if g < |gs| {
        assert (gs + [{f}])[g] == gs[g];
      }
    }
  }

  /** No group meets f: f becomes a group of its own. */
  lemma AssignNew(gs: seq<Group>, u: set<FrequentItemSet>, f: FrequentItemSet)
    requires GroupingOk(gs, u) && f !in u && |Touching(gs, f)| == 0
    ensures GroupingOk(gs + [{f}], u + {f})
  {
    var gs' := gs + [{f}];
    PartitionsSingleton(gs, u, f);
    SingletonConnected(gs, f);
    SingletonSeparatedBut(gs, f);
    forall g1, g2, a: FrequentItemSet, b: FrequentItemSet | 0 <= g1 < |gs'| && 0 <= g2 < |gs'| && g1 != g2 && a in gs'[g1] && b in gs'[g2]
      ensures !Share(a.items, b.items)
    {
      if a == f {
        assert g2 < |gs| && gs'[g2] == gs[g2];
        assert !Meets(gs[g2], f);
        ShareSym(a.items, b.items);
      } else if b == f {
        assert g1 < |gs| && gs'[g1] == gs[g1];
        assert !Meets(gs[g1], f);
      }
    }
  }

  /** Exactly one group meets f: f joins it. */
  lemma AssignJoin(gs: seq<Group>, u: set<FrequentItemSet>, f: FrequentItemSet)
    requires GroupingOk(gs, u) && f !in u && |Touching(gs, f)| == 1
    ensures GroupingOk(Assign(gs, f), u + {f})
  {
    var t := Touching(gs, f);
    var j := t[0];
    assert Assign(gs, f) == gs[j := gs[j] + {f}];
    forall q | 0 <= q < |gs| && Meets(gs[q], f) ensures q == j {
      assert q in t;
    }
    JoinPartitions(gs, u, f, j);
    JoinSeparated(gs, f, j);
    JoinConnected(gs, f, j);
  }

  lemma JoinPartitions(gs: seq<Group>, u: set<FrequentItemSet>, f: FrequentItemSet, j: nat)
    requires Partitions(gs, u) && f !in u && j < |gs|
    ensures Partitions(gs[j := gs[j] + {f}], u + {f})
  {
    JoinCovers(gs, u, f, j);
    JoinDisjoint(gs, u, f, j);
  }

  lemma JoinCovers(gs: seq<Group>, u: set<FrequentItemSet>, f: FrequentItemSet, j: nat)
    requires forall x | x in u :: InSome(gs, x)
    requires j < |gs|
    ensures forall x | x in u + {f} :: InSome(gs[j := gs[j] + {f}], x)
  {
    var gs' := gs[j := gs[j] + {f}];
    forall x | x in u + {f} ensures InSome(gs', x) {
      if x == f {
        assert x in gs'[j];
      } else {
        var g :| 0 <= g < |gs| && x in gs[g];
        assert x in gs'[g];
      }
    }
  }

  lemma JoinDisjoint(gs: seq<Group>, u: set<FrequentItemSet>, f: FrequentItemSet, j: nat)
    requires forall g | 0 <= g < |gs| :: gs[g] <= u
    requires Disjoint(gs) && f !in u && j < |gs|
    ensures Disjoint(gs[j := gs[j] + {f}])
  {
    var gs' := gs[j := gs[j] + {f}];
    forall g1, g2 | 0 <= g1 < |gs'| && 0 <= g2 < |gs'| && g1 != g2 ensures gs'[g1] !! gs'[g2] {
      assert gs[g1] !! gs[g2];
      assert f !in gs[g1] && f !in gs[g2];
    }
  }

  lemma JoinSeparated(gs: seq<Group>, f: FrequentItemSet, j: nat)
    requires Separated(gs) && j < |gs|
    requires forall q | 0 <= q < |gs| && Meets(gs[q], f) :: q == j
    ensures Separated(gs[j := gs[j] + {f}])
  {
    var gs' := gs[j := gs[j] + {f}];
    forall g1, g2, a: FrequentItemSet, b: FrequentItemSet | 0 <= g1 < |gs'| && 0 <= g2 < |gs'| && g1 != g2 && a in gs'[g1] && b in gs'[g2]
      ensures !Share(a.items, b.items)
    {
      if a == f && g1 == j {
        assert gs'[g2] == gs[g2];
        assert !Meets(gs[g2], f);
        ShareSym(a.items, b.items);
      } else if b == f && g2 == j {
        assert gs'[g1] == gs[g1];
        assert !Meets(gs[g1], f);
      } else {
        assert a in gs[g1] && b in gs[g2];
      }
    }
  }

  lemma JoinConnected(gs: seq<Group>, f: FrequentItemSet, j: nat)
    requires AllConnected(gs) && j < |gs| && Meets(gs[j], f)
    ensures AllConnected(gs[j := gs[j] + {f}])
  {
    var gs' := gs[j := gs[j] + {f}];
    var m :| m in gs[j] && Share(m.items, f.items);
    LinkedSelf(f, {f});
    assert Connected({f});
    ConnectedJoin(gs[j], {f}, m, f);
    forall g | 0 <= g < |gs'| ensures Connected(gs'[g]) {
      if g != j {
        assert gs'[g] == gs[g];
      }
    }
  }

  /** The state of the merge loop: the list so far, the group being built (which holds f) and the
      groups still to merge, which are exactly the listed groups that meet f. */
  ghost predicate MergeInv(r: seq<Group>, g: Group, rest: seq<Group>, f: FrequentItemSet, u: set<FrequentItemSet>) {
    Partitions(r + [g], u) && f in g && SeparatedBut(r + [g], f) && AllConnected(r + [g])
    && (forall q | 0 <= q < |r| && Meets(r[q], f) :: Listed(rest, r[q]))
    && (forall k | 0 <= k < |rest| :: Listed(r, rest[k]) && Meets(rest[k], f))
    && Distinct(rest)
  }

  /** `x` is one of the groups of `s`. */
  predicate Listed(s: seq<Group>, x: Group) {
    exists k | 0 <= k < |s| :: s[k] == x
  }

  /** Removing the group at position `p`. */
  lemma RemoveFirstAt(r: seq<Group>, x: Group)
    requires x in r
    ensures FirstIndex(r, x) < |r|
    ensures |RemoveFirst(r, x)| == |r| - 1
    ensures forall q | 0 <= q < |r| - 1 :: RemoveFirst(r, x)[q] == r[Origin(q, FirstIndex(r, x))]
  {
    var p := FirstIndex(r, x);
    var s := r[..p] + r[p + 1..];
    assert RemoveFirst(r, x) == s;
    forall q | 0 <= q < |r| - 1 ensures s[q] == r[Origin(q, p)] {
      if q < p { assert s[q] == r[..p][q]; } else { assert s[q] == r[p + 1..][q - p]; }
    }
  }

  /** The list `l` after its group at position `p` is removed and poured into its last group. */
  function Fold(l: seq<Group>, p: nat): seq<Group>
    requires p < |l| - 1
  {
    l[..p] + l[p + 1..|l| - 1] + [l[|l| - 1] + l[p]]
  }

  /** Where the group at position `q` of a list with position `p` removed used to be. */
  function Origin(q: nat, p: nat): nat {
    if q < p then q else q + 1
  }

  lemma FoldAt(l: seq<Group>, p: nat)
    requires p < |l| - 1
    ensures |Fold(l, p)| == |l| - 1
    ensures Fold(l, p)[|l| - 2] == l[|l| - 1] + l[p]
    ensures forall q | 0 <= q < |l| - 2 :: Fold(l, p)[q] == l[Origin(q, p)]
  {
    var a, b := l[..p], l[p + 1..|l| - 1];
    forall q | 0 <= q < |l| - 2 ensures Fold(l, p)[q] == l[Origin(q, p)] {
      if q < p { assert Fold(l, p)[q] == a[q]; } else { assert Fold(l, p)[q] == b[q - p]; }
    }
  }

  /** One step of the merge loop is a fold of the list with the group being built at its end. */
  lemma MergeStepIsFold(r: seq<Group>, g: Group, v: Group)
    requires v in r
    ensures FirstIndex(r, v) < |r|
    ensures RemoveFirst(r, v) + [g + v] == Fold(r + [g], FirstIndex(r, v))
  {
    var p := FirstIndex(r, v);
    assert (r + [g])[..p] == r[..p];
    assert (r + [g])[p + 1..|r|] == r[p + 1..];
  }

  lemma FoldCovers(l: seq<Group>, p: nat, u: set<FrequentItemSet>)
    requires p < |l| - 1 && forall x | x in u :: InSome(l, x)
    ensures forall x | x in u :: InSome(Fold(l, p), x)
  {
    FoldAt(l, p);
    var n := |l| - 2;
    forall x | x in u ensures InSome(Fold(l, p), x) {
      var h :| 0 <= h < |l| && x in l[h];
      if h == n + 1 || h == p {
        assert x in Fold(l, p)[n];
      } else {
        var q := if h < p then h else h - 1;
        assert Fold(l, p)[q] == l[h];
      }
    }
  }

  lemma FoldBounded(l: seq<Group>, p: nat, u: set<FrequentItemSet>)
    requires p < |l| - 1 && forall g | 0 <= g < |l| :: l[g] != {} && l[g] <= u
    ensures forall g | 0 <= g < |Fold(l, p)| :: Fold(l, p)[g] != {} && Fold(l, p)[g] <= u
  {
    FoldAt(l, p);
  }

  lemma FoldDisjoint(l: seq<Group>, p: nat)
    requires p < |l| - 1 && Disjoint(l)
    ensures Disjoint(Fold(l, p))
  {
    FoldAt(l, p);
    var n := |l| - 2;
    var m := Fold(l, p);
    forall q1, q2 | 0 <= q1 < |m| && 0 <= q2 < |m| && q1 != q2 ensures m[q1] !! m[q2] {
      if q1 < n && q2 < n {
        assert l[Origin(q1, p)] !! l[Origin(q2, p)];
      } else if q1 < n {
        assert l[Origin(q1, p)] !! l[n + 1] && l[Origin(q1, p)] !! l[p];
      } else {
        assert l[Origin(q2, p)] !! l[n + 1] && l[Origin(q2, p)] !! l[p];
      }
    }
  }

  lemma FoldPartitions(l: seq<Group>, p: nat, u: set<FrequentItemSet>)
    requires p < |l| - 1 && Partitions(l, u)
    ensures Partitions(Fold(l, p), u)
  {
    FoldBounded(l, p, u);
    FoldCovers(l, p, u);
    FoldDisjoint(l, p);
  }

  lemma FoldSeparatedBut(l: seq<Group>, p: nat, f: FrequentItemSet)
    requires p < |l| - 1 && SeparatedBut(l, f)
    ensures SeparatedBut(Fold(l, p), f)
  {
    FoldAt(l, p);
    var n := |l| - 2;
    var m := Fold(l, p);
    forall q1, q2, a: FrequentItemSet, b: FrequentItemSet | 0 <= q1 < |m| && 0 <= q2 < |m| && q1 != q2 && a in m[q1] && b in m[q2] && a != f && b != f
      ensures !Share(a.items, b.items)
    {
      var h1 := if q1 == n then (if a in l[n + 1] then n + 1 else p) else Origin(q1, p);
      var h2 := if q2 == n then (if b in l[n + 1] then n + 1 else p) else Origin(q2, p);
      assert a in l[h1] && b in l[h2];
    }
  }

  lemma FoldConnected(l: seq<Group>, p: nat, a: FrequentItemSet, b: FrequentItemSet)
    requires p < |l| - 1 && AllConnected(l)
    requires a in l[|l| - 1] && b in l[p] && Share(a.items, b.items)
    ensures AllConnected(Fold(l, p))
  {
    FoldAt(l, p);
    assert Connected(l[|l| - 1]) && Connected(l[p]);
    ConnectedJoin(l[|l| - 1], l[p], a, b);
    forall q | 0 <= q < |Fold(l, p)| ensures Connected(Fold(l, p)[q]) {
      if q < |l| - 2 {
        assert Fold(l, p)[q] == l[Origin(q, p)];
      }
    }
  }

  /** The groups still to merge after one step are exactly the remaining groups that meet f. */
  lemma MergeStepRest(r: seq<Group>, rest: seq<Group>, f: FrequentItemSet)
    requires rest != [] && rest[0] in r && Distinct(r) && Distinct(rest)
    requires forall q | 0 <= q < |r| && Meets(r[q], f) :: Listed(rest, r[q])
    requires forall k | 0 <= k < |rest| :: Listed(r, rest[k]) && Meets(rest[k], f)
    ensures forall q | 0 <= q < |RemoveFirst(r, rest[0])| && Meets(RemoveFirst(r, rest[0])[q], f) :: Listed(rest[1..], RemoveFirst(r, rest[0])[q])
    ensures forall k | 0 <= k < |rest| - 1 :: Listed(RemoveFirst(r, rest[0]), rest[1..][k]) && Meets(rest[1..][k], f)
  {
    var v := rest[0];
    RemoveFirstAt(r, v);
    var p := FirstIndex(r, v);
    var r' := RemoveFirst(r, v);
    forall q | 0 <= q < |r'| && Meets(r'[q], f) ensures Listed(rest[1..], r'[q]) {
      assert r'[q] == r[Origin(q, p)];
      assert r[Origin(q, p)] != r[p];
      var k :| 0 <= k < |rest| && rest[k] == r'[q];
      assert k != 0;
      assert rest[1..][k - 1] == rest[k];
    }
    forall k | 0 <= k < |rest| - 1 ensures Listed(r', rest[1..][k]) && Meets(rest[1..][k], f) {
      assert rest[1..][k] == rest[k + 1] != v;
      var h :| 0 <= h < |r| && r[h] == rest[k + 1];
      assert h != p;
      var q := if h < p then h else h - 1;
      assert r'[q] == r[h];
    }
  }

  /** Distinct positions of a partition hold different groups, so its list has no repetition. */
  lemma PartitionsDistinct(gs: seq<Group>, u: set<FrequentItemSet>)
    requires Partitions(gs, u)
    ensures Distinct(gs)
  {
    forall g1, g2 | 0 <= g1 < g2 < |gs| ensures gs[g1] != gs[g2] {
      GroupsDiffer(gs, u, g1, g2);
    }
  }

  /** One merge step: the first group still to merge is removed and poured into `g`. */
  lemma MergeStep(r: seq<Group>, g: Group, rest: seq<Group>, f: FrequentItemSet, u: set<FrequentItemSet>)
    requires MergeInv(r, g, rest, f, u) && rest != []
    ensures MergeInv(RemoveFirst(r, rest[0]), g + rest[0], rest[1..], f, u)
  {
    var v := rest[0];
    assert Listed(r, v) && Meets(v, f);
    var m :| m in v && Share(m.items, f.items);
    MergeStepGroups(r, g, v, f, u, m);
    PrefixDistinct(r + [g], u);
    assert (r + [g])[..|r|] == r;
    MergeStepRest(r, rest, f);
    TailDistinct(rest);
  }

  /** The list after one merge step is still a partition, separated apart from f, with connected
      groups. */
  lemma MergeStepGroups(r: seq<Group>, g: Group, v: Group, f: FrequentItemSet, u: set<FrequentItemSet>, m: FrequentItemSet)
    requires Partitions(r + [g], u) && SeparatedBut(r + [g], f) && AllConnected(r + [g])
    requires f in g && Listed(r, v) && m in v && Share(m.items, f.items)
    ensures Partitions(RemoveFirst(r, v) + [g + v], u)
    ensures SeparatedBut(RemoveFirst(r, v) + [g + v], f)
    ensures AllConnected(RemoveFirst(r, v) + [g + v])
  {
    var l := r + [g];
    assert v in r;
    MergeStepIsFold(r, g, v);
    var p := FirstIndex(r, v);
    assert l[p] == v && l[|l| - 1] == g;
    ShareSym(m.items, f.items);
    FoldKeeps(l, p, u, f, m);
  }

  /** Folding a group that shares an item with f into the group that holds f keeps the list a
      partition, separated apart from f, with connected groups. */
  lemma FoldKeeps(l: seq<Group>, p: nat, u: set<FrequentItemSet>, f: FrequentItemSet, m: FrequentItemSet)
    requires p < |l| - 1 && Partitions(l, u) && SeparatedBut(l, f) && AllConnected(l)
    requires f in l[|l| - 1] && m in l[p] && Share(f.items, m.items)
    ensures Partitions(Fold(l, p), u) && SeparatedBut(Fold(l, p), f) && AllConnected(Fold(l, p))
  {
    FoldPartitions(l, p, u);
    FoldSeparatedBut(l, p, f);
    FoldConnected(l, p, f, m);
  }

  lemma PrefixDistinct(l: seq<Group>, u: set<FrequentItemSet>)
    requires Partitions(l, u) && |l| > 0
    ensures Distinct(l[..|l| - 1])
  {
    PartitionsDistinct(l, u);
    var r := l[..|l| - 1];
    forall i, j | 0 <= i < j < |r| ensures r[i] != r[j] { assert r[i] == l[i] && r[j] == l[j]; }
  }

  lemma TailDistinct(rest: seq<Group>)
    requires Distinct(rest) && rest != []
    ensures Distinct(rest[1..])
  {
    forall i, j | 0 <= i < j < |rest| - 1 ensures rest[1..][i] != rest[1..][j] { assert rest[1..][i] == rest[i + 1]; }
  }

  /** When nothing is left to merge, no listed group meets f and separation is complete. */
  lemma MergeDone(r: seq<Group>, g: Group, f: FrequentItemSet, u: set<FrequentItemSet>)
    requires MergeInv(r, g, [], f, u)
    ensures GroupingOk(r + [g], u)
  {
    var gs := r + [g];
    forall q | 0 <= q < |gs| - 1 ensures !Meets(gs[q], f) {
      assert gs[q] == r[q];
      assert !Listed([], r[q]);
    }
    SeparatedWith(gs, f);
  }

  /** Separation apart from f is separation when f's group is the last one and no other group
      meets f. */
  lemma SeparatedWith(gs: seq<Group>, f: FrequentItemSet)
    requires |gs| > 0 && Disjoint(gs) && f in gs[|gs| - 1] && SeparatedBut(gs, f)
    requires forall q | 0 <= q < |gs| - 1 :: !Meets(gs[q], f)
    ensures Separated(gs)
  {
    var n := |gs| - 1;
    forall g1, g2, a: FrequentItemSet, b: FrequentItemSet | 0 <= g1 < |gs| && 0 <= g2 < |gs| && g1 != g2 && a in gs[g1] && b in gs[g2]
      ensures !Share(a.items, b.items)
    {
      if a == f {
        assert gs[g1] !! gs[n] || g1 == n;
        assert g1 == n;
        assert !Meets(gs[g2], f);
        ShareSym(a.items, b.items);
      } else if b == f {
        assert gs[g2] !! gs[n] || g2 == n;
        assert g2 == n;
        assert !Meets(gs[g1], f);
      }
    }
  }

  lemma {:induction false} MergeShape(r: seq<Group>, g: Group, rest: seq<Group>, f: FrequentItemSet, u: set<FrequentItemSet>)
    requires MergeInv(r, g, rest, f, u)
    ensures GroupingOk(Merge(r, rest, g).0 + [Merge(r, rest, g).1], u)
    decreases |rest|
  {
    if rest == [] {
      MergeDone(r, g, f, u);
    } else {
      MergeStep(r, g, rest, f, u);
      MergeShape(RemoveFirst(r, rest[0]), g + rest[0], rest[1..], f, u);
    }
  }

  /** Several groups meet f: they are merged with f into one group at the end. */
  lemma AssignMerge(gs: seq<Group>, u: set<FrequentItemSet>, f: FrequentItemSet)
    requires GroupingOk(gs, u) && f !in u && |Touching(gs, f)| > 1
    ensures GroupingOk(Assign(gs, f), u + {f})
  {
    var ps := Picked(gs, Touching(gs, f));
    MergeStart(gs, u, f);
    PickedPending(gs, u, f);
    assert MergeInv(gs, {f}, ps, f, u + {f});
    MergeShape(gs, {f}, ps, f, u + {f});
  }

  /** Before the merge loop the list is the old one with {f} standing for the group being built. */
  lemma MergeStart(gs: seq<Group>, u: set<FrequentItemSet>, f: FrequentItemSet)
    requires GroupingOk(gs, u) && f !in u
    ensures Partitions(gs + [{f}], u + {f}) && SeparatedBut(gs + [{f}], f) && AllConnected(gs + [{f}])
  {
    PartitionsSingleton(gs, u, f);
    SingletonSeparatedBut(gs, f);
    SingletonConnected(gs, f);
  }

  /** groups_to_merge lists, once each, exactly the groups that meet f. */
  lemma PickedPending(gs: seq<Group>, u: set<FrequentItemSet>, f: FrequentItemSet)
    requires Partitions(gs, u)
    ensures forall q | 0 <= q < |gs| && Meets(gs[q], f) :: Listed(Picked(gs, Touching(gs, f)), gs[q])
    ensures forall k | 0 <= k < |Picked(gs, Touching(gs, f))| ::
      Listed(gs, Picked(gs, Touching(gs, f))[k]) && Meets(Picked(gs, Touching(gs, f))[k], f)
    ensures Distinct(Picked(gs, Touching(gs, f)))
  {
    var t := Touching(gs, f);
    var ps := Picked(gs, t);
    forall q | 0 <= q < |gs| && Meets(gs[q], f) ensures Listed(ps, gs[q]) {
      assert q in t;
      var k :| 0 <= k < |t| && t[k] == q;
      assert ps[k] == gs[q];
    }
    forall k | 0 <= k < |ps| ensures Listed(gs, ps[k]) && Meets(ps[k], f) {
      assert ps[k] == gs[t[k]];
    }
    forall k, l | 0 <= k < l < |ps| ensures ps[k] != ps[l] {
      GroupsDiffer(gs, u, t[k], t[l]);
    }
  }

  lemma AssignOk(gs: seq<Group>, u: set<FrequentItemSet>, f: FrequentItemSet)
    requires GroupingOk(gs, u) && f !in u
    ensures GroupingOk(Assign(gs, f), u + {f})
  {
    var t := Touching(gs, f);
    if |t| == 0 {
      AssignNew(gs, u, f);
    } else if |t| == 1 {
      AssignJoin(gs, u, f);
    } else {
      AssignMerge(gs, u, f);
    }
  }

  /** For distinct itemsets the groups partition them, itemsets of different groups share no item,
      and any two itemsets of one group are linked by a chain of shared items. */
  lemma {:induction false} GroupingMeaning(fis: seq<FrequentItemSet>)
    requires Distinct(fis)
    ensures Partitions(Grouping(fis), ToSet(fis))
    ensures Separated(Grouping(fis))
    ensures AllConnected(Grouping(fis))
    decreases |fis|
  {
    if fis != [] {
      var n := |fis| - 1;
      var init := fis[..n];
      assert Distinct(init);
      GroupingMeaning(init);
      assert fis == init + [fis[n]];
      assert ToSet(fis) == ToSet(init) + {fis[n]};
      assert fis[n] !in ToSet(init);
      AssignOk(Grouping(init), ToSet(init), fis[n]);
    }
  }

  // ---------------------------------------------------------------------------------------------
  // The grouping loop of create_matrix

  /** The inner loop over one group: whether some pattern of `g` shares an item with `f`. The
      group is a set, so its patterns are visited in an unspecified order. */
  method GroupMeets(g: Group, f: FrequentItemSet) returns (b: bool)
    ensures b == Meets(g, f)
  {
    var rest := g;
    b := false;
    while rest != {} && !b
      invariant rest <= g
      invariant b == exists h | h in g - rest :: Share(h.items, f.items)
      decreases |rest|
    {
      var h :| h in rest;
      WeightShare(h.items, f.items);
      b := Weight(h.items, f.items) != 0;
      rest := rest - {h};
    }
  }

  /** belongs_to_sets: the positions of the groups that share an item with `f`. */
  method BelongsTo(groups: seq<Group>, f: FrequentItemSet) returns (t: seq<nat>)
    ensures t == Touching(groups, f)
  {
    t := [];
    for j := 0 to |groups|
      invariant t == Touching(groups[..j], f)
    {
      assert groups[..j + 1][..j] == groups[..j];
      var meets := GroupMeets(groups[j], f);
      if meets {
        t := t + [j];
      }
    }
    assert groups[..|groups|] == groups;
  }

  /** The merge loop of one step: each group to merge is removed and poured into `group`. */
  method MergeGroups(groups: seq<Group>, toMerge: seq<Group>, group: Group) returns (rest: seq<Group>, merged: Group)
    ensures (rest, merged) == Merge(groups, toMerge, group)
  {
    rest, merged := groups, group;
    for k := 0 to |toMerge|
      invariant Merge(rest, toMerge[k..], merged) == Merge(groups, toMerge, group)
    {
      assert toMerge[k..][1..] == toMerge[k + 1..];
      rest := RemoveFirst(rest, toMerge[k]);
      merged := merged + toMerge[k];
    }
  }

  lemma GroupingStep(fis: seq<FrequentItemSet>, i: nat)
    requires i < |fis|
    ensures Grouping(fis[..i + 1]) == Assign(Grouping(fis[..i]), fis[i])
  {
    assert fis[..i + 1][..i] == fis[..i];
  }

  /** The loop over fis_list that builds similar_groups. */
  method GroupItemSets(fis: seq<FrequentItemSet>) returns (groups: seq<Group>)
    ensures groups == Grouping(fis)
  {
    groups := [];
    for i := 0 to |fis|
      invariant groups == Grouping(fis[..i])
    {
      GroupingStep(fis, i);
      var f := fis[i];
      var t := BelongsTo(groups, f);
      if |t| == 0 {
        groups := groups + [{f}];
      } else if |t| == 1 {
        groups := groups[t[0] := groups[t[0]] + {f}];
      } else {
        var rest, group := MergeGroups(groups, Picked(groups, t), {f});
        groups := rest + [group];
      }
    }
    assert fis[..|fis|] == fis;
  }

  // ---------------------------------------------------------------------------------------------
  // The rows of create_matrix

  /** What create_matrix reads of an item: code_to_event[str(item)] has a parent and a non-empty tag. */
  predicate Labelled(m: CodeToEvent, item: int) {
    HasParent(m, item) && HasTag(m, item)
  }

  predicate AllLabelled(m: CodeToEvent, items: seq<int>) {
    forall k | 0 <= k < |items| :: Labelled(m, items[k])
  }

  /** The cells of a pattern's row: for each item in order, the cell keyed by the item's parent
      code gets the upper-cased first letter of the item's tag. */
  function ItemCells(m: CodeToEvent, items: seq<int>): map<int, char>
    requires AllLabelled(m, items)
    decreases |items|
  {
    if items == [] then map[]
    else
      var n := |items| - 1;
      var item := items[n];
      ItemCells(m, items[..n])[m[item].parent.value := UpperChar(m[item].tag.value[0])]
  }

  /** A cell exists exactly for the parent codes of the items, and holds the letter of the last
      item with that parent. */
  lemma {:induction false} ItemCellsMeaning(m: CodeToEvent, items: seq<int>, p: int)
    requires AllLabelled(m, items)
    ensures p in ItemCells(m, items) <==> exists k | 0 <= k < |items| :: m[items[k]].parent.value == p
    ensures p in ItemCells(m, items) ==>
      exists k | 0 <= k < |items| :: m[items[k]].parent.value == p
        && ItemCells(m, items)[p] == UpperChar(m[items[k]].tag.value[0])
        && forall l | k < l < |items| :: m[items[l]].parent.value != p
    decreases |items|
  {
    if items != [] {
      var n := |items| - 1;
      var init := items[..n];
      assert forall k | 0 <= k < n :: init[k] == items[k];
      ItemCellsMeaning(m, init, p);
      if m[items[n]].parent.value != p && p in ItemCells(m, init) {
        var k :| 0 <= k < n && m[init[k]].parent.value == p
          && ItemCells(m, init)[p] == UpperChar(m[init[k]].tag.value[0])
          && forall l | k < l < n :: m[init[l]].parent.value != p;
        assert m[items[k]].parent.value == p;
      }
    }
  }

  /** The row loop for one pattern: `row[parent] = tag[0].upper()` item by item. */
  method FillCells(m: CodeToEvent, items: seq<int>) returns (cells: map<int, char>)
    requires AllLabelled(m, items)
    ensures cells == ItemCells(m, items)
  {
    cells := map[];
    for k := 0 to |items|
      invariant cells == ItemCells(m, items[..k])
    {
      assert items[..k + 1][..k] == items[..k];
      var entry := m[items[k]];
      cells := cells[entry.parent.value := UpperChar(entry.tag.value[0])];
    }
    assert items[..|items|] == items;
  }

  /** A row of the itemset matrix: a pattern row (level 1) or the closing row of a group (level 0). */
  datatype ItemSetRow =
    | PatternRow(support: SupportShare, rid: string, group: nat, cells: map<int, char>)
    | GroupRow(group: nat)
  {
    function Level(): nat {
      if PatternRow? then 1 else 0
    }
  }

  /** Every pattern of every group has its items labelled. */
  predicate GroupsLabelled(m: CodeToEvent, groups: seq<Group>) {
    forall i, f | 0 <= i < |groups| && f in groups[i] :: AllLabelled(m, f.items)
  }

  function Members(orders: seq<seq<FrequentItemSet>>): set<FrequentItemSet> {
    set i, k | 0 <= i < |orders| && 0 <= k < |orders[i]| :: orders[i][k]
  }

  predicate OrdersLabelled(m: CodeToEvent, orders: seq<seq<FrequentItemSet>>) {
    forall i, k | 0 <= i < |orders| && 0 <= k < |orders[i]| :: AllLabelled(m, orders[i][k].items)
  }

  /** `orders[i]` lists the patterns of `groups[i]`, each once, in the order the set was visited. */
  predicate Enumerates(orders: seq<seq<FrequentItemSet>>, groups: seq<Group>) {
    |orders| == |groups| && forall i | 0 <= i < |groups| :: Distinct(orders[i]) && ToSet(orders[i]) == groups[i]
  }

  /** The row of pattern `f` in group `i`. */
  function RowOf(m: CodeToEvent, f: FrequentItemSet, i: nat): ItemSetRow
    requires AllLabelled(m, f.items)
    reads f
  {
    PatternRow(f.supportPercentage, f.id, i, ItemCells(m, f.items))
  }

  /** The pattern rows of group `i`, in the order `order` visits it. */
  function BlockRows(m: CodeToEvent, order: seq<FrequentItemSet>, i: nat): (rows: seq<ItemSetRow>)
    requires forall k | 0 <= k < |order| :: AllLabelled(m, order[k].items)
    reads set k | 0 <= k < |order| :: order[k]
    ensures |rows| == |order|
    ensures forall k | 0 <= k < |order| :: rows[k] == RowOf(m, order[k], i)
    decreases |order|
  {
    if order == [] then [] else
      var n := |order| - 1;
      BlockRows(m, order[..n], i) + [RowOf(m, order[n], i)]
  }

  /** The rows create_matrix lays out: for each group, its pattern rows, then its level-0 row. */
  function Layout(m: CodeToEvent, orders: seq<seq<FrequentItemSet>>): seq<ItemSetRow>
    requires OrdersLabelled(m, orders)
    reads Members(orders)
    decreases |orders|
  {
    if orders == [] then [] else
      var n := |orders| - 1;
      assert Members(orders[..n]) <= Members(orders) by {
        forall i, k | 0 <= i < n && 0 <= k < |orders[i]| ensures orders[..n][i][k] in Members(orders) {
          assert orders[..n][i] == orders[i];
        }
      }
      assert forall k | 0 <= k < |orders[n]| :: orders[n][k] in Members(orders);
      Layout(m, orders[..n]) + BlockRows(m, orders[n], n) + [GroupRow(n)]
  }

  /** The number of level-0 rows. */
  function GroupRowCount(rows: seq<ItemSetRow>): nat {
    if rows == [] then 0 else GroupRowCount(rows[..|rows| - 1]) + if rows[|rows| - 1].GroupRow? then 1 else 0
  }

  lemma GroupRowCountAppend(a: seq<ItemSetRow>, b: seq<ItemSetRow>)
    ensures GroupRowCount(a + b) == GroupRowCount(a) + GroupRowCount(b)
    decreases |b|
  {
    if b == [] {
      assert a + b == a;
    } else {
      var n := |b| - 1;
      assert (a + b)[..|a + b| - 1] == a + b[..n];
      assert (a + b)[|a + b| - 1] == b[n];
      GroupRowCountAppend(a, b[..n]);
    }
  }

  lemma {:induction false} BlockRowsPatterns(m: CodeToEvent, order: seq<FrequentItemSet>, i: nat)
    requires forall k | 0 <= k < |order| :: AllLabelled(m, order[k].items)
    ensures GroupRowCount(BlockRows(m, order, i)) == 0
    decreases |order|
  {
    if order != [] {
      var n := |order| - 1;
      BlockRowsPatterns(m, order[..n], i);
      GroupRowCountAppend(BlockRows(m, order[..n], i), [RowOf(m, order[n], i)]);
      assert GroupRowCount([RowOf(m, order[n], i)]) == 0 by {
        assert [RowOf(m, order[n], i)][..0] == [];
      }
    }
  }

  /** There are as many level-0 rows as groups. */
  lemma {:induction false} LayoutGroupRows(m: CodeToEvent, orders: seq<seq<FrequentItemSet>>)
    requires OrdersLabelled(m, orders)
    ensures GroupRowCount(Layout(m, orders)) == |orders|
    decreases |orders|
  {
    if orders != [] {
      var n := |orders| - 1;
      LayoutGroupRows(m, orders[..n]);
      BlockRowsPatterns(m, orders[n], n);
      GroupRowCountAppend(Layout(m, orders[..n]), BlockRows(m, orders[n], n));
      GroupRowCountAppend(Layout(m, orders[..n]) + BlockRows(m, orders[n], n), [GroupRow(n)]);
      assert [GroupRow(n)][..0] == [];
    }
  }

  /** The last group's rows come after the rows of the groups before it. */
  lemma LayoutSnoc(m: CodeToEvent, orders: seq<seq<FrequentItemSet>>, order: seq<FrequentItemSet>)
    requires OrdersLabelled(m, orders + [order])
    ensures OrdersLabelled(m, orders)
    ensures forall k | 0 <= k < |order| :: AllLabelled(m, order[k].items)
    ensures Layout(m, orders + [order]) == Layout(m, orders) + BlockRows(m, order, |orders|) + [GroupRow(|orders|)]
  {
    var all: seq<seq<FrequentItemSet>> := orders + [order];
    assert all[..|orders|] == orders;
    assert all[|orders|] == order;
    forall i, k | 0 <= i < |orders| && 0 <= k < |orders[i]| ensures AllLabelled(m, orders[i][k].items) {
      assert all[i] == orders[i];
    }
  }

  /** Every row is the level-0 row of a group or the row of a pattern of that group. */
  lemma {:induction false} LayoutRowsFrom(m: CodeToEvent, orders: seq<seq<FrequentItemSet>>, groups: seq<Group>)
    requires OrdersLabelled(m, orders) && Enumerates(orders, groups)
    ensures forall r | r in Layout(m, orders) ::
      r.group < |groups| && (r.GroupRow? || exists f | f in groups[r.group] :: r == RowOf(m, f, r.group))
    decreases |orders|
  {
    if orders != [] {
      var n := |orders| - 1;
      assert orders == orders[..n] + [orders[n]];
      LayoutSnoc(m, orders[..n], orders[n]);
      assert Enumerates(orders[..n], groups[..n]);
      LayoutRowsFrom(m, orders[..n], groups[..n]);
      var head := Layout(m, orders[..n]);
      var block := BlockRows(m, orders[n], n);
      forall r | r in Layout(m, orders)
        ensures r.group < |groups| && (r.GroupRow? || exists f | f in groups[r.group] :: r == RowOf(m, f, r.group))
      {
        if r in head {
          if r.PatternRow? {
            var f :| f in groups[..n][r.group] && r == RowOf(m, f, r.group);
            assert f in groups[r.group];
          }
        } else if r in block {
          var k :| 0 <= k < |block| && block[k] == r;
          assert orders[n][k] in ToSet(orders[n]);
        }
      }
    }
  }

  /** Every pattern of group `i` has its row, with group = i. */
  lemma {:induction false} LayoutHasPatterns(m: CodeToEvent, orders: seq<seq<FrequentItemSet>>, groups: seq<Group>, i: nat, f: FrequentItemSet)
    requires OrdersLabelled(m, orders) && Enumerates(orders, groups)
    requires i < |groups| && f in groups[i]
    ensures AllLabelled(m, f.items) && RowOf(m, f, i) in Layout(m, orders)
    decreases |orders|
  {
    var n := |orders| - 1;
    assert orders == orders[..n] + [orders[n]];
    LayoutSnoc(m, orders[..n], orders[n]);
    if i < n {
      assert Enumerates(orders[..n], groups[..n]);
      LayoutHasPatterns(m, orders[..n], groups[..n], i, f);
    } else {
      assert f in ToSet(orders[n]);
      var k :| 0 <= k < |orders[n]| && orders[n][k] == f;
      assert BlockRows(m, orders[n], n)[k] == RowOf(m, f, i);
    }
  }

  /** Every group has its level-0 row. */
  lemma {:induction false} LayoutHasGroupRows(m: CodeToEvent, orders: seq<seq<FrequentItemSet>>, i: nat)
    requires OrdersLabelled(m, orders) && i < |orders|
    ensures GroupRow(i) in Layout(m, orders)
    decreases |orders|
  {
    var n := |orders| - 1;
    assert orders == orders[..n] + [orders[n]];
    LayoutSnoc(m, orders[..n], orders[n]);
    if i < n {
      LayoutHasGroupRows(m, orders[..n], i);
    }
  }

  /** The rows of one group: its patterns visited in an unspecified order (the order of the set),
      which `order` records. */
  method LayBlock(m: CodeToEvent, g: Group, i: nat) returns (block: seq<ItemSetRow>, ghost order: seq<FrequentItemSet>)
    requires forall f | f in g :: AllLabelled(m, f.items)
    ensures Distinct(order) && ToSet(order) == g
    ensures forall k | 0 <= k < |order| :: AllLabelled(m, order[k].items)
    ensures block == BlockRows(m, order, i)
  {
    var rest := g;
    block := [];
    order := [];
    assert ToSet(order) == {};
    while rest != {}
      invariant Visited(order, rest, g)
      invariant forall k | 0 <= k < |order| :: AllLabelled(m, order[k].items)
      invariant block == BlockRows(m, order, i)
      decreases |rest|
    {
      var f :| f in rest;
      // The patterns visited so far belong to `g`, so FillCells leaves their rows as they are.
      forall h | h in order ensures allocated(h) {
        assert h in ToSet(order);
      }
      var cells := FillCells(m, f.items);
      assert block == BlockRows(m, order, i);
      assert PatternRow(f.supportPercentage, f.id, i, cells) == RowOf(m, f, i);
      block := block + [PatternRow(f.supportPercentage, f.id, i, cells)];
      Enumerating(order, rest, g, f);
      VisitedLabelled(m, order + [f], rest - {f}, g);
      BlockRowsSnoc(m, order, f, i);
      assert block == BlockRows(m, order, i) + [RowOf(m, f, i)];
      order := order + [f];
      rest := rest - {f};
    }
  }

  /** `order` lists, each once, the patterns of `g` visited so far; `rest` holds the others. */
  predicate Visited(order: seq<FrequentItemSet>, rest: set<FrequentItemSet>, g: set<FrequentItemSet>) {
    rest <= g && ToSet(order) + rest == g && ToSet(order) !! rest && Distinct(order)
  }

  lemma VisitedLabelled(m: CodeToEvent, order: seq<FrequentItemSet>, rest: set<FrequentItemSet>, g: set<FrequentItemSet>)
    requires Visited(order, rest, g) && forall f | f in g :: AllLabelled(m, f.items)
    ensures forall k | 0 <= k < |order| :: AllLabelled(m, order[k].items)
  {
    forall k | 0 <= k < |order| ensures AllLabelled(m, order[k].items) {
      assert order[k] in ToSet(order);
    }
  }

  /** Visiting one more pattern of the set keeps the visited list an enumeration of what is gone. */
  lemma Enumerating(order: seq<FrequentItemSet>, rest: set<FrequentItemSet>, g: set<FrequentItemSet>, f: FrequentItemSet)
    requires Visited(order, rest, g) && f in rest
    ensures Visited(order + [f], rest - {f}, g)
  {
    assert ToSet(order + [f]) == ToSet(order) + {f};
    forall a, b | 0 <= a < b < |order| + 1 ensures (order + [f])[a] != (order + [f])[b] {
      if b == |order| { assert order[a] in ToSet(order); }
    }
  }

  lemma BlockRowsSnoc(m: CodeToEvent, order: seq<FrequentItemSet>, f: FrequentItemSet, i: nat)
    requires forall k | 0 <= k < |order| :: AllLabelled(m, order[k].items)
    requires AllLabelled(m, f.items)
    ensures BlockRows(m, order + [f], i) == BlockRows(m, order, i) + [RowOf(m, f, i)]
  {
    assert (order + [f])[..|order|] == order;
  }

  /** The row loop of create_matrix: for each group, its rows and then its level-0 row. */
  method LayRows(m: CodeToEvent, groups: seq<Group>) returns (rows: seq<ItemSetRow>, ghost orders: seq<seq<FrequentItemSet>>)
    requires GroupsLabelled(m, groups)
    ensures Enumerates(orders, groups) && OrdersLabelled(m, orders)
    ensures rows == Layout(m, orders)
  {
    rows := [];
    orders := [];
    for i := 0 to |groups|
      invariant Enumerates(orders, groups[..i]) && OrdersLabelled(m, orders)
      invariant rows == Layout(m, orders)
    {
      // The patterns laid out so far belong to `groups`, so LayBlock leaves their rows as they are.
      forall f | f in Members(orders) ensures allocated(f) {
        var j, k :| 0 <= j < |orders| && 0 <= k < |orders[j]| && orders[j][k] == f;
        assert f in ToSet(orders[j]);
      }
      var block;
      ghost var order;
      block, order := LayBlock(m, groups[i], i);
      rows := rows + block + [GroupRow(i)];
      EnumeratesSnoc(m, orders, order, groups, i);
      LayoutSnoc(m, orders, order);
      orders := orders + [order];
    }
    assert groups[..|groups|] == groups;
  }

  lemma EnumeratesSnoc(m: CodeToEvent, orders: seq<seq<FrequentItemSet>>, order: seq<FrequentItemSet>, groups: seq<Group>, i: nat)
    requires i < |groups| && Enumerates(orders, groups[..i]) && OrdersLabelled(m, orders)
    requires Distinct(order) && ToSet(order) == groups[i]
    requires forall k | 0 <= k < |order| :: AllLabelled(m, order[k].items)
    ensures Enumerates(orders + [order], groups[..i + 1]) && OrdersLabelled(m, orders + [order])
  {
    var all: seq<seq<FrequentItemSet>> := orders + [order];
    forall j | 0 <= j < i + 1 ensures Distinct(all[j]) && ToSet(all[j]) == groups[..i + 1][j] {
      if j < i { assert all[j] == orders[j] && groups[..i + 1][j] == groups[..i][j]; }
    }
    forall j: int, k: int | 0 <= j < |all| && 0 <= k < |all[j]| ensures AllLabelled(m, all[j][k].items) {
      if j < i { assert all[j] == orders[j]; }
    }
  }

  /** create_matrix: the groups of `fis` by shared items, laid out as rows. */
  method CreateMatrix(m: CodeToEvent, fis: seq<FrequentItemSet>) returns (rows: seq<ItemSetRow>, ghost orders: seq<seq<FrequentItemSet>>)
    requires forall k | 0 <= k < |fis| :: AllLabelled(m, fis[k].items)
    ensures Enumerates(orders, Grouping(fis)) && OrdersLabelled(m, orders)
    ensures rows == Layout(m, orders)
  {
    var groups := GroupItemSets(fis);
    GroupingWithin(fis);
    forall i, f: FrequentItemSet | 0 <= i < |groups| && f in groups[i] ensures AllLabelled(m, f.items) {
      assert f in ToSet(fis);
    }
    rows, orders := LayRows(m, groups);
  }

  /** Every group of `gs` is a subset of `u`. */
  predicate Within(gs: seq<Group>, u: set<FrequentItemSet>) {
    forall i | 0 <= i < |gs| :: gs[i] <= u
  }

  /** Every group holds patterns of `fis` only. */
  lemma {:induction false} GroupingWithin(fis: seq<FrequentItemSet>)
    ensures Within(Grouping(fis), ToSet(fis))
    decreases |fis|
  {
    if fis != [] {
      var n := |fis| - 1;
      var init := fis[..n];
      GroupingWithin(init);
      assert ToSet(init) <= ToSet(fis);
      WithinWiden(Grouping(init), ToSet(init), ToSet(fis));
      AssignWithin(Grouping(init), fis[n], ToSet(fis));
    }
  }

  lemma WithinWiden(gs: seq<Group>, u: set<FrequentItemSet>, v: set<FrequentItemSet>)
    requires Within(gs, u) && u <= v
    ensures Within(gs, v)
  {
  }

  lemma AssignWithin(gs: seq<Group>, f: FrequentItemSet, u: set<FrequentItemSet>)
    requires Within(gs, u) && f in u
    ensures Within(Assign(gs, f), u)
  {
    var t := Touching(gs, f);
    if |t| == 0 {
      assert Assign(gs, f) == gs + [{f}];
    } else if |t| == 1 {
      assert Assign(gs, f) == gs[t[0] := gs[t[0]] + {f}];
    } else {
      var ps := Picked(gs, t);
      forall k | 0 <= k < |ps| ensures ps[k] <= u {
        assert ps[k] == gs[t[k]];
      }
      MergeWithin(gs, ps, {f}, u);
      assert Assign(gs, f) == Merge(gs, ps, {f}).0 + [Merge(gs, ps, {f}).1];
    }
  }

  lemma {:induction false} MergeWithin(gs: seq<Group>, toMerge: seq<Group>, g: Group, u: set<FrequentItemSet>)
    requires Within(gs, u)
    requires forall k | 0 <= k < |toMerge| :: toMerge[k] <= u
    requires g <= u
    ensures Within(Merge(gs, toMerge, g).0, u)
    ensures Merge(gs, toMerge, g).1 <= u
    decreases |toMerge|
  {
    if toMerge != [] {
      var r := RemoveFirst(gs, toMerge[0]);
      var p := FirstIndex(gs, toMerge[0]);
      if p < |gs| {
        forall i | 0 <= i < |r| ensures r[i] <= u {
          if i < p { assert r[i] == gs[i]; } else { assert r[i] == gs[i + 1]; }
        }
      }
      MergeWithin(r, toMerge[1..], g + toMerge[0], u);
    }
  }

  // ---------------------------------------------------------------------------------------------
  // _create_graph

  /** One add_edge call: the two itemset ids and the size of their intersection. */
  datatype Edge = Edge(source: string, target: string, weight: nat)

  /** The add_edge call, if any, for fis[i] and fis[j]. */
  function EdgeOf(fis: seq<FrequentItemSet>, i: nat, j: nat): seq<Edge>
    requires i < |fis| && j < |fis|
  {
    if Share(fis[i].items, fis[j].items) then [Edge(fis[i].id, fis[j].id, Weight(fis[i].items, fis[j].items))] else []
  }

  /** The add_edge calls of the inner loop for `fis[i]` against fis[i+1 .. n-1]. */
  function EdgesOf(fis: seq<FrequentItemSet>, i: nat, n: nat): seq<Edge>
    requires n <= |fis|
    decreases n
  {
    if n <= i + 1 then []
    else
      EdgesOf(fis, i, n - 1) + EdgeOf(fis, i, n - 1)
  }

  /** The add_edge calls of the outer loop's first `i` iterations. */
  function EdgesBefore(fis: seq<FrequentItemSet>, i: nat): seq<Edge>
    requires i <= |fis|
    decreases i
  {
    if i == 0 then [] else EdgesBefore(fis, i - 1) + EdgesOf(fis, i - 1, |fis|)
  }

  /** The graph _create_graph builds: its nodes (the itemset ids, each once, in order) and, as
      nx.Graph keeps them, one weight per unordered pair of ids (a singleton for a loop). */
  datatype ItemSetGraph = ItemSetGraph(nodes: seq<string>, weights: map<set<string>, nat>)

  /** The unordered pair of ids an edge joins. */
  function Ends(e: Edge): set<string> {
    {e.source, e.target}
  }

  /** The weights after the add_edge calls `calls`, starting from `m`: a repeated pair keeps the
      weight of its last call. */
  function AddAll(m: map<set<string>, nat>, calls: seq<Edge>): map<set<string>, nat>
    decreases |calls|
  {
    if calls == [] then m
    else
      var e := calls[|calls| - 1];
      AddAll(m, calls[..|calls| - 1])[Ends(e) := e.weight]
  }

  /** The graph's weights after the add_edge calls `calls` on an edgeless graph. */
  function Weights(calls: seq<Edge>): map<set<string>, nat> {
    AddAll(map[], calls)
  }

  function Ids(fis: seq<FrequentItemSet>): (ids: seq<string>)
    ensures |ids| == |fis| && forall k | 0 <= k < |fis| :: ids[k] == fis[k].id
  {
    seq(|fis|, k requires 0 <= k < |fis| => fis[k].id)
  }

  /** The add_edge calls of the inner loop of _create_graph for fis[i], in the order they are made. */
  method AddEdgesFrom(fis: seq<FrequentItemSet>, i: nat) returns (inner: seq<Edge>)
    requires i < |fis|
    ensures inner == EdgesOf(fis, i, |fis|)
  {
    inner := [];
    for j := i + 1 to |fis|
      invariant inner == EdgesOf(fis, i, j)
    {
      assert EdgesOf(fis, i, j + 1) == EdgesOf(fis, i, j) + EdgeOf(fis, i, j);
      var w := |ToSet(fis[i].items) * ToSet(fis[j].items)|;
      assert w == Weight(fis[i].items, fis[j].items);
      WeightShare(fis[i].items, fis[j].items);
      if w != 0 {
        inner := inner + [Edge(fis[i].id, fis[j].id, w)];
      } else {
        assert EdgeOf(fis, i, j) == [];
      }
    }
  }

  /** _create_graph. */
  method CreateGraph(fis: seq<FrequentItemSet>) returns (graph: ItemSetGraph)
    ensures graph.nodes == Dedup(Ids(fis))
    ensures graph.weights == Weights(EdgesBefore(fis, |fis|))
  {
    var weights := map[];
    var i := 0;
    while i + 1 < |fis|
      invariant i <= |fis| && weights == Weights(EdgesBefore(fis, i))
      invariant |fis| != 0 ==> i < |fis|
    {
      var inner := AddEdgesFrom(fis, i);
      weights := AddAll(weights, inner);
      AddAllAppend(map[], EdgesBefore(fis, i), inner);
      i := i + 1;
    }
    if |fis| > 0 {
      assert i == |fis| - 1;
      assert EdgesOf(fis, i, |fis|) == [];
      assert EdgesBefore(fis, |fis|) == EdgesBefore(fis, i) + [] == EdgesBefore(fis, i);
    }
    graph := ItemSetGraph(Dedup(Ids(fis)), weights);
  }

  /** One more call sets the weight of its pair. */
  lemma AddAllSnoc(m: map<set<string>, nat>, calls: seq<Edge>, e: Edge)
    ensures AddAll(m, calls + [e]) == AddAll(m, calls)[Ends(e) := e.weight]
  {
    assert (calls + [e])[..|calls|] == calls;
  }

  /** Calls made in two stretches give the weights of both in turn. */
  lemma {:induction false} AddAllAppend(m: map<set<string>, nat>, a: seq<Edge>, b: seq<Edge>)
    ensures AddAll(m, a + b) == AddAll(AddAll(m, a), b)
    decreases |b|
  {
    if b == [] {
      assert a + b == a;
    } else {
      var n := |b|;
      AddAllAppend(m, a, b[..n - 1]);
      assert (a + b)[..|a + b| - 1] == a + b[..n - 1];
    }
  }

  /** A pair has a weight exactly when some call joins it, and the weight is that of the last
      such call. */
  lemma {:induction false} WeightsLast(calls: seq<Edge>, p: set<string>)
    ensures p in Weights(calls) <==> exists k | 0 <= k < |calls| :: Ends(calls[k]) == p
    ensures p in Weights(calls) ==> exists k | 0 <= k < |calls| :: (Ends(calls[k]) == p
      && Weights(calls)[p] == calls[k].weight && forall k' | k < k' < |calls| :: Ends(calls[k']) != p)
    decreases |calls|
  {
    if calls != [] {
      var n := |calls|;
      var init := calls[..n - 1];
      WeightsLast(init, p);
      if Ends(calls[n - 1]) != p {
        if p in Weights(calls) {
          var k :| 0 <= k < |init| && Ends(init[k]) == p && Weights(init)[p] == init[k].weight
            && forall k' | k < k' < |init| :: Ends(init[k']) != p;
          assert calls[k] == init[k];
          forall k' | k < k' < n ensures Ends(calls[k']) != p {
            if k' < n - 1 { assert calls[k'] == init[k']; }
          }
        }
        if exists k | 0 <= k < n :: Ends(calls[k]) == p {
          var k :| 0 <= k < n && Ends(calls[k]) == p;
          assert init[k] == calls[k];
        }
      }
    }
  }

  /** The graph has at most one weight per call, and strictly fewer weights than calls when two
      calls join the same pair: nx.Graph merges them. */
  lemma {:induction false} WeightsMerge(calls: seq<Edge>)
    ensures |Weights(calls)| <= |calls|
    ensures (exists k, k' | 0 <= k < k' < |calls| :: Ends(calls[k]) == Ends(calls[k'])) ==> |Weights(calls)| < |calls|
    decreases |calls|
  {
    if calls != [] {
      var n := |calls|;
      var init := calls[..n - 1];
      var p := Ends(calls[n - 1]);
      WeightsMerge(init);
      if exists k, k' | 0 <= k < k' < n :: Ends(calls[k]) == Ends(calls[k']) {
        var k, k' :| 0 <= k < k' < n && Ends(calls[k]) == Ends(calls[k']);
        if k' < n - 1 {
          assert Ends(init[k]) == Ends(init[k']);
        } else {
          assert Ends(init[k]) == p;
          WeightsLast(init, p);
          assert Weights(calls).Keys == Weights(init).Keys;
        }
      }
    }
  }

  /** With distinct ids, the graph joins fis[i] and fis[j] (i < j) exactly when they share an
      item, with the number of shared items as weight. */
  lemma GraphWeightsMeaning(fis: seq<FrequentItemSet>, i: nat, j: nat)
    requires i < j < |fis| && Distinct(Ids(fis))
    ensures {fis[i].id, fis[j].id} in Weights(EdgesBefore(fis, |fis|)) <==> Share(fis[i].items, fis[j].items)
    ensures {fis[i].id, fis[j].id} in Weights(EdgesBefore(fis, |fis|)) ==>
      Weights(EdgesBefore(fis, |fis|))[{fis[i].id, fis[j].id}] == Weight(fis[i].items, fis[j].items)
  {
    var calls, p := EdgesBefore(fis, |fis|), {fis[i].id, fis[j].id};
    WeightsLast(calls, p);
    if Share(fis[i].items, fis[j].items) {
      var e := Edge(fis[i].id, fis[j].id, Weight(fis[i].items, fis[j].items));
      EdgesBeforeHas(fis, |fis|, i, j, e);
      var k :| 0 <= k < |calls| && calls[k] == e;
      assert Ends(calls[k]) == p;
    }
    if p in Weights(calls) {
      var k :| 0 <= k < |calls| && Ends(calls[k]) == p && Weights(calls)[p] == calls[k].weight;
      CallOfPair(fis, i, j, calls[k]);
    }
  }

  /** With distinct ids, the only add_edge call joining the ids of fis[i] and fis[j] (i < j) is
      the one for that pair. */
  lemma CallOfPair(fis: seq<FrequentItemSet>, i: nat, j: nat, e: Edge)
    requires i < j < |fis| && Distinct(Ids(fis))
    requires e in EdgesBefore(fis, |fis|) && Ends(e) == {fis[i].id, fis[j].id}
    ensures EdgeFor(fis, i, j, e)
  {
    EdgesBeforeFrom(fis, |fis|, e);
    var i', j' :| 0 <= i' < |fis| && i' < j' < |fis| && EdgeFor(fis, i', j', e);
    var ids := Ids(fis);
    assert e.source == ids[i'] && e.target == ids[j'];
    assert fis[i].id == ids[i] && fis[j].id == ids[j];
    SamePair(ids, i, j, i', j');
  }

  /** With distinct ids, the pair of ids of i < j determines i and j. */
  lemma SamePair(ids: seq<string>, i: nat, j: nat, i': nat, j': nat)
    requires i < j < |ids| && i' < j' < |ids| && Distinct(ids)
    requires {ids[i'], ids[j']} == {ids[i], ids[j]}
    ensures i' == i && j' == j
  {
    assert ids[i'] in {ids[i], ids[j]} && ids[j'] in {ids[i], ids[j]};
  }

  /** `e` is the edge add_edge gets for fis[i] and fis[j]. */
  predicate EdgeFor(fis: seq<FrequentItemSet>, i: nat, j: nat, e: Edge)
    requires i < |fis| && j < |fis|
  {
    Share(fis[i].items, fis[j].items) && e == Edge(fis[i].id, fis[j].id, Weight(fis[i].items, fis[j].items))
  }

  /** The inner loop adds an edge for exactly the later itemsets that share an item with fis[i],
      weighted by the size of the intersection. */
  lemma {:induction false} EdgesOfFrom(fis: seq<FrequentItemSet>, i: nat, n: nat, e: Edge)
    requires n <= |fis| && e in EdgesOf(fis, i, n)
    ensures exists j | i < j < n :: EdgeFor(fis, i, j, e)
    decreases n
  {
    assert n > i + 1;
    assert EdgesOf(fis, i, n) == EdgesOf(fis, i, n - 1) + EdgeOf(fis, i, n - 1);
    if e in EdgesOf(fis, i, n - 1) {
      EdgesOfFrom(fis, i, n - 1, e);
    } else {
      assert EdgeFor(fis, i, n - 1, e);
    }
  }

  lemma {:induction false} EdgesOfHas(fis: seq<FrequentItemSet>, i: nat, n: nat, j: nat, e: Edge)
    requires n <= |fis| && i < j < n && EdgeFor(fis, i, j, e)
    ensures e in EdgesOf(fis, i, n)
    decreases n
  {
    assert EdgesOf(fis, i, n) == EdgesOf(fis, i, n - 1) + EdgeOf(fis, i, n - 1);
    if j < n - 1 {
      EdgesOfHas(fis, i, n - 1, j, e);
    }
  }

  /** Every edge added comes from a pair i < j that shares an item. */
  lemma {:induction false} EdgesBeforeFrom(fis: seq<FrequentItemSet>, n: nat, e: Edge)
    requires n <= |fis| && e in EdgesBefore(fis, n)
    ensures exists i, j | 0 <= i < n && i < j < |fis| :: EdgeFor(fis, i, j, e)
    decreases n
  {
    assert n > 0;
    assert EdgesBefore(fis, n) == EdgesBefore(fis, n - 1) + EdgesOf(fis, n - 1, |fis|);
    if e in EdgesBefore(fis, n - 1) {
      EdgesBeforeFrom(fis, n - 1, e);
    } else {
      EdgesOfFrom(fis, n - 1, |fis|, e);
      var j :| n - 1 < j < |fis| && EdgeFor(fis, n - 1, j, e);
      assert 0 <= n - 1 < n && n - 1 < j < |fis| && EdgeFor(fis, n - 1, j, e);
    }
  }

  /** Every pair i < j that shares an item gets its edge. */
  lemma {:induction false} EdgesBeforeHas(fis: seq<FrequentItemSet>, n: nat, i: nat, j: nat, e: Edge)
    requires n <= |fis| && i < n && i < j < |fis| && EdgeFor(fis, i, j, e)
    ensures e in EdgesBefore(fis, n)
    decreases n
  {
    var head, last := EdgesBefore(fis, n - 1), EdgesOf(fis, n - 1, |fis|);
    assert EdgesBefore(fis, n) == head + last;
    if i < n - 1 {
      EdgesBeforeHas(fis, n - 1, i, j, e);
      assert e in head;
    } else {
      EdgesOfHas(fis, i, |fis|, j, e);
      assert e in last;
    }
  }

  /** An edge joins fis[i] and fis[j] (i < j) exactly when they share an item, and its weight is
      the number of items they share. */
  lemma GraphEdgesMeaning(fis: seq<FrequentItemSet>, e: Edge)
    ensures e in EdgesBefore(fis, |fis|) <==> exists i, j | 0 <= i < j < |fis| :: EdgeFor(fis, i, j, e)
  {
    if e in EdgesBefore(fis, |fis|) {
      EdgesBeforeFrom(fis, |fis|, e);
    }
    if exists i, j | 0 <= i < j < |fis| :: EdgeFor(fis, i, j, e) {
      var i, j :| 0 <= i < j < |fis| && EdgeFor(fis, i, j, e);
      EdgesBeforeHas(fis, |fis|, i, j, e);
    }
  }

  /** Every edge has a positive weight and, when the ids are distinct, joins two different nodes. */
  lemma GraphEdgesProper(fis: seq<FrequentItemSet>, e: Edge)
    requires e in EdgesBefore(fis, |fis|)
    ensures e.weight > 0
    ensures Distinct(Ids(fis)) ==> e.source != e.target
  {
    EdgesBeforeFrom(fis, |fis|, e);
    var i, j :| 0 <= i < |fis| && i < j < |fis| && EdgeFor(fis, i, j, e);
    WeightShare(fis[i].items, fis[j].items);
    if Distinct(Ids(fis)) {
      assert Ids(fis)[i] != Ids(fis)[j];
    }
  }
}
