/** The service helpers of post-processing: filtering the sequence table by event codes or event
    names, collecting the sequences of selected patterns, the cap on parsed rules, and the shaping
    of matrix headers and group rows for the front end. */
module PostUtils {
  import opened Wrappers
  import opened Text
  import opened Seqs
  import opened PatternClasses
  import opened Dictionary
  import opened PostProcessing
  import opened RuleDag

  // ---------------------------------------------------------------- filter_by_event_code

  /** The row test of filter_by_event_code: every code occurs in the sequence (all_filters) or
      at least one does. */
  predicate Qualifies(events: seq<int>, codes: seq<int>, allFilters: bool) {
    if allFilters then forall k | 0 <= k < |codes| :: codes[k] in events
    else exists k | 0 <= k < |codes| :: codes[k] in events
  }

  /** The rows that pass the test, in table order. */
  function Passing(rows: seq<SequenceRow>, codes: seq<int>, allFilters: bool): seq<SequenceRow> {
    if rows == [] then []
    else
      var last := rows[|rows| - 1];
      Passing(rows[..|rows| - 1], codes, allFilters) + if Qualifies(last.events, codes, allFilters) then [last] else []
  }

  /** The positions of the rows that pass the test. */
  function PassingPositions(rows: seq<SequenceRow>, codes: seq<int>, allFilters: bool): (p: seq<nat>)
    ensures forall k | 0 <= k < |p| :: p[k] < |rows|
  {
    if rows == [] then []
    else
      var n := |rows| - 1;
      PassingPositions(rows[..n], codes, allFilters) + if Qualifies(rows[n].events, codes, allFilters) then [n] else []
  }

  /** filter_by_event_code on the sequence column of the table. */
  function FilterByEventCode(rows: seq<SequenceRow>, codes: seq<int>, allFilters: bool): seq<SequenceRow> {
    if codes == [] then rows else Passing(rows, codes, allFilters)
  }

  lemma {:induction false} PassingEmbeds(rows: seq<SequenceRow>, codes: seq<int>, allFilters: bool)
    ensures Embeds(Passing(rows, codes, allFilters), rows, PassingPositions(rows, codes, allFilters))
    decreases |rows|
  {
    if rows != [] {
      var n := |rows| - 1;
      var front := rows[..n];
      PassingEmbeds(front, codes, allFilters);
      var p := PassingPositions(front, codes, allFilters);
      assert forall k | 0 <= k < |p| :: p[k] < n && rows[p[k]] == front[p[k]];
    }
  }

  lemma {:induction false} PassingPositionsExact(rows: seq<SequenceRow>, codes: seq<int>, allFilters: bool, i: nat)
    requires i < |rows|
    ensures i in PassingPositions(rows, codes, allFilters) <==> Qualifies(rows[i].events, codes, allFilters)
    decreases |rows|
  {
    var n := |rows| - 1;
    var front := rows[..n];
    var p := PassingPositions(front, codes, allFilters);
    assert n !in p;
    if i < n {
      PassingPositionsExact(front, codes, allFilters, i);
      assert front[i] == rows[i];
    }
  }

  /** filter_by_event_code keeps the whole table when no code is given, and otherwise exactly the
      rows whose sequence holds all (or any) of the codes, in table order. */
  lemma FilterByEventCodeMeaning(rows: seq<SequenceRow>, codes: seq<int>, allFilters: bool)
    ensures codes == [] ==> FilterByEventCode(rows, codes, allFilters) == rows
    ensures codes != [] ==>
      var p := PassingPositions(rows, codes, allFilters);
      Embeds(FilterByEventCode(rows, codes, allFilters), rows, p)
      && forall i | 0 <= i < |rows| :: i in p <==> Qualifies(rows[i].events, codes, allFilters)
  {
    if codes != [] {
      PassingEmbeds(rows, codes, allFilters);
      forall i | 0 <= i < |rows|
        ensures i in PassingPositions(rows, codes, allFilters) <==> Qualifies(rows[i].events, codes, allFilters)
      {
        PassingPositionsExact(rows, codes, allFilters, i);
      }
    }
  }

  /** Without the guard an empty any-match filter would keep nothing; the guard keeps everything. */
  lemma EmptyFilterKeepsAll()
    ensures Passing([SequenceRow(1, [5])], [], false) == []
    ensures FilterByEventCode([SequenceRow(1, [5])], [], false) == [SequenceRow(1, [5])]
  {
    var rows := [SequenceRow(1, [5])];
    assert rows[..0] == [];
    assert !Qualifies(rows[0].events, [], false);
  }

  // ---------------------------------------------------------------- filter_by_event_name

  /** The codes of the event_to_code entries, given as (name, code) in dictionary order, whose
      lower-cased name contains `event`. */
  function NameMatches(entries: seq<(string, int)>, event: string): seq<int> {
    if entries == [] then []
    else
      var last := entries[|entries| - 1];
      NameMatches(entries[..|entries| - 1], event) + if Contains(Lower(last.0), event) then [last.1] else []
  }

  /** The codes collected for the non-empty filters, filter by filter. */
  function CollectedCodes(filters: seq<string>, entries: seq<(string, int)>): seq<int> {
    if filters == [] then []
    else
      var last := filters[|filters| - 1];
      CollectedCodes(filters[..|filters| - 1], entries) + if |last| != 0 then NameMatches(entries, last) else []
  }

  /** No filter, or only empty strings. */
  predicate AllBlank(filters: seq<string>) {
    forall k | 0 <= k < |filters| :: |filters[k]| == 0
  }

  /** What filter_by_event_name returns; an empty list stands for the empty DataFrame. */
  function NameFilter(rows: seq<SequenceRow>, filters: seq<string>, entries: seq<(string, int)>): seq<SequenceRow> {
    if AllBlank(filters) then rows
    else
      var codes := CollectedCodes(filters, entries);
      if codes == [] then [] else FilterByEventCode(rows, codes, false)
  }

  /** filter_by_event_name: the codes are gathered filter by filter, then any-matched. */
  method FilterByEventName(rows: seq<SequenceRow>, filters: seq<string>, entries: seq<(string, int)>)
    returns (kept: seq<SequenceRow>)
    ensures kept == NameFilter(rows, filters, entries)
  {
    if |filters| == 0 || AllBlank(filters) {
      return rows;
    }
    var codes: seq<int> := [];
    for i := 0 to |filters|
      invariant codes == CollectedCodes(filters[..i], entries)
    {
      assert filters[..i + 1][..i] == filters[..i];
      if |filters[i]| != 0 {
        codes := codes + NameMatches(entries, filters[i]);
      }
    }
    assert filters[..|filters|] == filters;
    if |codes| == 0 {
      return [];
    }
    kept := FilterByEventCode(rows, codes, false);
  }

  /** An entry's code is named by a filter: the filter is non-empty and the entry's lower-cased
      name contains it. */
  predicate NamedBy(x: int, filter: string, entries: seq<(string, int)>) {
    |filter| != 0 && exists j | 0 <= j < |entries| :: entries[j].1 == x && Contains(Lower(entries[j].0), filter)
  }

  /** Some filter names the code. */
  predicate Named(x: int, filters: seq<string>, entries: seq<(string, int)>) {
    exists k | 0 <= k < |filters| :: NamedBy(x, filters[k], entries)
  }

  lemma {:induction false} NameMatchesMembers(entries: seq<(string, int)>, event: string, x: int)
    ensures x in NameMatches(entries, event) <==>
      exists j | 0 <= j < |entries| :: entries[j].1 == x && Contains(Lower(entries[j].0), event)
    decreases |entries|
  {
    if entries != [] {
      var n := |entries| - 1;
      var front := entries[..n];
      NameMatchesMembers(front, event, x);
      if exists j | 0 <= j < |entries| :: entries[j].1 == x && Contains(Lower(entries[j].0), event) {
        var j :| 0 <= j < |entries| && entries[j].1 == x && Contains(Lower(entries[j].0), event);
        if j < n { assert front[j] == entries[j]; }
      }
      if x in NameMatches(front, event) {
        var j :| 0 <= j < |front| && front[j].1 == x && Contains(Lower(front[j].0), event);
        assert entries[j] == front[j];
      }
    }
  }

  lemma {:induction false} CollectedFrom(filters: seq<string>, entries: seq<(string, int)>, x: int)
    requires x in CollectedCodes(filters, entries)
    ensures Named(x, filters, entries)
    decreases |filters|
  {
    var n := |filters| - 1;
    var front := filters[..n];
    var last := filters[n];
    var head := CollectedCodes(front, entries);
    var tail := if |last| != 0 then NameMatches(entries, last) else [];
    assert CollectedCodes(filters, entries) == head + tail;
    if x in head {
      CollectedFrom(front, entries, x);
      var k :| 0 <= k < |front| && NamedBy(x, front[k], entries);
      assert filters[k] == front[k];
    } else {
      assert x in tail;
      NameMatchesMembers(entries, last, x);
      assert NamedBy(x, filters[n], entries);
    }
  }

  lemma {:induction false} CollectedHas(filters: seq<string>, entries: seq<(string, int)>, x: int, k: nat)
    requires k < |filters| && NamedBy(x, filters[k], entries)
    ensures x in CollectedCodes(filters, entries)
    decreases |filters|
  {
    var n := |filters| - 1;
    var front := filters[..n];
    var last := filters[n];
    var head := CollectedCodes(front, entries);
    var tail := if |last| != 0 then NameMatches(entries, last) else [];
    assert CollectedCodes(filters, entries) == head + tail;
    if k < n {
      assert front[k] == filters[k];
      CollectedHas(front, entries, x, k);
    } else {
      NameMatchesMembers(entries, last, x);
      assert x in tail;
    }
  }

  /** A code is collected exactly when some non-empty filter names it. */
  lemma CollectedMembers(filters: seq<string>, entries: seq<(string, int)>, x: int)
    ensures x in CollectedCodes(filters, entries) <==> Named(x, filters, entries)
  {
    if x in CollectedCodes(filters, entries) {
      CollectedFrom(filters, entries, x);
    }
    if Named(x, filters, entries) {
      var k :| 0 <= k < |filters| && NamedBy(x, filters[k], entries);
      CollectedHas(filters, entries, x, k);
    }
  }

  /** Any-matching the collected codes is holding an event that some non-empty filter names. */
  lemma NamedQualifies(events: seq<int>, filters: seq<string>, entries: seq<(string, int)>)
    ensures Qualifies(events, CollectedCodes(filters, entries), false) <==> exists e | e in events :: Named(e, filters, entries)
  {
    var codes := CollectedCodes(filters, entries);
    if exists e | e in events :: Named(e, filters, entries) {
      var e :| e in events && Named(e, filters, entries);
      CollectedMembers(filters, entries, e);
      var k :| 0 <= k < |codes| && codes[k] == e;
    }
    if Qualifies(events, codes, false) {
      var k :| 0 <= k < |codes| && codes[k] in events;
      CollectedMembers(filters, entries, codes[k]);
    }
  }

  /** filter_by_event_name keeps the whole table when every filter is empty; otherwise it keeps,
      in table order, exactly the rows holding an event whose dictionary name contains a
      non-empty filter, case-insensitively on the name. */
  lemma NameFilterMeaning(rows: seq<SequenceRow>, filters: seq<string>, entries: seq<(string, int)>)
    ensures AllBlank(filters) ==> NameFilter(rows, filters, entries) == rows
    ensures !AllBlank(filters) ==> exists p ::
      Embeds(NameFilter(rows, filters, entries), rows, p)
      && forall i | 0 <= i < |rows| :: i in p <==> exists e | e in rows[i].events :: Named(e, filters, entries)
  {
    if !AllBlank(filters) {
      var codes := CollectedCodes(filters, entries);
      if codes == [] {
        forall i | 0 <= i < |rows| ensures !exists e | e in rows[i].events :: Named(e, filters, entries) {
          NamedQualifies(rows[i].events, filters, entries);
        }
        assert Embeds(NameFilter(rows, filters, entries), rows, []);
      } else {
        var p := PassingPositions(rows, codes, false);
        FilterByEventCodeMeaning(rows, codes, false);
        forall i | 0 <= i < |rows| ensures i in p <==> exists e | e in rows[i].events :: Named(e, filters, entries) {
          NamedQualifies(rows[i].events, filters, entries);
        }
        assert Embeds(NameFilter(rows, filters, entries), rows, p);
      }
    }
  }

  // ---------------------------------------------------------------- get_sequences_by_pattern_id

  /** Why get_sequences_by_pattern_id raises: an id no pattern has (get_pattern_by_id gives
      None), a rule attribute asked of an itemset or the other way round, or an item without a
      parent entry in code_to_event. */
  datatype LookupError = NoPattern(id: string) | NoAttribute | NoParent

  /** The three results: all sequence ids (a set, since its tuple order is that of a Python
      set), the ids of each pattern in the order asked, and the parent codes of the items. */
  datatype Selection = Selection(sequenceIds: set<int>, perPattern: seq<seq<int>>, items: set<int>)

  /** The object behind a pattern. */
  function Owner(p: Pattern): object {
    match p
    case RulePattern(r) => r
    case ItemSetPattern(s) => s
  }

  function Owners(all: seq<Pattern>): set<object> {
    set k | 0 <= k < |all| :: Owner(all[k])
  }

  function SeqIdsOf(p: Pattern): seq<int>
    reads Owner(p)
  {
    match p
    case RulePattern(r) => r.seqIds
    case ItemSetPattern(s) => s.seqIds
  }

  /** The position of the first pattern carrying `id`, or |all| when none does. */
  function IdPosition(all: seq<Pattern>, id: string): (k: nat)
    ensures k <= |all| && (k < |all| ==> all[k].Id() == id)
    ensures forall j | 0 <= j < k :: all[j].Id() != id
  {
    if all == [] then 0 else if all[0].Id() == id then 0 else 1 + IdPosition(all[1..], id)
  }

  /** The codes whose parents are collected: LHS then RHS of a rule (rule set), the items of an
      itemset (rule unset). */
  function PatternCodes(p: Pattern, rule: bool): Result<seq<int>, LookupError> {
    match p
    case RulePattern(r) => if rule then Ok(r.lhs + [r.rhs]) else Err(NoAttribute)
    case ItemSetPattern(s) => if rule then Err(NoAttribute) else Ok(s.items)
  }

  /** code_to_event[str(item)]['parent'] for every code, or NoParent. */
  function ParentSet(m: CodeToEvent, codes: seq<int>): Result<set<int>, LookupError> {
    if forall k | 0 <= k < |codes| :: HasParent(m, codes[k])
    then Ok(set k | 0 <= k < |codes| :: m[codes[k]].parent.value)
    else Err(NoParent)
  }

  function PatternParents(m: CodeToEvent, p: Pattern, rule: bool): Result<set<int>, LookupError> {
    match PatternCodes(p, rule)
    case Err(e) => Err(e)
    case Ok(codes) => ParentSet(m, codes)
  }

  /** One turn of the loop: look the id up, add its sequence ids, and with `detailed` the
      parents of its items. */
  function Step(prev: Result<Selection, LookupError>, all: seq<Pattern>, id: string, detailed: bool, rule: bool, m: CodeToEvent)
    : Result<Selection, LookupError>
    reads Owners(all)
  {
    match prev
    case Err(e) => Err(e)
    case Ok(sel) =>
      var k := IdPosition(all, id);
      if k == |all| then Err(NoPattern(id))
      else
        var p := all[k];
        var next := Selection(sel.sequenceIds + ToSet(SeqIdsOf(p)), sel.perPattern + [SeqIdsOf(p)], sel.items);
        if !detailed then Ok(next)
        else
          match PatternParents(m, p, rule)
          case Err(e) => Err(e)
          case Ok(ps) => Ok(next.(items := next.items + ps))
  }

  /** The results after the loop has handled `ids`. */
  function Select(all: seq<Pattern>, ids: seq<string>, detailed: bool, rule: bool, m: CodeToEvent): Result<Selection, LookupError>
    reads Owners(all)
  {
    if ids == [] then Ok(Selection({}, [], {}))
    else Step(Select(all, ids[..|ids| - 1], detailed, rule, m), all, ids[|ids| - 1], detailed, rule, m)
  }

  lemma SelectPrefix(all: seq<Pattern>, ids: seq<string>, i: nat, detailed: bool, rule: bool, m: CodeToEvent)
    requires i < |ids|
    ensures Select(all, ids[..i + 1], detailed, rule, m) == Step(Select(all, ids[..i], detailed, rule, m), all, ids[i], detailed, rule, m)
  {
    assert ids[..i + 1][..i] == ids[..i];
  }

  /** get_sequences_by_pattern_id. */
  method GetSequencesByPatternId(all: seq<Pattern>, ids: seq<string>, detailed: bool, rule: bool, m: CodeToEvent)
    returns (r: Result<Selection, LookupError>)
    ensures r == Select(all, ids, detailed, rule, m)
  {
    var sequenceIds: set<int> := {};
    var perPattern: seq<seq<int>> := [];
    var items: set<int> := {};
    for i := 0 to |ids|
      invariant Select(all, ids[..i], detailed, rule, m) == Ok(Selection(sequenceIds, perPattern, items))
    {
      ghost var prev := Ok(Selection(sequenceIds, perPattern, items));
      forall o | o in Owners(all) ensures allocated(o) {
      }
      var found := GetPatternById(all, ids[i]);
      SelectPrefix(all, ids, i, detailed, rule, m);
      if found.None? {
        assert IdPosition(all, ids[i]) == |all|;
        Abandon(all, ids, i, detailed, rule, m);
        return Err(NoPattern(ids[i]));
      }
      var pattern := found.value;
      assert pattern == all[IdPosition(all, ids[i])];
      sequenceIds := sequenceIds + ToSet(SeqIdsOf(pattern));
      perPattern := perPattern + [SeqIdsOf(pattern)];
      if detailed {
        var parents := PatternParents(m, pattern, rule);
        if parents.Err? {
          assert Step(prev, all, ids[i], detailed, rule, m) == Err(parents.error);
          Abandon(all, ids, i, detailed, rule, m);
          return Err(parents.error);
        }
        items := items + parents.value;
      }
      assert Step(prev, all, ids[i], detailed, rule, m) == Ok(Selection(sequenceIds, perPattern, items));
    }
    assert ids[..|ids|] == ids;
    r := Ok(Selection(sequenceIds, perPattern, items));
  }

  /** An error on the i-th id is the error of the whole call. */
  lemma {:induction false} Abandon(all: seq<Pattern>, ids: seq<string>, i: nat, detailed: bool, rule: bool, m: CodeToEvent)
    requires i < |ids| && Select(all, ids[..i + 1], detailed, rule, m).Err?
    ensures Select(all, ids, detailed, rule, m) == Select(all, ids[..i + 1], detailed, rule, m)
    decreases |ids| - i
  {
    if i + 1 < |ids| {
      var n := |ids| - 1;
      assert ids[..n][..i + 1] == ids[..i + 1];
      Abandon(all, ids[..n], i, detailed, rule, m);
      assert Select(all, ids, detailed, rule, m) == Step(Select(all, ids[..n], detailed, rule, m), all, ids[n], detailed, rule, m);
    } else {
      assert ids[..i + 1] == ids;
    }
  }

  /** Every id names a pattern and, with `detailed`, the parents of its items can be looked up. */
  predicate Resolvable(all: seq<Pattern>, ids: seq<string>, detailed: bool, rule: bool, m: CodeToEvent) {
    forall k | 0 <= k < |ids| ::
      IdPosition(all, ids[k]) < |all| && (detailed ==> PatternParents(m, all[IdPosition(all, ids[k])], rule).Ok?)
  }

  /** The pattern get_pattern_by_id finds for the k-th id. */
  function FoundAt(all: seq<Pattern>, ids: seq<string>, k: nat): Pattern
    requires k < |ids| && IdPosition(all, ids[k]) < |all|
  {
    all[IdPosition(all, ids[k])]
  }

  lemma ResolvablePrefix(all: seq<Pattern>, ids: seq<string>, n: nat, detailed: bool, rule: bool, m: CodeToEvent)
    requires n <= |ids| && Resolvable(all, ids, detailed, rule, m)
    ensures Resolvable(all, ids[..n], detailed, rule, m)
  {
    forall k | 0 <= k < n ensures ids[..n][k] == ids[k] {
    }
  }

  /** get_sequences_by_pattern_id returns exactly when every id names a pattern and, with
      `detailed`, every item of those patterns has a parent entry. */
  lemma {:induction false} SelectOk(all: seq<Pattern>, ids: seq<string>, detailed: bool, rule: bool, m: CodeToEvent)
    ensures Select(all, ids, detailed, rule, m).Ok? <==> Resolvable(all, ids, detailed, rule, m)
    decreases |ids|
  {
    if ids != [] {
      var n := |ids| - 1;
      var front := ids[..n];
      SelectOk(all, front, detailed, rule, m);
      if Resolvable(all, ids, detailed, rule, m) {
        ResolvablePrefix(all, ids, n, detailed, rule, m);
        assert IdPosition(all, ids[n]) < |all|;
      }
      if Select(all, ids, detailed, rule, m).Ok? {
        assert Select(all, front, detailed, rule, m).Ok?;
        forall k | 0 <= k < |ids|
          ensures IdPosition(all, ids[k]) < |all| && (detailed ==> PatternParents(m, all[IdPosition(all, ids[k])], rule).Ok?)
        {
          if k < n { assert front[k] == ids[k]; }
        }
      }
    }
  }

  /** The last id's turn, when everything resolves. */
  lemma SelectLast(all: seq<Pattern>, ids: seq<string>, detailed: bool, rule: bool, m: CodeToEvent)
    requires ids != [] && Resolvable(all, ids, detailed, rule, m)
    ensures Select(all, ids, detailed, rule, m).Ok? && Select(all, ids[..|ids| - 1], detailed, rule, m).Ok?
    ensures var prev := Select(all, ids[..|ids| - 1], detailed, rule, m).value;
      var sel := Select(all, ids, detailed, rule, m).value;
      var p := FoundAt(all, ids, |ids| - 1);
      sel.perPattern == prev.perPattern + [SeqIdsOf(p)]
      && sel.sequenceIds == prev.sequenceIds + ToSet(SeqIdsOf(p))
      && sel.items == prev.items + if detailed then PatternParents(m, p, rule).value else {}
  {
    var n := |ids| - 1;
    ResolvablePrefix(all, ids, n, detailed, rule, m);
    SelectOk(all, ids[..n], detailed, rule, m);
    SelectOk(all, ids, detailed, rule, m);
  }

  lemma FoundFront(all: seq<Pattern>, ids: seq<string>, n: nat, k: nat)
    requires k < n <= |ids| && IdPosition(all, ids[k]) < |all|
    ensures ids[..n][k] == ids[k] && FoundAt(all, ids[..n], k) == FoundAt(all, ids, k)
  {
  }

  /** When it returns, the second result holds one tuple per id asked, in that order: the
      seq_ids of the pattern found for it. */
  lemma {:induction false} SelectPerPattern(all: seq<Pattern>, ids: seq<string>, detailed: bool, rule: bool, m: CodeToEvent)
    requires Resolvable(all, ids, detailed, rule, m)
    ensures Select(all, ids, detailed, rule, m).Ok?
    ensures var sel := Select(all, ids, detailed, rule, m).value;
      |sel.perPattern| == |ids| && forall k | 0 <= k < |ids| :: sel.perPattern[k] == SeqIdsOf(FoundAt(all, ids, k))
    decreases |ids|
  {
    SelectOk(all, ids, detailed, rule, m);
    if ids != [] {
      var n := |ids| - 1;
      ResolvablePrefix(all, ids, n, detailed, rule, m);
      SelectPerPattern(all, ids[..n], detailed, rule, m);
      SelectLast(all, ids, detailed, rule, m);
      forall k | 0 <= k < n ensures FoundAt(all, ids[..n], k) == FoundAt(all, ids, k) {
        FoundFront(all, ids, n, k);
      }
    }
  }

  /** The pattern found for `id` lists sequence `x`. */
  predicate Lists(all: seq<Pattern>, id: string, x: int)
    reads Owners(all)
  {
    IdPosition(all, id) < |all| && x in SeqIdsOf(all[IdPosition(all, id)])
  }

  /** The seq_ids of the patterns found for `ids`, pooled. */
  function Pooled(all: seq<Pattern>, ids: seq<string>): set<int>
    reads Owners(all)
  {
    if ids == [] then {}
    else
      var k := IdPosition(all, ids[|ids| - 1]);
      Pooled(all, ids[..|ids| - 1]) + if k < |all| then ToSet(SeqIdsOf(all[k])) else {}
  }

  lemma {:induction false} SelectPooled(all: seq<Pattern>, ids: seq<string>, detailed: bool, rule: bool, m: CodeToEvent)
    requires Resolvable(all, ids, detailed, rule, m)
    ensures Select(all, ids, detailed, rule, m).Ok?
    ensures Select(all, ids, detailed, rule, m).value.sequenceIds == Pooled(all, ids)
    decreases |ids|
  {
    SelectOk(all, ids, detailed, rule, m);
    if ids != [] {
      var n := |ids| - 1;
      ResolvablePrefix(all, ids, n, detailed, rule, m);
      SelectPooled(all, ids[..n], detailed, rule, m);
      SelectLast(all, ids, detailed, rule, m);
    }
  }

  lemma PooledStep(all: seq<Pattern>, ids: seq<string>, x: int)
    requires ids != []
    ensures x in Pooled(all, ids) <==> x in Pooled(all, ids[..|ids| - 1]) || Lists(all, ids[|ids| - 1], x)
  {
  }

  lemma {:induction false} PooledMembers(all: seq<Pattern>, ids: seq<string>, x: int)
    ensures x in Pooled(all, ids) <==> exists k | 0 <= k < |ids| :: Lists(all, ids[k], x)
    decreases |ids|
  {
    if ids != [] {
      PooledMembers(all, ids[..|ids| - 1], x);
      PooledStep(all, ids, x);
      ListsSnoc(all, ids, ids[..|ids| - 1], x);
    }
  }

  lemma ListsSnoc(all: seq<Pattern>, ids: seq<string>, front: seq<string>, x: int)
    requires ids != [] && front == ids[..|ids| - 1]
    ensures (exists k | 0 <= k < |ids| :: Lists(all, ids[k], x)) <==>
      (exists k | 0 <= k < |ids| - 1 :: Lists(all, front[k], x)) || Lists(all, ids[|ids| - 1], x)
  {
    if exists k | 0 <= k < |ids| :: Lists(all, ids[k], x) {
      var k :| 0 <= k < |ids| && Lists(all, ids[k], x);
      ListedEarlier(all, ids, front, x, k);
    }
    if exists k | 0 <= k < |ids| - 1 :: Lists(all, front[k], x) {
      var k :| 0 <= k < |ids| - 1 && Lists(all, front[k], x);
      assert ids[k] == front[k];
    }
  }

  lemma ListedEarlier(all: seq<Pattern>, ids: seq<string>, front: seq<string>, x: int, k: nat)
    requires k < |ids| && front == ids[..|ids| - 1] && Lists(all, ids[k], x)
    ensures (exists j | 0 <= j < |ids| - 1 :: Lists(all, front[j], x)) || Lists(all, ids[|ids| - 1], x)
  {
    if k < |ids| - 1 {
      assert front[k] == ids[k];
    }
  }

  /** When it returns, the first result is the union of the found patterns' seq_ids. */
  lemma SelectUnion(all: seq<Pattern>, ids: seq<string>, detailed: bool, rule: bool, m: CodeToEvent, x: int)
    requires Resolvable(all, ids, detailed, rule, m)
    ensures Select(all, ids, detailed, rule, m).Ok?
    ensures x in Select(all, ids, detailed, rule, m).value.sequenceIds <==>
      exists k | 0 <= k < |ids| :: x in SeqIdsOf(FoundAt(all, ids, k))
  {
    SelectPooled(all, ids, detailed, rule, m);
    PooledMembers(all, ids, x);
    if exists k | 0 <= k < |ids| :: x in SeqIdsOf(FoundAt(all, ids, k)) {
      var k :| 0 <= k < |ids| && x in SeqIdsOf(FoundAt(all, ids, k));
      assert Lists(all, ids[k], x);
    }
    if exists k | 0 <= k < |ids| :: Lists(all, ids[k], x) {
      var k :| 0 <= k < |ids| && Lists(all, ids[k], x);
      assert x in SeqIdsOf(FoundAt(all, ids, k));
    }
  }

  /** `x` is the parent code of an item of `p`. */
  predicate ParentOf(m: CodeToEvent, p: Pattern, rule: bool, x: int) {
    PatternParents(m, p, rule).Ok? && x in PatternParents(m, p, rule).value
  }

  /** The parents of the items of the patterns found for `ids`, pooled. */
  function PooledParents(all: seq<Pattern>, ids: seq<string>, rule: bool, m: CodeToEvent): set<int> {
    if ids == [] then {}
    else
      var k := IdPosition(all, ids[|ids| - 1]);
      PooledParents(all, ids[..|ids| - 1], rule, m)
        + if k < |all| && PatternParents(m, all[k], rule).Ok? then PatternParents(m, all[k], rule).value else {}
  }

  lemma {:induction false} SelectParents(all: seq<Pattern>, ids: seq<string>, detailed: bool, rule: bool, m: CodeToEvent)
    requires Resolvable(all, ids, detailed, rule, m)
    ensures Select(all, ids, detailed, rule, m).Ok?
    ensures Select(all, ids, detailed, rule, m).value.items == if detailed then PooledParents(all, ids, rule, m) else {}
    decreases |ids|
  {
    SelectOk(all, ids, detailed, rule, m);
    if ids != [] {
      var n := |ids| - 1;
      ResolvablePrefix(all, ids, n, detailed, rule, m);
      SelectParents(all, ids[..n], detailed, rule, m);
      SelectLast(all, ids, detailed, rule, m);
    }
  }

  /** The pattern found for `id` has an item whose parent is `x`. */
  predicate Fathers(all: seq<Pattern>, id: string, rule: bool, m: CodeToEvent, x: int) {
    IdPosition(all, id) < |all| && ParentOf(m, all[IdPosition(all, id)], rule, x)
  }

  lemma PooledParentsStep(all: seq<Pattern>, ids: seq<string>, rule: bool, m: CodeToEvent, x: int)
    requires ids != []
    ensures x in PooledParents(all, ids, rule, m) <==>
      x in PooledParents(all, ids[..|ids| - 1], rule, m) || Fathers(all, ids[|ids| - 1], rule, m, x)
  {
  }

  lemma {:induction false} PooledParentsMembers(all: seq<Pattern>, ids: seq<string>, rule: bool, m: CodeToEvent, x: int)
    ensures x in PooledParents(all, ids, rule, m) <==> exists k | 0 <= k < |ids| :: Fathers(all, ids[k], rule, m, x)
    decreases |ids|
  {
    if ids != [] {
      PooledParentsMembers(all, ids[..|ids| - 1], rule, m, x);
      PooledParentsStep(all, ids, rule, m, x);
      FathersSnoc(all, ids, ids[..|ids| - 1], rule, m, x);
    }
  }

  lemma FathersSnoc(all: seq<Pattern>, ids: seq<string>, front: seq<string>, rule: bool, m: CodeToEvent, x: int)
    requires ids != [] && front == ids[..|ids| - 1]
    ensures (exists k | 0 <= k < |ids| :: Fathers(all, ids[k], rule, m, x)) <==>
      (exists k | 0 <= k < |ids| - 1 :: Fathers(all, front[k], rule, m, x)) || Fathers(all, ids[|ids| - 1], rule, m, x)
  {
    var n := |ids| - 1;
    if exists k | 0 <= k < |ids| :: Fathers(all, ids[k], rule, m, x) {
      var k :| 0 <= k < |ids| && Fathers(all, ids[k], rule, m, x);
      if k < n {
        assert front[k] == ids[k];
      }
    }
    if exists k | 0 <= k < n :: Fathers(all, front[k], rule, m, x) {
      var k :| 0 <= k < n && Fathers(all, front[k], rule, m, x);
      assert ids[k] == front[k];
    }
  }

  /** When it returns, the third result is empty without `detailed` and otherwise the union of
      the parents of the found patterns' items. */
  lemma SelectItems(all: seq<Pattern>, ids: seq<string>, detailed: bool, rule: bool, m: CodeToEvent, x: int)
    requires Resolvable(all, ids, detailed, rule, m)
    ensures Select(all, ids, detailed, rule, m).Ok?
    ensures !detailed ==> Select(all, ids, detailed, rule, m).value.items == {}
    ensures detailed ==> (x in Select(all, ids, detailed, rule, m).value.items <==>
      exists k | 0 <= k < |ids| :: ParentOf(m, FoundAt(all, ids, k), rule, x))
  {
    SelectParents(all, ids, detailed, rule, m);
    PooledParentsMembers(all, ids, rule, m, x);
    if exists k | 0 <= k < |ids| :: ParentOf(m, FoundAt(all, ids, k), rule, x) {
      var k :| 0 <= k < |ids| && ParentOf(m, FoundAt(all, ids, k), rule, x);
      assert Fathers(all, ids[k], rule, m, x);
    }
    if exists k | 0 <= k < |ids| :: Fathers(all, ids[k], rule, m, x) {
      var k :| 0 <= k < |ids| && Fathers(all, ids[k], rule, m, x);
      assert ParentOf(m, FoundAt(all, ids, k), rule, x);
    }
  }

  // ---------------------------------------------------------------- get_sequential_rules

  /** More parsed rules than this are not post-processed unless allow_too_many is set. */
  const RuleCap := 2000

  /** What get_sequential_rules gives back once the sequences are selected and the mining output
      is parsed: ([], []) when the filter left no sequence, (None, None) over the cap, the
      post-processed rules, or the ZeroDivisionError of get_sequences_per_rule on an empty table. */
  datatype RulesOutcome = NoSequences | TooMany | Processed(rules: seq<Rule>) | DivisionByZero

  /** The rules that reach get_sequences_per_rule. */
  function Survivors(parsed: seq<Rule>, removeRedundant: bool): seq<Rule> {
    if removeRedundant then Unmarked(parsed, RedundantIds(parsed, parsed)) else parsed
  }

  lemma SurvivorsFromParsed(parsed: seq<Rule>, removeRedundant: bool)
    ensures forall r | r in Survivors(parsed, removeRedundant) :: r in parsed
  {
    forall r | r in Survivors(parsed, removeRedundant) ensures r in parsed {
      if removeRedundant {
        UnmarkedMembers(parsed, RedundantIds(parsed, parsed), r);
      }
    }
  }

  /** The mined branch of get_sequential_rules (any data set but the airport one, whose rules are
      unpickled): `rows` is the table after the optional filter, `parsed` the rules parse_rules
      read from the tool's output. */
  method SequentialRules(rows: seq<SequenceRow>, filtered: bool, parsed: seq<Rule>, allowTooMany: bool, removeRedundant: bool)
    returns (out: RulesOutcome)
    modifies set r | r in parsed
    ensures out == NoSequences <==> filtered && rows == []
    ensures out == TooMany <==> !(filtered && rows == []) && |parsed| > RuleCap && !allowTooMany
    ensures out.NoSequences? || out.TooMany? ==>
      forall r | r in parsed :: r.seqIds == old(r.seqIds) && r.supportPercentage == old(r.supportPercentage)
    ensures out.DivisionByZero? <==>
      !(filtered && rows == []) && !(|parsed| > RuleCap && !allowTooMany) && rows == [] && Survivors(parsed, removeRedundant) != []
    ensures out.Processed? ==> out.rules == Survivors(parsed, removeRedundant)
    ensures out.Processed? ==> forall r | r in parsed && r in out.rules ::
      r.seqIds == old(r.seqIds) && r.supportPercentage == Share(r.support, |rows|)
    ensures out.Processed? ==> forall r | r in parsed && r !in out.rules ::
      r.seqIds == old(r.seqIds) && r.supportPercentage == old(r.supportPercentage)
  {
    if filtered && |rows| == 0 {
      return NoSequences;
    }
    if |parsed| > RuleCap && !allowTooMany {
      return TooMany;
    }
    var rules := parsed;
    if removeRedundant {
      rules := RemoveRedundantRules(parsed);
    }
    SurvivorsFromParsed(parsed, removeRedundant);
    var ok := GetSequencesPerRule(rules, rows, false);
    if !ok {
      return DivisionByZero;
    }
    return Processed(rules);
  }

  // ---------------------------------------------------------------- matrix headers

  /** The columns of `cols` that are not in `drop`, in their order. */
  function Without(cols: seq<string>, drop: seq<string>): (r: seq<string>)
    ensures |r| <= |cols|
  {
    if cols == [] then []
    else
      var c := cols[|cols| - 1];
      Without(cols[..|cols| - 1], drop) + if c in drop then [] else [c]
  }

  /** A column survives exactly when it is not dropped. */
  lemma {:induction false} WithoutMembers(cols: seq<string>, drop: seq<string>, c: string)
    ensures c in Without(cols, drop) <==> c in cols && c !in drop
    decreases |cols|
  {
    if cols != [] {
      var init := cols[..|cols| - 1];
      WithoutMembers(init, drop, c);
      assert cols == init + [cols[|cols| - 1]];
    }
  }

  /** Dropping distributes over concatenation, so the surviving columns keep their order. */
  lemma {:induction false} WithoutConcat(a: seq<string>, b: seq<string>, drop: seq<string>)
    ensures Without(a + b, drop) == Without(a, drop) + Without(b, drop)
    decreases |b|
  {
    if b == [] {
      assert a + b == a;
    } else {
      var init := b[..|b| - 1];
      WithoutConcat(a, init, drop);
      assert (a + b)[..|a + b| - 1] == a + init;
      Assoc(Without(a, drop), Without(init, drop), if b[|b| - 1] in drop then [] else [b[|b| - 1]]);
    }
  }

  /** Nothing is lost when no column is dropped. */
  lemma {:induction false} WithoutNone(cols: seq<string>, drop: seq<string>)
    requires forall k | 0 <= k < |cols| :: cols[k] !in drop
    ensures Without(cols, drop) == cols
    decreases |cols|
  {
    if cols != [] {
      WithoutNone(cols[..|cols| - 1], drop);
      assert cols == cols[..|cols| - 1] + [cols[|cols| - 1]];
    }
  }

  /** The columns a rule matrix has with id_as_column: its header, then rid. */
  function RuleColumns(mat: RuleMatrix): seq<string> {
    mat.header + ["rid"]
  }

  /** The front end does not show these rule matrix columns. */
  const HiddenRuleColumns: seq<string> := ["rid", "level", "group"]

  /** The header of a rule matrix as the front end gets it. */
  function RuleViewHeader(mat: RuleMatrix): seq<string> {
    Without(RuleColumns(mat), HiddenRuleColumns)
  }

  lemma ExtraShown()
    ensures Without(ExtraColumns + ["rid"], HiddenRuleColumns) == ["support", "confidence"]
  {
    assert ExtraColumns + ["rid"] == ["group", "level", "support", "confidence", "rid"];
    var cols := ["group", "level", "support", "confidence", "rid"];
    assert cols[..4] == ["group", "level", "support", "confidence"];
    assert cols[..4][..3] == ["group", "level", "support"];
    assert cols[..4][..3][..2] == ["group", "level"];
    assert cols[..4][..3][..2][..1] == ["group"];
    assert Without(["group"], HiddenRuleColumns) == [] by {
      assert ["group"][..0] == [];
    }
  }

  /** For a matrix create_matrices built, the header shown is the event names of its columns
      followed by support and confidence, as long as no event is called rid, level or group. */
  lemma RuleViewHeaderShape(m: CodeToEvent, mat: RuleMatrix)
    requires forall j | 0 <= j < |mat.columns| :: mat.columns[j] in m
    requires mat.header == ColumnNames(m, mat.columns) + ExtraColumns
    requires forall j | 0 <= j < |mat.columns| :: m[mat.columns[j]].event !in HiddenRuleColumns
    ensures RuleViewHeader(mat) == ColumnNames(m, mat.columns) + ["support", "confidence"]
  {
    var names := ColumnNames(m, mat.columns);
    Assoc(names, ExtraColumns, ["rid"]);
    WithoutConcat(names, ExtraColumns + ["rid"], HiddenRuleColumns);
    WithoutNone(names, HiddenRuleColumns);
    ExtraShown();
  }

  /** The header loop of get_rules_graph_matrix_views. */
  method RuleViewHeaders(mats: seq<RuleMatrix>) returns (headers: seq<seq<string>>)
    ensures |headers| == |mats| && forall i | 0 <= i < |mats| :: headers[i] == RuleViewHeader(mats[i])
  {
    headers := seq(|mats|, i requires 0 <= i < |mats| => RuleColumns(mats[i]));
    for i := 0 to |headers|
      invariant |headers| == |mats|
      invariant forall j | 0 <= j < i :: headers[j] == RuleViewHeader(mats[j])
      invariant forall j | i <= j < |mats| :: headers[j] == RuleColumns(mats[j])
    {
      headers := headers[i := Without(headers[i], HiddenRuleColumns)];
    }
  }

  /** The front end does not show these itemset matrix columns, and adds support back last. */
  const HiddenItemSetColumns: seq<string> := ["rid", "level", "group", "support"]

  /** The header get_fis_matrix_views sends for an itemset matrix with columns `cols`. */
  function ItemSetViewHeader(cols: seq<string>): (h: seq<string>)
    ensures h != [] && h[|h| - 1] == "support"
  {
    Without(cols, HiddenItemSetColumns) + ["support"]
  }

  /** support is the last column and appears nowhere else; the other columns are those of the
      matrix that are not hidden. */
  lemma ItemSetViewHeaderMeaning(cols: seq<string>, c: string)
    ensures Occurrences(ItemSetViewHeader(cols), "support") == 1
    ensures c in ItemSetViewHeader(cols) <==> c == "support" || (c in cols && c !in HiddenItemSetColumns)
  {
    var kept := Without(cols, HiddenItemSetColumns);
    WithoutMembers(cols, HiddenItemSetColumns, c);
    WithoutMembers(cols, HiddenItemSetColumns, "support");
    OccurrencesAppend(kept, "support", "support");
  }

  // ---------------------------------------------------------------- group rows

  /** A row of a rule matrix as sent to the front end: a rule row, or the level-0 row added for a
      group, whose other columns are all "". */
  datatype ViewRow = RuleLine(row: RuleRow) | GroupLine(group: nat)

  /** The group column of the rows. */
  function GroupColumn(rows: seq<RuleRow>): (gs: seq<nat>)
    ensures |gs| == |rows| && forall i | 0 <= i < |rows| :: gs[i] == rows[i].group
  {
    seq(|rows|, i requires 0 <= i < |rows| => rows[i].group)
  }

  function RuleLines(rows: seq<RuleRow>): (v: seq<ViewRow>)
    ensures |v| == |rows| && forall i | 0 <= i < |rows| :: v[i] == RuleLine(rows[i])
  {
    seq(|rows|, i requires 0 <= i < |rows| => RuleLine(rows[i]))
  }

  function GroupLines(gs: seq<nat>): (v: seq<ViewRow>)
    ensures |v| == |gs| && forall i | 0 <= i < |gs| :: v[i] == GroupLine(gs[i])
  {
    seq(|gs|, i requires 0 <= i < |gs| => GroupLine(gs[i]))
  }

  /** One matrix of the group-row loop: the rule rows, then a row per distinct group value in
      order of first appearance (Series.unique). */
  method AddGroupRows(rows: seq<RuleRow>) returns (out: seq<ViewRow>)
    ensures out == RuleLines(rows) + GroupLines(Dedup(GroupColumn(rows)))
  {
    var unique := Dedup(GroupColumn(rows));
    var groupRows: seq<ViewRow> := [];
    for k := 0 to |unique|
      invariant groupRows == GroupLines(unique[..k])
    {
      groupRows := groupRows + [GroupLine(unique[k])];
    }
    assert unique[..|unique|] == unique;
    out := RuleLines(rows) + groupRows;
  }

  /** The group-row loop over all matrices. */
  method AddAllGroupRows(mats: seq<RuleMatrix>) returns (views: seq<seq<ViewRow>>)
    ensures |views| == |mats|
    ensures forall i | 0 <= i < |mats| :: views[i] == RuleLines(mats[i].rows) + GroupLines(Dedup(GroupColumn(mats[i].rows)))
  {
    views := [];
    for i := 0 to |mats|
      invariant |views| == i
      invariant forall j | 0 <= j < i :: views[j] == RuleLines(mats[j].rows) + GroupLines(Dedup(GroupColumn(mats[j].rows)))
    {
      var v := AddGroupRows(mats[i].rows);
      views := views + [v];
    }
  }

  lemma {:induction false} OccurrencesConcat<T>(a: seq<T>, b: seq<T>, x: T)
    ensures Occurrences(a + b, x) == Occurrences(a, x) + Occurrences(b, x)
    decreases |b|
  {
    if b == [] {
      assert a + b == a;
    } else {
      var init := b[..|b| - 1];
      OccurrencesConcat(a, init, x);
      assert a + b == (a + init) + [b[|b| - 1]];
      assert b == init + [b[|b| - 1]];
      OccurrencesAppend(a + init, b[|b| - 1], x);
      OccurrencesAppend(init, b[|b| - 1], x);
    }
  }

  lemma {:induction false} GroupLinesCount(gs: seq<nat>, g: nat)
    ensures Occurrences(GroupLines(gs), GroupLine(g)) == Occurrences(gs, g)
    decreases |gs|
  {
    if gs != [] {
      var init := gs[..|gs| - 1];
      GroupLinesCount(init, g);
      assert GroupLines(gs) == GroupLines(init) + [GroupLine(gs[|gs| - 1])];
      assert gs == init + [gs[|gs| - 1]];
      OccurrencesAppend(GroupLines(init), GroupLine(gs[|gs| - 1]), GroupLine(g));
      OccurrencesAppend(init, gs[|gs| - 1], g);
    }
  }

  /** Each group value of the matrix gets exactly one level-0 row, and no other value gets one. */
  lemma GroupRowsOnePerGroup(rows: seq<RuleRow>, g: nat)
    ensures Occurrences(RuleLines(rows) + GroupLines(Dedup(GroupColumn(rows))), GroupLine(g))
      == if exists i | 0 <= i < |rows| :: rows[i].group == g then 1 else 0
  {
    var gs := GroupColumn(rows);
    var d := Dedup(gs);
    OccurrencesConcat(RuleLines(rows), GroupLines(d), GroupLine(g));
    assert GroupLine(g) !in RuleLines(rows);
    GroupLinesCount(d, g);
    if exists i | 0 <= i < |rows| :: rows[i].group == g {
      var i :| 0 <= i < |rows| && rows[i].group == g;
      assert gs[i] == g;
      assert g in ToSet(gs);
      OccurrencesDistinct(d, g);
    } else {
      assert g !in ToSet(gs);
      assert g !in d;
    }
  }

  /** The rule rows come first, unchanged, and the level-0 rows follow them in the order in
      which their groups first appear. */
  lemma GroupRowsOrder(rows: seq<RuleRow>)
    ensures (RuleLines(rows) + GroupLines(Dedup(GroupColumn(rows))))[..|rows|] == RuleLines(rows)
    ensures var out := RuleLines(rows) + GroupLines(Dedup(GroupColumn(rows)));
      forall i, j | |rows| <= i < j < |out| ::
        out[i].GroupLine? && FirstIndex(GroupColumn(rows), out[i].group) < FirstIndex(GroupColumn(rows), out[j].group)
  {
    var gs := GroupColumn(rows);
    var d := Dedup(gs);
    var out := RuleLines(rows) + GroupLines(d);
    DedupOrder(gs);
    forall i, j | |rows| <= i < j < |out|
      ensures out[i].GroupLine? && FirstIndex(gs, out[i].group) < FirstIndex(gs, out[j].group)
    {
      assert out[i] == GroupLine(d[i - |rows|]) && out[j] == GroupLine(d[j - |rows|]);
    }
  }
}
