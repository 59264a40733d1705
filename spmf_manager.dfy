/** The input side of the SPMF mining tool: one record (a sequence of events, or a transaction)
    becomes one line of SPMF's text format, records are written one line each, and the tool's
    argument list is assembled from the mining thresholds. */
module SpmfManager {
  import opened Wrappers
  import opened Seqs
  import opened Text

  /** One element of a record: a single event code, or a tuple of simultaneous events. */
  datatype Element = Single(code: int) | Tuple(events: seq<int>)
  {
    /** The events of the element, in order. */
    function Events(): seq<int> {
      if Single? then [code] else events
    }
  }

  type Record = seq<Element>

  // ---------------------------------------------------------------------------------------------
  // The line format

  /** Each token followed by one space. */
  function Spaced(ts: seq<string>): string {
    if ts == [] then "" else Spaced(ts[..|ts| - 1]) + ts[|ts| - 1] + " "
  }

  /** In sequence mode an element is written as its events, then the "-1" that closes an itemset. */
  function ElementTokens(e: Element): seq<string> {
    Decimals(e.Events()) + ["-1"]
  }

  /** The tokens of a sequence-mode record, before the closing "-2". */
  function Tokens(record: Record): seq<string> {
    if record == [] then [] else Tokens(record[..|record| - 1]) + ElementTokens(record[|record| - 1])
  }

  /** Every event of the record, element after element. */
  function AllEvents(record: Record): seq<int> {
    if record == [] then [] else AllEvents(record[..|record| - 1]) + record[|record| - 1].Events()
  }

  /** The events of each element, in record order. */
  function Groups(record: Record): (gs: seq<seq<int>>)
    ensures |gs| == |record| && forall k | 0 <= k < |record| :: gs[k] == record[k].Events()
  {
    seq(|record|, k requires 0 <= k < |record| => record[k].Events())
  }

  predicate Increasing(r: seq<int>) {
    forall i, j | 0 <= i < j < |r| :: r[i] < r[j]
  }

  /** The least element of a non-empty set of codes. */
  ghost function Least(s: set<int>): (x: int)
    requires s != {}
    ensures x in s && forall y | y in s :: x <= y
    decreases |s|
  {
    Inhabited(s);
    var y :| y in s;
    if s == {y} then y
    else
      var z := Least(s - {y});
      assert forall w | w in s :: w == y || w in s - {y};
      if y <= z then y else z
  }

  lemma Inhabited(s: set<int>)
    requires s != {}
    ensures exists y :: y in s
  {
    var y := Pick(s);
  }

  /** The elements of `s` in ascending order (list(s) sorted). */
  ghost function Ascending(s: set<int>): seq<int>
    decreases |s|
  {
    if s == {} then [] else [Least(s)] + Ascending(s - {Least(s)})
  }

  lemma ConsIncreasing(x: int, rest: seq<int>)
    requires Increasing(rest) && forall k | 0 <= k < |rest| :: x < rest[k]
    ensures Increasing([x] + rest)
  {
    var r := [x] + rest;
    forall i, j | 0 <= i < j < |r| ensures r[i] < r[j] {
      assert r[j] == rest[j - 1];
      if i > 0 { assert r[i] == rest[i - 1]; }
    }
  }

  lemma ToSetCons(x: int, rest: seq<int>)
    ensures ToSet([x] + rest) == {x} + ToSet(rest)
  {
    var r := [x] + rest;
    forall y | y in ToSet(r) ensures y == x || y in ToSet(rest) {
      var k :| 0 <= k < |r| && r[k] == y;
      if k > 0 { assert rest[k - 1] == y; }
    }
    forall y | y in ToSet(rest) ensures y in ToSet(r) {
      var k :| 0 <= k < |rest| && rest[k] == y;
      assert r[k + 1] == y;
    }
  }

  /** Ascending lists the set, each element once, in increasing order. */
  lemma {:induction false} AscendingSorted(s: set<int>)
    ensures ToSet(Ascending(s)) == s && Increasing(Ascending(s))
    decreases |s|
  {
    if s != {} {
      var x := Least(s);
      var rest := Ascending(s - {x});
      AscendingSorted(s - {x});
      assert Ascending(s) == [x] + rest;
      ToSetCons(x, rest);
      forall k | 0 <= k < |rest| ensures x < rest[k] {
        var y := rest[k];
        assert y in ToSet(rest);
        assert y in s && y != x;
        assert x <= y;
      }
      ConsIncreasing(x, rest);
    }
  }

  /** The line without its newline: in itemset mode the distinct events in ascending order, each
      followed by a space; in sequence mode the tokens of the elements followed by "-2"; and "-2"
      alone for an itemset-mode record without events. */
  ghost function LineBody(record: Record, itemset: bool): string {
    var items := ToSet(AllEvents(record));
    if itemset && items != {} then Spaced(Decimals(Ascending(items)))
    else (if itemset then "" else Spaced(Tokens(record))) + "-2"
  }

  /** generate_input_line_from_list's result. */
  ghost function InputLine(record: Record, itemset: bool): string {
    LineBody(record, itemset) + "\n"
  }

  // ---------------------------------------------------------------------------------------------
  // generate_input_line_from_list

  lemma SpacedSnoc(ts: seq<string>, t: string)
    ensures Spaced(ts + [t]) == Spaced(ts) + t + " "
  {
    assert (ts + [t])[..|ts|] == ts;
  }

  lemma SpacedPrefix(ts: seq<string>, k: nat)
    requires k < |ts|
    ensures Spaced(ts[..k + 1]) == Spaced(ts[..k]) + ts[k] + " "
  {
    assert ts[..k + 1][..k] == ts[..k];
  }

  lemma {:induction false} SpacedConcat(a: seq<string>, b: seq<string>)
    ensures Spaced(a + b) == Spaced(a) + Spaced(b)
    decreases |b|
  {
    if b == [] {
      assert a + b == a;
    } else {
      var n := |b| - 1;
      SpacedConcat(a, b[..n]);
      assert a + b == (a + b[..n]) + [b[n]];
      SpacedSnoc(a + b[..n], b[n]);
      Assoc4(Spaced(a), Spaced(b[..n]), b[n], " ");
    }
  }

  lemma Assoc4<T>(x: seq<T>, y: seq<T>, t: seq<T>, u: seq<T>)
    ensures x + y + t + u == x + (y + t + u)
  {
    Assoc(x, y, t);
    Assoc(x, y + t, u);
  }

  /** The inner loop of sequence mode: the events of a tuple, each followed by a space. */
  method WriteEvents(events: seq<int>) returns (text: string)
    ensures text == Spaced(Decimals(events))
  {
    text := "";
    ghost var ts := Decimals(events);
    for k := 0 to |events|
      invariant text == Spaced(ts[..k])
    {
      SpacedPrefix(ts, k);
      text := text + IntToString(events[k]) + " ";
    }
    assert ts[..|events|] == ts;
  }

  /** The inner loop of itemset mode: the events of a tuple added to the item set. */
  method AddEvents(itemSet: set<int>, events: seq<int>) returns (s: set<int>)
    ensures s == itemSet + ToSet(events)
  {
    s := itemSet;
    for k := 0 to |events|
      invariant s == itemSet + ToSet(events[..k])
    {
      ToSetPrefix(events, k);
      s := s + {events[k]};
    }
    assert events[..|events|] == events;
  }

  lemma ToSetPrefix(s: seq<int>, k: nat)
    requires k < |s|
    ensures ToSet(s[..k + 1]) == ToSet(s[..k]) + {s[k]}
  {
    assert s[..k + 1] == s[..k] + [s[k]];
  }

  lemma ToSetConcat(a: seq<int>, b: seq<int>)
    ensures ToSet(a + b) == ToSet(a) + ToSet(b)
  {
  }

  /** The sorted item set written out: each item in ascending order, followed by a space. */
  method WriteAscending(itemSet: set<int>) returns (text: string)
    ensures text == Spaced(Decimals(Ascending(itemSet)))
  {
    text := "";
    var rest := itemSet;
    ghost var all := Ascending(itemSet);
    ghost var ts := Decimals(all);
    ghost var k := 0;
    while rest != {}
      invariant k <= |all| && all[k..] == Ascending(rest)
      invariant text == Spaced(ts[..k])
      decreases |rest|
    {
      var x :| x in rest && forall y | y in rest :: x <= y;
      AscendingStep(all, k, rest, x);
      SpacedPrefix(ts, k);
      text := text + IntToString(x) + " ";
      rest := rest - {x};
      k := k + 1;
    }
    assert ts[..k] == ts;
  }

  /** Taking the least item off the set walks one step along its ascending listing. */
  lemma AscendingStep(all: seq<int>, k: nat, rest: set<int>, x: int)
    requires k <= |all| && all[k..] == Ascending(rest)
    requires x in rest && forall y | y in rest :: x <= y
    ensures k < |all| && all[k] == x && all[k + 1..] == Ascending(rest - {x})
  {
    assert x == Least(rest);
    assert all[k..] == [x] + Ascending(rest - {x});
    assert all[k + 1..] == all[k..][1..];
  }

  lemma TokensPrefix(record: Record, i: nat)
    requires i < |record|
    ensures Tokens(record[..i + 1]) == Tokens(record[..i]) + ElementTokens(record[i])
    ensures AllEvents(record[..i + 1]) == AllEvents(record[..i]) + record[i].Events()
  {
    assert record[..i + 1][..i] == record[..i];
  }

  lemma ItemsetStep(record: Record, i: nat)
    requires i < |record|
    ensures ToSet(AllEvents(record[..i + 1])) == ToSet(AllEvents(record[..i])) + ToSet(record[i].Events())
  {
    TokensPrefix(record, i);
    ToSetConcat(AllEvents(record[..i]), record[i].Events());
  }

  lemma SequenceStep(record: Record, i: nat, text: string)
    requires i < |record| && text == Spaced(Decimals(record[i].Events()))
    ensures Spaced(Tokens(record[..i + 1])) == Spaced(Tokens(record[..i])) + text + "-1 "
  {
    TokensPrefix(record, i);
    SpacedSnoc(Decimals(record[i].Events()), "-1");
    SpacedConcat(Tokens(record[..i]), ElementTokens(record[i]));
    Regroup(Spaced(Tokens(record[..i])), text);
  }

  lemma Regroup(a: string, t: string)
    ensures a + (t + "-1" + " ") == a + t + "-1 "
  {
  }

  /** generate_input_line_from_list: the record as one line of SPMF input. */
  method GenerateInputLine(record: Record, itemset: bool) returns (line: string)
    ensures line == InputLine(record, itemset)
  {
    var itemSet: set<int> := {};
    line := "";
    for i := 0 to |record|
      invariant itemset ==> line == "" && itemSet == ToSet(AllEvents(record[..i]))
      invariant !itemset ==> itemSet == {} && line == Spaced(Tokens(record[..i]))
    {
      var element := record[i];
      if itemset {
        itemSet := AddEvents(itemSet, element.Events());
        ItemsetStep(record, i);
      } else {
        var text := WriteEvents(element.Events());
        SequenceStep(record, i, text);
        line := line + text + "-1 ";
      }
    }
    assert record[..|record|] == record;
    LineBodyCases(record, itemset);
    if itemSet != {} {
      var text := WriteAscending(itemSet);
      line := line + text;
    } else {
      line := line + "-2";
    }
    assert line == LineBody(record, itemset);
    line := line + "\n";
  }

  lemma LineBodyCases(record: Record, itemset: bool)
    ensures itemset && ToSet(AllEvents(record)) != {} ==> LineBody(record, itemset) == "" + Spaced(Decimals(Ascending(ToSet(AllEvents(record)))))
    ensures itemset && ToSet(AllEvents(record)) == {} ==> LineBody(record, itemset) == "" + "-2"
    ensures !itemset ==> LineBody(record, itemset) == Spaced(Tokens(record)) + "-2"
  {
    assert "" + Spaced(Decimals(Ascending(ToSet(AllEvents(record))))) == Spaced(Decimals(Ascending(ToSet(AllEvents(record)))));
    assert "" + "-2" == "-2";
  }

  // ---------------------------------------------------------------------------------------------
  // What a line means

  /** Reads numerals back. */
  function ParseAll(ts: seq<string>): Option<seq<int>> {
    if ts == [] then Some([])
    else
      match (ParseInt(ts[0]), ParseAll(ts[1..]))
      case (Some(x), Some(xs)) => Some([x] + xs)
      case _ => None
  }

  /** Reads a sequence-mode line's tokens back: groups of numerals, each closed by "-1", and "-2"
      closing the sequence. */
  function DecodeTokens(ts: seq<string>): Option<seq<seq<int>>>
    decreases |ts|
  {
    if ts == ["-2"] then Some([])
    else
      var k := FirstIndex(ts, "-1");
      if k == |ts| then None
      else
        match (ParseAll(ts[..k]), DecodeTokens(ts[k + 1..]))
        case (Some(g), Some(gs)) => Some([g] + gs)
        case _ => None
  }

  /** The codes of a record are non-negative, as every code the event dictionaries hand out is. */
  predicate Coded(record: Record) {
    forall k, j | 0 <= k < |record| && 0 <= j < |record[k].Events()| :: record[k].Events()[j] >= 0
  }

  lemma {:induction false} ParseAllDecimals(xs: seq<int>)
    ensures ParseAll(Decimals(xs)) == Some(xs)
    decreases |xs|
  {
    if xs != [] {
      ParseNumeral(xs[0]);
      ParseAllDecimals(xs[1..]);
      ParseAllCons(IntToString(xs[0]), Decimals(xs[1..]), xs[0], xs[1..]);
      assert [xs[0]] + xs[1..] == xs;
    }
  }

  lemma ParseAllCons(d: string, ds: seq<string>, x: int, xs: seq<int>)
    requires ParseInt(d) == Some(x) && ParseAll(ds) == Some(xs)
    ensures ParseAll([d] + ds) == Some([x] + xs)
  {
    assert ([d] + ds)[1..] == ds;
  }

  /** A numeral of a non-negative code is neither end marker. */
  lemma NoMarker(xs: seq<int>)
    requires forall j | 0 <= j < |xs| :: xs[j] >= 0
    ensures "-1" !in Decimals(xs) && "-2" !in Decimals(xs)
  {
    forall j | 0 <= j < |xs| ensures Decimals(xs)[j] != "-1" && Decimals(xs)[j] != "-2" {
      assert IsDigit(Decimals(xs)[j][0]);
    }
  }

  lemma {:induction false} TokensCons(record: Record)
    requires record != []
    ensures Tokens(record) == ElementTokens(record[0]) + Tokens(record[1..])
    decreases |record|
  {
    if |record| > 1 {
      var n := |record| - 1;
      var init, rest := record[..n], record[1..];
      TokensCons(init);
      assert init[1..] == rest[..n - 1];
      assert init[0] == record[0];
      assert rest[n - 1] == record[n];
      var a, b, c := ElementTokens(record[0]), Tokens(rest[..n - 1]), ElementTokens(record[n]);
      TokensUnfold(record, init);
      TokensUnfold(rest, rest[..n - 1]);
      Assoc(a, b, c);
    } else {
      assert record[..0] == [];
    }
  }

  lemma TokensUnfold(record: Record, init: Record)
    requires record != [] && init == record[..|record| - 1]
    ensures Tokens(record) == Tokens(init) + ElementTokens(record[|record| - 1])
  {
  }

  lemma GroupsCons(record: Record)
    requires record != []
    ensures Groups(record) == [record[0].Events()] + Groups(record[1..])
  {
    var gs, hs := Groups(record), [record[0].Events()] + Groups(record[1..]);
    forall k | 0 <= k < |gs| ensures gs[k] == hs[k] {
      if k > 0 { assert hs[k] == Groups(record[1..])[k - 1]; }
    }
  }

  /** One element's numerals followed by "-1" decode as that element in front of the rest. */
  lemma DecodeCons(xs: seq<int>, tail: seq<string>, gs: seq<seq<int>>)
    requires forall j | 0 <= j < |xs| :: xs[j] >= 0
    requires DecodeTokens(tail) == Some(gs)
    ensures DecodeTokens(Decimals(xs) + (["-1"] + tail)) == Some([xs] + gs)
  {
    var evs := Decimals(xs);
    NoMarker(xs);
    MarkerSplit(evs, tail, evs + (["-1"] + tail));
    ParseAllDecimals(xs);
  }

  /** The first "-1" after marker-free tokens is the one that follows them. */
  lemma MarkerSplit(evs: seq<string>, tail: seq<string>, ts: seq<string>)
    requires "-1" !in evs && "-2" !in evs && ts == evs + (["-1"] + tail)
    ensures FirstIndex(ts, "-1") == |evs| && ts != ["-2"]
    ensures ts[..|evs|] == evs && ts[|evs| + 1..] == tail
  {
    FirstIndexPrefix(evs, ["-1"] + tail, "-1");
    if evs == [] { assert ts[0] == "-1"; } else { assert ts[0] == evs[0]; }
    assert ts[..|evs|] == evs;
    assert ts[|evs| + 1..] == tail;
  }

  /** Decoding the tokens of a sequence-mode record recovers the events of each element, in
      order: "-1" closes an element and "-2" the sequence. */
  lemma {:induction false} DecodeTokensOf(record: Record)
    requires Coded(record)
    ensures DecodeTokens(Tokens(record) + ["-2"]) == Some(Groups(record))
    decreases |record|
  {
    if record == [] {
      assert Tokens(record) + ["-2"] == ["-2"];
    } else {
      var e := record[0];
      var rest := record[1..];
      var evs := Decimals(e.Events());
      var tail := Tokens(rest) + ["-2"];
      assert Tokens(record) + ["-2"] == evs + (["-1"] + tail) by {
        TokensCons(record);
        assert ElementTokens(e) == evs + ["-1"];
        Assoc(evs + ["-1"], Tokens(rest), ["-2"]);
        Assoc(evs, ["-1"], tail);
      }
      assert forall j | 0 <= j < |e.Events()| :: e.Events()[j] >= 0 by {
        forall j | 0 <= j < |e.Events()| ensures e.Events()[j] >= 0 {
          assert record[0].Events()[j] == e.Events()[j];
        }
      }
      assert Coded(rest) by {
        forall k, j | 0 <= k < |rest| && 0 <= j < |rest[k].Events()| ensures rest[k].Events()[j] >= 0 {
          assert rest[k] == record[k + 1];
        }
      }
      DecodeTokensOf(rest);
      DecodeCons(e.Events(), tail, Groups(rest));
      GroupsCons(record);
    }
  }

  lemma {:induction false} JoinSnoc(ts: seq<string>, t: string)
    requires ts != []
    ensures JoinWith(ts + [t], " ") == JoinWith(ts, " ") + " " + t
    decreases |ts|
  {
    if |ts| > 1 {
      JoinSnoc(ts[1..], t);
      assert (ts + [t])[1..] == ts[1..] + [t];
    }
  }

  /** Tokens written with a space after each, followed by `t`, are the tokens and `t` joined by
      single spaces. */
  lemma {:induction false} SpacedJoin(ts: seq<string>, t: string)
    ensures Spaced(ts) + t == JoinWith(ts + [t], " ")
    decreases |ts|
  {
    if ts == [] {
      assert ts + [t] == [t];
    } else {
      var n := |ts| - 1;
      SpacedJoin(ts[..n], ts[n]);
      assert ts[..n] + [ts[n]] == ts;
      JoinSnoc(ts, t);
    }
  }

  lemma DecimalsTokens(xs: seq<int>)
    ensures forall j | 0 <= j < |Decimals(xs)| :: Decimals(xs)[j] != [] && NoSpace(Decimals(xs)[j])
  {
  }

  lemma {:induction false} TokensWellFormed(record: Record)
    ensures forall j | 0 <= j < |Tokens(record)| :: Tokens(record)[j] != [] && NoSpace(Tokens(record)[j])
    decreases |record|
  {
    if record != [] {
      var n := |record| - 1;
      TokensWellFormed(record[..n]);
      DecimalsTokens(record[n].Events());
    }
  }

  /** Splitting a sequence-mode line on whitespace gives the element tokens and "-2". */
  lemma SequenceLineTokens(record: Record)
    ensures Split(InputLine(record, false)) == Tokens(record) + ["-2"]
  {
    var ts := Tokens(record) + ["-2"];
    SpacedJoin(Tokens(record), "-2");
    TokensWellFormed(record);
    assert InputLine(record, false) == JoinWith(ts, " ") + "\n";
    SplitJoined(ts, "\n");
  }

  /** The documented meaning of a sequence-mode line: reading it back, "-1" closing each element
      and "-2" the sequence, gives the events of the record's elements in order. */
  lemma SequenceLineRoundTrip(record: Record)
    requires Coded(record)
    ensures DecodeTokens(Split(InputLine(record, false))) == Some(Groups(record))
  {
    SequenceLineTokens(record);
    DecodeTokensOf(record);
  }

  /** Non-empty tokens, each followed by a space, and a newline split back into the tokens. */
  lemma SpacedLineSplit(ts: seq<string>)
    requires ts != [] && forall j | 0 <= j < |ts| :: ts[j] != [] && NoSpace(ts[j])
    ensures Split(Spaced(ts) + "\n") == ts
  {
    SpacedAsJoin(ts);
    BlankEnd();
    SplitJoined(ts, " \n");
  }

  lemma BlankEnd()
    ensures AllSpace(" \n")
  {
    assert " \n"[0] == ' ' && " \n"[1] == '\n';
  }

  lemma SpacedAsJoin(ts: seq<string>)
    requires ts != []
    ensures Spaced(ts) + "\n" == JoinWith(ts, " ") + " \n"
  {
    var n := |ts| - 1;
    Snoc(ts);
    SpacedJoin(ts[..n], ts[n]);
    SpacedPrefix(ts, n);
    assert ts[..n + 1] == ts;
    Regroup2(JoinWith(ts, " "));
  }

  lemma Regroup2(a: string)
    ensures a + " " + "\n" == a + " \n"
  {
  }

  /** An itemset-mode line lists the distinct events of the record in ascending order, each once,
      with no end markers; a record without events gives "-2". */
  lemma ItemsetLineTokens(record: Record)
    requires Coded(record)
    ensures AllEvents(record) != [] ==>
      var items := Split(InputLine(record, true));
      exists xs: seq<int> :: items == Decimals(xs) && Increasing(xs) && ToSet(xs) == ToSet(AllEvents(record))
        && "-1" !in items && "-2" !in items
    ensures AllEvents(record) == [] ==> InputLine(record, true) == "-2\n"
  {
    var events := AllEvents(record);
    if events != [] {
      assert events[0] in ToSet(events);
      var xs := Ascending(ToSet(events));
      AscendingSorted(ToSet(events));
      assert xs != [] by { assert xs == [] ==> ToSet(xs) == {}; }
      DecimalsTokens(xs);
      SpacedLineSplit(Decimals(xs));
      AscendingCoded(record, xs);
      NoMarker(xs);
    } else {
      assert ToSet(events) == {};
    }
  }

  lemma AscendingCoded(record: Record, xs: seq<int>)
    requires Coded(record) && xs == Ascending(ToSet(AllEvents(record)))
    ensures forall j | 0 <= j < |xs| :: xs[j] >= 0
  {
    var events := AllEvents(record);
    AscendingSorted(ToSet(events));
    AllEventsCoded(record);
    forall j | 0 <= j < |xs| ensures xs[j] >= 0 {
      assert xs[j] in ToSet(events);
      var k :| 0 <= k < |events| && events[k] == xs[j];
    }
  }

  lemma {:induction false} AllEventsCoded(record: Record)
    requires Coded(record)
    ensures forall k | 0 <= k < |AllEvents(record)| :: AllEvents(record)[k] >= 0
    decreases |record|
  {
    if record != [] {
      var n := |record| - 1;
      assert Coded(record[..n]) by {
        forall k, j | 0 <= k < n && 0 <= j < |record[..n][k].Events()| ensures record[..n][k].Events()[j] >= 0 {
          assert record[..n][k] == record[k];
        }
      }
      AllEventsCoded(record[..n]);
      var a, b := AllEvents(record[..n]), record[n].Events();
      forall k | 0 <= k < |a + b| ensures (a + b)[k] >= 0 {
        if k >= |a| { assert (a + b)[k] == b[k - |a|]; }
      }
    }
  }

  // ---------------------------------------------------------------------------------------------
  // One line per record

  lemma {:induction false} SpacedLacks(ts: seq<string>, c: char)
    requires c != ' ' && forall j | 0 <= j < |ts| :: Lacks(ts[j], c)
    ensures Lacks(Spaced(ts), c)
    decreases |ts|
  {
    if ts != [] {
      var n := |ts| - 1;
      SpacedLacks(ts[..n], c);
      LacksConcat(Spaced(ts[..n]), ts[n], c);
      LacksConcat(Spaced(ts[..n]) + ts[n], " ", c);
    }
  }

  lemma {:induction false} TokensLack(record: Record, c: char)
    requires c != '-' && !IsDigit(c)
    ensures forall j | 0 <= j < |Tokens(record)| :: Lacks(Tokens(record)[j], c)
    decreases |record|
  {
    if record != [] {
      TokensLack(record[..|record| - 1], c);
      DecimalsLack(record[|record| - 1].Events(), c);
    }
  }

  /** Every generated line ends with its one and only newline. */
  lemma LineEndsOnce(record: Record, itemset: bool)
    ensures InputLine(record, itemset) == LineBody(record, itemset) + "\n"
    ensures Lacks(LineBody(record, itemset), '\n')
  {
    var items := ToSet(AllEvents(record));
    if itemset && items != {} {
      DecimalsLack(Ascending(items), '\n');
      SpacedLacks(Decimals(Ascending(items)), '\n');
    } else {
      var head := if itemset then "" else Spaced(Tokens(record));
      TokensLack(record, '\n');
      SpacedLacks(Tokens(record), '\n');
      LacksConcat(head, "-2", '\n');
    }
  }

  /** A record of the input: a list of elements, or a line already in SPMF format. */
  datatype InputRecord = Raw(elements: Record) | Formatted(line: string)

  /** What generate_input_file writes for one record. */
  ghost function Written(r: InputRecord, itemset: bool): string {
    match r
    case Raw(elements) => InputLine(elements, itemset)
    case Formatted(line) => line
  }

  ghost function WrittenAll(records: seq<InputRecord>, itemset: bool): string {
    if records == [] then "" else WrittenAll(records[..|records| - 1], itemset) + Written(records[|records| - 1], itemset)
  }

  lemma WrittenStep(records: seq<InputRecord>, i: nat, itemset: bool, preamble: string)
    requires i < |records|
    ensures preamble + WrittenAll(records[..i + 1], itemset)
      == preamble + WrittenAll(records[..i], itemset) + Written(records[i], itemset)
  {
    assert records[..i + 1][..i] == records[..i];
  }

  /** Records come converted, or already formatted when is_spmf_format is set. */
  predicate Shaped(records: seq<InputRecord>, isSpmfFormat: bool) {
    forall k | 0 <= k < |records| :: records[k].Formatted? <==> isSpmfFormat
  }

  /** The record loop of generate_input_file: the preamble, then each record's line in order. The
      preamble is the @CONVERTED_FROM_TEXT block when converted_from_text is set, else empty. */
  method GenerateInputFile(records: seq<InputRecord>, itemset: bool, preamble: string, isSpmfFormat: bool)
    returns (contents: string)
    requires Shaped(records, isSpmfFormat)
    ensures contents == preamble + WrittenAll(records, itemset)
  {
    contents := preamble;
    for i := 0 to |records|
      invariant contents == preamble + WrittenAll(records[..i], itemset)
    {
      var record := records[i];
      ghost var before := contents;
      if !isSpmfFormat {
        var line := GenerateInputLine(record.elements, itemset);
        contents := contents + line;
      } else {
        contents := contents + record.line;
      }
      assert contents == before + Written(record, itemset);
      WrittenStep(records, i, itemset, preamble);
    }
    assert records[..|records|] == records;
  }

  /** A record's line without its newline. */
  ghost function Body(r: InputRecord, itemset: bool): string {
    match r
    case Raw(elements) => LineBody(elements, itemset)
    case Formatted(line) => line
  }

  /** The bodies of the lines written for the records. */
  ghost function Bodies(records: seq<InputRecord>, itemset: bool): seq<string> {
    Map(r => Body(r, itemset), records)
  }

  /** Converted records can be read back line by line: splitting the written text at newlines
      gives each record's line in order, then the empty remainder after the last newline. */
  lemma WrittenLines(records: seq<InputRecord>, itemset: bool)
    requires forall k | 0 <= k < |records| :: records[k].Raw?
    ensures SplitOn(WrittenAll(records, itemset), "\n") == Bodies(records, itemset) + [""]
  {
    var bs := Bodies(records, itemset);
    var ps := bs + [""];
    JoinedLines(records, itemset);
    forall k | 0 <= k < |ps| ensures Lacks(ps[k], "\n"[0]) {
      if k < |bs| {
        LineEndsOnce(records[k].elements, itemset);
      }
    }
    SplitOnJoined(ps, "\n", "");
    assert JoinWith(ps, "\n") + "" == JoinWith(ps, "\n");
    assert ps[..|ps| - 1] + [ps[|ps| - 1] + ""] == ps by {
      assert ps[..|ps| - 1] == bs;
      assert ps[|ps| - 1] + "" == "";
    }
  }

  /** Written text is the bodies joined by newlines, with the last newline closing the last one. */
  lemma {:induction false} JoinedLines(records: seq<InputRecord>, itemset: bool)
    requires forall k | 0 <= k < |records| :: records[k].Raw?
    ensures WrittenAll(records, itemset) == JoinWith(Bodies(records, itemset) + [""], "\n")
    decreases |records|
  {
    if records == [] {
      assert Bodies(records, itemset) + [""] == [""];
    } else {
      var n := |records| - 1;
      var init := records[..n];
      var b := LineBody(records[n].elements, itemset);
      JoinedLines(init, itemset);
      LineEndsOnce(records[n].elements, itemset);
      assert Bodies(records, itemset) == Bodies(init, itemset) + [b];
      JoinLast(Bodies(init, itemset), b);
      Assoc(WrittenAll(init, itemset), b, "\n");
    }
  }

  lemma {:induction false} JoinLast(bs: seq<string>, b: string)
    ensures JoinWith(bs + [b] + [""], "\n") == JoinWith(bs + [""], "\n") + b + "\n"
    decreases |bs|
  {
    if bs == [] {
      assert bs + [b] + [""] == [b, ""];
      assert bs + [""] == [""];
    } else {
      JoinLast(bs[1..], b);
      assert (bs + [b] + [""])[1..] == bs[1..] + [b] + [""];
      assert (bs + [""])[1..] == bs[1..] + [""];
    }
  }

  // ---------------------------------------------------------------------------------------------
  // run

  /** An argument handed to the mining tool: a threshold string or a number. */
  datatype Argument = StrArg(s: string) | IntArg(n: int)

  /** run's default thresholds: support, confidence, window and maximum consequent size. */
  const DefaultSupport := "15%"
  const DefaultConfidence := "60%"
  const DefaultWindow := 15
  const DefaultMaxConsequent := 1

  /** The argument list run builds: the support, then the confidence unless mining itemsets,
      then the window twice and the maximum consequent size for TRuleGrowth. */
  method Arguments(algorithm: string, support: string, confidence: string, window: int, maxCons: int, itemset: bool)
    returns (args: seq<Argument>)
    ensures |args| == 1 + (if itemset then 0 else 1) + (if algorithm == "TRuleGrowth" then 3 else 0)
    ensures args[0] == StrArg(support)
    ensures !itemset ==> args[1] == StrArg(confidence)
    ensures algorithm == "TRuleGrowth" ==> args[|args| - 3..] == [IntArg(window), IntArg(window), IntArg(maxCons)]
  {
    args := [StrArg(support)];
    if !itemset {
      args := args + [StrArg(confidence)];
    }
    if algorithm == "TRuleGrowth" {
      args := args + [IntArg(window), IntArg(window), IntArg(maxCons)];
    }
  }

  /** run with every threshold left at its default: the argument list for each of the four
      combinations of algorithm and mode. */
  method DefaultArguments(algorithm: string, itemset: bool) returns (args: seq<Argument>)
    ensures algorithm == "TRuleGrowth" && !itemset ==>
      args == [StrArg("15%"), StrArg("60%"), IntArg(15), IntArg(15), IntArg(1)]
    ensures algorithm == "TRuleGrowth" && itemset ==> args == [StrArg("15%"), IntArg(15), IntArg(15), IntArg(1)]
    ensures algorithm != "TRuleGrowth" && !itemset ==> args == [StrArg("15%"), StrArg("60%")]
    ensures algorithm != "TRuleGrowth" && itemset ==> args == [StrArg("15%")]
  {
    args := Arguments(algorithm, DefaultSupport, DefaultConfidence, DefaultWindow, DefaultMaxConsequent, itemset);
  }
}
