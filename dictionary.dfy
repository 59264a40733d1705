/** The two-way code <-> event dictionaries that give every event of a dataset an integer code,
    with the tagged variants ("early fueller connected", ...) of each airport event. */
module Dictionary {
  import opened Wrappers

  /** A code_to_event entry: the event's name, and (for tagged and Flaredown entries) the code of
      its parent event and its tag. */
  datatype CodeEntry = CodeEntry(event: string, parent: Option<int>, tag: Option<string>)

  /** An event_to_code entry: the code, and (for tagged and Flaredown entries) the parent event's
      name and the tag. */
  datatype NameEntry = NameEntry(code: int, parent: Option<string>, tag: Option<string>)

  type CodeToEvent = map<int, CodeEntry>
  type EventToCode = map<string, NameEntry>

  /** code_to_event[str(item)]['parent'] exists. */
  predicate HasParent(m: CodeToEvent, item: int) {
    item in m && m[item].parent.Some?
  }

  /** code_to_event[str(item)]['tag'][0] exists. */
  predicate HasTag(m: CodeToEvent, item: int) {
    item in m && m[item].tag.Some? && |m[item].tag.value| > 0
  }

  const AirportEventTags: seq<string> := ["early", "delayed", "ontime"]
  const AirportDeltaTags: seq<string> := ["short", "long", "ontime"]

  /** The name a tag gives a base event. */
  function TaggedName(tag: string, event: string): string {
    tag + " " + event
  }

  /** The code_to_event entries _add_tags writes for `event` with base code `code`. */
  function TagCodes(event: string, code: int, tags: seq<string>): CodeToEvent
    decreases |tags|
  {
    if tags == [] then map[]
    else
      var n := |tags|;
      TagCodes(event, code, tags[..n - 1])[code + n := CodeEntry(TaggedName(tags[n - 1], event), Some(code), Some(tags[n - 1]))]
  }

  /** The event_to_code entries _add_tags writes for `event` with base code `code`; a later tag
      with the same name overwrites an earlier one, as the dict assignment does. */
  function TagNames(event: string, code: int, tags: seq<string>): EventToCode
    decreases |tags|
  {
    if tags == [] then map[]
    else
      var n := |tags|;
      TagNames(event, code, tags[..n - 1])[TaggedName(tags[n - 1], event) := NameEntry(code + n, Some(event), Some(tags[n - 1]))]
  }

  /** The tagged codes are code+1 .. code+len(tags), in tag order, each with the base code as its
      parent. */
  lemma {:induction false} TagCodesShape(event: string, code: int, tags: seq<string>)
    ensures forall c :: c in TagCodes(event, code, tags) <==> code < c <= code + |tags|
    ensures forall k | 0 <= k < |tags| ::
      TagCodes(event, code, tags)[code + 1 + k] == CodeEntry(TaggedName(tags[k], event), Some(code), Some(tags[k]))
    decreases |tags|
  {
    if tags != [] {
      var n := |tags|;
      TagCodesShape(event, code, tags[..n - 1]);
    }
  }

  /** The tagged names are exactly tag + " " + event for the tags. */
  lemma {:induction false} TagNamesKeys(event: string, code: int, tags: seq<string>)
    ensures TagNames(event, code, tags).Keys == set k | 0 <= k < |tags| :: TaggedName(tags[k], event)
    decreases |tags|
  {
    if tags != [] {
      var n := |tags|;
      var init := tags[..n - 1];
      TagNamesKeys(event, code, init);
      assert forall k | 0 <= k < n - 1 :: init[k] == tags[k];
      assert (set k | 0 <= k < |tags| :: TaggedName(tags[k], event))
        == (set k | 0 <= k < |init| :: TaggedName(init[k], event)) + {TaggedName(tags[n - 1], event)};
    }
  }

  /** With distinct tags, each tagged name maps to its own code and to the base event as parent. */
  lemma {:induction false} TagNamesShape(event: string, code: int, tags: seq<string>)
    requires forall i, j | 0 <= i < j < |tags| :: tags[i] != tags[j]
    ensures forall k | 0 <= k < |tags| ::
      TaggedName(tags[k], event) in TagNames(event, code, tags)
      && TagNames(event, code, tags)[TaggedName(tags[k], event)] == NameEntry(code + 1 + k, Some(event), Some(tags[k]))
    decreases |tags|
  {
    if tags != [] {
      var n := |tags|;
      var init := tags[..n - 1];
      TagNamesShape(event, code, init);
      var prev := TagNames(event, code, init);
      var last := TaggedName(tags[n - 1], event);
      assert TagNames(event, code, tags) == prev[last := NameEntry(code + n, Some(event), Some(tags[n - 1]))];
      forall k | 0 <= k < n - 1
        ensures TagNames(event, code, tags)[TaggedName(tags[k], event)] == NameEntry(code + 1 + k, Some(event), Some(tags[k]))
      {
        assert tags[k] == init[k];
        TaggedNamesDiffer(tags[k], tags[n - 1], event);
      }
    }
  }

  lemma TaggedNamesDiffer(t1: string, t2: string, event: string)
    requires t1 != t2
    ensures TaggedName(t1, event) != TaggedName(t2, event)
  {
    if |t1| == |t2| {
      assert TaggedName(t1, event)[..|t1|] == t1;
      assert TaggedName(t2, event)[..|t2|] == t2;
    }
  }

  /** The code_to_event entries one event adds: its own code, then one per tag. */
  function EventCodes(event: string, code: int, tags: seq<string>): CodeToEvent {
    map[code := CodeEntry(event, None, None)] + TagCodes(event, code, tags)
  }

  /** The event_to_code entries one event adds. */
  function EventNames(event: string, code: int, tags: seq<string>): EventToCode {
    map[event := NameEntry(code, None, None)] + TagNames(event, code, tags)
  }

  /** The next free code after a block: each event uses its own code and one per tag. */
  function BlockEnd(events: seq<string>, start: int, tags: seq<string>): int
    decreases |events|
  {
    if events == [] then start else BlockEnd(events[..|events| - 1], start, tags) + |tags| + 1
  }

  lemma {:induction false} BlockEndIs(events: seq<string>, start: int, tags: seq<string>)
    ensures BlockEnd(events, start, tags) == start + |events| * (|tags| + 1)
    decreases |events|
  {
    if events != [] {
      BlockEndIs(events[..|events| - 1], start, tags);
    }
  }

  /** With three tags every event takes four codes. */
  lemma {:induction false} BlockEndFour(events: seq<string>, start: int, tags: seq<string>)
    requires |tags| == 3
    ensures BlockEnd(events, start, tags) == start + 4 * |events|
    decreases |events|
  {
    if events != [] {
      BlockEndFour(events[..|events| - 1], start, tags);
    }
  }

  /** The code_to_event entries of one generation block: each base event in turn gets the next
      free code, followed by one code per tag. */
  function BlockCodes(events: seq<string>, start: int, tags: seq<string>): CodeToEvent
    decreases |events|
  {
    if events == [] then map[]
    else
      var init := events[..|events| - 1];
      BlockCodes(init, start, tags) + EventCodes(events[|events| - 1], BlockEnd(init, start, tags), tags)
  }

  /** The event_to_code entries of one generation block. */
  function BlockNames(events: seq<string>, start: int, tags: seq<string>): EventToCode
    decreases |events|
  {
    if events == [] then map[]
    else
      var init := events[..|events| - 1];
      BlockNames(init, start, tags) + EventNames(events[|events| - 1], BlockEnd(init, start, tags), tags)
  }

  /** The block of the first j+1 events is the block of the first j, then the entries of event j. */
  lemma BlockStep(events: seq<string>, start: int, tags: seq<string>, j: nat)
    requires j < |events|
    ensures BlockEnd(events[..j + 1], start, tags) == BlockEnd(events[..j], start, tags) + |tags| + 1
    ensures BlockCodes(events[..j + 1], start, tags)
      == BlockCodes(events[..j], start, tags) + EventCodes(events[j], BlockEnd(events[..j], start, tags), tags)
    ensures BlockNames(events[..j + 1], start, tags)
      == BlockNames(events[..j], start, tags) + EventNames(events[j], BlockEnd(events[..j], start, tags), tags)
  {
    assert events[..j + 1][..j] == events[..j];
  }

  /** With three tags, an event's entries fill the four codes from its base code ... */
  lemma EventCodesKeys(event: string, code: int, tags: seq<string>)
    requires |tags| == 3
    ensures forall c :: c in EventCodes(event, code, tags) <==> code <= c < code + 4
  {
    TagCodesShape(event, code, tags);
  }

  /** ... the base code holds the event itself ... */
  lemma EventCodesBase(event: string, code: int, tags: seq<string>)
    ensures code in EventCodes(event, code, tags) && EventCodes(event, code, tags)[code] == CodeEntry(event, None, None)
  {
    TagCodesShape(event, code, tags);
  }

  /** ... and code+1+k the event under tag k. */
  lemma EventCodesTag(event: string, code: int, tags: seq<string>, k: nat)
    requires k < |tags|
    ensures code + 1 + k in EventCodes(event, code, tags)
    ensures EventCodes(event, code, tags)[code + 1 + k] == CodeEntry(TaggedName(tags[k], event), Some(code), Some(tags[k]))
  {
    TagCodesShape(event, code, tags);
  }

  /** A block with three tags uses exactly the codes start .. start+4n-1. */
  lemma {:induction false} BlockCodesKeys(events: seq<string>, start: int, tags: seq<string>)
    requires |tags| == 3
    ensures forall c :: c in BlockCodes(events, start, tags) <==> start <= c < start + 4 * |events|
    decreases |events|
  {
    if events != [] {
      var n := |events|;
      var init := events[..n - 1];
      BlockEndFour(init, start, tags);
      BlockCodesKeys(init, start, tags);
      EventCodesKeys(events[n - 1], start + 4 * (n - 1), tags);
    }
  }

  /** In a block with three tags, event j has the code start+4j ... */
  lemma {:induction false} BlockBaseAt(events: seq<string>, start: int, tags: seq<string>, j: nat)
    requires |tags| == 3 && j < |events|
    ensures start + 4 * j in BlockCodes(events, start, tags)
    ensures BlockCodes(events, start, tags)[start + 4 * j] == CodeEntry(events[j], None, None)
    decreases |events|
  {
    var n := |events|;
    var init := events[..n - 1];
    var base := start + 4 * (n - 1);
    BlockEndFour(init, start, tags);
    if j < n - 1 {
      BlockBaseAt(init, start, tags, j);
      EventCodesKeys(events[n - 1], base, tags);
      assert init[j] == events[j];
    } else {
      EventCodesBase(events[n - 1], base, tags);
    }
  }

  /** ... and its tag k the code start+4j+1+k, with the event's code as parent. */
  lemma {:induction false} BlockTagAt(events: seq<string>, start: int, tags: seq<string>, j: nat, k: nat)
    requires |tags| == 3 && j < |events| && k < 3
    ensures start + 4 * j + 1 + k in BlockCodes(events, start, tags)
    ensures BlockCodes(events, start, tags)[start + 4 * j + 1 + k]
      == CodeEntry(TaggedName(tags[k], events[j]), Some(start + 4 * j), Some(tags[k]))
    decreases |events|
  {
    var n := |events|;
    var init := events[..n - 1];
    var base := start + 4 * (n - 1);
    BlockEndFour(init, start, tags);
    if j < n - 1 {
      BlockTagAt(init, start, tags, j, k);
      EventCodesKeys(events[n - 1], base, tags);
      assert init[j] == events[j];
    } else {
      EventCodesTag(events[n - 1], base, tags, k);
    }
  }

  lemma UpdateUnion<K, V>(a: map<K, V>, k: K, v: V, t: map<K, V>)
    ensures a[k := v] + t == a + (map[k := v] + t)
  {
  }

  lemma UnionUpdate<K, V>(a: map<K, V>, b: map<K, V>, k: K, v: V)
    ensures (a + b)[k := v] == a + b[k := v]
  {
  }

  lemma UnionAssoc<K, V>(a: map<K, V>, b: map<K, V>, c: map<K, V>)
    ensures (a + b) + c == a + (b + c)
  {
  }

  /** The dictionaries of the airport dataset. */
  class AirportMapping {
    var eventToCode: EventToCode
    var codeToEvent: CodeToEvent

    constructor ()
      ensures eventToCode == map[] && codeToEvent == map[]
    {
      eventToCode := map[];
      codeToEvent := map[];
    }

    /** Adds one entry per tag for the base event `event` with code `code` and returns the last
        code it used. */
    method AddTags(event: string, code: int, tags: seq<string>) returns (last: int)
      modifies this
      ensures last == code + |tags|
      ensures codeToEvent == old(codeToEvent) + TagCodes(event, code, tags)
      ensures eventToCode == old(eventToCode) + TagNames(event, code, tags)
    {
      last := code;
      for k := 0 to |tags|
        invariant last == code + k
        invariant codeToEvent == old(codeToEvent) + TagCodes(event, code, tags[..k])
        invariant eventToCode == old(eventToCode) + TagNames(event, code, tags[..k])
      {
        assert tags[..k + 1][..k] == tags[..k];
        last := last + 1;
        var tagged := TaggedName(tags[k], event);
        UnionUpdate(old(eventToCode), TagNames(event, code, tags[..k]), tagged, NameEntry(last, Some(event), Some(tags[k])));
        UnionUpdate(old(codeToEvent), TagCodes(event, code, tags[..k]), last, CodeEntry(tagged, Some(code), Some(tags[k])));
        eventToCode := eventToCode[tagged := NameEntry(last, Some(event), Some(tags[k]))];
        codeToEvent := codeToEvent[last := CodeEntry(tagged, Some(code), Some(tags[k]))];
      }
      assert tags[..|tags|] == tags;
    }

    /** One base event: its own entries under `code`, then its tags; returns the next free code. */
    method AddEvent(event: string, code: int, tags: seq<string>) returns (next: int)
      modifies this
      ensures next == code + |tags| + 1
      ensures codeToEvent == old(codeToEvent) + EventCodes(event, code, tags)
      ensures eventToCode == old(eventToCode) + EventNames(event, code, tags)
    {
      ghost var codes0, names0 := codeToEvent, eventToCode;
      eventToCode := eventToCode[event := NameEntry(code, None, None)];
      codeToEvent := codeToEvent[code := CodeEntry(event, None, None)];
      var last := AddTags(event, code, tags);
      UpdateUnion(codes0, code, CodeEntry(event, None, None), TagCodes(event, code, tags));
      UpdateUnion(names0, event, NameEntry(code, None, None), TagNames(event, code, tags));
      next := last + 1;
    }

    /** One generation block: each event gets the next code and then its tags. */
    method AddBlock(events: seq<string>, start: int, tags: seq<string>) returns (next: int)
      modifies this
      ensures next == start + |events| * (|tags| + 1)
      ensures codeToEvent == old(codeToEvent) + BlockCodes(events, start, tags)
      ensures eventToCode == old(eventToCode) + BlockNames(events, start, tags)
    {
      next := start;
      for j := 0 to |events|
        invariant next == BlockEnd(events[..j], start, tags)
        invariant codeToEvent == old(codeToEvent) + BlockCodes(events[..j], start, tags)
        invariant eventToCode == old(eventToCode) + BlockNames(events[..j], start, tags)
      {
        var event := events[j];
        BlockStep(events, start, tags, j);
        UnionAssoc(old(codeToEvent), BlockCodes(events[..j], start, tags), EventCodes(event, next, tags));
        UnionAssoc(old(eventToCode), BlockNames(events[..j], start, tags), EventNames(event, next, tags));
        next := AddEvent(event, next, tags);
      }
      assert events[..|events|] == events;
      BlockEndIs(events, start, tags);
    }

    /** The code loops of the airport generator: the raw turnaround event types with tags early,
        delayed and ontime, then the delta names with tags short, long and ontime. The two lists
        stand for the sets read from the data files, in the order the sets are iterated. */
    method GenerateMappings(eventTypes: seq<string>, deltas: seq<string>)
      modifies this
      ensures codeToEvent == old(codeToEvent) + AirportCodeMap(eventTypes, deltas)
      ensures eventToCode == old(eventToCode) + BlockNames(eventTypes, 1, AirportEventTags)
        + BlockNames(deltas, 1 + 4 * |eventTypes|, AirportDeltaTags)
    {
      var code := AddBlock(eventTypes, 1, AirportEventTags);
      assert |AirportEventTags| + 1 == 4;
      assert code == 1 + 4 * |eventTypes|;
      code := AddBlock(deltas, code, AirportDeltaTags);
      UnionAssoc(old(codeToEvent), BlockCodes(eventTypes, 1, AirportEventTags), BlockCodes(deltas, 1 + 4 * |eventTypes|, AirportDeltaTags));
    }
  }

  /** The code_to_event dictionary the airport generator builds from empty dictionaries. */
  function AirportCodeMap(eventTypes: seq<string>, deltas: seq<string>): CodeToEvent {
    BlockCodes(eventTypes, 1, AirportEventTags) + BlockCodes(deltas, 1 + 4 * |eventTypes|, AirportDeltaTags)
  }

  /** The airport codes are exactly 1 .. 4n for n base events, event types first, then deltas. */
  lemma AirportCodeRange(eventTypes: seq<string>, deltas: seq<string>)
    ensures forall c :: c in AirportCodeMap(eventTypes, deltas) <==> 1 <= c <= 4 * (|eventTypes| + |deltas|)
  {
    assert |AirportEventTags| == 3 && |AirportDeltaTags| == 3;
    BlockCodesKeys(eventTypes, 1, AirportEventTags);
    BlockCodesKeys(deltas, 1 + 4 * |eventTypes|, AirportDeltaTags);
  }

  /** A code below the deltas' block is not one of the delta codes. */
  lemma BelowDeltas(eventTypes: seq<string>, deltas: seq<string>, c: int)
    requires c < 1 + 4 * |eventTypes|
    ensures c !in BlockCodes(deltas, 1 + 4 * |eventTypes|, AirportDeltaTags)
  {
    assert |AirportDeltaTags| == 3;
    BlockCodesKeys(deltas, 1 + 4 * |eventTypes|, AirportDeltaTags);
  }

  /** Base event type j has code 1+4j. */
  lemma AirportEventTypeCode(eventTypes: seq<string>, deltas: seq<string>, j: nat)
    requires j < |eventTypes|
    ensures 1 + 4 * j in AirportCodeMap(eventTypes, deltas)
    ensures AirportCodeMap(eventTypes, deltas)[1 + 4 * j] == CodeEntry(eventTypes[j], None, None)
  {
    assert |AirportEventTags| == 3;
    BlockBaseAt(eventTypes, 1, AirportEventTags, j);
    BelowDeltas(eventTypes, deltas, 1 + 4 * j);
  }

  /** Tag k (early, delayed, ontime) of event type j has code 1+4j+1+k and the base code as
      its parent. */
  lemma AirportEventTagCode(eventTypes: seq<string>, deltas: seq<string>, j: nat, k: nat)
    requires j < |eventTypes| && k < 3
    ensures 1 + 4 * j + 1 + k in AirportCodeMap(eventTypes, deltas)
    ensures AirportCodeMap(eventTypes, deltas)[1 + 4 * j + 1 + k]
      == CodeEntry(TaggedName(AirportEventTags[k], eventTypes[j]), Some(1 + 4 * j), Some(AirportEventTags[k]))
  {
    assert |AirportEventTags| == 3;
    BlockTagAt(eventTypes, 1, AirportEventTags, j, k);
    BelowDeltas(eventTypes, deltas, 1 + 4 * j + 1 + k);
  }

  /** Delta j, numbered after the m event types, has code 1+4m+4j. */
  lemma AirportDeltaCode(eventTypes: seq<string>, deltas: seq<string>, j: nat)
    requires j < |deltas|
    ensures 1 + 4 * |eventTypes| + 4 * j in AirportCodeMap(eventTypes, deltas)
    ensures AirportCodeMap(eventTypes, deltas)[1 + 4 * |eventTypes| + 4 * j] == CodeEntry(deltas[j], None, None)
  {
    assert |AirportDeltaTags| == 3;
    BlockBaseAt(deltas, 1 + 4 * |eventTypes|, AirportDeltaTags, j);
  }

  /** Tag k (short, long, ontime) of delta j follows its base code and names it as parent. */
  lemma AirportDeltaTagCode(eventTypes: seq<string>, deltas: seq<string>, j: nat, k: nat)
    requires j < |deltas| && k < 3
    ensures 1 + 4 * |eventTypes| + 4 * j + 1 + k in AirportCodeMap(eventTypes, deltas)
    ensures AirportCodeMap(eventTypes, deltas)[1 + 4 * |eventTypes| + 4 * j + 1 + k]
      == CodeEntry(TaggedName(AirportDeltaTags[k], deltas[j]), Some(1 + 4 * |eventTypes| + 4 * j), Some(AirportDeltaTags[k]))
  {
    assert |AirportDeltaTags| == 3;
    BlockTagAt(deltas, 1 + 4 * |eventTypes|, AirportDeltaTags, j, k);
  }

  /** The code_to_event entries the Flaredown generator writes for (name, tag) pairs numbered
      from `start`. */
  function FlaredownCodes(pairs: seq<(string, string)>, start: int): CodeToEvent
    decreases |pairs|
  {
    if pairs == [] then map[]
    else
      var n := |pairs|;
      var code := start + n - 1;
      FlaredownCodes(pairs[..n - 1], start)[code := CodeEntry(pairs[n - 1].0, Some(code), Some(pairs[n - 1].1))]
  }

  /** The event_to_code entries the Flaredown generator writes; a name that recurs with another
      tag keeps its last code. */
  function FlaredownNames(pairs: seq<(string, string)>, start: int): EventToCode
    decreases |pairs|
  {
    if pairs == [] then map[]
    else
      var n := |pairs|;
      FlaredownNames(pairs[..n - 1], start)[pairs[n - 1].0 := NameEntry(start + n - 1, Some(pairs[n - 1].0), Some(pairs[n - 1].1))]
  }

  /** Flaredown codes are start .. start+n-1 in row order, each its own parent. */
  lemma {:induction false} FlaredownCodesShape(pairs: seq<(string, string)>, start: int)
    ensures forall c :: c in FlaredownCodes(pairs, start) <==> start <= c < start + |pairs|
    ensures forall k | 0 <= k < |pairs| ::
      FlaredownCodes(pairs, start)[start + k] == CodeEntry(pairs[k].0, Some(start + k), Some(pairs[k].1))
    decreases |pairs|
  {
    if pairs != [] {
      FlaredownCodesShape(pairs[..|pairs| - 1], start);
    }
  }

  /** The Flaredown names are exactly the names of the rows. */
  lemma {:induction false} FlaredownNamesKeys(pairs: seq<(string, string)>, start: int)
    ensures forall name :: name in FlaredownNames(pairs, start) <==> exists k | 0 <= k < |pairs| :: pairs[k].0 == name
    decreases |pairs|
  {
    if pairs != [] {
      var n := |pairs|;
      var init := pairs[..n - 1];
      FlaredownNamesKeys(init, start);
      forall name | name in FlaredownNames(pairs, start)
        ensures exists k | 0 <= k < |pairs| :: pairs[k].0 == name
      {
        if name != pairs[n - 1].0 {
          assert name in FlaredownNames(init, start);
          var k :| 0 <= k < |init| && init[k].0 == name;
          assert pairs[k].0 == name;
        }
      }
      forall name | exists k | 0 <= k < |pairs| :: pairs[k].0 == name
        ensures name in FlaredownNames(pairs, start)
      {
        var k :| 0 <= k < |pairs| && pairs[k].0 == name;
        if k < n - 1 { assert init[k].0 == name; }
      }
    }
  }

  /** Every Flaredown name is its own parent and carries the code and the tag of the last row
      with that name. */
  lemma {:induction false} FlaredownNamesShape(pairs: seq<(string, string)>, start: int)
    ensures forall name | name in FlaredownNames(pairs, start) ::
      var e := FlaredownNames(pairs, start)[name];
      e.parent == Some(name) && start <= e.code < start + |pairs| && pairs[e.code - start].0 == name
      && e.tag == Some(pairs[e.code - start].1)
      && forall k | 0 <= k < |pairs| && pairs[k].0 == name :: k <= e.code - start
  {
    forall name | name in FlaredownNames(pairs, start)
      ensures var e := FlaredownNames(pairs, start)[name];
        e.parent == Some(name) && start <= e.code < start + |pairs| && pairs[e.code - start].0 == name
        && e.tag == Some(pairs[e.code - start].1)
        && forall k | 0 <= k < |pairs| && pairs[k].0 == name :: k <= e.code - start
    {
      FlaredownNameEntry(pairs, start, name);
    }
  }

  /** The entry of one Flaredown name: its own parent, the code and tag of a row with that name,
      and no later row with that name. */
  lemma {:induction false} FlaredownNameEntry(pairs: seq<(string, string)>, start: int, name: string)
    requires name in FlaredownNames(pairs, start)
    ensures var e := FlaredownNames(pairs, start)[name];
      e.parent == Some(name) && start <= e.code < start + |pairs| && pairs[e.code - start].0 == name
      && e.tag == Some(pairs[e.code - start].1)
      && forall k | e.code - start < k < |pairs| :: pairs[k].0 != name
    decreases |pairs|
  {
    var n := |pairs|;
    var init := pairs[..n - 1];
    if name != pairs[n - 1].0 {
      FlaredownNameEntry(init, start, name);
      var c := FlaredownNames(init, start)[name].code - start;
      assert FlaredownNames(pairs, start)[name] == FlaredownNames(init, start)[name];
      assert pairs[c] == init[c];
      forall k | c < k < n - 1 ensures pairs[k].0 != name {
        assert pairs[k] == init[k];
      }
    }
  }

  /** The dictionaries of the Flaredown dataset. */
  class FlaredownMapping {
    var eventToCode: EventToCode
    var codeToEvent: CodeToEvent

    constructor ()
      ensures eventToCode == map[] && codeToEvent == map[]
    {
      eventToCode := map[];
      codeToEvent := map[];
    }

    /** The code loop over the distinct (trackable_name, trackable_type) rows, in row order. */
    method GenerateMappings(pairs: seq<(string, string)>)
      modifies this
      ensures codeToEvent == old(codeToEvent) + FlaredownCodes(pairs, 1)
      ensures eventToCode == old(eventToCode) + FlaredownNames(pairs, 1)
    {
      var code := 1;
      for i := 0 to |pairs|
        invariant code == 1 + i
        invariant codeToEvent == old(codeToEvent) + FlaredownCodes(pairs[..i], 1)
        invariant eventToCode == old(eventToCode) + FlaredownNames(pairs[..i], 1)
      {
        assert pairs[..i + 1][..i] == pairs[..i];
        var (name, tag) := pairs[i];
        UnionUpdate(old(eventToCode), FlaredownNames(pairs[..i], 1), name, NameEntry(code, Some(name), Some(tag)));
        UnionUpdate(old(codeToEvent), FlaredownCodes(pairs[..i], 1), code, CodeEntry(name, Some(code), Some(tag)));
        eventToCode := eventToCode[name := NameEntry(code, Some(name), Some(tag))];
        codeToEvent := codeToEvent[code := CodeEntry(name, Some(code), Some(tag))];
        code := code + 1;
      }
      assert pairs[..|pairs|] == pairs;
    }
  }
}
