/** The two kinds of mined pattern: sequential rules and frequent itemsets. */
module PatternClasses {
  import opened Text
  import opened Seqs

  /** support_percentage: -1 until it is computed, then support / number of sequences. */
  datatype SupportShare = Unset | Share(support: int, rows: nat)

  /** ''.join(str(item) for item in items). */
  function ConcatInts(items: seq<int>): string {
    JoinWith(Decimals(items), "")
  }

  /** The id of a rule: the decimal strings of its LHS items, its RHS, its support and its
      confidence in hundredths, concatenated. */
  function RuleId(lhs: seq<int>, rhs: int, support: int, confidence: int): string {
    ConcatInts(lhs) + IntToString(rhs) + IntToString(support) + IntToString(confidence)
  }

  /** The id of a frequent itemset: its items' decimal strings, then its support. */
  function ItemSetId(items: seq<int>, support: int): string {
    ConcatInts(items) + IntToString(support)
  }

  /** A sequential rule LHS ==> RHS with its support and confidence (in hundredths). */
  class Rule {
    const lhs: seq<int>
    const rhs: int
    const support: int
    const confidence: int
    const id: string
    var seqIds: seq<int>
    var supportPercentage: SupportShare

    constructor (lhs: seq<int>, rhs: int, support: int, confidence: int)
      ensures this.lhs == lhs && this.rhs == rhs && this.support == support && this.confidence == confidence
      ensures id == RuleId(lhs, rhs, support, confidence)
      ensures seqIds == [] && supportPercentage == Unset
    {
      this.lhs := lhs;
      this.rhs := rhs;
      this.support := support;
      this.confidence := confidence;
      this.id := RuleId(lhs, rhs, support, confidence);
      seqIds := [];
      supportPercentage := Unset;
    }
  }

  /** A frequent itemset with its support. */
  class FrequentItemSet {
    const items: seq<int>
    const support: int
    const id: string
    var seqIds: seq<int>
    var supportPercentage: SupportShare

    constructor (items: seq<int>, support: int)
      ensures this.items == items && this.support == support
      ensures id == ItemSetId(items, support)
      ensures seqIds == [] && supportPercentage == Unset
    {
      this.items := items;
      this.support := support;
      this.id := ItemSetId(items, support);
      seqIds := [];
      supportPercentage := Unset;
    }
  }

  /** Either kind of pattern, as the lists that get_pattern_by_id searches hold them. */
  datatype Pattern = RulePattern(rule: Rule) | ItemSetPattern(itemSet: FrequentItemSet) {
    function Id(): string {
      match this
      case RulePattern(r) => r.id
      case ItemSetPattern(s) => s.id
    }
  }

  /** The first item's decimal string, then the rest. */
  lemma ConcatIntsCons(items: seq<int>)
    requires items != []
    ensures ConcatInts(items) == IntToString(items[0]) + ConcatInts(items[1..])
  {
    var ds := Decimals(items);
    assert ds[1..] == Decimals(items[1..]);
    if |items| == 1 {
      assert items[1..] == [];
      assert IntToString(items[0]) + "" == IntToString(items[0]);
    } else {
      assert ds[0] + "" == ds[0];
    }
  }

  /** Appending an item appends its decimal string to the concatenation. */
  lemma {:induction false} ConcatIntsAppend(items: seq<int>, x: int)
    ensures ConcatInts(items + [x]) == ConcatInts(items) + IntToString(x)
    decreases |items|
  {
    var ys := items + [x];
    ConcatIntsCons(ys);
    if items == [] {
      assert ys[1..] == [];
      assert "" + IntToString(x) == IntToString(x);
      assert IntToString(x) + "" == IntToString(x);
    } else {
      assert ys[1..] == items[1..] + [x];
      ConcatIntsAppend(items[1..], x);
      ConcatIntsCons(items);
      Assoc(IntToString(items[0]), ConcatInts(items[1..]), IntToString(x));
    }
  }

  /** Rules that agree on RHS, support and confidence have equal ids exactly when their LHS items
      concatenate to the same string. */
  lemma RuleIdsAgree(lhs1: seq<int>, lhs2: seq<int>, rhs: int, support: int, confidence: int)
    ensures RuleId(lhs1, rhs, support, confidence) == RuleId(lhs2, rhs, support, confidence)
      <==> ConcatInts(lhs1) == ConcatInts(lhs2)
  {
    var tail := IntToString(rhs) + IntToString(support) + IntToString(confidence);
    RuleIdSplit(lhs1, rhs, support, confidence);
    RuleIdSplit(lhs2, rhs, support, confidence);
    CancelRight(ConcatInts(lhs1), ConcatInts(lhs2), tail);
  }

  lemma RuleIdSplit(lhs: seq<int>, rhs: int, support: int, confidence: int)
    ensures RuleId(lhs, rhs, support, confidence)
      == ConcatInts(lhs) + (IntToString(rhs) + IntToString(support) + IntToString(confidence))
  {
    var a, r, s, c := ConcatInts(lhs), IntToString(rhs), IntToString(support), IntToString(confidence);
    Assoc(a, r, s);
    Assoc(a, r + s, c);
  }

  /** The LHS items [1, 23] and [12, 3] both concatenate to "123". */
  lemma CollidingItems()
    ensures ConcatInts([1, 23]) == ConcatInts([12, 3]) == "123"
  {
    Numerals();
    assert ConcatInts([1]) == "1" by {
      assert Decimals([1]) == ["1"];
    }
    assert ConcatInts([12]) == "12" by {
      assert Decimals([12]) == ["12"];
    }
    ConcatIntsAppend([1], 23);
    ConcatIntsAppend([12], 3);
    assert [1] + [23] == [1, 23] && [12] + [3] == [12, 3];
    assert "1" + "23" == "123" == "12" + "3";
  }

  /** Ids are not unique: LHS [1, 23] and LHS [12, 3] with the same RHS, support and confidence
      give the same id. */
  lemma RuleIdCollision(rhs: int, support: int, confidence: int)
    ensures [1, 23] != [12, 3]
    ensures RuleId([1, 23], rhs, support, confidence) == RuleId([12, 3], rhs, support, confidence)
  {
    CollidingItems();
    RuleIdsAgree([1, 23], [12, 3], rhs, support, confidence);
  }

  lemma Numerals()
    ensures IntToString(23) == "23" && IntToString(12) == "12"
    ensures IntToString(1) == "1" && IntToString(3) == "3"
  {
    assert NatToString(2) == "2" && DigitChar(3) == '3';
    assert NatToString(1) == "1" && DigitChar(2) == '2';
  }

  /** Itemset ids collide the same way: [1, 23] and [12, 3] with equal support. */
  lemma ItemSetIdCollision(support: int)
    ensures ItemSetId([1, 23], support) == ItemSetId([12, 3], support)
  {
    CollidingItems();
  }
}
