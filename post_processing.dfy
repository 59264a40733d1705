/** Reading the mining tool's output lines into patterns, removing redundant rules, and finding
    the sequences that support each pattern. */
module PostProcessing {
  import opened Wrappers
  import opened Text
  import opened Seqs
  import opened PatternClasses

  /** The Python exceptions a malformed output line raises; OverflowError comes from the Rule
      constructor's int(confidence * 100) when float() gave inf. */
  datatype ParseError = IndexError | ValueError | OverflowError

  /** The arguments parse_rules passes to the Rule constructor; confidence in hundredths. */
  datatype RuleFields = RuleFields(lhs: seq<int>, rhs: int, support: int, confidence: int)

  /** The arguments parse_itemsets passes to the FrequentItemSet constructor. */
  datatype ItemSetFields = ItemSetFields(items: seq<int>, support: int)

  // ---------------------------------------------------------------- parsing one line

  /** [int(p) for p in parts]: the first part that is not an integer raises ValueError. */
  function ParseInts(parts: seq<string>): (r: Result<seq<int>, ParseError>)
    ensures r.Ok? ==> |r.value| == |parts| && forall i | 0 <= i < |parts| :: ParseInt(parts[i]) == Some(r.value[i])
    ensures r.Err? ==> r.error == ValueError && exists i | 0 <= i < |parts| :: ParseInt(parts[i]) == None
  {
    if parts == [] then Ok([])
    else
      match ParseInt(parts[0])
      case None => Err(ValueError)
      case Some(x) =>
        match ParseInts(parts[1..])
        case Err(e) =>
          var i :| 0 <= i < |parts[1..]| && ParseInt(parts[1..][i]) == None;
          assert ParseInt(parts[i + 1]) == None;
          Err(e)
        case Ok(xs) => Ok([x] + xs)
  }

  /** One line of the rule file: "<lhs items joined by ','> ==> <rhs> #SUP: <support> #CONF: <confidence>". */
  function ParseRuleLine(line: string): (r: Result<RuleFields, ParseError>)
    ensures r.Ok? ==> |r.value.lhs| >= 1
  {
    ParseRuleHalves(SplitOn(line, "==>"))
  }

  /** The line split at "==>": the LHS is parsed before the part after the arrow is looked up. */
  function ParseRuleHalves(halves: seq<string>): (r: Result<RuleFields, ParseError>)
    requires |halves| >= 1
    ensures r.Ok? ==> |r.value.lhs| >= 1
  {
    match ParseInts(SplitOn(halves[0], ","))
    case Err(e) => Err(e)
    case Ok(lhs) =>
      if |halves| < 2 then Err(IndexError) else ParseRuleTokens(lhs, Split(halves[1]))
  }

  /** The whitespace tokens after "==>": RHS, support and confidence are tokens 0, 2 and 4. */
  function ParseRuleTokens(lhs: seq<int>, tokens: seq<string>): (r: Result<RuleFields, ParseError>)
    ensures r.Ok? ==> r.value.lhs == lhs
  {
    if |tokens| < 1 then Err(IndexError)
    else
      match ParseInt(tokens[0])
      case None => Err(ValueError)
      case Some(rhs) =>
        if |tokens| < 3 then Err(IndexError)
        else
          match ParseInt(tokens[2])
          case None => Err(ValueError)
          case Some(support) =>
            if |tokens| < 5 then Err(IndexError)
            else
              match ParseConfidence(tokens[4])
              case Err(e) => Err(e)
              case Ok(confidence) => Ok(RuleFields(lhs, rhs, support, confidence))
  }

  /** round(float(token), 2), in hundredths, as the Rule constructor accepts it: ValueError when
      float() rejects the token; OverflowError when float() gives inf, or when the finite value
      is so large that `int(confidence * 100)` in the id meets an inf product. */
  function ParseConfidence(token: string): (r: Result<int, ParseError>)
    ensures r == Err(ValueError) <==> ParseDecimal(token).None?
    ensures r == Err(OverflowError) <==> (ParseDecimal(token).Some?
      && (RoundedFloat(ParseDecimal(token).value).None? || HundredfoldOverflows(RoundedFloat(ParseDecimal(token).value).value)))
    ensures r.Ok? ==> (ParseDecimal(token).Some? && RoundedFloat(ParseDecimal(token).value) == Some(r.value)
      && !HundredfoldOverflows(r.value))
  {
    match ParseDecimal(token)
    case None => Err(ValueError)
    case Some(d) =>
      match RoundedFloat(d)
      case None => Err(OverflowError)
      case Some(c) => if HundredfoldOverflows(c) then Err(OverflowError) else Ok(c)
  }

  /** One line of the itemset file: "<items separated by spaces> #SUP: <support>". */
  function ParseItemSetLine(line: string): (r: Result<ItemSetFields, ParseError>)
    ensures !Contains(line, "#SUP:") ==> r.Err?
    ensures r.Ok? ==> (|SplitOn(line, "#SUP:")| >= 2
      && ParseInts(Split(SplitOn(line, "#SUP:")[0])) == Ok(r.value.items)
      && ParseInt(SplitOn(line, "#SUP:")[1]) == Some(r.value.support))
  {
    var halves := SplitOn(line, "#SUP:");
    match ParseInts(Split(halves[0]))
    case Err(e) => Err(e)
    case Ok(items) =>
      if |halves| < 2 then Err(IndexError)
      else
        match ParseInt(halves[1])
        case None => Err(ValueError)
        case Some(support) => Ok(ItemSetFields(items, support))
  }

  /** A rule line as the mining tool writes it, with the confidence token `confidence`. */
  function FormatRuleLine(lhs: seq<int>, rhs: int, support: int, confidence: string): string {
    JoinWith(Decimals(lhs), ",") + " ==>" + RuleTail(rhs, support, confidence)
  }

  /** An itemset line as the mining tool writes it. */
  function FormatItemSetLine(items: seq<int>, support: int): string {
    JoinWith(Decimals(items), " ") + " #SUP: " + IntToString(support) + "\n"
  }

  lemma {:induction false} ParseIntsAll(parts: seq<string>, xs: seq<int>)
    requires |parts| == |xs| && forall i | 0 <= i < |parts| :: ParseInt(parts[i]) == Some(xs[i])
    ensures ParseInts(parts) == Ok(xs)
    decreases |parts|
  {
    if parts != [] {
      var ps, ys := parts[1..], xs[1..];
      forall i | 0 <= i < |ps| ensures ParseInt(ps[i]) == Some(ys[i]) {
        assert ps[i] == parts[i + 1] && ys[i] == xs[i + 1];
      }
      ParseIntsAll(ps, ys);
      assert ParseInt(parts[0]) == Some(xs[0]);
      assert ParseInts(parts) == Ok([xs[0]] + ys);
      assert xs == [xs[0]] + ys;
    }
  }

  /** The numerals of `xs`, the last one followed by whitespace, parse back to `xs`. */
  lemma ParseNumeralsPadded(xs: seq<int>, pad: string)
    requires |xs| >= 1 && AllSpace(pad)
    ensures ParseInts(Decimals(xs)[..|xs| - 1] + [Decimals(xs)[|xs| - 1] + pad]) == Ok(xs)
  {
    var parts := Decimals(xs)[..|xs| - 1] + [Decimals(xs)[|xs| - 1] + pad];
    forall i | 0 <= i < |parts| ensures ParseInt(parts[i]) == Some(xs[i]) {
      PaddedPart(xs, pad, i);
    }
    ParseIntsAll(parts, xs);
  }

  lemma PaddedPart(xs: seq<int>, pad: string, i: nat)
    requires |xs| >= 1 && AllSpace(pad) && i < |xs|
    ensures ParseInt((Decimals(xs)[..|xs| - 1] + [Decimals(xs)[|xs| - 1] + pad])[i]) == Some(xs[i])
  {
    var parts := Decimals(xs)[..|xs| - 1] + [Decimals(xs)[|xs| - 1] + pad];
    if i < |xs| - 1 {
      assert parts[i] == IntToString(xs[i]);
      ParseNumeral(xs[i]);
    } else {
      assert parts[i] == IntToString(xs[i]) + pad;
      ParseNumeralPadded(xs[i], pad);
    }
  }

  lemma ParseNumerals(xs: seq<int>)
    ensures ParseInts(Decimals(xs)) == Ok(xs)
  {
    forall i | 0 <= i < |xs| ensures ParseInt(Decimals(xs)[i]) == Some(xs[i]) {
      ParseNumeral(xs[i]);
    }
    ParseIntsAll(Decimals(xs), xs);
  }

  /** The text after "==>" in a well-formed rule line splits into its five tokens. */
  lemma RuleTailTokens(rhs: int, support: int, confidence: string)
    requires confidence != [] && NoSpace(confidence)
    ensures Split(RuleTail(rhs, support, confidence))
      == [IntToString(rhs), "#SUP:", IntToString(support), "#CONF:", confidence]
  {
    var tokens := [IntToString(rhs), "#SUP:", IntToString(support), "#CONF:", confidence];
    var body := JoinWith(tokens, " ") + "\n";
    calc {
      Split(RuleTail(rhs, support, confidence));
      { RuleTailJoined(rhs, support, confidence); }
      Split([' '] + body);
      { SplitSpace(' ', body); }
      Split(body);
      { PlainTokens(tokens); SplitJoined(tokens, "\n"); }
      tokens;
    }
  }

  lemma PlainTokens(tokens: seq<string>)
    requires |tokens| == 5 && tokens[1] == "#SUP:" && tokens[3] == "#CONF:"
    requires tokens[0] != [] && NoSpace(tokens[0]) && tokens[2] != [] && NoSpace(tokens[2])
    requires tokens[4] != [] && NoSpace(tokens[4])
    ensures forall i | 0 <= i < |tokens| :: tokens[i] != [] && NoSpace(tokens[i])
  {
    assert NoSpace("#SUP:") && NoSpace("#CONF:");
  }

  /** The part of a rule line after "==>". */
  function RuleTail(rhs: int, support: int, confidence: string): string {
    " " + IntToString(rhs) + " #SUP: " + IntToString(support) + " #CONF: " + confidence + "\n"
  }

  lemma RuleTailJoined(rhs: int, support: int, confidence: string)
    ensures RuleTail(rhs, support, confidence)
      == [' '] + (JoinWith([IntToString(rhs), "#SUP:", IntToString(support), "#CONF:", confidence], " ") + "\n")
  {
    var t0, t2 := IntToString(rhs), IntToString(support);
    JoinFive(t0, "#SUP:", t2, "#CONF:", confidence, " ");
    TailRegroup(t0, t2, confidence);
  }

  lemma JoinFive(a: string, b: string, c: string, d: string, e: string, sep: string)
    ensures JoinWith([a, b, c, d, e], sep) == a + sep + (b + sep + (c + sep + (d + sep + e)))
  {
    var parts := [a, b, c, d, e];
    assert parts[1..] == [b, c, d, e];
    assert parts[2..] == [c, d, e];
    assert parts[3..] == [d, e];
    assert parts[4..] == [e];
    assert JoinWith(parts[3..], sep) == d + sep + e;
    assert JoinWith(parts[2..], sep) == c + sep + JoinWith(parts[3..], sep);
    assert JoinWith(parts[1..], sep) == b + sep + JoinWith(parts[2..], sep);
  }

  lemma TailRegroup(t0: string, t2: string, c: string)
    ensures " " + t0 + " #SUP: " + t2 + " #CONF: " + c + "\n"
      == [' '] + (t0 + " " + ("#SUP:" + " " + (t2 + " " + ("#CONF:" + " " + c))) + "\n")
  {
    assert " #SUP: " == " " + "#SUP:" + " ";
    assert " #CONF: " == " " + "#CONF:" + " ";
    assert " " == [' '];
  }

  /** Parsing a rule line the mining tool wrote gives back its LHS in order, its RHS, its support
      and its confidence as round(float(token), 2) gives it, or the error that token raises. */
  lemma ParseFormattedRule(lhs: seq<int>, rhs: int, support: int, confidence: string)
    requires |lhs| >= 1 && confidence != [] && NoSpace(confidence) && Lacks(confidence, '=')
    ensures var c := ParseConfidence(confidence);
      ParseRuleLine(FormatRuleLine(lhs, rhs, support, confidence))
      == if c.Ok? then Ok(RuleFields(lhs, rhs, support, c.value)) else Err(c.error)
  {
    var front := JoinWith(Decimals(lhs), ",") + " ";
    var back := RuleTail(rhs, support, confidence);
    var tokens := [IntToString(rhs), "#SUP:", IntToString(support), "#CONF:", confidence];
    calc {
      ParseRuleLine(FormatRuleLine(lhs, rhs, support, confidence));
      { RuleHalves(lhs, rhs, support, confidence); }
      ParseRuleHalves([front, back]);
      { RuleLhsParts(lhs); }
      ParseRuleTokens(lhs, Split(back));
      { RuleTailTokens(rhs, support, confidence); }
      ParseRuleTokens(lhs, tokens);
      { RuleTokensValues(lhs, rhs, support, confidence); }
      var c := ParseConfidence(confidence);
      if c.Ok? then Ok(RuleFields(lhs, rhs, support, c.value)) else Err(c.error);
    }
  }

  lemma RuleTokensValues(lhs: seq<int>, rhs: int, support: int, confidence: string)
    ensures var c := ParseConfidence(confidence);
      ParseRuleTokens(lhs, [IntToString(rhs), "#SUP:", IntToString(support), "#CONF:", confidence])
      == if c.Ok? then Ok(RuleFields(lhs, rhs, support, c.value)) else Err(c.error)
  {
    var tokens := [IntToString(rhs), "#SUP:", IntToString(support), "#CONF:", confidence];
    ParseNumeral(rhs);
    ParseNumeral(support);
    assert tokens[0] == IntToString(rhs) && tokens[2] == IntToString(support) && tokens[4] == confidence;
  }

  lemma RuleHalves(lhs: seq<int>, rhs: int, support: int, confidence: string)
    requires Lacks(confidence, '=')
    ensures SplitOn(FormatRuleLine(lhs, rhs, support, confidence), "==>")
      == [JoinWith(Decimals(lhs), ",") + " ", RuleTail(rhs, support, confidence)]
  {
    var front := JoinWith(Decimals(lhs), ",") + " ";
    var back := RuleTail(rhs, support, confidence);
    RuleLineParts(front, back, JoinWith(Decimals(lhs), ","));
    RuleFrontLacks(lhs);
    RuleTailLacks(rhs, support, confidence);
    SplitOnAfter(front, "==>", back);
    Absent(back, "==>");
  }

  lemma RuleLineParts(front: string, back: string, joined: string)
    requires front == joined + " "
    ensures joined + " ==>" + back == front + ("==>" + back)
  {
    assert " ==>" == " " + "==>";
  }

  lemma RuleFrontLacks(lhs: seq<int>)
    ensures Lacks(JoinWith(Decimals(lhs), ",") + " ", '=')
  {
    DecimalsLack(lhs, '=');
    LacksJoin(Decimals(lhs), ",", '=');
    LacksConcat(JoinWith(Decimals(lhs), ","), " ", '=');
  }

  lemma RuleTailLacks(rhs: int, support: int, confidence: string)
    requires Lacks(confidence, '=')
    ensures Lacks(RuleTail(rhs, support, confidence), '=')
  {
    LacksConcat(" " + IntToString(rhs) + " #SUP: " + IntToString(support) + " #CONF: ", confidence, '=');
    LacksConcat(" " + IntToString(rhs) + " #SUP: " + IntToString(support) + " #CONF: " + confidence, "\n", '=');
    LacksConcat(" " + IntToString(rhs) + " #SUP: " + IntToString(support), " #CONF: ", '=');
    LacksConcat(" " + IntToString(rhs) + " #SUP: ", IntToString(support), '=');
    LacksConcat(" " + IntToString(rhs), " #SUP: ", '=');
    LacksConcat(" ", IntToString(rhs), '=');
  }

  lemma RuleLhsParts(lhs: seq<int>)
    requires |lhs| >= 1
    ensures ParseInts(SplitOn(JoinWith(Decimals(lhs), ",") + " ", ",")) == Ok(lhs)
  {
    var parts := Decimals(lhs);
    DecimalsLack(lhs, ',');
    assert ","[0] == ',' && Lacks(" ", ',') && AllSpace(" ");
    SplitOnJoined(parts, ",", " ");
    assert SplitOn(JoinWith(parts, ",") + " ", ",") == parts[..|parts| - 1] + [parts[|parts| - 1] + " "];
    ParseNumeralsPadded(lhs, " ");
  }

  /** With the confidence written with two decimals, as the mining tool writes it, the parsed
      confidence is exactly the written one. */
  lemma ParseFormattedRuleHundredths(lhs: seq<int>, rhs: int, support: int, confidence: nat)
    requires |lhs| >= 1 && confidence < Pow2(FractionBits)
    ensures ParseRuleLine(FormatRuleLine(lhs, rhs, support, FormatHundredths(confidence)))
      == Ok(RuleFields(lhs, rhs, support, confidence))
  {
    var c := FormatHundredths(confidence);
    HundredthsToken(confidence);
    ParseFormatHundredths(confidence);
    HundredfoldFinite(confidence);
    assert ParseConfidence(c) == Ok(confidence);
    ParseFormattedRule(lhs, rhs, support, c);
  }

  /** A formatted confidence is one token of digits and a point. */
  lemma HundredthsToken(confidence: nat)
    ensures FormatHundredths(confidence) != [] && NoSpace(FormatHundredths(confidence))
    ensures Lacks(FormatHundredths(confidence), '=')
  {
    var c := FormatHundredths(confidence);
    var whole := NatToString(confidence / 100);
    assert c == whole + "." + [DigitChar(confidence % 100 / 10), DigitChar(confidence % 100 % 10)];
    assert forall i | 0 <= i < |c| :: IsDigit(c[i]) || c[i] == '.';
  }

  /** A line without "==>" is rejected. */
  lemma RuleLineNeedsArrow(line: string)
    requires !Contains(line, "==>")
    ensures ParseRuleLine(line).Err?
  {
    assert IndexOf(line, "==>") == None;
  }

  lemma ItemSetHalves(items: seq<int>, support: int)
    ensures SplitOn(FormatItemSetLine(items, support), "#SUP:")
      == [JoinWith(Decimals(items), " ") + " ", " " + IntToString(support) + "\n"]
  {
    var front := JoinWith(Decimals(items), " ") + " ";
    var back := " " + IntToString(support) + "\n";
    ItemSetLineParts(items, support);
    ItemSetPartsLack(items, support);
    SplitOnAfter(front, "#SUP:", back);
    Absent(back, "#SUP:");
  }

  lemma ItemSetLineParts(items: seq<int>, support: int)
    ensures FormatItemSetLine(items, support)
      == (JoinWith(Decimals(items), " ") + " ") + ("#SUP:" + (" " + IntToString(support) + "\n"))
  {
    assert " #SUP: " == " " + ("#SUP:" + " ");
    Regroup6(JoinWith(Decimals(items), " "), " ", "#SUP:", " ", IntToString(support), "\n");
  }

  lemma Regroup6<T>(j: seq<T>, a: seq<T>, b: seq<T>, c: seq<T>, t: seq<T>, n: seq<T>)
    ensures j + (a + (b + c)) + t + n == (j + a) + (b + (c + t + n))
  {
  }

  lemma ItemSetPartsLack(items: seq<int>, support: int)
    ensures Lacks(JoinWith(Decimals(items), " ") + " ", '#')
    ensures Lacks(" " + IntToString(support) + "\n", '#')
  {
    DecimalsLack(items, '#');
    LacksJoin(Decimals(items), " ", '#');
    LacksConcat(JoinWith(Decimals(items), " "), " ", '#');
    LacksConcat(" ", IntToString(support), '#');
    LacksConcat(" " + IntToString(support), "\n", '#');
  }

  lemma ItemSetItems(items: seq<int>)
    ensures ParseInts(Split(JoinWith(Decimals(items), " ") + " ")) == Ok(items)
  {
    assert forall i | 0 <= i < |Decimals(items)| :: Decimals(items)[i] != [] && NoSpace(Decimals(items)[i]);
    SplitJoined(Decimals(items), " ");
    ParseNumerals(items);
  }

  /** Parsing an itemset line the mining tool wrote gives back its items in order and its support. */
  lemma ParseFormattedItemSet(items: seq<int>, support: int)
    ensures ParseItemSetLine(FormatItemSetLine(items, support)) == Ok(ItemSetFields(items, support))
  {
    ItemSetHalves(items, support);
    ItemSetItems(items);
    ParseIntOfIntToString(" ", support, "\n");
  }

  // ---------------------------------------------------------------- parse_rules and parse_itemsets

  /** Reading a file line by line: the parsed lines in order, or the exception of the first line
      that raises. */
  function ParseLines<F>(parse: string -> Result<F, ParseError>, lines: seq<string>): Result<seq<F>, ParseError> {
    if lines == [] then Ok([])
    else
      match ParseLines(parse, lines[..|lines| - 1])
      case Err(e) => Err(e)
      case Ok(fs) =>
        match parse(lines[|lines| - 1])
        case Err(e) => Err(e)
        case Ok(f) => Ok(fs + [f])
  }

  lemma ParseLinesExtends<F>(parse: string -> Result<F, ParseError>, lines: seq<string>, i: nat, fs: seq<F>, f: F)
    requires i < |lines| && ParseLines(parse, lines[..i]) == Ok(fs) && parse(lines[i]) == Ok(f)
    ensures ParseLines(parse, lines[..i + 1]) == Ok(fs + [f])
  {
    assert lines[..i + 1][..i] == lines[..i];
  }

  lemma ParseLinesFails<F>(parse: string -> Result<F, ParseError>, lines: seq<string>, i: nat, e: ParseError)
    requires i < |lines| && ParseLines(parse, lines[..i]).Ok? && parse(lines[i]) == Err(e)
    ensures ParseLines(parse, lines) == Err(e)
  {
    assert lines[..i + 1][..i] == lines[..i];
    ParseLinesStops(parse, lines, i + 1);
  }

  /** Once a line has raised, the later lines are never read. */
  lemma {:induction false} ParseLinesStops<F>(parse: string -> Result<F, ParseError>, lines: seq<string>, i: nat)
    requires i <= |lines| && ParseLines(parse, lines[..i]).Err?
    ensures ParseLines(parse, lines) == ParseLines(parse, lines[..i])
    decreases |lines|
  {
    if i == |lines| {
      assert lines[..i] == lines;
    } else {
      var init := lines[..|lines| - 1];
      assert init[..i] == lines[..i];
      ParseLinesStops(parse, init, i);
    }
  }

  /** The first line that raises fails the whole file with its exception. */
  predicate FirstFailure<F>(parse: string -> Result<F, ParseError>, lines: seq<string>, e: ParseError) {
    exists i | 0 <= i < |lines| :: (forall j | 0 <= j < i :: parse(lines[j]).Ok?) && parse(lines[i]) == Err(e)
  }

  /** A file reads as one value per line, each the parse of its line, or it fails with the
      exception of its first failing line. */
  lemma {:induction false} ParseLinesMeaning<F>(parse: string -> Result<F, ParseError>, lines: seq<string>)
    ensures ParseLines(parse, lines).Ok? ==>
              && |ParseLines(parse, lines).value| == |lines|
              && forall i | 0 <= i < |lines| :: parse(lines[i]) == Ok(ParseLines(parse, lines).value[i])
    ensures ParseLines(parse, lines).Err? ==> FirstFailure(parse, lines, ParseLines(parse, lines).error)
    decreases |lines|
  {
    if lines != [] {
      var init, last := lines[..|lines| - 1], lines[|lines| - 1];
      ParseLinesMeaning(parse, init);
      match ParseLines(parse, init)
      case Err(e) =>
        var i :| 0 <= i < |init| && (forall j | 0 <= j < i :: parse(init[j]).Ok?) && parse(init[i]) == Err(e);
        assert forall j | 0 <= j < i :: init[j] == lines[j];
        assert init[i] == lines[i];
      case Ok(fs) =>
        assert forall j | 0 <= j < |init| :: init[j] == lines[j] && parse(lines[j]).Ok?;
        match parse(last)
        case Err(e) =>
          assert (forall j | 0 <= j < |init| :: parse(lines[j]).Ok?) && parse(lines[|init|]) == Err(e);
        case Ok(f) =>
    }
  }

  /** The constructor arguments of a Rule. */
  function Fields(r: Rule): RuleFields {
    RuleFields(r.lhs, r.rhs, r.support, r.confidence)
  }

  function RulesFields(rules: seq<Rule>): (fs: seq<RuleFields>)
    ensures |fs| == |rules| && forall k | 0 <= k < |rules| :: fs[k] == Fields(rules[k])
  {
    seq(|rules|, k requires 0 <= k < |rules| => Fields(rules[k]))
  }

  function ItemSetsFields(itemsets: seq<FrequentItemSet>): (fs: seq<ItemSetFields>)
    ensures |fs| == |itemsets| && forall k | 0 <= k < |itemsets| :: fs[k] == ItemSetFields(itemsets[k].items, itemsets[k].support)
  {
    seq(|itemsets|, k requires 0 <= k < |itemsets| => ItemSetFields(itemsets[k].items, itemsets[k].support))
  }

  lemma RulesFieldsSnoc(rules: seq<Rule>, rule: Rule)
    ensures RulesFields(rules + [rule]) == RulesFields(rules) + [Fields(rule)]
  {
  }

  lemma ItemSetsFieldsSnoc(itemsets: seq<FrequentItemSet>, itemset: FrequentItemSet)
    ensures ItemSetsFields(itemsets + [itemset]) == ItemSetsFields(itemsets) + [ItemSetFields(itemset.items, itemset.support)]
  {
  }

  /** A Rule as its constructor leaves it: the id built from its fields, no sequences yet. */
  predicate NewRule(rule: Rule)
    reads rule
  {
    rule.id == RuleId(rule.lhs, rule.rhs, rule.support, rule.confidence) && rule.seqIds == [] && rule.supportPercentage == Unset
  }

  /** A FrequentItemSet as its constructor leaves it. */
  predicate NewItemSet(itemset: FrequentItemSet)
    reads itemset
  {
    itemset.id == ItemSetId(itemset.items, itemset.support) && itemset.seqIds == [] && itemset.supportPercentage == Unset
  }

  /** parse_rules: one new Rule per line, in line order; the first line that does not parse
      fails the file. */
  method ParseRules(lines: seq<string>) returns (r: Result<seq<Rule>, ParseError>)
    ensures r.Ok? ==> ParseLines(ParseRuleLine, lines) == Ok(RulesFields(r.value))
    ensures r.Ok? ==> forall rule | rule in r.value :: fresh(rule) && NewRule(rule)
    ensures r.Err? ==> ParseLines(ParseRuleLine, lines) == Err(r.error)
  {
    var rules: seq<Rule> := [];
    for i := 0 to |lines|
      invariant ParseLines(ParseRuleLine, lines[..i]) == Ok(RulesFields(rules))
      invariant forall j | 0 <= j < |rules| :: fresh(rules[j]) && NewRule(rules[j])
    {
      var parsed := ParseRuleLine(lines[i]);
      if parsed.Err? {
        ParseLinesFails(ParseRuleLine, lines, i, parsed.error);
        return Err(parsed.error);
      }
      var f := parsed.value;
      var rule := new Rule(f.lhs, f.rhs, f.support, f.confidence);
      RulesFieldsSnoc(rules, rule);
      ParseLinesExtends(ParseRuleLine, lines, i, RulesFields(rules), Fields(rule));
      var next := rules + [rule];
      forall j | 0 <= j < |next| ensures fresh(next[j]) && NewRule(next[j]) {
        if j < |rules| {
          assert next[j] == rules[j];
        }
      }
      rules := next;
    }
    assert lines[..|lines|] == lines;
    return Ok(rules);
  }

  /** parse_itemsets: one new FrequentItemSet per line, in line order; the first line that does
      not parse fails the file. */
  method ParseItemSets(lines: seq<string>) returns (r: Result<seq<FrequentItemSet>, ParseError>)
    ensures r.Ok? ==> ParseLines(ParseItemSetLine, lines) == Ok(ItemSetsFields(r.value))
    ensures r.Ok? ==> forall itemset | itemset in r.value :: fresh(itemset) && NewItemSet(itemset)
    ensures r.Err? ==> ParseLines(ParseItemSetLine, lines) == Err(r.error)
  {
    var itemsets: seq<FrequentItemSet> := [];
    for i := 0 to |lines|
      invariant ParseLines(ParseItemSetLine, lines[..i]) == Ok(ItemSetsFields(itemsets))
      invariant forall j | 0 <= j < |itemsets| :: fresh(itemsets[j]) && NewItemSet(itemsets[j])
    {
      var parsed := ParseItemSetLine(lines[i]);
      if parsed.Err? {
        ParseLinesFails(ParseItemSetLine, lines, i, parsed.error);
        return Err(parsed.error);
      }
      var f := parsed.value;
      var itemset := new FrequentItemSet(f.items, f.support);
      ItemSetsFieldsSnoc(itemsets, itemset);
      ParseLinesExtends(ParseItemSetLine, lines, i, ItemSetsFields(itemsets), f);
      var next := itemsets + [itemset];
      forall j | 0 <= j < |next| ensures fresh(next[j]) && NewItemSet(next[j]) {
        if j < |itemsets| {
          assert next[j] == itemsets[j];
        }
      }
      itemsets := next;
    }
    assert lines[..|lines|] == lines;
    return Ok(itemsets);
  }

  // ---------------------------------------------------------------- remove_redundant_rules

  /** `w` makes `r` redundant: a different id, the same RHS, support and confidence, and as many
      positions of r's LHS holding an item of w's LHS as w's LHS has items. */
  predicate Dominates(w: Rule, r: Rule) {
    r.id != w.id && w.rhs == r.rhs && CountIn(r.lhs, w.lhs) == |w.lhs|
    && w.support == r.support && w.confidence == r.confidence
  }

  /** The ids the inner loop appends while comparing `r` with each of `ws` in turn. */
  function MarksFor(r: Rule, ws: seq<Rule>): seq<string> {
    if ws == [] then []
    else MarksFor(r, ws[..|ws| - 1]) + (if Dominates(ws[|ws| - 1], r) then [r.id] else [])
  }

  /** redundant_ids after the outer loop has visited `rs`, each compared with all of `all`. */
  function RedundantIds(rs: seq<Rule>, all: seq<Rule>): seq<string> {
    if rs == [] then [] else RedundantIds(rs[..|rs| - 1], all) + MarksFor(rs[|rs| - 1], all)
  }

  /** [rule for rule in rs if rule.id not in ids]. */
  function Unmarked(rs: seq<Rule>, ids: seq<string>): seq<Rule> {
    if rs == [] then []
    else Unmarked(rs[..|rs| - 1], ids) + (if rs[|rs| - 1].id in ids then [] else [rs[|rs| - 1]])
  }

  /** The positions of `rs` that Unmarked keeps. */
  function UnmarkedPositions(rs: seq<Rule>, ids: seq<string>): (p: seq<nat>)
    ensures forall k | 0 <= k < |p| :: p[k] < |rs|
  {
    if rs == [] then []
    else UnmarkedPositions(rs[..|rs| - 1], ids) + (if rs[|rs| - 1].id in ids then [] else [|rs| - 1])
  }

  method RemoveRedundantRules(rules: seq<Rule>) returns (kept: seq<Rule>)
    ensures kept == Unmarked(rules, RedundantIds(rules, rules))
  {
    var redundantIds: seq<string> := [];
    var i := 0;
    while i < |rules|
      invariant 0 <= i <= |rules|
      invariant redundantIds == RedundantIds(rules[..i], rules)
    {
      var j := 0;
      while j < |rules|
        invariant 0 <= j <= |rules|
        invariant redundantIds == RedundantIds(rules[..i], rules) + MarksFor(rules[i], rules[..j])
      {
        var rule, rule1 := rules[i], rules[j];
        assert rules[..j + 1][..j] == rules[..j];
        assert MarksFor(rule, rules[..j + 1]) == MarksFor(rule, rules[..j]) + (if Dominates(rule1, rule) then [rule.id] else []);
        if rule.id != rule1.id {
          if rule1.rhs == rule.rhs && CountIn(rule.lhs, rule1.lhs) == |rule1.lhs|
             && rule1.support == rule.support && rule1.confidence == rule.confidence {
            redundantIds := redundantIds + [rule.id];
          }
        }
        j := j + 1;
      }
      assert rules[..j] == rules;
      assert rules[..i + 1][..i] == rules[..i];
      i := i + 1;
    }
    assert rules[..i] == rules;
    kept := KeepUnmarked(rules, redundantIds);
  }

  /** The closing list comprehension of remove_redundant_rules. */
  method KeepUnmarked(rules: seq<Rule>, ids: seq<string>) returns (kept: seq<Rule>)
    ensures kept == Unmarked(rules, ids)
  {
    kept := [];
    var i := 0;
    while i < |rules|
      invariant 0 <= i <= |rules|
      invariant kept == Unmarked(rules[..i], ids)
    {
      assert rules[..i + 1][..i] == rules[..i];
      if rules[i].id !in ids {
        kept := kept + [rules[i]];
      }
      i := i + 1;
    }
    assert rules[..i] == rules;
  }

  lemma {:induction false} MarksForMembers(r: Rule, ws: seq<Rule>, id: string)
    ensures id in MarksFor(r, ws) <==> id == r.id && exists w | w in ws :: Dominates(w, r)
    decreases |ws|
  {
    if ws != [] {
      var front := ws[..|ws| - 1];
      MarksForMembers(r, front, id);
      assert ws == front + [ws[|ws| - 1]];
      if id == r.id && (exists w | w in ws :: Dominates(w, r)) && !Dominates(ws[|ws| - 1], r) {
        var w :| w in ws && Dominates(w, r);
        assert w in front;
      }
    }
  }

  predicate MarkedBy(rs: seq<Rule>, all: seq<Rule>, id: string) {
    exists y, w | y in rs && w in all :: y.id == id && Dominates(w, y)
  }

  lemma {:induction false} RedundantIdsMembers(rs: seq<Rule>, all: seq<Rule>, id: string)
    ensures id in RedundantIds(rs, all) <==> MarkedBy(rs, all, id)
    decreases |rs|
  {
    if rs != [] {
      var front, last := rs[..|rs| - 1], rs[|rs| - 1];
      RedundantIdsMembers(front, all, id);
      MarksForMembers(last, all, id);
      assert RedundantIds(rs, all) == RedundantIds(front, all) + MarksFor(last, all);
      MarkedBySplit(rs, all, id);
    }
  }

  lemma MarkedBySplit(rs: seq<Rule>, all: seq<Rule>, id: string)
    requires rs != []
    ensures MarkedBy(rs, all, id) <==>
      (MarkedBy(rs[..|rs| - 1], all, id) || (id == rs[|rs| - 1].id && exists w | w in all :: Dominates(w, rs[|rs| - 1])))
  {
    var front, last := rs[..|rs| - 1], rs[|rs| - 1];
    assert rs == front + [last];
    if MarkedBy(rs, all, id) {
      var y, w :| y in rs && w in all && y.id == id && Dominates(w, y);
      if y != last { assert y in front; }
    }
    if MarkedBy(front, all, id) {
      var y, w :| y in front && w in all && y.id == id && Dominates(w, y);
      assert y in rs;
    }
  }

  lemma {:induction false} UnmarkedMembers(rs: seq<Rule>, ids: seq<string>, x: Rule)
    ensures x in Unmarked(rs, ids) <==> x in rs && x.id !in ids
    decreases |rs|
  {
    if rs != [] {
      UnmarkedMembers(rs[..|rs| - 1], ids, x);
      assert rs == rs[..|rs| - 1] + [rs[|rs| - 1]];
    }
  }

  lemma {:induction false} UnmarkedEmbeds(rs: seq<Rule>, ids: seq<string>)
    ensures Embeds(Unmarked(rs, ids), rs, UnmarkedPositions(rs, ids))
    decreases |rs|
  {
    if rs != [] {
      var front := rs[..|rs| - 1];
      UnmarkedEmbeds(front, ids);
      var k, p := Unmarked(front, ids), UnmarkedPositions(front, ids);
      assert forall m | 0 <= m < |p| :: p[m] < |front| && rs[p[m]] == front[p[m]];
    }
  }

  /** remove_redundant_rules keeps rules in their input order, dropping some. */
  lemma KeptInOrder(rules: seq<Rule>)
    ensures IsSubsequence(Unmarked(rules, RedundantIds(rules, rules)), rules)
  {
    UnmarkedEmbeds(rules, RedundantIds(rules, rules));
  }

  /** A rule survives exactly when no rule of the input, dropped or not, dominates any rule that
      shares its id. */
  lemma KeptIff(rules: seq<Rule>, x: Rule)
    ensures x in Unmarked(rules, RedundantIds(rules, rules))
      <==> x in rules && !MarkedBy(rules, rules, x.id)
  {
    UnmarkedMembers(rules, RedundantIds(rules, rules), x);
    RedundantIdsMembers(rules, rules, x.id);
  }

  /** With unique ids, a rule is dropped exactly when some other rule dominates it. */
  lemma KeptIffUndominated(rules: seq<Rule>, x: Rule)
    requires forall i, j | 0 <= i < j < |rules| :: rules[i].id != rules[j].id
    requires x in rules
    ensures x in Unmarked(rules, RedundantIds(rules, rules)) <==> !exists w | w in rules :: Dominates(w, x)
  {
    KeptIff(rules, x);
    if MarkedBy(rules, rules, x.id) {
      var y, w :| y in rules && w in rules && y.id == x.id && Dominates(w, y);
      var i, j :| 0 <= i < |rules| && 0 <= j < |rules| && rules[i] == x && rules[j] == y;
      assert i == j;
    }
  }

  /** With duplicate-free LHS lists, domination is the textbook redundancy: equal RHS, support and
      confidence, and the dominating LHS a subset of the dominated LHS. */
  lemma DominatesMeaning(w: Rule, r: Rule)
    requires Distinct(w.lhs) && Distinct(r.lhs)
    ensures Dominates(w, r) <==>
      (r.id != w.id && w.rhs == r.rhs && w.support == r.support && w.confidence == r.confidence
       && ToSet(w.lhs) <= ToSet(r.lhs))
  {
    CountInCovers(r.lhs, w.lhs);
  }

  /** [1, 2] ==> 3 and [2, 1] ==> 3 with equal support and confidence eliminate each other. */
  lemma MutualElimination(a: Rule, b: Rule)
    requires a.lhs == [1, 2] && b.lhs == [2, 1] && a.rhs == 3 && b.rhs == 3
    requires a.support == b.support && a.confidence == b.confidence
    requires a.id == RuleId(a.lhs, a.rhs, a.support, a.confidence) && b.id == RuleId(b.lhs, b.rhs, b.support, b.confidence)
    ensures Unmarked([a, b], RedundantIds([a, b], [a, b])) == []
  {
    Numerals();
    assert IntToString(2) == "2" by { assert NatToString(2) == [DigitChar(2)]; }
    ConcatIntsAppend([1], 2);
    ConcatIntsAppend([2], 1);
    assert Decimals([1]) == ["1"] && Decimals([2]) == ["2"];
    assert a.id[0] == '1' && b.id[0] == '2';
    assert Dominates(b, a) && Dominates(a, b);
    KeptIff([a, b], a);
    KeptIff([a, b], b);
    var kept := Unmarked([a, b], RedundantIds([a, b], [a, b]));
    if kept != [] {
      UnmarkedMembers([a, b], RedundantIds([a, b], [a, b]), kept[0]);
    }
  }

  /** Because ids collide, a rule nobody dominates is still dropped when a dominated rule has the
      same id: [1, 23] ==> 5 shares its id with [12, 3] ==> 5, which [12] ==> 5 dominates. */
  lemma CollisionDropsUndominated(x: Rule, y: Rule, w: Rule)
    requires x.lhs == [1, 23] && y.lhs == [12, 3] && w.lhs == [12]
    requires x.rhs == 5 && y.rhs == 5 && w.rhs == 5
    requires x.support == y.support == w.support && x.confidence == y.confidence == w.confidence
    requires x.id == RuleId(x.lhs, x.rhs, x.support, x.confidence) && y.id == RuleId(y.lhs, y.rhs, y.support, y.confidence)
    requires w.id == RuleId(w.lhs, w.rhs, w.support, w.confidence)
    ensures !Dominates(w, x) && !Dominates(y, x) && Dominates(w, y)
    ensures x !in Unmarked([x, y, w], RedundantIds([x, y, w], [x, y, w]))
  {
    CollisionDominance(x, y, w);
    assert y in [x, y, w] && w in [x, y, w];
    assert MarkedBy([x, y, w], [x, y, w], x.id);
    KeptIff([x, y, w], x);
  }

  lemma CollisionDominance(x: Rule, y: Rule, w: Rule)
    requires x.lhs == [1, 23] && y.lhs == [12, 3] && w.lhs == [12]
    requires x.rhs == 5 && y.rhs == 5 && w.rhs == 5
    requires x.support == y.support == w.support && x.confidence == y.confidence == w.confidence
    requires x.id == RuleId(x.lhs, x.rhs, x.support, x.confidence) && y.id == RuleId(y.lhs, y.rhs, y.support, y.confidence)
    requires w.id == RuleId(w.lhs, w.rhs, w.support, w.confidence)
    ensures x.id == y.id && !Dominates(w, x) && !Dominates(y, x) && Dominates(w, y)
  {
    RuleIdCollision(5, x.support, x.confidence);
    Numerals();
    assert Decimals([12]) == ["12"];
    assert ConcatInts([12]) == "12";
    assert ConcatInts([12, 3]) == "123" by { ConcatIntsAppend([12], 3); }
    assert w.id == "12" + IntToString(5) + IntToString(x.support) + IntToString(x.confidence);
    assert y.id == "123" + IntToString(5) + IntToString(x.support) + IntToString(x.confidence);
    assert w.id[2] != y.id[2];
    assert CountIn([12, 3], [12]) == 1;
    assert CountIn([1, 23], [12]) == 0;
  }

  // ---------------------------------------------------------------- get_sequences_per_*

  /** A row of the sequence table: its 'Turnaround ID' and its coded 'Sequence'. */
  datatype SequenceRow = SequenceRow(id: int, events: seq<int>)

  /** The per-row test of get_sequences_per_rule (a rule) or get_sequences_per_fis (an itemset). */
  datatype Test = Precedes(lhs: seq<int>, rhs: int) | Covers(items: seq<int>)

  function RuleTest(r: Rule): Test { Precedes(r.lhs, r.rhs) }

  function ItemSetTest(s: FrequentItemSet): Test { Covers(s.items) }

  /** For a rule: the RHS occurs, as many distinct events lie in the LHS as the LHS is long, and
      each LHS item first occurs before the RHS first occurs. For an itemset: as many distinct
      events lie in the itemset as it is long. */
  predicate Matches(t: Test, events: seq<int>) {
    match t
    case Precedes(lhs, rhs) =>
      rhs in events && |ToSet(events) * ToSet(lhs)| == |lhs|
      && forall k | 0 <= k < |lhs| :: FirstIndex(events, lhs[k]) < FirstIndex(events, rhs)
    case Covers(items) =>
      |ToSet(events) * ToSet(items)| == |items|
  }

  /** The ids of the rows that pass the test, in table order. */
  function SupportingIds(rows: seq<SequenceRow>, t: Test): seq<int> {
    if rows == [] then []
    else SupportingIds(rows[..|rows| - 1], t) + (if Matches(t, rows[|rows| - 1].events) then [rows[|rows| - 1].id] else [])
  }

  /** The inner loop over the sequence rows: the ids of the rows the pattern occurs in, in row
      order. */
  method CollectIds(rows: seq<SequenceRow>, t: Test) returns (seqIds: seq<int>)
    ensures seqIds == SupportingIds(rows, t)
  {
    seqIds := [];
    for j := 0 to |rows|
      invariant seqIds == SupportingIds(rows[..j], t)
    {
      if Matches(t, rows[j].events) {
        seqIds := seqIds + [rows[j].id];
      }
      assert rows[..j + 1][..j] == rows[..j];
    }
    assert rows[..|rows|] == rows;
  }

  function RowIds(rows: seq<SequenceRow>): (ids: seq<int>)
    ensures |ids| == |rows| && forall i | 0 <= i < |rows| :: ids[i] == rows[i].id
  {
    if rows == [] then [] else RowIds(rows[..|rows| - 1]) + [rows[|rows| - 1].id]
  }

  function SupportingPositions(rows: seq<SequenceRow>, t: Test): (p: seq<nat>)
    ensures forall k | 0 <= k < |p| :: p[k] < |rows|
  {
    if rows == [] then []
    else SupportingPositions(rows[..|rows| - 1], t) + (if Matches(t, rows[|rows| - 1].events) then [|rows| - 1] else [])
  }

  /** A rule matches exactly when its LHS has no repeated item, its RHS occurs, and every LHS item
      occurs and first occurs before the first RHS. */
  lemma RuleMatchesMeaning(lhs: seq<int>, rhs: int, events: seq<int>)
    ensures Matches(Precedes(lhs, rhs), events) <==>
      (Distinct(lhs) && rhs in events
       && forall k | 0 <= k < |lhs| :: lhs[k] in events && FirstIndex(events, lhs[k]) < FirstIndex(events, rhs))
  {
    FullHits(ToSet(events), lhs);
    if Distinct(lhs) && rhs in events && forall k | 0 <= k < |lhs| :: lhs[k] in events {
      assert ToSet(lhs) <= ToSet(events);
    }
    if Matches(Precedes(lhs, rhs), events) {
      forall k | 0 <= k < |lhs| ensures lhs[k] in events {
        assert lhs[k] in ToSet(lhs);
      }
    }
  }

  /** An itemset matches exactly when it has no repeated item and all its items occur. */
  lemma ItemSetMatchesMeaning(items: seq<int>, events: seq<int>)
    ensures Matches(Covers(items), events) <==> Distinct(items) && forall k | 0 <= k < |items| :: items[k] in events
  {
    FullHits(ToSet(events), items);
    if Distinct(items) && forall k | 0 <= k < |items| :: items[k] in events {
      assert ToSet(items) <= ToSet(events);
    }
    if Matches(Covers(items), events) {
      forall k | 0 <= k < |items| ensures items[k] in events {
        assert items[k] in ToSet(items);
      }
    }
  }

  /** Only first occurrences count: [1] ==> 2 does not match 2, 1, 2 although a 1 precedes a 2. */
  lemma FirstOccurrencesOnly()
    ensures !Matches(Precedes([1], 2), [2, 1, 2])
  {
    assert FirstIndex([2, 1, 2], 2) == 0;
  }

  lemma {:induction false} SupportingIdsEmbeds(rows: seq<SequenceRow>, t: Test)
    ensures Embeds(SupportingIds(rows, t), RowIds(rows), SupportingPositions(rows, t))
    decreases |rows|
  {
    if rows != [] {
      var front := rows[..|rows| - 1];
      SupportingIdsEmbeds(front, t);
      var p := SupportingPositions(front, t);
      assert forall m | 0 <= m < |p| :: p[m] < |front| && rows[p[m]] == front[p[m]];
    }
  }

  lemma {:induction false} SupportingIdsMembers(rows: seq<SequenceRow>, t: Test, x: int)
    ensures x in SupportingIds(rows, t) <==> exists i | 0 <= i < |rows| :: rows[i].id == x && Matches(t, rows[i].events)
    decreases |rows|
  {
    if rows != [] {
      var front := rows[..|rows| - 1];
      SupportingIdsMembers(front, t, x);
      if exists i | 0 <= i < |rows| :: rows[i].id == x && Matches(t, rows[i].events) {
        var i :| 0 <= i < |rows| && rows[i].id == x && Matches(t, rows[i].events);
        if i < |rows| - 1 { assert front[i] == rows[i]; }
      }
      if x in SupportingIds(front, t) {
        var i :| 0 <= i < |front| && front[i].id == x && Matches(t, front[i].events);
        assert rows[i] == front[i];
      }
    }
  }

  /** The supporting ids are the ids of the rows that pass the test, kept in table order. */
  lemma SupportingIdsMeaning(rows: seq<SequenceRow>, t: Test)
    ensures IsSubsequence(SupportingIds(rows, t), RowIds(rows))
    ensures forall x :: x in SupportingIds(rows, t) <==> exists i | 0 <= i < |rows| :: rows[i].id == x && Matches(t, rows[i].events)
  {
    SupportingIdsEmbeds(rows, t);
    forall x ensures x in SupportingIds(rows, t) <==> exists i | 0 <= i < |rows| :: rows[i].id == x && Matches(t, rows[i].events) {
      SupportingIdsMembers(rows, t, x);
    }
  }

  /** get_sequences_per_rule: in airport mode each rule's seq_ids become the supporting rows; in
      every mode its support_percentage becomes support over the number of rows. With no rows the
      division fails on the first rule, after its seq_ids were replaced. */
  method GetSequencesPerRule(rules: seq<Rule>, rows: seq<SequenceRow>, airport: bool) returns (ok: bool)
    modifies set r | r in rules
    ensures ok <==> |rows| > 0 || |rules| == 0
    ensures ok ==> forall r | r in rules ::
      r.seqIds == (if airport then SupportingIds(rows, RuleTest(r)) else old(r.seqIds))
      && r.supportPercentage == Share(r.support, |rows|)
    ensures !ok ==>
      (rules[0].seqIds == (if airport then [] else old(rules[0].seqIds))
       && rules[0].supportPercentage == old(rules[0].supportPercentage)
       && forall r | r in rules && r != rules[0] :: r.seqIds == old(r.seqIds) && r.supportPercentage == old(r.supportPercentage))
  {
    var i := 0;
    while i < |rules|
      invariant 0 <= i <= |rules| && (|rows| == 0 ==> i == 0)
      invariant forall r | r in rules[..i] ::
        r.seqIds == (if airport then SupportingIds(rows, RuleTest(r)) else old(r.seqIds))
        && r.supportPercentage == Share(r.support, |rows|)
      invariant forall r | r in rules && r !in rules[..i] :: r.seqIds == old(r.seqIds) && r.supportPercentage == old(r.supportPercentage)
    {
      var rule := rules[i];
      if airport {
        var seqIds := CollectIds(rows, RuleTest(rule));
        rule.seqIds := seqIds;
      }
      if |rows| == 0 {
        return false;
      }
      rule.supportPercentage := Share(rule.support, |rows|);
      assert rules[..i + 1] == rules[..i] + [rule];
      i := i + 1;
    }
    assert rules[..i] == rules;
    return true;
  }

  /** get_sequences_per_fis: as get_sequences_per_rule, with the containment test. */
  method GetSequencesPerItemSet(itemsets: seq<FrequentItemSet>, rows: seq<SequenceRow>, airport: bool) returns (ok: bool)
    modifies set s | s in itemsets
    ensures ok <==> |rows| > 0 || |itemsets| == 0
    ensures ok ==> forall s | s in itemsets ::
      s.seqIds == (if airport then SupportingIds(rows, ItemSetTest(s)) else old(s.seqIds))
      && s.supportPercentage == Share(s.support, |rows|)
    ensures !ok ==>
      (itemsets[0].seqIds == (if airport then [] else old(itemsets[0].seqIds))
       && itemsets[0].supportPercentage == old(itemsets[0].supportPercentage)
       && forall s | s in itemsets && s != itemsets[0] :: s.seqIds == old(s.seqIds) && s.supportPercentage == old(s.supportPercentage))
  {
    var i := 0;
    while i < |itemsets|
      invariant 0 <= i <= |itemsets| && (|rows| == 0 ==> i == 0)
      invariant forall s | s in itemsets[..i] ::
        s.seqIds == (if airport then SupportingIds(rows, ItemSetTest(s)) else old(s.seqIds))
        && s.supportPercentage == Share(s.support, |rows|)
      invariant forall s | s in itemsets && s !in itemsets[..i] :: s.seqIds == old(s.seqIds) && s.supportPercentage == old(s.supportPercentage)
    {
      var itemset := itemsets[i];
      if airport {
        var seqIds := CollectIds(rows, ItemSetTest(itemset));
        itemset.seqIds := seqIds;
      }
      if |rows| == 0 {
        return false;
      }
      itemset.supportPercentage := Share(itemset.support, |rows|);
      assert itemsets[..i + 1] == itemsets[..i] + [itemset];
      i := i + 1;
    }
    assert itemsets[..i] == itemsets;
    return true;
  }

  // ---------------------------------------------------------------- get_pattern_by_id

  /** The first pattern whose id equals `id`, or None. */
  method GetPatternById(patterns: seq<Pattern>, id: string) returns (found: Option<Pattern>)
    ensures found.Some? ==> exists i | 0 <= i < |patterns| ::
      patterns[i] == found.value && patterns[i].Id() == id && forall j | 0 <= j < i :: patterns[j].Id() != id
    ensures found.None? ==> forall i | 0 <= i < |patterns| :: patterns[i].Id() != id
  {
    var i := 0;
    while i < |patterns|
      invariant 0 <= i <= |patterns|
      invariant forall j | 0 <= j < i :: patterns[j].Id() != id
    {
      if patterns[i].Id() == id {
        return Some(patterns[i]);
      }
      i := i + 1;
    }
    return None;
  }
}
