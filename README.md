# SeRViz post-processing core, modelled in Dafny

SeRViz mines sequential rules and frequent itemsets from two event data sets: airport turnarounds and Flaredown chronic-disease check-ins. It turns the mining tool's output into matrices and graphs for its front end. This project models the core of that pipeline and proves properties of the model:

- **Pattern classes.** `Rule` (LHS ==> RHS, support, confidence) and `FrequentItemSet` are classes. Their mined values are constants. Their `seqIds` and `supportPercentage` fields are updated in place. The id of each is the concatenation of its numbers. The model proves that this id is ambiguous: `[1, 23]` and `[12, 3]` give the same id.
- **Post-processing.**
  - Parsing the mining tool's rule and itemset lines, with round trips from the tool's line format back to the fields.
  - Removal of redundant rules.
  - Matching patterns against the sequence table: the ids of the rows a rule or an itemset occurs in, and its support share.
  - Lookup of a pattern by id.
  - Redundancy removal keeps a rule exactly when no rule of another id dominates it. Because ids collide, a rule that nothing dominates can still be dropped; `CollisionDropsUndominated` shows one.
- **Rule DAGs.**
  - Each rule goes into the first DAG of the forest that its edges keep acyclic, or into a new DAG. Parent codes are counted along the way.
  - Each DAG is sorted topologically. The model uses Kahn's algorithm, taking the first source in node order each time; it is proved to succeed exactly on acyclic graphs. networkx's `topological_sort` may pick another order, as the "## Left out" line for `RuleDag.CreateMatrices` says.
  - One matrix is built per DAG. In every rule's row the consequent marker sits in the group column and every antecedent marker lies to its left.
- **Itemset grouping.**
  - Itemsets that share items are merged into groups. Proved: the groups partition the itemsets; no two groups share an item; each group is connected by shared items.
  - The itemset matrix rows and the similarity graph's edges.
- **Mining-tool input.**
  - The `-1`/`-2` line format, proved to read back as the record's groups.
  - The input file, one line per record.
  - The tool's argument list.
- **Dictionaries.** The airport and Flaredown code↔event mappings, with the exact code layout proved: four codes per base event, tags after their base.
- **Front-end helpers.**
  - Sequence filters by event code and by event name.
  - Pooling the sequence ids of selected patterns.
  - The rule-pipeline outcome: no sequences, too many rules, processed rules, or division by zero.
  - Matrix headers and the group rows added to rule matrices.
- **Pre-processing.**
  - Time differences in whole units, the overnight filter and performance class.
  - Flight status and daytime buckets.
  - Event order and delta matching.
  - Turnaround event labels.
- **Chronic-disease data set.**
  - Age groups and HBI (Harvey-Bradshaw index) severity classes.
  - The per-user loop that builds each user's sorted per-date tuples and the two mining-tool lines for them.

Two rules whose antecedents hold the same items in different orders dominate each other, and `remove_redundant_rules` drops both, because their ids differ (`PostProcessing.MutualElimination`).

Helper modules:

| module | what it models |
|---|---|
| `Text` | the Python string and number operations the code relies on: `str()`, `int()` of plain ASCII numerals, `float()` of a plain decimal as the nearest binary64 double, `round(·, 2)` of that double, `split()`, `split(sep)`, `join`, and `lower()`/`upper()` on ASCII letters |
| `Seqs` | sequences, sets and counting |
| `Digraphs` | the directed graphs the DAG code builds with networkx; acyclicity; a topological sort by Kahn's algorithm (not networkx's own order) |
| `Wrappers` | `Option` and `Result` |

## Model

| member | source | states |
|---|---|---|
| PatternClasses.Rule.constructor | server/pattern_mining/post_processing/pattern_classes.py:4-11 | a new rule holds the given LHS, RHS, support and confidence, no sequence ids, an unset support share, and the id built from its numbers |
| PatternClasses.FrequentItemSet.constructor | server/pattern_mining/post_processing/pattern_classes.py:32-37 | a new itemset holds its items and support, no sequence ids, an unset share, and its id |
| PatternClasses.RuleIdsAgree | server/pattern_mining/post_processing/pattern_classes.py:24-28 | two rules with the same RHS, support and confidence have equal ids exactly when their LHS digit strings are equal |
| PatternClasses.RuleIdCollision | server/pattern_mining/post_processing/pattern_classes.py:24-28 | the distinct LHS lists [1, 23] and [12, 3] give the same rule id |
| PatternClasses.ItemSetIdCollision | server/pattern_mining/post_processing/pattern_classes.py:47-50 | the distinct itemsets [1, 23] and [12, 3] with equal support get the same id |
| PatternClasses.ConcatIntsAppend | server/pattern_mining/post_processing/pattern_classes.py:27 | the joined digit string of a list grows by the decimal of each item appended |
| PostProcessing.ParseInts | server/pattern_mining/post_processing/post_processing.py:21 | `[int(item) for item in ...]`: either every part parses, giving its value at its position, or some part does not parse and the error is ValueError |
| PostProcessing.ParseRuleLine | server/pattern_mining/post_processing/post_processing.py:19-25 | a successfully parsed rule line has at least one LHS item |
| PostProcessing.ParseRuleTokens | server/pattern_mining/post_processing/post_processing.py:22-25 | parsing the tokens after `==>` keeps the LHS already parsed |
| PostProcessing.ParseFormattedRule | server/pattern_mining/post_processing/post_processing.py:19-25 | a rule line written in the tool's format reads back as its LHS, RHS and support, with the confidence `round(float(token), 2)` gives for the written token; a token `float()` rejects gives ValueError; OverflowError comes when `float()` gives inf, and also when the finite confidence is so large (2^1024 − 2^970 hundredths or more) that `int(confidence * 100)` in the Rule's id meets an inf product |
| PostProcessing.ParseFormattedRuleHundredths | server/pattern_mining/post_processing/post_processing.py:19-25 | with a two-decimal confidence below 2^52 hundredths, a formatted rule line reads back as exactly its fields |
| PostProcessing.RuleLineNeedsArrow | server/pattern_mining/post_processing/post_processing.py:19-22 | a line without `==>` fails to parse (IndexError on `rule[1]`) |
| PostProcessing.RuleHalves | server/pattern_mining/post_processing/post_processing.py:19 | splitting a formatted rule line at `==>` gives exactly the LHS text and the tail |
| PostProcessing.RuleTailTokens | server/pattern_mining/post_processing/post_processing.py:22 | the tail of a rule line splits into RHS, `#SUP:`, support, `#CONF:`, confidence |
| PostProcessing.RuleLhsParts | server/pattern_mining/post_processing/post_processing.py:20-21 | the comma-separated LHS text, trailing space included, parses back to the LHS items |
| PostProcessing.RuleTokensValues | server/pattern_mining/post_processing/post_processing.py:23-25 | the five tail tokens give RHS, support and `round(float(token), 2)` of the confidence token, or the ValueError that `float()` raises, or the OverflowError of an inf `float()` or of a confidence of 2^1024 − 2^970 hundredths or more, whose `confidence * 100` in the id is inf |
| PostProcessing.ParseItemSetLine | server/pattern_mining/post_processing/post_processing.py:41-45 | a line without `#SUP:` is rejected; a parsed line's items are the `int()` of the whitespace tokens before the first `#SUP:`, and its support is the `int()` of the text after it |
| PostProcessing.ParseFormattedItemSet | server/pattern_mining/post_processing/post_processing.py:41-44 | an itemset line written in the tool's format reads back as exactly its items and support |
| PostProcessing.ItemSetHalves | server/pattern_mining/post_processing/post_processing.py:41 | splitting an itemset line at `#SUP:` gives the items text and the support text |
| PostProcessing.ItemSetItems | server/pattern_mining/post_processing/post_processing.py:42-43 | the space-separated items text parses back to the items |
| PostProcessing.ParseNumerals | server/pattern_mining/post_processing/post_processing.py:21 | the decimals of any list of integers parse back to that list |
| PostProcessing.ParseLinesMeaning | server/pattern_mining/post_processing/post_processing.py:15-26 | reading a file gives one value per line, each the parse of its line, or the error of the first line that fails |
| PostProcessing.ParseLinesStops | server/pattern_mining/post_processing/post_processing.py:15-26 | once a line fails, the later lines do not change the result |
| PostProcessing.ParseRules | server/pattern_mining/post_processing/post_processing.py:8-27 | the loop returns fresh rules whose fields are the parses of the lines in order, or the error the first bad line raises, counting the Rule constructor's OverflowError for a confidence whose hundredfold is inf |
| PostProcessing.ParseItemSets | server/pattern_mining/post_processing/post_processing.py:30-46 | the loop returns fresh itemsets whose fields are the parses of the lines in order, or the first line's error |
| PostProcessing.RemoveRedundantRules | server/pattern_mining/post_processing/post_processing.py:49-71 | the double loop collects the ids of the dominated rules; the result is the rules whose id was not collected, in input order |
| PostProcessing.KeepUnmarked | server/pattern_mining/post_processing/post_processing.py:71 | the comprehension keeps exactly the rules whose id is not in the list, in order |
| PostProcessing.MarksForMembers | server/pattern_mining/post_processing/post_processing.py:62-69 | the inner loop appends a rule's id exactly when some rule dominates it |
| PostProcessing.RedundantIdsMembers | server/pattern_mining/post_processing/post_processing.py:60-69 | an id is collected exactly when some rule with that id is dominated by some rule |
| PostProcessing.UnmarkedMembers | server/pattern_mining/post_processing/post_processing.py:71 | a rule is kept exactly when it is in the input and its id is not collected |
| PostProcessing.KeptInOrder | server/pattern_mining/post_processing/post_processing.py:71 | the kept rules are a subsequence of the input |
| PostProcessing.KeptIff | server/pattern_mining/post_processing/post_processing.py:60-71 | a rule is kept exactly when no rule sharing its id is dominated |
| PostProcessing.KeptIffUndominated | server/pattern_mining/post_processing/post_processing.py:60-71 | with distinct ids, a rule is kept exactly when no rule dominates it |
| PostProcessing.DominatesMeaning | server/pattern_mining/post_processing/post_processing.py:64-68 | for duplicate-free LHS lists, the count test is subset inclusion: another id, same RHS, support and confidence, and the dominating LHS inside the dominated one |
| PostProcessing.MutualElimination | server/pattern_mining/post_processing/post_processing.py:60-71 | rules 1,2 ==> 3 and 2,1 ==> 3 with equal support and confidence eliminate each other, so neither is kept |
| PostProcessing.CollisionDropsUndominated | server/pattern_mining/post_processing/post_processing.py:64-71 | 1,23 ==> 5 is dominated by no rule, yet it is dropped because 12,3 ==> 5 has the same id and is dominated by 12 ==> 5 |
| PostProcessing.CollisionDominance | server/pattern_mining/post_processing/post_processing.py:64-69 | for 1,23 ==> 5, 12,3 ==> 5 and 12 ==> 5 with equal values: the first two share an id, neither 12 ==> 5 nor 12,3 ==> 5 dominates the first, and 12 ==> 5 dominates the second |
| PostProcessing.CollectIds | server/pattern_mining/post_processing/post_processing.py:89-96 | the row loop collects the ids of the rows the pattern occurs in, in row order |
| PostProcessing.RuleMatchesMeaning | server/pattern_mining/post_processing/post_processing.py:91-95 | a rule occurs in a sequence when its LHS items are distinct, all occur, the RHS occurs, and each LHS item first occurs before the RHS first occurs |
| PostProcessing.ItemSetMatchesMeaning | server/pattern_mining/post_processing/post_processing.py:116 | an itemset occurs in a sequence exactly when its items are distinct and all occur |
| PostProcessing.FirstOccurrencesOnly | server/pattern_mining/post_processing/post_processing.py:94-95 | only first occurrences count: 1 ==> 2 does not match 2, 1, 2 |
| PostProcessing.SupportingIdsMeaning | server/pattern_mining/post_processing/post_processing.py:86-97 | the collected ids are a subsequence of the row ids, and an id is collected exactly when some row with that id matches |
| PostProcessing.SupportingIdsMembers | server/pattern_mining/post_processing/post_processing.py:89-96 | an id is collected exactly when some row with that id matches the pattern |
| PostProcessing.SupportingIdsEmbeds | server/pattern_mining/post_processing/post_processing.py:89-96 | the collected ids occur in the row ids in the same relative order |
| PostProcessing.GetSequencesPerRule | server/pattern_mining/post_processing/post_processing.py:74-99 | with rows, every rule gets its supporting ids (airport only) and the share support/#rows; with no rows, the first rule raises ZeroDivisionError after its ids were reset, and the other rules are untouched |
| PostProcessing.GetSequencesPerItemSet | server/pattern_mining/post_processing/post_processing.py:102-120 | the same for itemsets, with the itemset test |
| PostProcessing.GetPatternById | server/pattern_mining/post_processing/post_processing.py:122-129 | returns the first pattern with the id, or nothing when no pattern has it |
| RuleDag.InsertRuleMeaning | server/pattern_mining/post_processing/rule_dag.py:33-40 | a successful insertion returns the graph with the old edges plus one LHS-node → RHS-node edge per LHS item, and the old nodes plus the new ends |
| RuleDag.AloneInsert | server/pattern_mining/post_processing/rule_dag.py:33-40 | a rule inserts into the empty graph exactly when no LHS item maps to the RHS's node |
| RuleDag.AloneAcyclic | server/pattern_mining/post_processing/rule_dag.py:33-40 | a rule with no LHS item on its RHS node gives an acyclic graph of its own |
| RuleDag.AloneCycle | server/pattern_mining/post_processing/rule_dag.py:33-40 | a rule with an LHS item on its RHS node makes a self-loop, so _insert_rule_to_dag rejects it even in an empty graph |
| RuleDag.FirstFit | server/pattern_mining/post_processing/rule_dag.py:56-62 | the DAG chosen is the first from the start that accepts the rule; every DAG before it rejects the rule |
| RuleDag.FindDag | server/pattern_mining/post_processing/rule_dag.py:56-62 | the loop over the DAGs stops at the first fit, or at the end |
| RuleDag.PlaceRule | server/pattern_mining/post_processing/rule_dag.py:55-65 | the rule joins its first-fit DAG (graph and rule ids updated) or starts a new DAG |
| RuleDag.PlaceShape | server/pattern_mining/post_processing/rule_dag.py:55-65 | placing a rule changes only the chosen DAG, or appends one, and that DAG's rule ids end with the rule's id |
| RuleDag.CreateDags | server/pattern_mining/post_processing/rule_dag.py:42-76 | the loop builds exactly the first-fit forest, and the frequency map counts every parent code of every rule item |
| RuleDag.CountParents | server/pattern_mining/post_processing/rule_dag.py:67-74 | counting one rule's items extends the frequencies to the rule's parent codes |
| RuleDag.CountOne | server/pattern_mining/post_processing/rule_dag.py:71-74 | incrementing, or inserting 1, keeps the map equal to the occurrence counts |
| RuleDag.FrequencyTotal | server/pattern_mining/post_processing/rule_dag.py:67-74 | the frequencies add up to the number of items in all rules |
| RuleDag.ForestDags | server/pattern_mining/post_processing/rule_dag.py:54-65 | every DAG in the forest is well formed and acyclic |
| RuleDag.ForestAcyclic | server/pattern_mining/post_processing/rule_dag.py:38-40 | every DAG of the forest is acyclic |
| RuleDag.ForestShape | server/pattern_mining/post_processing/rule_dag.py:54-65 | each DAG holds exactly the edges, nodes and rule ids of the rules placed in it, in input order |
| RuleDag.RulePlaced | server/pattern_mining/post_processing/rule_dag.py:54-65 | every rule is placed in a DAG of the forest, and its id is in that DAG's rule list |
| RuleDag.FirstFitPlacement | server/pattern_mining/post_processing/rule_dag.py:56-65 | rule i goes to the first DAG, among those built before it, that accepts it, or to a new one |
| RuleDag.PlacementPrefix | server/pattern_mining/post_processing/rule_dag.py:54 | later rules never move earlier rules to another DAG |
| RuleDag.TopolSortDags | server/pattern_mining/post_processing/rule_dag.py:84-85 | each DAG is replaced by a topological order of its nodes |
| Digraphs.TopoSortCorrect | server/pattern_mining/post_processing/rule_dag.py:38 | the sort succeeds exactly on acyclic graphs, and then lists every node once, each edge's source first |
| RuleDag.LhsMarkMeaning | server/pattern_mining/post_processing/rule_dag.py:103-106 | a column's antecedent cell is empty exactly when no LHS item maps to it, otherwise it holds the mark of the last such item |
| RuleDag.CellMeaning | server/pattern_mining/post_processing/rule_dag.py:102-109 | the RHS column holds the `C.` mark (written last, so it wins); every other column holds the last LHS `A.` mark for it or is empty |
| RuleDag.FillRow | server/pattern_mining/post_processing/rule_dag.py:103-109 | the two loops write the row's cells as CellMeaning describes |
| RuleDag.CreateDf | server/pattern_mining/post_processing/rule_dag.py:99-115 | one row per rule, in order, with its cells, group column index, support and confidence; columns renamed to event names |
| RuleDag.CreateMatrices | server/pattern_mining/post_processing/rule_dag.py:159-188 | one matrix per DAG, with the DAG's topological order as columns and its rules as rows; the min and max frequencies are the least and greatest parent-code counts (0 and 0 for no rules) |
| RuleDag.UntaggedNodesCounted | server/pattern_mining/post_processing/rule_dag.py:67-74 | with base-event nodes every node of every rule is among the counted parent codes, so the frequency lookup of `create_matrices` finds each node |
| RuleDag.MinMax | server/pattern_mining/post_processing/rule_dag.py:162-163 | min and max with default 0: both values occur in the list and bound every element |
| RuleDag.RangeOfCounts | server/pattern_mining/post_processing/rule_dag.py:162-163 | min_f and max_f are the least and greatest number of occurrences of a parent code |
| RuleDag.SelectPlaced | server/pattern_mining/post_processing/rule_dag.py:188 | with distinct ids, selecting rules by the DAG's id list gives exactly the rules placed in that DAG, in input order |
| RuleDag.IdsAtExact | server/pattern_mining/post_processing/rule_dag.py:58-65 | with distinct ids, a rule id is in a DAG's id list exactly when the rule was placed in that DAG |
| RuleDag.MatrixColumnsOrdered | server/pattern_mining/post_processing/rule_dag.py:185-188 | each matrix's columns list every node of its DAG once, each edge's source before its target |
| RuleDag.MatrixRowShape | server/pattern_mining/post_processing/rule_dag.py:99-113 | in each rule's row, the consequent mark is in the group column and every antecedent mark lies to its left |
| RuleDag.RowShape | server/pattern_mining/post_processing/rule_dag.py:99-113 | for a rule whose edges lie in a topologically ordered graph, the group column holds the `C.` mark and every other filled cell is an `A.` mark to its left |
| RuleDag.DagMatrices | server/pattern_mining/post_processing/rule_dag.py:185-188 | the matrix loop builds one matrix per DAG, each with that DAG's order and rules |
| RuleDag.MatrixFor | server/pattern_mining/post_processing/rule_dag.py:186-188 | one DAG's matrix: its topological order as columns and the rules placed in it as rows |
| ItemsetGraph.Touching | server/pattern_mining/post_processing/itemset_graph.py:57-63 | belongs_to_sets lists, in increasing order, exactly the groups holding an itemset that shares an item |
| ItemsetGraph.GroupMeets | server/pattern_mining/post_processing/itemset_graph.py:59-63 | the inner loop with break decides whether a group holds an itemset sharing an item with the new one |
| ItemsetGraph.BelongsTo | server/pattern_mining/post_processing/itemset_graph.py:57-63 | the double loop with break computes belongs_to_sets |
| ItemsetGraph.MergeGroups | server/pattern_mining/post_processing/itemset_graph.py:72-77 | removing each group to merge and joining it to the new group, as the merge loop does |
| ItemsetGraph.GroupItemSets | server/pattern_mining/post_processing/itemset_graph.py:55-77 | the grouping loop computes the groups step by step |
| ItemsetGraph.GroupingMeaning | server/pattern_mining/post_processing/itemset_graph.py:55-77 | for distinct itemsets, the groups are non-empty, pairwise disjoint and cover all itemsets; itemsets of different groups share no item; any two itemsets of a group are linked by a chain of shared items |
| ItemsetGraph.ExactlyOne | server/pattern_mining/post_processing/itemset_graph.py:55-77 | every itemset is in exactly one group |
| ItemsetGraph.AssignOk | server/pattern_mining/post_processing/itemset_graph.py:65-77 | each of the three branches (new group, join one, merge several) keeps the groups a partition that is separated and connected |
| ItemsetGraph.GroupingWithin | server/pattern_mining/post_processing/itemset_graph.py:55-77 | the groups hold only input itemsets |
| ItemsetGraph.ItemCellsMeaning | server/pattern_mining/post_processing/itemset_graph.py:83-88 | a pattern row has a cell for a parent code exactly when one of its items has that parent; the cell is the upper-cased first letter of the last such item's tag |
| ItemsetGraph.FillCells | server/pattern_mining/post_processing/itemset_graph.py:83-88 | the item loop writes those cells |
| ItemsetGraph.CreateMatrix | server/pattern_mining/post_processing/itemset_graph.py:43-96 | the rows are, group by group, one row per pattern of the group (each exactly once), then the group row |
| ItemsetGraph.LayoutGroupRows | server/pattern_mining/post_processing/itemset_graph.py:79-90 | there is one group row per group |
| ItemsetGraph.LayoutHasPatterns | server/pattern_mining/post_processing/itemset_graph.py:79-89 | every pattern of group i has its row, labelled with group i |
| ItemsetGraph.LayoutHasGroupRows | server/pattern_mining/post_processing/itemset_graph.py:89-90 | every group has its group row |
| ItemsetGraph.LayBlock | server/pattern_mining/post_processing/itemset_graph.py:81-89 | one group's rows list each of its itemsets exactly once, each as that itemset's row in group i (the group row after them is added by `LayRows`) |
| ItemsetGraph.LayRows | server/pattern_mining/post_processing/itemset_graph.py:79-90 | the group loop lists every group's block in order |
| ItemsetGraph.LayoutRowsFrom | server/pattern_mining/post_processing/itemset_graph.py:79-90 | every row is a pattern row of some group, or the group row of some group |
| ItemsetGraph.CreateGraph | server/pattern_mining/post_processing/itemset_graph.py:98-117 | the nodes are the distinct ids in order; the graph holds one weight per unordered pair of ids, set by the pair loop's add_edge calls in order |
| ItemsetGraph.GraphEdgesMeaning | server/pattern_mining/post_processing/itemset_graph.py:105-115 | an add_edge call is made exactly for each pair i < j of itemsets that share an item, weighted by the number of shared items |
| ItemsetGraph.WeightsLast | server/pattern_mining/post_processing/itemset_graph.py:103-114 | nx.Graph has a weight for a pair exactly when some add_edge call joins it, and it is the weight of the last such call |
| ItemsetGraph.WeightsMerge | server/pattern_mining/post_processing/itemset_graph.py:103-114 | the graph has at most one edge per call, and fewer edges than calls when two calls join the same pair (as colliding ids make them) |
| ItemsetGraph.GraphWeightsMeaning | server/pattern_mining/post_processing/itemset_graph.py:103-115 | with distinct ids, fis[i] and fis[j] are joined exactly when they share an item, with the number of shared items as weight |
| ItemsetGraph.CallOfPair | server/pattern_mining/post_processing/itemset_graph.py:107-115 | with distinct ids, the only call joining the ids of fis[i] and fis[j] is the one for that pair |
| ItemsetGraph.GraphEdgesProper | server/pattern_mining/post_processing/itemset_graph.py:110-115 | every add_edge call has positive weight, and with distinct ids no call makes a loop |
| ItemsetGraph.WeightShare | server/pattern_mining/post_processing/itemset_graph.py:110-113 | the weight is non-zero exactly when the itemsets share an item |
| ItemsetGraph.ShareSym | server/pattern_mining/post_processing/itemset_graph.py:57-61 | sharing an item is symmetric |
| ItemsetGraph.AddEdgesFrom | server/pattern_mining/post_processing/itemset_graph.py:108-115 | the inner pair loop makes the add_edge calls from itemset i to every later itemset it shares items with, in order |
| SpmfManager.WriteEvents | server/pattern_mining/mining/spmf_manager.py:46-47 | each event is written as its decimal followed by a space |
| SpmfManager.WriteAscending | server/pattern_mining/mining/spmf_manager.py:51-54 | the item set is written in ascending order, each item followed by a space |
| SpmfManager.AddEvents | server/pattern_mining/mining/spmf_manager.py:38-41 | the item set grows by exactly the element's events |
| SpmfManager.AscendingSorted | server/pattern_mining/mining/spmf_manager.py:51-52 | `list(set).sort()` lists exactly the set, strictly increasing |
| SpmfManager.GenerateInputLine | server/pattern_mining/mining/spmf_manager.py:23-58 | the loop produces the line: in itemset mode the sorted distinct events (or `-2` when there are none), in sequence mode each element's events closed by `-1`, then `-2`; always ending in a newline |
| SpmfManager.SequenceLineRoundTrip | server/pattern_mining/mining/spmf_manager.py:35-57 | reading a sequence line back at its `-1` and `-2` markers gives the events of each element, in order (non-negative codes) |
| SpmfManager.ItemsetLineTokens | server/pattern_mining/mining/spmf_manager.py:50-57 | a transaction line's tokens are the decimals of a strictly increasing list holding exactly the record's events, with no marker; an empty record gives `-2` |
| SpmfManager.LineEndsOnce | server/pattern_mining/mining/spmf_manager.py:57 | every line ends in its only newline |
| SpmfManager.GenerateInputFile | server/pattern_mining/mining/spmf_manager.py:76-82 | the file holds the optional preamble, then each record's line (converted, or as given) in order |
| SpmfManager.WrittenLines | server/pattern_mining/mining/spmf_manager.py:79-82 | splitting the written text at newlines gives each record's line, then the empty remainder |
| SpmfManager.Arguments | server/pattern_mining/mining/spmf_manager.py:96-100 | the support, then the confidence unless mining itemsets, then the window twice and the maximum consequent for TRuleGrowth |
| SpmfManager.DefaultArguments | server/pattern_mining/mining/spmf_manager.py:89-100 | with the defaults 15%, 60%, window 15 and one consequent item, the exact argument list for TRuleGrowth or another algorithm, rule or itemset mode |
| Dictionary.AirportMapping.AddTags | server/pattern_mining/pre_processing/dictionary.py:62-78 | returns the last code used; adds one entry per tag, each coded after the base and pointing to it |
| Dictionary.AirportMapping.constructor | server/pattern_mining/pre_processing/dictionary.py:15-16 | a new mapping starts with both dictionaries empty |
| Dictionary.AirportMapping.AddEvent | server/pattern_mining/pre_processing/dictionary.py:98-102 | adds the base entry and its tag entries, and returns the next free code |
| Dictionary.AirportMapping.AddBlock | server/pattern_mining/pre_processing/dictionary.py:96-108 | the event loop adds every event's entries, and the next free code is start + n·(tags+1) |
| Dictionary.AirportMapping.GenerateMappings | server/pattern_mining/pre_processing/dictionary.py:80-108 | both dictionaries gain the event-type block from code 1, then the delta block |
| Dictionary.TagCodesShape | server/pattern_mining/pre_processing/dictionary.py:72-77 | the tag codes are exactly code+1 .. code+#tags; code+1+k names "tag_k event", with parent code and tag tag_k |
| Dictionary.TagNamesShape | server/pattern_mining/pre_processing/dictionary.py:75-76 | each tagged name maps to its code, its base event as parent, and its tag |
| Dictionary.TagNamesKeys | server/pattern_mining/pre_processing/dictionary.py:72-77 | the tagged names added are exactly one per tag |
| Dictionary.BlockEndIs | server/pattern_mining/pre_processing/dictionary.py:96-108 | a block of n events with t tags each uses n·(t+1) codes |
| Dictionary.AirportCodeRange | server/pattern_mining/pre_processing/dictionary.py:96-108 | the airport codes are exactly 1 .. 4·(event types + deltas) |
| Dictionary.AirportEventTypeCode | server/pattern_mining/pre_processing/dictionary.py:98-102 | event type j has code 1 + 4j, with no parent or tag |
| Dictionary.AirportEventTagCode | server/pattern_mining/pre_processing/dictionary.py:97-102 | its k-th tag (early, delayed, ontime) has code 1 + 4j + 1 + k, with parent 1 + 4j |
| Dictionary.AirportDeltaCode | server/pattern_mining/pre_processing/dictionary.py:104-108 | delta j has the code right after the event-type block, four per delta |
| Dictionary.AirportDeltaTagCode | server/pattern_mining/pre_processing/dictionary.py:103-108 | its k-th tag (short, long, ontime) follows it, with the delta's code as parent |
| Dictionary.FlaredownMapping.GenerateMappings | server/pattern_mining/pre_processing/dictionary.py:117-135 | the pair loop adds one entry per pair with consecutive codes from 1 |
| Dictionary.FlaredownMapping.constructor | server/pattern_mining/pre_processing/dictionary.py:15-16 | a new mapping starts with both dictionaries empty |
| Dictionary.FlaredownCodesShape | server/pattern_mining/pre_processing/dictionary.py:129-135 | the codes are exactly 1 .. #pairs; code 1+k names pair k, is its own parent, and has the pair's type as tag |
| Dictionary.FlaredownNamesShape | server/pattern_mining/pre_processing/dictionary.py:129-135 | each name maps to the code of the last pair with that name (dict overwrite), the name as parent, and that pair's type as tag |
| Dictionary.FlaredownNamesKeys | server/pattern_mining/pre_processing/dictionary.py:129-135 | the names mapped are exactly the names of the pairs |
| PostUtils.FilterByEventCodeMeaning | server/pattern_mining/post_processing/utils.py:350-356 | no codes keeps every row; otherwise the kept rows are the rows, in order, holding all codes (or any code) |
| PostUtils.EmptyFilterKeepsAll | server/pattern_mining/post_processing/utils.py:350-351 | the empty-filter guard matters: without it, the "any" test would keep no row |
| PostUtils.FilterByEventName | server/pattern_mining/post_processing/utils.py:369-380 | the loop collects the codes of the names containing each non-empty filter, then keeps the matching rows |
| PostUtils.NameFilterMeaning | server/pattern_mining/post_processing/utils.py:369-380 | all-blank filters keep every row; otherwise the kept rows are those holding an event that some non-empty filter names, in order |
| PostUtils.CollectedMembers | server/pattern_mining/post_processing/utils.py:374-376 | a code is collected exactly when some non-empty filter is a substring of the lower-cased name of an entry with that code |
| PostUtils.GetSequencesByPatternId | server/pattern_mining/post_processing/utils.py:228-243 | the loop over the ids computes the three pooled results, or the error of the first id that cannot be resolved |
| PostUtils.SelectOk | server/pattern_mining/post_processing/utils.py:232-241 | the call succeeds exactly when every id names a pattern and, when details are asked for, every item has a parent |
| PostUtils.SelectPerPattern | server/pattern_mining/post_processing/utils.py:235 | one sequence-id tuple per requested id, that of the first pattern with the id |
| PostUtils.SelectUnion | server/pattern_mining/post_processing/utils.py:234 | a sequence id is in the pooled set exactly when some requested pattern lists it |
| PostUtils.SelectItems | server/pattern_mining/post_processing/utils.py:236-241 | without details the item set is empty; with details a code is in it exactly when it is the parent of an item of some requested pattern |
| PostUtils.Abandon | server/pattern_mining/post_processing/utils.py:228-243 | once an id fails, the later ids do not change the error returned |
| PostUtils.SequentialRules | server/pattern_mining/post_processing/utils.py:428-445 | the rule pipeline: empty after filtering → no sequences; more than 2000 rules, not allowed → too many; else the survivors of redundancy removal get their share, or division by zero when there is no row |
| PostUtils.SurvivorsFromParsed | server/pattern_mining/post_processing/utils.py:442-443 | every rule that reaches matching was parsed |
| PostUtils.RuleViewHeaders | server/pattern_mining/post_processing/utils.py:488-490 | each matrix's header loses rid, level and group |
| PostUtils.RuleViewHeaderShape | server/pattern_mining/post_processing/utils.py:488-490 | the front end sees the event-name columns, then support and confidence |
| PostUtils.WithoutMembers | server/pattern_mining/post_processing/utils.py:490 | a column is kept exactly when it is not dropped |
| PostUtils.ItemSetViewHeaderMeaning | server/pattern_mining/post_processing/utils.py:560-561 | the itemset header holds support exactly once, last, and otherwise the columns other than rid, level, group and support |
| PostUtils.ItemSetViewHeader | server/pattern_mining/post_processing/utils.py:560-561 | the header ends in support |
| PostUtils.AddGroupRows | server/pattern_mining/post_processing/utils.py:492-499 | the rows, then one group row per distinct group in order of first appearance |
| PostUtils.AddAllGroupRows | server/pattern_mining/post_processing/utils.py:492-499 | every matrix gets its rule rows followed by one group row per distinct group |
| PostUtils.GroupRowsOnePerGroup | server/pattern_mining/post_processing/utils.py:494-498 | each group present gets exactly one group row, and an absent group none |
| PostUtils.GroupRowsOrder | server/pattern_mining/post_processing/utils.py:494-499 | the rule rows keep their order at the front, and the group rows follow in first-appearance order |
| PreUtils.AbsoluteTimeDifference | server/pattern_mining/pre_processing/utils.py:26-40 | the number of whole units (min, hour, day; otherwise microseconds) between the two instants, never more than the distance |
| PreUtils.DifferenceSymmetric | server/pattern_mining/pre_processing/utils.py:33 | the difference does not depend on the order of the instants |
| PreUtils.UnitsAtLeast | server/pattern_mining/pre_processing/utils.py:33-39 | at least n units apart exactly when the distance is at least n unit lengths |
| PreUtils.RemoveOvernightMeaning | server/pattern_mining/pre_processing/utils.py:43-49 | an event is kept exactly when its turnaround's first and last events are less than overnight_hour hours apart |
| PreUtils.KeptMembers | server/pattern_mining/pre_processing/utils.py:43-49 | a logged event is kept exactly when it is a row and its turnaround spans fewer than overnight_hour hours |
| PreUtils.PerformanceHigh | server/pattern_mining/pre_processing/utils.py:117-118 | a turnaround is H exactly when it lasted less than 76 minutes (75 whole minutes or fewer) |
| PreUtils.GetStatus | server/pattern_mining/pre_processing/utils.py:255-270 | delayed after more than 15 minutes late; early 15 or more minutes ahead; on time in between |
| PreUtils.StatusMonotone | server/pattern_mining/pre_processing/utils.py:265-270 | a later actual time never gives a better status |
| PreUtils.FlightDaytime | server/pattern_mining/pre_processing/utils.py:142-170 | the arrival's hour decides when there is one; with no flight the hour -1 would give night (the program fails before, see "## Left out"); night is exactly the hours before 5 or from 21; the buckets follow the clock between 5 and 21 |
| PreUtils.OrderOfEvents | server/pattern_mining/pre_processing/utils.py:248-252 | the event types in order of first appearance, each once |
| PreUtils.GetMatchInDeltaDict | server/pattern_mining/pre_processing/utils.py:415-419 | a pair is found exactly when tD has a closing event and tA a starting one; it is the first of each |
| PreUtils.Reverse | server/pattern_mining/pre_processing/utils.py:415 | the reversed list holds the same events back to front |
| PreUtils.MatchIsLastClosing | server/pattern_mining/pre_processing/utils.py:402-419 | with tD the reverse of tA, the closing event matched is the last one in chronological order |
| PreUtils.LabelSpelling | server/pattern_mining/pre_processing/utils.py:344-370 | the dictionary key and the text shown differ exactly for band-labelled events in the middle band (ontime vs on-time) |
| PreUtils.LabelBands | server/pattern_mining/pre_processing/utils.py:354-370 | below the lower quantile: short/early; above the upper: long/delayed; otherwise ontime |
| ChronicDisease.AgeGroupOf | server/pattern_mining/pre_processing/chronic_disease_dataset.py:6-21 | child exactly on [0, 15), youth on [15, 25), adult on [25, 65), senior on [65, 130), invalid exactly when negative or 130 or more |
| ChronicDisease.AgeGroupsOrdered | server/pattern_mining/pre_processing/chronic_disease_dataset.py:13-20 | an older person is never in a younger class, each class starts at its lower bound, and the ages 0, 15, 25 and 65 fall in child, youth, adult and senior |
| ChronicDisease.HbiScore | server/pattern_mining/pre_processing/chronic_disease_dataset.py:24-37 | remission below 5, mild in [5, 7), moderate in [8, 16), severe otherwise, after truncation toward zero |
| ChronicDisease.Truncate | server/pattern_mining/pre_processing/chronic_disease_dataset.py:30 | `int()` on a real rounds toward zero |
| ChronicDisease.SevenIsSevere | server/pattern_mining/pre_processing/chronic_disease_dataset.py:33-37 | a score in [7, 8) is classed severe, above 8's moderate class |
| ChronicDisease.HbiSeverity | server/pattern_mining/pre_processing/chronic_disease_dataset.py:24-37 | the corrected classes: mild covers [5, 8), and severe is exactly 16 and above |
| ChronicDisease.HbiSeverityMonotone | server/pattern_mining/pre_processing/chronic_disease_dataset.py:24-37 | with the corrected classes, a higher score never gives a milder class |
| ChronicDisease.HbiSeverityAgrees | server/pattern_mining/pre_processing/chronic_disease_dataset.py:33-37 | the corrected classes differ from the original only on [7, 8) |
| ChronicDisease.SortCodes | server/pattern_mining/pre_processing/chronic_disease_dataset.py:88-89 | one date's codes sorted: ascending and a permutation of the codes |
| ChronicDisease.SortDates | server/pattern_mining/pre_processing/chronic_disease_dataset.py:86-91 | the date loop gives each date's sorted tuple, and the flat list is the tuples joined in order |
| ChronicDisease.BuildRows | server/pattern_mining/pre_processing/chronic_disease_dataset.py:77-94 | the user loop appends, for each user with at least five dates, the row of its sorted tuples and its two tool lines |
| ChronicDisease.RowsUsers | server/pattern_mining/pre_processing/chronic_disease_dataset.py:79-94 | the rows' user ids are exactly the users with five or more dates, in order |
| ChronicDisease.RowsShape | server/pattern_mining/pre_processing/chronic_disease_dataset.py:79-94 | every row describes a kept user: each tuple is sorted and holds exactly that date's codes, and the flat list joins them |
| ChronicDisease.SequenceLineReadsBack | server/pattern_mining/pre_processing/chronic_disease_dataset.py:93-94 | the stored sequence line reads back as the user's sorted tuples |
| Text.ParseIntOfIntToString | server/pattern_mining/post_processing/post_processing.py:23-24 | `int(str(i))` is i, whatever whitespace surrounds the numeral |
| Text.SplitJoined | server/pattern_mining/post_processing/post_processing.py:22 | `split()` of space-joined tokens without whitespace gives the tokens back |
| Text.SplitOnJoined | server/pattern_mining/post_processing/post_processing.py:20 | `split(sep)` of a sep-joined list of parts that lack sep gives the parts back |
| Text.FloatOf | server/pattern_mining/post_processing/post_processing.py:25 | `float()` of a decimal: the double has the decimal's sign and lies within half a unit in its last place of the decimal's exact value; its significand has 53 bits, fewer only at the smallest exponent; zero gives +0.0 |
| Text.FloatOverflowLarge | server/pattern_mining/post_processing/post_processing.py:25 | `float()` gives inf only for a magnitude of at least 2^1023 |
| Text.FloatOverflowBeyond | server/pattern_mining/post_processing/post_processing.py:25 | `float()` gives inf for every magnitude of 2^1024 or more |
| Text.RoundHundredths | server/pattern_mining/post_processing/post_processing.py:25 | `round(x, 2)` of a double, in hundredths: within half a hundredth of the double's exact value, ties to even, and exactly 100 times the double when the double is an integer |
| Text.RoundedFloat | server/pattern_mining/post_processing/post_processing.py:25 | `round(float(token), 2)` has a value exactly when `float()` gives a finite double |
| Text.HundredfoldFinite | server/pattern_mining/post_processing/pattern_classes.py:27-28 | a confidence below 2^52 hundredths multiplies by 100 in the id without overflow |
| Text.HundredfoldBoundary | server/pattern_mining/post_processing/pattern_classes.py:27-28 | 2^1024 − 2^970 hundredths is the smallest magnitude whose `confidence * 100` is inf |
| PostProcessing.ParseConfidence | server/pattern_mining/post_processing/post_processing.py:25 | ValueError exactly when `float()` rejects the token; OverflowError exactly when `float()` gives inf or the hundredfold confidence overflows in the Rule's id (pattern_classes.py:27-28); otherwise the rounded hundredths |
| Text.ParseFormatHundredths | server/pattern_mining/post_processing/post_processing.py:25 | a two-decimal confidence below 2^52 hundredths reads as itself, and `round(float(·), 2)` gives it back |

## Left out

- Networkx betweenness centrality: `min_c`/`max_c` and the node and edge dictionaries of `create_matrices` and `get_full_graph_info` are not modelled. Only the frequencies and the graph structure are.
- `_cluster_matrix`, `generate_plotly_figure` and the `rid` column option: plotting and clustering are outside the model.
- Floating point and numerals:
  - `support_percentage` is the exact quotient support/#rows, not `round(…, 2)`;
  - a confidence is kept in integer hundredths, the value `round(·, 2)` stands for. The double that `round` returns is not modelled, so neither is the truncation that `int(confidence * 100)` can make in the id: 0.29 * 100 is 28.999999999999996 in binary64. Its overflow to inf for a confidence of 2^1024 − 2^970 hundredths or more is modelled (`PostProcessing.ParseConfidence`);
  - `float()` accepts plain decimals only (no exponent, inf or nan);
  - `int()` accepts plain ASCII numerals only: a token with underscores between digits (`1_000`) or with non-ASCII digits, which Python's `int()` reads, is a ValueError here, in `ParseInts`, `ParseRuleTokens` and `ParseItemSetLine` alike. The mining tool writes neither;
  - differences in seconds are exact microseconds;
  - the HBI value is a real number;
  - quantile bounds are parameters.
- File, pickle and JSON I/O:
  - files are sequences of lines;
  - `generate_input_file` returns the file contents, not a file name;
  - the `@CONVERTED_FROM_TEXT` preamble is a parameter;
  - `run` models only its argument list; the mining tool itself is outside the model;
  - the dictionaries' load/save branch and `_get_all_type` (CSV reading) are not modelled: the events are parameters.
- pandas: DataFrames are sequences of records. Column order after `rename`, `fillna` and `concat`, and the empty DataFrame's lack of columns, are not modelled.
- `get_sequential_rules` and `get_frequent_itemsets`:
  - the airport branch loads rules from a pickle, so only the Flaredown branch is modelled;
  - mining and `get_tids_from_query` are parameters (the filtered rows and the parsed rules).
- Dictionary lookups that would raise `KeyError` (`code_to_event[...]['parent']`, `event_to_code[...]`) are preconditions of the operations that use them. `label_turnarounds` is modelled one event at a time (`EventLabel`); its grouping, statistics and code lookups are not.
- Python set iteration order: itemset groups are sets, so the order of rows within a group is existentially quantified (`CreateMatrix`'s ghost `orders`), and the pooled sequence ids and items are sets.
- `sort_values(by='Timestamp')` and groupby order: the logs are taken as already sorted. `flatten_turnarounds`, `flatten_flights`' row building, `get_delta_from_origin`, `get_tid_weather` and `get_delta_df` are not modelled beyond the daytime rule and delta matching.
- Class-level shared dictionaries of `Mapping`: each mapping object here owns its maps.
- The chronic-disease script's CSV reading, demographics, country names and top-50 trackables selection are not modelled. The per-user loop takes users already grouped by date.
- PostProcessing.SupportingIdsEmbeds: states only that the collected ids embed in the row ids. Membership is stated by SupportingIdsMembers.
- PostProcessing.ParseRuleLine: its own contract states only that the LHS is non-empty. The round trips are stated by ParseFormattedRule and ParseFormattedRuleHundredths.
- RuleDag.CreateDags: it requires every rule item to have a parent code and each rule to stand alone (no LHS item with the RHS's node). A rule that closes a cycle on its own makes `_insert_rule_to_dag` return None, and `_create_dags` then stores None as a DAG; that case is not modelled.
- RuleDag.CreateMatrices: it requires what CreateDags requires, a non-empty LHS, event names for every node, and distinct rule ids, because the matrices select rules by id membership. It also requires every DAG node to be a counted parent code (`NodesCounted`): `event_frequency` is keyed by parent codes, so in tagged mode a node that is no item's parent raises KeyError at `event_frequency[node]`. `UntaggedNodesCounted` shows that untagged mode always meets this.
- RuleDag.CreateMatrices: the columns follow Kahn's order with the first source in node order, for example [1, 2, 3, 4] for the rules 1→2 and 3→4. networkx's `topological_sort` lists the same graph by generations in version 2.6 and later ([1, 3, 2, 4]) and differently again in older versions. So the column order, and each rule's `group` column, can differ from the program's. What is proved about the rows (`RowShape`) holds for any topological order.
- SpmfManager.GenerateInputLine: `Single` stands for an `np.int32` element, the only scalar that `isinstance(element, np.int32)` accepts. Any other integer scalar, such as a Python int or an `np.int64` from the airport arrays (pre_processing/utils.py:372), goes to `for event in element` and raises TypeError; the model has no such element.
- PreUtils.FlightDaytime: with neither an arrival nor a departure the row stays empty and `flatten_flights` fails at `row[0]` (pre_processing/utils.py:162) before any daytime is computed. The clause that gives night for no flight describes the hour -1 the code holds at that point, not an outcome the program reaches.
- PostUtils.FilterByEventName: `lower()` is modelled on ASCII letters only. Python also lower-cases other capitals (`É`, `Σ`), so a dictionary name with non-ASCII capitals keeps them here, and a filter in lower case does not match those letters.
- PostUtils.NameFilterMeaning: the same ASCII-only `lower()` as FilterByEventName.
- PostUtils.CollectedMembers: the same ASCII-only `lower()` as FilterByEventName.
- Tag initials (`tag[0].upper()` in `rule_dag.py` and `itemset_graph.py`) are upper-cased on ASCII letters only. The airport tags are fixed ASCII words; a Flaredown tag with a non-ASCII initial would keep its initial here.
- Dictionary.AirportMapping.GenerateMappings: on the run that generates the mappings, `code_to_event` is keyed by int codes, but `rule_dag.py` and `itemset_graph.py` look codes up as `str(code)`. Only a mapping reloaded from JSON has string keys. The model keys the map by int codes throughout, so it does not show the KeyError a freshly generated mapping raises.
- Dictionary.FlaredownMapping.GenerateMappings: the same int keys against `str(code)` lookups as the airport mapping.

## Findings

| source | as written | input that shows it | evidently intended | confidence | as-written member | corrected member |
|---|---|---|---|---|---|---|
| server/pattern_mining/pre_processing/chronic_disease_dataset.py:33-37 | mild is `5 <= value < 7` and moderate `8 <= value < 16`, so 7 falls through to severe | an HBI value of 7 is severe while 8 is moderate | the mild range includes 7, so severity never falls as the score rises | not executed; high | ChronicDisease.SevenIsSevere | ChronicDisease.HbiSeverityMonotone |
