/** The chronic-disease (Flaredown) data set: the age groups and HBI severity classes given to
    check-ins, and the loop that turns each user's check-ins into one sequence of sorted per-date
    tuples, with the two mining-tool lines for it. */
module ChronicDisease {
  import opened Wrappers
  import opened Seqs
  import Text
  import SpmfManager

  // ---------------------------------------------------------------- age_group

  /** The age classes of the age_group column. */
  datatype AgeGroup = Child | Youth | Adult | Senior | Invalid

  /** age_group: Statistics Canada's ranges, and invalid for a negative age or one of 130 or
      more. */
  function AgeGroupOf(age: int): (g: AgeGroup)
    ensures g == Child <==> 0 <= age < 15
    ensures g == Youth <==> 15 <= age < 25
    ensures g == Adult <==> 25 <= age < 65
    ensures g == Senior <==> 65 <= age < 130
    ensures g == Invalid <==> age < 0 || age >= 130
  {
    if age >= 0 && age < 15 then Child
    else if age >= 15 && age < 25 then Youth
    else if age >= 25 && age < 65 then Adult
    else if age >= 65 && age < 130 then Senior
    else Invalid
  }

  function AgeRank(g: AgeGroup): nat
    requires g != Invalid
  {
    match g
    case Child => 0
    case Youth => 1
    case Adult => 2
    case Senior => 3
  }

  /** The lowest age of each valid class. */
  function LowestAge(g: AgeGroup): nat
    requires g != Invalid
  {
    match g
    case Child => 0
    case Youth => 15
    case Adult => 25
    case Senior => 65
  }

  /** The classes follow age: an older person is never in a younger class, every valid class
      starts at its lower bound, and that bound is itself in the class. */
  lemma AgeGroupsOrdered(a1: int, a2: int)
    requires 0 <= a1 <= a2 < 130
    ensures AgeRank(AgeGroupOf(a1)) <= AgeRank(AgeGroupOf(a2))
    ensures LowestAge(AgeGroupOf(a1)) <= a1
    ensures forall c: AgeGroup | c != Invalid :: AgeGroupOf(LowestAge(c)) == c
  {
  }

  // ---------------------------------------------------------------- hbi_score

  /** The severity classes of the Harvey-Bradshaw index. */
  datatype Severity = Remission | Mild | Moderate | Severe

  /** int(): truncation toward zero. */
  function Truncate(x: real): (n: int)
    ensures x >= 0.0 ==> n as real <= x < n as real + 1.0
    ensures x < 0.0 ==> n as real - 1.0 < x <= n as real
  {
    if x >= 0.0 then x.Floor else -((-x).Floor)
  }

  /** hbi_score: the value truncated, then <5 remission, 5 and 6 mild, 8 to 15 moderate and
      everything else severe, 7 included. */
  function HbiScore(value: real): (s: Severity)
    ensures s == Remission <==> value < 5.0
    ensures s == Mild <==> 5.0 <= value < 7.0
    ensures s == Moderate <==> 8.0 <= value < 16.0
  {
    var v := Truncate(value);
    if v < 5 then Remission
    else if v >= 5 && v < 7 then Mild
    else if v >= 8 && v < 16 then Moderate
    else Severe
  }

  /** A score in [7, 8) is classed severe, above moderate scores: the gap left by the mild and
      moderate ranges. */
  lemma SevenIsSevere(value: real)
    requires 7.0 <= value < 8.0
    ensures HbiScore(value) == Severe && HbiScore(8.0) == Moderate
    ensures SeverityRank(HbiScore(value)) > SeverityRank(HbiScore(8.0))
  {
  }

  function SeverityRank(s: Severity): nat {
    match s
    case Remission => 0
    case Mild => 1
    case Moderate => 2
    case Severe => 3
  }

  /** The classes as the index defines them: the mild range closes at 7 inclusive, so that no
      gap is left between mild and moderate. */
  function HbiSeverity(value: real): (s: Severity)
    ensures s == Remission <==> value < 5.0
    ensures s == Mild <==> 5.0 <= value < 8.0
    ensures s == Moderate <==> 8.0 <= value < 16.0
    ensures s == Severe <==> value >= 16.0
  {
    var v := Truncate(value);
    if v < 5 then Remission
    else if v < 8 then Mild
    else if v < 16 then Moderate
    else Severe
  }

  /** A higher score never gives a milder class. */
  lemma HbiSeverityMonotone(v1: real, v2: real)
    requires v1 <= v2
    ensures SeverityRank(HbiSeverity(v1)) <= SeverityRank(HbiSeverity(v2))
  {
  }

  /** The corrected classes differ from hbi_score's only on scores in [7, 8). */
  lemma HbiSeverityAgrees(value: real)
    ensures HbiSeverity(value) == HbiScore(value) <==> !(7.0 <= value < 8.0)
  {
  }

  // ---------------------------------------------------------------- per-user sequences

  /** An ascending sequence. */
  predicate Sorted(s: seq<int>) {
    forall i, j | 0 <= i < j < |s| :: s[i] <= s[j]
  }

  function Insert(x: int, s: seq<int>): (r: seq<int>)
    requires Sorted(s)
    ensures Sorted(r) && multiset(r) == multiset(s) + multiset{x}
  {
    if s == [] then [x]
    else if x <= s[0] then [x] + s
    else
      var t := Insert(x, s[1..]);
      assert s == [s[0]] + s[1..];
      assert forall y | y in multiset(t) :: s[0] <= y;
      InsertSorted(s[0], t);
      [s[0]] + t
  }

  lemma InsertSorted(h: int, t: seq<int>)
    requires Sorted(t) && forall y | y in multiset(t) :: h <= y
    ensures Sorted([h] + t)
  {
    forall j | 0 <= j < |t| ensures h <= t[j] {
      assert t[j] in multiset(t);
    }
  }

  /** list.sort() on the codes of one date. */
  function SortCodes(s: seq<int>): (r: seq<int>)
    ensures Sorted(r) && multiset(r) == multiset(s)
  {
    if s == [] then []
    else
      assert s == s[..|s| - 1] + [s[|s| - 1]];
      Insert(s[|s| - 1], SortCodes(s[..|s| - 1]))
  }

  /** A user's check-ins, grouped by date in date order: the event codes of each date. */
  datatype User = User(id: int, dates: seq<seq<int>>)

  /** One row of the sequence table. */
  datatype UserRow = UserRow(userId: int, sequence: seq<seq<int>>, flat: seq<int>,
                             transactionLine: string, sequenceLine: string)

  /** Users with fewer distinct check-in dates are skipped. */
  const MinDates := 5

  /** The per-date tuples of a user, each sorted. */
  function SortedDates(dates: seq<seq<int>>): (r: seq<seq<int>>)
    ensures |r| == |dates| && forall k | 0 <= k < |dates| :: r[k] == SortCodes(dates[k])
  {
    seq(|dates|, k requires 0 <= k < |dates| => SortCodes(dates[k]))
  }

  /** The concatenation of the tuples, in order. */
  function Flatten(ts: seq<seq<int>>): seq<int> {
    if ts == [] then [] else Flatten(ts[..|ts| - 1]) + ts[|ts| - 1]
  }

  /** The sequence as the mining tool's record: one tuple element per date. */
  function AsRecord(ts: seq<seq<int>>): (record: SpmfManager.Record)
    ensures |record| == |ts| && forall k | 0 <= k < |ts| :: record[k] == SpmfManager.Tuple(ts[k])
  {
    seq(|ts|, k requires 0 <= k < |ts| => SpmfManager.Tuple(ts[k]))
  }

  /** The row the loop appends for a user it keeps. */
  ghost function RowFor(u: User): UserRow {
    var ts := SortedDates(u.dates);
    UserRow(u.id, ts, Flatten(ts), SpmfManager.InputLine(AsRecord(ts), true), SpmfManager.InputLine(AsRecord(ts), false))
  }

  /** The rows after the loop has visited `users`. */
  ghost function Rows(users: seq<User>): seq<UserRow> {
    if users == [] then []
    else
      var u := users[|users| - 1];
      Rows(users[..|users| - 1]) + if |u.dates| < MinDates then [] else [RowFor(u)]
  }

  lemma RowsStep(users: seq<User>, i: nat)
    requires i < |users|
    ensures Rows(users[..i + 1]) == Rows(users[..i]) + if |users[i].dates| < MinDates then [] else [RowFor(users[i])]
  {
    assert users[..i + 1][..i] == users[..i];
  }

  /** The per-date loop for one user. */
  method SortDates(dates: seq<seq<int>>) returns (userSequence: seq<seq<int>>, userSequenceFlat: seq<int>)
    ensures userSequence == SortedDates(dates) && userSequenceFlat == Flatten(userSequence)
  {
    userSequence := [];
    userSequenceFlat := [];
    for k := 0 to |dates|
      invariant userSequence == SortedDates(dates[..k])
      invariant userSequenceFlat == Flatten(userSequence)
    {
      var sequence := SortCodes(dates[k]);
      assert userSequence + [sequence] == SortedDates(dates[..k + 1]);
      userSequence := userSequence + [sequence];
      assert userSequence[..|userSequence| - 1] == SortedDates(dates[..k]);
      userSequenceFlat := userSequenceFlat + sequence;
    }
    assert dates[..|dates|] == dates;
  }

  /** The per-user loop of the chronic-disease script. */
  method BuildRows(users: seq<User>) returns (rows: seq<UserRow>)
    ensures rows == Rows(users)
  {
    rows := [];
    for i := 0 to |users|
      invariant rows == Rows(users[..i])
    {
      RowsStep(users, i);
      var user := users[i];
      if |user.dates| < MinDates {
        continue;
      }
      var userSequence, userSequenceFlat := SortDates(user.dates);
      var transaction := SpmfManager.GenerateInputLine(AsRecord(userSequence), true);
      var line := SpmfManager.GenerateInputLine(AsRecord(userSequence), false);
      rows := rows + [UserRow(user.id, userSequence, userSequenceFlat, transaction, line)];
    }
    assert users[..|users|] == users;
  }

  /** The ids of the rows. */
  function UserIds(rows: seq<UserRow>): (ids: seq<int>)
    ensures |ids| == |rows| && forall k | 0 <= k < |rows| :: ids[k] == rows[k].userId
  {
    seq(|rows|, k requires 0 <= k < |rows| => rows[k].userId)
  }

  lemma UserIdsConcat(a: seq<UserRow>, b: seq<UserRow>)
    ensures UserIds(a + b) == UserIds(a) + UserIds(b)
  {
  }

  /** The users with at least MinDates dates, in order. */
  function Active(users: seq<User>): seq<int> {
    if users == [] then []
    else
      var u := users[|users| - 1];
      Active(users[..|users| - 1]) + if |u.dates| < MinDates then [] else [u.id]
  }

  /** One row per user with at least five check-in dates, in the users' order. */
  lemma {:induction false} RowsUsers(users: seq<User>)
    ensures UserIds(Rows(users)) == Active(users)
    decreases |users|
  {
    if users != [] {
      var init := users[..|users| - 1];
      var u := users[|users| - 1];
      RowsUsers(init);
      var extra := if |u.dates| < MinDates then [] else [RowFor(u)];
      RowsStep(users, |users| - 1);
      UserIdsConcat(Rows(init), extra);
    }
  }

  /** `r` holds the dates of user `u`, each tuple sorted and holding exactly that date's codes,
      and the flat sequence is the tuples one after the other. */
  predicate Describes(r: UserRow, u: User) {
    && |u.dates| >= MinDates
    && r.userId == u.id
    && |r.sequence| == |u.dates|
    && (forall k | 0 <= k < |u.dates| :: Sorted(r.sequence[k]) && multiset(r.sequence[k]) == multiset(u.dates[k]))
    && r.flat == Flatten(r.sequence)
  }

  /** Every row describes one of the users the loop kept. */
  lemma {:induction false} RowsShape(users: seq<User>, r: UserRow)
    requires r in Rows(users)
    ensures exists u | u in users :: Describes(r, u)
    decreases |users|
  {
    var init := users[..|users| - 1];
    var u := users[|users| - 1];
    RowsStep(users, |users| - 1);
    if r in Rows(init) {
      RowsShape(init, r);
      var w :| w in init && Describes(r, w);
      assert w in users;
    } else {
      assert r == RowFor(u);
      assert Describes(r, u);
    }
  }

  /** Reading the stored sequence line back at its -1 separators gives the sorted tuples. */
  lemma SequenceLineReadsBack(u: User)
    requires forall k, j | 0 <= k < |u.dates| && 0 <= j < |u.dates[k]| :: u.dates[k][j] >= 0
    ensures SpmfManager.DecodeTokens(Text.Split(RowFor(u).sequenceLine)) == Some(RowFor(u).sequence)
  {
    var ts := SortedDates(u.dates);
    var record := AsRecord(ts);
    forall k, j | 0 <= k < |record| && 0 <= j < |record[k].Events()| ensures record[k].Events()[j] >= 0 {
      assert record[k].Events() == ts[k] == SortCodes(u.dates[k]);
      assert ts[k][j] in multiset(u.dates[k]);
    }
    SpmfManager.SequenceLineRoundTrip(record);
    assert SpmfManager.Groups(record) == ts;
  }
}
