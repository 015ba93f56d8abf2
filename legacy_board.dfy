/** The leaderboard of the original bot version (GeoStackr.py): `scores_dict` from user name to
    UserScores, merge_scores, get_top10, get_formatted_body and the loop of check_submissions. */
module LegacyBoard {
  import opened Wrappers
  import PyDict
  import PySort
  import opened LegacyRecords
  import opened Reddit
  import opened LegacyExtract

  /** The leaderboard as a value: user names in first-appearance order, each with its list of scores. */
  type Standings = PyDict.Dict<string, seq<int>>

  /** The scores of `u` in `b`; a user without a record has none. */
  function ListOf(b: Standings, u: string): seq<int> {
    if u in b.values then b.values[u] else []
  }

  /** Every user on the board has at least one score. */
  ghost predicate Scored(b: Standings) {
    forall u :: u in b.values ==> b.values[u] != []
  }

  /** merge_scores on values: each user of the post's score list, in its order, gets a record
      if it has none and then gets the score appended. */
  function AppendKeys(b: Standings, users: seq<string>, sub: map<string, int>): (r: Standings)
    requires PyDict.Valid(b) && forall u :: u in users ==> u in sub
    ensures PyDict.Valid(r)
  {
    if users == [] then b
    else
      var prev := AppendKeys(b, users[..|users| - 1], sub);
      var u := users[|users| - 1];
      PyDict.Put(prev, u, ListOf(prev, u) + [sub[u]])
  }

  function AppendRound(b: Standings, sub: PyDict.Dict<string, int>): (r: Standings)
    requires PyDict.Valid(b) && PyDict.Valid(sub)
    ensures PyDict.Valid(r)
  {
    AppendKeys(b, sub.keys, sub.values)
  }

  /** What appending the scores of the users `users` does to one user `v`. */
  lemma {:induction false} AppendKeysFor(b: Standings, users: seq<string>, sub: map<string, int>, v: string)
    requires PyDict.Valid(b) && forall u :: u in users ==> u in sub
    requires forall i, j :: 0 <= i < j < |users| ==> users[i] != users[j]
    ensures v in AppendKeys(b, users, sub).values <==> v in b.values || v in users
    ensures ListOf(AppendKeys(b, users, sub), v) == if v in users then ListOf(b, v) + [sub[v]] else ListOf(b, v)
  {
    if users != [] {
      var front := users[..|users| - 1];
      var u := users[|users| - 1];
      assert users == front + [u];
      AppendKeysFor(b, front, sub, v);
      if v == u {
        assert v !in front by {
          forall i | 0 <= i < |front| ensures front[i] != u {
            assert users[i] != users[|users| - 1];
          }
        }
      }
    }
  }

  /** Appending adds the users without a record to the order, in the order they are merged. */
  lemma {:induction false} AppendKeysOrder(b: Standings, users: seq<string>, sub: map<string, int>)
    requires PyDict.Valid(b) && forall u :: u in users ==> u in sub
    requires forall i, j :: 0 <= i < j < |users| ==> users[i] != users[j]
    ensures AppendKeys(b, users, sub).keys == b.keys + PyDict.NewKeys(b, users)
  {
    if users != [] {
      var front := users[..|users| - 1];
      var u := users[|users| - 1];
      AppendKeysOrder(b, front, sub);
      AppendKeysFor(b, front, sub, u);
      assert u !in front by {
        forall i | 0 <= i < |front| ensures front[i] != u {
          assert users[i] != users[|users| - 1];
        }
      }
    }
  }

  /** merge_scores gives every user of the post's score list one more score, that post's, at the
      end of its list (a fresh list for a new user, added at the end of the order), raising its
      count by one and its sum by the score; every other user's list stays as it was. */
  lemma AppendRoundMeaning(b: Standings, sub: PyDict.Dict<string, int>, v: string)
    requires PyDict.Valid(b) && PyDict.Valid(sub)
    ensures AppendRound(b, sub).keys == b.keys + PyDict.NewKeys(b, sub.keys)
    ensures v in AppendRound(b, sub).values <==> v in b.values || v in sub.values
    ensures v in sub.values ==> AppendRound(b, sub).values[v] == ListOf(b, v) + [sub.values[v]]
    ensures v in sub.values ==>
      |AppendRound(b, sub).values[v]| == |ListOf(b, v)| + 1 &&
      SeqSum(AppendRound(b, sub).values[v]) == SeqSum(ListOf(b, v)) + sub.values[v]
    ensures v !in sub.values ==> ListOf(AppendRound(b, sub), v) == ListOf(b, v)
  {
    AppendKeysFor(b, sub.keys, sub.values, v);
    AppendKeysOrder(b, sub.keys, sub.values);
    if v in sub.values {
      SeqSumAppend(ListOf(b, v), sub.values[v]);
    }
  }

  /** Nobody on the board is left without scores by a merge. */
  lemma AppendRoundScored(b: Standings, sub: PyDict.Dict<string, int>)
    requires PyDict.Valid(b) && PyDict.Valid(sub) && Scored(b)
    ensures Scored(AppendRound(b, sub))
  {
    forall v | v in AppendRound(b, sub).values
      ensures AppendRound(b, sub).values[v] != []
    {
      AppendKeysFor(b, sub.keys, sub.values, v);
    }
  }

  class ScoresDict {
    var users: seq<string>
    var records: map<string, UserScores>
    /** The leaderboard's value: the key order and every record's list. */
    ghost var standings: Standings
    /** The record objects the dictionary owns. */
    ghost var Repr: set<UserScores>

    /** The keys are listed once in insertion order; each user has its own record object,
        named after it, holding the user's list; no list is empty, since a record is created
        just before its first score. */
    ghost predicate Valid()
      reads this, Repr
    {
      && PyDict.Valid(standings)
      && standings.keys == users
      && records.Keys == standings.values.Keys
      && (forall u :: u in records ==>
            records[u] in Repr && records[u].author == u && records[u].scores == standings.values[u] && records[u].scores != [])
    }

    constructor ()
      ensures Valid() && users == [] && records == map[] && standings == PyDict.Empty() && Repr == {}
    {
      users := [];
      records := map[];
      standings := PyDict.Empty();
      Repr := {};
    }
  }

  /** One iteration of merge_scores' loop: the user's record is created if absent, then gets
      the score appended. */
  method MergeOne(scoresDict: ScoresDict, user: string, score: int)
    requires scoresDict.Valid()
    modifies scoresDict, scoresDict.Repr
    ensures scoresDict.Valid()
    ensures var before := old(scoresDict.standings);
      scoresDict.standings == PyDict.Put(before, user, ListOf(before, user) + [score])
    ensures fresh(scoresDict.Repr - old(scoresDict.Repr))
  {
    if user !in scoresDict.records {
      assert ListOf(scoresDict.standings, user) + [score] == [score];
      AddUser(scoresDict, user, score);
    } else {
      AddScore(scoresDict, user, score);
    }
  }

  /** A user's first score: a new record is created and appended to the dictionary. */
  method AddUser(scoresDict: ScoresDict, user: string, score: int)
    requires scoresDict.Valid() && user !in scoresDict.records
    modifies scoresDict
    ensures scoresDict.Valid()
    ensures scoresDict.standings == PyDict.Put(old(scoresDict.standings), user, [score])
    ensures fresh(scoresDict.Repr - old(scoresDict.Repr))
  {
    var record := NewRecord(user, score);
    scoresDict.records := scoresDict.records[user := record];
    scoresDict.users := scoresDict.users + [user];
    scoresDict.standings := PyDict.Put(scoresDict.standings, user, record.scores);
    scoresDict.Repr := scoresDict.Repr + {record};
    forall u | u in scoresDict.records && u != user
      ensures var r := scoresDict.records[u];
        r in scoresDict.Repr && r.author == u && r.scores == scoresDict.standings.values[u] && r.scores != []
    {
      var r := scoresDict.records[u];
      assert r == old(scoresDict.records[u]) && r in old(scoresDict.Repr);
      assert r.scores == old(r.scores);
      assert scoresDict.standings.values[u] == old(scoresDict.standings.values[u]);
    }
  }

  /** `UserScores(user)` followed by `add(score)`. */
  method NewRecord(user: string, score: int) returns (record: UserScores)
    ensures fresh(record) && record.author == user && record.scores == [score]
  {
    record := new UserScores(user);
    record.Add(score);
  }

  /** A further score of a known user is appended to the user's existing record. */
  method AddScore(scoresDict: ScoresDict, user: string, score: int)
    requires scoresDict.Valid() && user in scoresDict.records
    modifies scoresDict, scoresDict.records[user]
    ensures scoresDict.Valid()
    ensures var before := old(scoresDict.standings);
      scoresDict.standings == PyDict.Put(before, user, before.values[user] + [score])
    ensures scoresDict.Repr == old(scoresDict.Repr)
  {
    var record := scoresDict.records[user];
    record.Add(score);
    scoresDict.standings := PyDict.Put(scoresDict.standings, user, record.scores);
    forall u | u in scoresDict.records
      ensures var r := scoresDict.records[u];
        r.author == u && r.scores == scoresDict.standings.values[u] && r.scores != []
    {
      if u != user {
        var r := scoresDict.records[u];
        assert r in scoresDict.Repr && r.author == u && r != record;
        assert r.scores == old(r.scores);
        assert scoresDict.standings.values[u] == old(scoresDict.standings.values[u]);
      }
    }
  }

  /** Merges the scores of one post (its comments) into the leaderboard. When get_score_list
      raises, nothing is merged. */
  method MergeScores(scoresDict: ScoresDict, comments: seq<Comment>, botName: string) returns (failure: Option<Fault>)
    requires scoresDict.Valid()
    modifies scoresDict, scoresDict.Repr
    ensures scoresDict.Valid()
    ensures failure.Some? <==> ScoreList(comments, botName).Err?
    ensures failure.Some? ==> failure.value == ScoreList(comments, botName).error && scoresDict.standings == old(scoresDict.standings)
    ensures failure.None? ==> scoresDict.standings == AppendRound(old(scoresDict.standings), ScoreList(comments, botName).value)
    ensures fresh(scoresDict.Repr - old(scoresDict.Repr))
  {
    var subScores := GetScoreList(comments, botName);
    if subScores.Err? {
      return Some(subScores.error);
    }
    MergeAll(scoresDict, subScores.value);
    return None;
  }

  /** The loop of merge_scores over the post's score list, in its order. */
  method MergeAll(scoresDict: ScoresDict, sub: PyDict.Dict<string, int>)
    requires scoresDict.Valid() && PyDict.Valid(sub)
    modifies scoresDict, scoresDict.Repr
    ensures scoresDict.Valid()
    ensures scoresDict.standings == AppendRound(old(scoresDict.standings), sub)
    ensures fresh(scoresDict.Repr - old(scoresDict.Repr))
  {
    ghost var start := scoresDict.standings;
    for i := 0 to |sub.keys|
      invariant scoresDict.Valid()
      invariant scoresDict.standings == AppendKeys(start, sub.keys[..i], sub.values)
      invariant fresh(scoresDict.Repr - old(scoresDict.Repr))
    {
      var user := sub.keys[i];
      AppendKeysStep(start, sub.keys, sub.values, i);
      MergeOne(scoresDict, user, sub.values[user]);
    }
    assert sub.keys[..|sub.keys|] == sub.keys;
  }

  /** Appending for one more user of the list is one more `Put`. */
  lemma AppendKeysStep(b: Standings, users: seq<string>, sub: map<string, int>, i: nat)
    requires PyDict.Valid(b) && (forall u :: u in users ==> u in sub) && i < |users|
    ensures var prev := AppendKeys(b, users[..i], sub);
      AppendKeys(b, users[..i + 1], sub) == PyDict.Put(prev, users[i], ListOf(prev, users[i]) + [sub[users[i]]])
  {
    assert users[..i + 1][..i] == users[..i];
  }

  /** The sort keys get_top10 computes for a leaderboard: `-sum()` of every list, in key order. */
  function NegTotals(b: Standings): (keys: seq<int>)
    requires PyDict.Valid(b)
    ensures |keys| == |b.keys|
    ensures forall j :: 0 <= j < |b.keys| ==> keys[j] == -SeqSum(b.values[b.keys[j]])
  {
    seq(|b.keys|, j requires 0 <= j < |b.keys| => -SeqSum(b.values[b.keys[j]]))
  }

  /** The user names in the order of the stable sort by descending total. */
  function Ranked(b: Standings): seq<string>
    requires PyDict.Valid(b)
  {
    PySort.SortedBy(b.keys, NegTotals(b))
  }

  /** get_top10 on values: the first ten names of the ranking (`[:10]`), or all of them. */
  function Top10(b: Standings): seq<string>
    requires PyDict.Valid(b)
  {
    var r := Ranked(b);
    if |r| <= 10 then r else r[..10]
  }

  /** The ranking lists every user exactly once, totals never increase along it, and users with
      equal totals keep the order in which they first scored. */
  lemma RankedMeaning(b: Standings)
    requires PyDict.Valid(b)
    ensures var r := Ranked(b);
      |r| == |b.keys| && (forall u :: u in r <==> u in b.values)
    ensures var r := Ranked(b);
      forall i, j :: 0 <= i < j < |r| ==> r[i] != r[j] && SeqSum(b.values[r[i]]) >= SeqSum(b.values[r[j]])
    ensures var r := Ranked(b);
      forall i, j :: 0 <= i < j < |r| && SeqSum(b.values[r[i]]) == SeqSum(b.values[r[j]]) ==>
        PyDict.IndexOf(b.keys, r[i]) < PyDict.IndexOf(b.keys, r[j])
  {
    PySort.SortedByMembers(b.keys, NegTotals(b));
    RankedSorted(b);
    RankedTies(b);
  }

  lemma RankedSorted(b: Standings)
    requires PyDict.Valid(b)
    ensures var r := Ranked(b);
      forall i, j :: 0 <= i < j < |r| ==> r[i] != r[j] && SeqSum(b.values[r[i]]) >= SeqSum(b.values[r[j]])
  {
    forall i, j | 0 <= i < j < |Ranked(b)| {
      RankedPair(b, i, j);
    }
  }

  /** Two places of the ranking hold different users, the earlier with the larger or equal total. */
  lemma RankedPair(b: Standings, i: nat, j: nat)
    requires PyDict.Valid(b) && i < j < |Ranked(b)|
    ensures var r := Ranked(b);
      r[i] != r[j] && SeqSum(b.values[r[i]]) >= SeqSum(b.values[r[j]])
  {
    var keys := NegTotals(b);
    var order := PySort.StableOrder(keys);
    PySort.PickedNames(b.keys, keys, order);
    assert keys[order[i]] <= keys[order[j]];
  }

  lemma RankedTies(b: Standings)
    requires PyDict.Valid(b)
    ensures var r := Ranked(b);
      forall i, j :: 0 <= i < j < |r| && SeqSum(b.values[r[i]]) == SeqSum(b.values[r[j]]) ==>
        PyDict.IndexOf(b.keys, r[i]) < PyDict.IndexOf(b.keys, r[j])
  {
    var keys := NegTotals(b);
    var order := PySort.StableOrder(keys);
    PySort.PickedNames(b.keys, keys, order);
  }

  /** The top ten are the first min(10, n) users of the ranking, each on the board once, and
      nobody left out has a higher total than anybody listed. */
  lemma Top10Meaning(b: Standings)
    requires PyDict.Valid(b)
    ensures var t := Top10(b);
      |t| == (if |b.keys| <= 10 then |b.keys| else 10) && t == Ranked(b)[..|t|]
    ensures var t := Top10(b);
      forall i, j :: 0 <= i < j < |t| ==> t[i] != t[j] && SeqSum(b.values[t[i]]) >= SeqSum(b.values[t[j]])
    ensures var t := Top10(b);
      forall u, i :: u in b.values && u !in t && 0 <= i < |t| ==> t[i] in b.values && SeqSum(b.values[u]) <= SeqSum(b.values[t[i]])
  {
    PySort.SortedByMembers(b.keys, NegTotals(b));
    Top10Sorted(b);
    Top10Highest(b);
  }

  lemma Top10Sorted(b: Standings)
    requires PyDict.Valid(b)
    ensures var t := Top10(b);
      forall i, j :: 0 <= i < j < |t| ==> t[i] in b.values && t[i] != t[j] && SeqSum(b.values[t[i]]) >= SeqSum(b.values[t[j]])
  {
    PySort.SortedByMembers(b.keys, NegTotals(b));
    RankedSorted(b);
    var r, t := Ranked(b), Top10(b);
    forall i, j | 0 <= i < j < |t|
      ensures t[i] in b.values && t[i] != t[j] && SeqSum(b.values[t[i]]) >= SeqSum(b.values[t[j]])
    {
      assert t[i] == r[i] && t[j] == r[j] && r[i] in r;
    }
  }

  lemma Top10Highest(b: Standings)
    requires PyDict.Valid(b)
    ensures var t := Top10(b);
      forall u, i :: u in b.values && u !in t && 0 <= i < |t| ==> t[i] in b.values && SeqSum(b.values[u]) <= SeqSum(b.values[t[i]])
  {
    forall u, i | u in b.values && u !in Top10(b) && 0 <= i < |Top10(b)| {
      Top10HighestAt(b, u, i);
    }
  }

  lemma Top10HighestAt(b: Standings, u: string, i: nat)
    requires PyDict.Valid(b) && u in b.values && u !in Top10(b) && i < |Top10(b)|
    ensures var t := Top10(b);
      t[i] in b.values && SeqSum(b.values[u]) <= SeqSum(b.values[t[i]])
  {
    PySort.SortedByMembers(b.keys, NegTotals(b));
    var r, t := Ranked(b), Top10(b);
    var j :| 0 <= j < |r| && r[j] == u;
    assert t[i] == r[i] && r[i] in r;
    RankedPair(b, i, j);
  }

  /** get_top10: the (user, record) items of the leaderboard sorted by `-sum()`, i.e. by
      descending total with ties in insertion order, cut after the tenth. */
  method GetTop10(scoresDict: ScoresDict) returns (top10: seq<(string, UserScores)>)
    requires scoresDict.Valid()
    ensures var t := Top10(scoresDict.standings);
      |top10| == |t| && forall i :: 0 <= i < |top10| ==> top10[i].0 == t[i]
    ensures forall i :: 0 <= i < |top10| ==> top10[i].0 in scoresDict.records && top10[i].1 == scoresDict.records[top10[i].0]
  {
    var scoreList := SortedItems(scoresDict);
    top10 := if |scoreList| <= 10 then scoreList else scoreList[..10];
  }

  /** The dictionary's items sorted by `-sum()`: the ranking's users with their records. */
  method SortedItems(scoresDict: ScoresDict) returns (scoreList: seq<(string, UserScores)>)
    requires scoresDict.Valid()
    ensures var r := Ranked(scoresDict.standings);
      |scoreList| == |r| && forall i :: 0 <= i < |r| ==> scoreList[i].0 == r[i]
    ensures forall i :: 0 <= i < |scoreList| ==> scoreList[i].0 in scoresDict.records && scoreList[i].1 == scoresDict.records[scoreList[i].0]
  {
    var users, records := scoresDict.users, scoresDict.records;
    assert forall i :: 0 <= i < |users| ==> users[i] in records;
    var keys := NegatedTotals(users, records);
    assert keys == NegTotals(scoresDict.standings);
    var order := PySort.StableOrder(keys);
    scoreList := PySort.Pick(users, records, order);
  }

  /** The sort keys of get_top10, `-sum()` of every user's record, in dictionary order. */
  method NegatedTotals(users: seq<string>, records: map<string, UserScores>) returns (keys: seq<int>)
    requires forall i :: 0 <= i < |users| ==> users[i] in records
    ensures |keys| == |users|
    ensures forall j :: 0 <= j < |users| ==> keys[j] == -records[users[j]].Sum()
  {
    keys := [];
    for i := 0 to |users|
      invariant |keys| == i
      invariant forall j :: 0 <= j < i ==> keys[j] == -records[users[j]].Sum()
    {
      keys := keys + [-records[users[i]].Sum()];
    }
  }

  /** One line of the posted table: user name, times participated, average score and score sum. */
  datatype BodyRow = BodyRow(user: string, timesParticipated: nat, average: int, total: int)

  /** The line of the table for user `u` of the board. */
  function RowOf(b: Standings, u: string): BodyRow
    requires u in b.values && b.values[u] != []
  {
    var scores := b.values[u];
    BodyRow(u, |scores|, SeqSum(scores) / |scores|, SeqSum(scores))
  }

  /** The table posted for a board: one line per user of the top ten, in that order. */
  function Body(b: Standings): seq<BodyRow>
    requires PyDict.Valid(b) && Scored(b)
  {
    var t := Top10(b);
    PySort.SortedByMembers(b.keys, NegTotals(b));
    seq(|t|, i requires 0 <= i < |t| => RowOf(b, t[i]))
  }

  /** The posted table has at most ten lines, one per user, with totals never increasing down
      the table; every line counts at least one post, and its average is the floor of its total
      over its count. */
  lemma BodyMeaning(b: Standings)
    requires PyDict.Valid(b) && Scored(b)
    ensures |Body(b)| == |Top10(b)| <= 10
    ensures var rows := Body(b);
      forall i, j :: 0 <= i < j < |rows| ==> rows[i].user != rows[j].user && rows[i].total >= rows[j].total
    ensures var rows := Body(b);
      forall i :: 0 <= i < |rows| ==>
        && rows[i].user == Top10(b)[i]
        && rows[i].timesParticipated >= 1
        && rows[i].average * rows[i].timesParticipated <= rows[i].total < rows[i].average * rows[i].timesParticipated + rows[i].timesParticipated
  {
    Top10Sorted(b);
    var rows, t := Body(b), Top10(b);
    forall i | 0 <= i < |rows|
      ensures rows[i] == RowOf(b, t[i]) && rows[i].timesParticipated >= 1
      ensures rows[i].average * rows[i].timesParticipated <= rows[i].total < rows[i].average * rows[i].timesParticipated + rows[i].timesParticipated
    {
      var row := rows[i];
      assert row == RowOf(b, t[i]);
      assert row.average == row.total / row.timesParticipated;
      FloorBounds(row.total, row.timesParticipated);
    }
    forall i, j | 0 <= i < j < |rows|
      ensures rows[i].user != rows[j].user && rows[i].total >= rows[j].total
    {
      assert rows[i] == RowOf(b, t[i]) && rows[j] == RowOf(b, t[j]);
    }
  }

  /** Python's `//` by a positive count: the quotient times the count is at most the dividend
      and the next multiple is above it. */
  lemma FloorBounds(total: int, count: nat)
    requires count > 0
    ensures (total / count) * count <= total < (total / count) * count + count
  {
  }

  /** get_formatted_body's loop: one line per (user, record) item, in order. The surrounding
      markdown text is not modelled. */
  method GetFormattedBody(top10: seq<(string, UserScores)>) returns (rows: seq<BodyRow>)
    requires forall i :: 0 <= i < |top10| ==> top10[i].1.scores != []
    ensures |rows| == |top10|
    ensures forall i :: 0 <= i < |top10| ==>
      rows[i] == BodyRow(top10[i].0, top10[i].1.Len(), top10[i].1.Avg(), top10[i].1.Sum())
  {
    rows := [];
    for i := 0 to |top10|
      invariant |rows| == i
      invariant forall k :: 0 <= k < i ==>
        rows[k] == BodyRow(top10[k].0, top10[k].1.Len(), top10[k].1.Avg(), top10[k].1.Sum())
    {
      var user, scores := top10[i].0, top10[i].1;
      rows := rows + [BodyRow(user, scores.Len(), scores.Avg(), scores.Sum())];
    }
  }

  /** A post of the series, oldest first: its comments, and whether it still lacks the bot's
      table (still_needs_post). */
  datatype Post = Post(comments: seq<Comment>, needsPost: bool)

  /** The table replied to post number `post`. */
  datatype Reply = Reply(post: nat, rows: seq<BodyRow>)

  /** The board after merging `posts` one after another into an empty dictionary, or the first
      exception raised. */
  function Merged(posts: seq<Post>, botName: string): (r: Result<Standings, Fault>)
    ensures r.Ok? ==> PyDict.Valid(r.value) && Scored(r.value)
  {
    if posts == [] then Ok(PyDict.Empty())
    else
      match Merged(posts[..|posts| - 1], botName)
      case Err(e) => Err(e)
      case Ok(b) =>
        match ScoreList(posts[|posts| - 1].comments, botName)
        case Err(e) => Err(e)
        case Ok(sub) => AppendRoundScored(b, sub); Ok(AppendRound(b, sub))
  }

  /** The replies check_submissions makes for `posts`: before a post is merged, it gets the
      table of the board so far if that board is not empty and the post still needs one. */
  function Replies(posts: seq<Post>, botName: string): seq<Reply> {
    if posts == [] then []
    else
      var front := posts[..|posts| - 1];
      var earlier := Replies(front, botName);
      match Merged(front, botName)
      case Err(_) => earlier
      case Ok(b) =>
        if b.keys != [] && posts[|posts| - 1].needsPost then earlier + [Reply(|front|, Body(b))] else earlier
  }

  /** check_submissions' loop over the series' posts (already sorted by creation time). An
      exception from merge_scores ends the run; the replies made before it stay made. */
  method CheckSubmissions(posts: seq<Post>, botName: string) returns (replies: seq<Reply>, failure: Option<Fault>)
    ensures replies == Replies(posts, botName)
    ensures failure.None? <==> Merged(posts, botName).Ok?
    ensures failure.Some? ==> Merged(posts, botName) == Err(failure.value)
  {
    var scoresDict := new ScoresDict();
    replies := [];
    for k := 0 to |posts|
      invariant scoresDict.Valid() && fresh(scoresDict.Repr)
      invariant Merged(posts[..k], botName) == Ok(scoresDict.standings)
      invariant replies == Replies(posts[..k], botName)
    {
      RepliesStep(posts, botName, k);
      MergedStep(posts, botName, k);
      var reply;
      reply, failure := HandlePost(scoresDict, posts[k], k, botName);
      replies := replies + reply;
      if failure.Some? {
        MergedSticks(posts, botName, k + 1);
        return;
      }
    }
    assert posts[..|posts|] == posts;
    failure := None;
  }

  /** One iteration of check_submissions' loop: post number `k` gets the table of the board if
      the board is not empty and the post still needs it, and is then merged. */
  method HandlePost(scoresDict: ScoresDict, post: Post, k: nat, botName: string) returns (reply: seq<Reply>, failure: Option<Fault>)
    requires scoresDict.Valid()
    modifies scoresDict, scoresDict.Repr
    ensures scoresDict.Valid() && fresh(scoresDict.Repr - old(scoresDict.Repr))
    ensures var b := old(scoresDict.standings);
      Scored(b) && reply == if b.keys != [] && post.needsPost then [Reply(k, Body(b))] else []
    ensures failure.Some? <==> ScoreList(post.comments, botName).Err?
    ensures failure.Some? ==> failure.value == ScoreList(post.comments, botName).error
    ensures failure.None? ==> scoresDict.standings == AppendRound(old(scoresDict.standings), ScoreList(post.comments, botName).value)
  {
    reply := [];
    if scoresDict.users != [] && post.needsPost {
      var rows := TableOf(scoresDict);
      reply := [Reply(k, rows)];
    }
    failure := MergeScores(scoresDict, post.comments, botName);
  }

  /** The table check_submissions replies with: get_formatted_body of get_top10. */
  method TableOf(scoresDict: ScoresDict) returns (rows: seq<BodyRow>)
    requires scoresDict.Valid()
    ensures Scored(scoresDict.standings) && rows == Body(scoresDict.standings)
  {
    var top10 := GetTop10(scoresDict);
    rows := GetFormattedBody(top10);
    BodyOfTop10(scoresDict, top10, rows);
  }

  /** The lines formatted from get_top10's items are the table of the board. */
  lemma BodyOfTop10(scoresDict: ScoresDict, top10: seq<(string, UserScores)>, rows: seq<BodyRow>)
    requires scoresDict.Valid()
    requires var t := Top10(scoresDict.standings);
      |top10| == |t| && forall i :: 0 <= i < |top10| ==> top10[i].0 == t[i]
    requires forall i :: 0 <= i < |top10| ==> top10[i].0 in scoresDict.records && top10[i].1 == scoresDict.records[top10[i].0]
    requires |rows| == |top10|
    requires forall i :: 0 <= i < |top10| ==>
      top10[i].1.scores != [] && rows[i] == BodyRow(top10[i].0, top10[i].1.Len(), top10[i].1.Avg(), top10[i].1.Sum())
    ensures Scored(scoresDict.standings) && rows == Body(scoresDict.standings)
  {
  }

  /** After the first exception nothing changes: no later post is merged or replied to. */
  lemma {:induction false} MergedSticks(posts: seq<Post>, botName: string, k: nat)
    requires k <= |posts| && Merged(posts[..k], botName).Err?
    ensures Merged(posts, botName) == Merged(posts[..k], botName)
    ensures Replies(posts, botName) == Replies(posts[..k], botName)
    decreases |posts|
  {
    if k < |posts| {
      var front := posts[..|posts| - 1];
      assert front[..k] == posts[..k];
      MergedSticks(front, botName, k);
    } else {
      assert posts[..k] == posts;
    }
  }

  /** Taking one more post: it is replied to from the board so far. */
  lemma RepliesStep(posts: seq<Post>, botName: string, k: nat)
    requires k < |posts| && Merged(posts[..k], botName).Ok?
    ensures var b := Merged(posts[..k], botName).value;
      Replies(posts[..k + 1], botName) ==
        Replies(posts[..k], botName) + (if b.keys != [] && posts[k].needsPost then [Reply(k, Body(b))] else [])
  {
    var next := posts[..k + 1];
    assert next[..|next| - 1] == posts[..k] && next[|next| - 1] == posts[k];
  }

  /** Taking one more post: after its reply, it is merged into the board so far. */
  lemma MergedStep(posts: seq<Post>, botName: string, k: nat)
    requires k < |posts| && Merged(posts[..k], botName).Ok?
    ensures var b := Merged(posts[..k], botName).value;
      Merged(posts[..k + 1], botName) ==
        match ScoreList(posts[k].comments, botName)
        case Err(e) => Err(e)
        case Ok(sub) => Ok(AppendRound(b, sub))
  {
    var next := posts[..k + 1];
    assert next[..|next| - 1] == posts[..k] && next[|next| - 1] == posts[k];
  }

  /** Reply `r` is what check_submissions makes for post `r.post`: a post that still needs a
      table, answered with the table of the board built from the posts before it alone, which
      merged without an exception and is not empty. */
  ghost predicate Answers(posts: seq<Post>, botName: string, r: Reply) {
    && r.post < |posts|
    && posts[r.post].needsPost
    && Merged(posts[..r.post], botName).Ok?
    && Merged(posts[..r.post], botName).value.keys != []
    && r.rows == Body(Merged(posts[..r.post], botName).value)
  }

  /** Every reply answers its post from the earlier posts only, the first post never gets one,
      and each post gets at most one, in post order. */
  lemma {:induction false} RepliesSound(posts: seq<Post>, botName: string)
    ensures var rs := Replies(posts, botName);
      forall i :: 0 <= i < |rs| ==> 0 < rs[i].post && Answers(posts, botName, rs[i])
    ensures var rs := Replies(posts, botName);
      forall i, j :: 0 <= i < j < |rs| ==> rs[i].post < rs[j].post
    decreases |posts|
  {
    if posts != [] {
      var front := posts[..|posts| - 1];
      RepliesSound(front, botName);
      RepliesLast(posts, botName);
      var earlier, rs := Replies(front, botName), Replies(posts, botName);
      forall i | 0 <= i < |earlier|
        ensures rs[i] == earlier[i] && 0 < rs[i].post < |posts| - 1 && Answers(posts, botName, rs[i])
      {
        assert rs[i] == rs[..|earlier|][i];
        assert 0 < earlier[i].post && Answers(front, botName, earlier[i]);
        AnswersLonger(posts, botName, earlier[i]);
      }
    }
  }

  /** The replies for `posts` are those for all but the last post, then possibly one for the last. */
  lemma RepliesLast(posts: seq<Post>, botName: string)
    requires posts != []
    ensures var front := posts[..|posts| - 1];
      var earlier, rs := Replies(front, botName), Replies(posts, botName);
      && rs[..|earlier|] == earlier
      && (|rs| == |earlier| ||
          (|rs| == |earlier| + 1 && rs[|earlier|].post == |posts| - 1 && 0 < rs[|earlier|].post &&
           Answers(posts, botName, rs[|earlier|])))
  {
    var front := posts[..|posts| - 1];
    assert posts[..|front|] == front;
    if Merged(front, botName).Ok? && Merged(front, botName).value.keys != [] {
      assert front != [];
    }
  }

  /** An answer among the first posts stays one when a post is added. */
  lemma AnswersLonger(posts: seq<Post>, botName: string, r: Reply)
    requires posts != [] && Answers(posts[..|posts| - 1], botName, r)
    ensures Answers(posts, botName, r)
  {
    assert posts[..|posts| - 1][..r.post] == posts[..r.post];
  }

  /** Conversely, every post after which the board so far is non-empty and error-free, and that
      still needs a table, gets a reply. */
  lemma {:induction false} RepliesComplete(posts: seq<Post>, botName: string, k: nat)
    requires k < |posts| && posts[k].needsPost
    requires Merged(posts[..k], botName).Ok? && Merged(posts[..k], botName).value.keys != []
    ensures exists i :: 0 <= i < |Replies(posts, botName)| && Replies(posts, botName)[i].post == k
    decreases |posts|
  {
    var front := posts[..|posts| - 1];
    var rs := Replies(posts, botName);
    if k == |posts| - 1 {
      assert front == posts[..k];
      assert rs[|rs| - 1].post == k;
    } else {
      assert front[..k] == posts[..k];
      RepliesComplete(front, botName, k);
      var i :| 0 <= i < |Replies(front, botName)| && Replies(front, botName)[i].post == k;
      assert rs[i] == Replies(front, botName)[i];
    }
  }
}
