/** The leaderboard of one series in the current bot version (geostackr.py): the dictionary
    `scores_dict` from user name to UserScores, merge_scores and get_top. */
module StackrBoard {
  import opened Wrappers
  import PyDict
  import PySort
  import opened StackrRecords
  import opened Reddit
  import opened StackrExtract

  /** The leaderboard as a value: user names in first-appearance order, each with its rounds. */
  type Standings = PyDict.Dict<string, map<int, int>>

  /** The rounds of `u` in `b`; a user without a record has none. */
  function ScoresOf(b: Standings, u: string): map<int, int> {
    if u in b.values then b.values[u] else map[]
  }

  /** merge_scores on values: each user of the post's score list, in its order, gets a record
      if it has none and then gets round `roundIndex` set to its score. */
  function MergeKeys(b: Standings, users: seq<string>, sub: map<string, int>, roundIndex: int): (r: Standings)
    requires PyDict.Valid(b) && forall u :: u in users ==> u in sub
    ensures PyDict.Valid(r)
  {
    if users == [] then b
    else
      var prev := MergeKeys(b, users[..|users| - 1], sub, roundIndex);
      var u := users[|users| - 1];
      PyDict.Put(prev, u, ScoresOf(prev, u)[roundIndex := sub[u]])
  }

  function MergeRound(b: Standings, sub: PyDict.Dict<string, int>, roundIndex: int): (r: Standings)
    requires PyDict.Valid(b) && PyDict.Valid(sub)
    ensures PyDict.Valid(r)
  {
    MergeKeys(b, sub.keys, sub.values, roundIndex)
  }

  /** What merging the users `users` does to one user `v`. */
  lemma {:induction false} MergeKeysFor(b: Standings, users: seq<string>, sub: map<string, int>, roundIndex: int, v: string)
    requires PyDict.Valid(b) && forall u :: u in users ==> u in sub
    requires forall i, j :: 0 <= i < j < |users| ==> users[i] != users[j]
    ensures v in MergeKeys(b, users, sub, roundIndex).values <==> v in b.values || v in users
    ensures ScoresOf(MergeKeys(b, users, sub, roundIndex), v) ==
      if v in users then ScoresOf(b, v)[roundIndex := sub[v]] else ScoresOf(b, v)
  {
    if users != [] {
      var front := users[..|users| - 1];
      var u := users[|users| - 1];
      assert users == front + [u];
      MergeKeysFor(b, front, sub, roundIndex, v);
      var prev := MergeKeys(b, front, sub, roundIndex);
      var r := MergeKeys(b, users, sub, roundIndex);
      assert r == PyDict.Put(prev, u, ScoresOf(prev, u)[roundIndex := sub[u]]);
      if v == u {
        assert v !in front by {
          forall i | 0 <= i < |front| ensures front[i] != u {
            assert users[i] != users[|users| - 1];
          }
        }
      }
    }
  }

  /** Merging appends the users without a record to the order, in the order they are merged. */
  lemma {:induction false} MergeKeysOrder(b: Standings, users: seq<string>, sub: map<string, int>, roundIndex: int)
    requires PyDict.Valid(b) && forall u :: u in users ==> u in sub
    requires forall i, j :: 0 <= i < j < |users| ==> users[i] != users[j]
    ensures MergeKeys(b, users, sub, roundIndex).keys == b.keys + PyDict.NewKeys(b, users)
  {
    if users != [] {
      var front := users[..|users| - 1];
      var u := users[|users| - 1];
      MergeKeysOrder(b, front, sub, roundIndex);
      MergeKeysFor(b, front, sub, roundIndex, u);
      assert u !in front by {
        forall i | 0 <= i < |front| ensures front[i] != u {
          assert users[i] != users[|users| - 1];
        }
      }
    }
  }

  /** merge_scores leaves every user of the post's score list with that round's score over its
      earlier rounds (a fresh record for a new user, added at the end of the order) and its
      sum changed by the difference, and every other user's record as it was. */
  lemma MergeRoundMeaning(b: Standings, sub: PyDict.Dict<string, int>, roundIndex: int, v: string)
    requires PyDict.Valid(b) && PyDict.Valid(sub)
    ensures MergeRound(b, sub, roundIndex).keys == b.keys + PyDict.NewKeys(b, sub.keys)
    ensures v in MergeRound(b, sub, roundIndex).values <==> v in b.values || v in sub.values
    ensures v in sub.values ==>
      MergeRound(b, sub, roundIndex).values[v] == ScoresOf(b, v)[roundIndex := sub.values[v]]
    ensures v in sub.values ==>
      MapSum(MergeRound(b, sub, roundIndex).values[v]) ==
        MapSum(ScoresOf(b, v)) - (if roundIndex in ScoresOf(b, v) then ScoresOf(b, v)[roundIndex] else 0) + sub.values[v]
    ensures v !in sub.values ==> ScoresOf(MergeRound(b, sub, roundIndex), v) == ScoresOf(b, v)
  {
    MergeKeysFor(b, sub.keys, sub.values, roundIndex, v);
    MergeKeysOrder(b, sub.keys, sub.values, roundIndex);
    if v in sub.values {
      MapSumPut(ScoresOf(b, v), roundIndex, sub.values[v]);
    }
  }

  class ScoresDict {
    var users: seq<string>
    var records: map<string, UserScores>
    /** The leaderboard's value: the key order and every record's rounds. */
    ghost var standings: Standings
    /** The record objects the dictionary owns. */
    ghost var Repr: set<UserScores>

    /** The keys are listed once in insertion order; each user has its own record object,
        named after it (so no two users share one), holding the user's rounds; no record is
        empty, since a record is created just before its first score. */
    ghost predicate Valid()
      reads this, Repr
    {
      && PyDict.Valid(standings)
      && standings.keys == users
      && records.Keys == standings.values.Keys
      && (forall u :: u in records ==>
            records[u] in Repr && records[u].author == u && records[u].scores == standings.values[u] && records[u].scores != map[])
    }

    constructor ()
      ensures Valid() && users == [] && records == map[] && standings == PyDict.Empty() && Repr == {}
    {
      users := [];
      records := map[];
      standings := PyDict.Empty();
      Repr := {};
    }
  }

  /** One iteration of merge_scores' loop: the user's record is created if absent, then gets
      the round's score. */
  method MergeOne(scoresDict: ScoresDict, user: string, score: int, seriesIndex: int)
    requires scoresDict.Valid()
    modifies scoresDict, scoresDict.Repr
    ensures scoresDict.Valid()
    ensures var before := old(scoresDict.standings);
      scoresDict.standings == PyDict.Put(before, user, ScoresOf(before, user)[seriesIndex := score])
    ensures fresh(scoresDict.Repr - old(scoresDict.Repr))
  {
    if user !in scoresDict.records {
      AddUser(scoresDict, user, score, seriesIndex);
    } else {
      AddScore(scoresDict, user, score, seriesIndex);
    }
  }

  /** A user's first score: a new record is created and appended to the dictionary. */
  method AddUser(scoresDict: ScoresDict, user: string, score: int, seriesIndex: int)
    requires scoresDict.Valid() && user !in scoresDict.records
    modifies scoresDict
    ensures scoresDict.Valid()
    ensures scoresDict.standings == PyDict.Put(old(scoresDict.standings), user, map[seriesIndex := score])
    ensures fresh(scoresDict.Repr - old(scoresDict.Repr))
  {
    var record := NewRecord(user, score, seriesIndex);
    scoresDict.records := scoresDict.records[user := record];
    scoresDict.users := scoresDict.users + [user];
    scoresDict.standings := PyDict.Put(scoresDict.standings, user, record.scores);
    scoresDict.Repr := scoresDict.Repr + {record};
    forall u | u in scoresDict.records && u != user
      ensures var r := scoresDict.records[u];
        r in scoresDict.Repr && r.author == u && r.scores == scoresDict.standings.values[u] && r.scores != map[]
    {
      var r := scoresDict.records[u];
      assert r == old(scoresDict.records[u]) && r in old(scoresDict.Repr);
      assert r.scores == old(r.scores);
      assert scoresDict.standings.values[u] == old(scoresDict.standings.values[u]);
    }
  }

  /** `UserScores(user)` followed by `add(seriesIndex, score)`. */
  method NewRecord(user: string, score: int, seriesIndex: int) returns (record: UserScores)
    ensures fresh(record) && record.author == user && record.scores == map[seriesIndex := score]
    ensures record.scores != map[]
  {
    record := new UserScores(user);
    record.Add(seriesIndex, score);
    assert seriesIndex in record.scores;
  }

  /** A further score of a known user goes into the user's existing record. */
  method AddScore(scoresDict: ScoresDict, user: string, score: int, seriesIndex: int)
    requires scoresDict.Valid() && user in scoresDict.records
    modifies scoresDict, scoresDict.records[user]
    ensures scoresDict.Valid()
    ensures var before := old(scoresDict.standings);
      scoresDict.standings == PyDict.Put(before, user, before.values[user][seriesIndex := score])
    ensures scoresDict.Repr == old(scoresDict.Repr)
  {
    var record := scoresDict.records[user];
    record.Add(seriesIndex, score);
    scoresDict.standings := PyDict.Put(scoresDict.standings, user, record.scores);
    forall u | u in scoresDict.records
      ensures var r := scoresDict.records[u];
        r.author == u && r.scores == scoresDict.standings.values[u] && r.scores != map[]
    {
      if u != user {
        var r := scoresDict.records[u];
        assert r in scoresDict.Repr && r.author == u && r != record;
        assert r.scores == old(r.scores);
        assert scoresDict.standings.values[u] == old(scoresDict.standings.values[u]);
      } else {
        assert seriesIndex in record.scores;
      }
    }
  }

  /** Merges the scores of one post (its comments) into the leaderboard as round `seriesIndex`.
      When get_score_list raises, nothing is merged. */
  method MergeScores(scoresDict: ScoresDict, comments: seq<Comment>, seriesIndex: int, config: SeriesConfig, ignoreUsers: set<string>)
    returns (failure: Option<Fault>)
    requires scoresDict.Valid()
    modifies scoresDict, scoresDict.Repr
    ensures scoresDict.Valid()
    ensures failure.Some? <==> ScoreList(comments, config, ignoreUsers).Err?
    ensures failure.Some? ==> failure.value == ScoreList(comments, config, ignoreUsers).error
    ensures failure.Some? ==> scoresDict.standings == old(scoresDict.standings)
    ensures failure.None? ==>
      scoresDict.standings == MergeRound(old(scoresDict.standings), ScoreList(comments, config, ignoreUsers).value, seriesIndex)
    ensures fresh(scoresDict.Repr - old(scoresDict.Repr))
  {
    var subScores := GetScoreList(comments, config, ignoreUsers);
    if subScores.Err? {
      return Some(subScores.error);
    }
    MergeAll(scoresDict, subScores.value, seriesIndex);
    return None;
  }

  /** The loop of merge_scores over the post's score list, in its order. */
  method MergeAll(scoresDict: ScoresDict, sub: PyDict.Dict<string, int>, seriesIndex: int)
    requires scoresDict.Valid() && PyDict.Valid(sub)
    modifies scoresDict, scoresDict.Repr
    ensures scoresDict.Valid()
    ensures scoresDict.standings == MergeRound(old(scoresDict.standings), sub, seriesIndex)
    ensures fresh(scoresDict.Repr - old(scoresDict.Repr))
  {
    ghost var start := scoresDict.standings;
    for i := 0 to |sub.keys|
      invariant scoresDict.Valid()
      invariant scoresDict.standings == MergeKeys(start, sub.keys[..i], sub.values, seriesIndex)
      invariant fresh(scoresDict.Repr - old(scoresDict.Repr))
    {
      var user := sub.keys[i];
      MergeKeysStep(start, sub.keys, sub.values, seriesIndex, i);
      MergeOne(scoresDict, user, sub.values[user], seriesIndex);
    }
    assert sub.keys[..|sub.keys|] == sub.keys;
  }

  /** Merging one more user of the list is one more `Put`. */
  lemma MergeKeysStep(b: Standings, users: seq<string>, sub: map<string, int>, roundIndex: int, i: nat)
    requires PyDict.Valid(b) && (forall u :: u in users ==> u in sub) && i < |users|
    ensures var prev := MergeKeys(b, users[..i], sub, roundIndex);
      MergeKeys(b, users[..i + 1], sub, roundIndex) ==
        PyDict.Put(prev, users[i], ScoresOf(prev, users[i])[roundIndex := sub[users[i]]])
  {
    assert users[..i + 1][..i] == users[..i];
  }

  /** The sort keys get_top computes for a leaderboard: `-sum()` of every record, in key order. */
  function NegTotals(b: Standings): (keys: seq<int>)
    requires PyDict.Valid(b)
    ensures |keys| == |b.keys|
    ensures forall j :: 0 <= j < |b.keys| ==> keys[j] == -MapSum(b.values[b.keys[j]])
  {
    seq(|b.keys|, j requires 0 <= j < |b.keys| => -MapSum(b.values[b.keys[j]]))
  }

  /** get_top on values: the user names in the order of the stable sort by descending total. */
  function Ranked(b: Standings): seq<string>
    requires PyDict.Valid(b)
  {
    PySort.SortedBy(b.keys, NegTotals(b))
  }

  /** The ranking lists every user exactly once, totals never increase along it, and users with
      equal totals keep the order in which they first scored. */
  lemma RankedMeaning(b: Standings)
    requires PyDict.Valid(b)
    ensures var r := Ranked(b);
      |r| == |b.keys| && (forall u :: u in r <==> u in b.values)
    ensures var r := Ranked(b);
      forall i, j :: 0 <= i < j < |r| ==> r[i] != r[j]
    ensures var r := Ranked(b);
      forall i, j :: 0 <= i < j < |r| ==> MapSum(b.values[r[i]]) >= MapSum(b.values[r[j]])
    ensures var r := Ranked(b);
      forall i, j :: 0 <= i < j < |r| && MapSum(b.values[r[i]]) == MapSum(b.values[r[j]]) ==>
        PyDict.IndexOf(b.keys, r[i]) < PyDict.IndexOf(b.keys, r[j])
  {
    PySort.SortedByMembers(b.keys, NegTotals(b));
    RankedOrder(b);
  }

  lemma RankedOrder(b: Standings)
    requires PyDict.Valid(b)
    ensures var r := Ranked(b);
      forall i, j :: 0 <= i < j < |r| ==> r[i] != r[j]
    ensures var r := Ranked(b);
      forall i, j :: 0 <= i < j < |r| ==> MapSum(b.values[r[i]]) >= MapSum(b.values[r[j]])
    ensures var r := Ranked(b);
      forall i, j :: 0 <= i < j < |r| && MapSum(b.values[r[i]]) == MapSum(b.values[r[j]]) ==>
        PyDict.IndexOf(b.keys, r[i]) < PyDict.IndexOf(b.keys, r[j])
  {
    var keys := NegTotals(b);
    var order := PySort.StableOrder(keys);
    var r := Ranked(b);
    PySort.PickedNames(b.keys, keys, order);
    forall i, j | 0 <= i < j < |r|
      ensures MapSum(b.values[r[i]]) >= MapSum(b.values[r[j]])
    {
      assert keys[order[i]] <= keys[order[j]];
    }
  }

  /** get_top: the (user, record) items of the leaderboard sorted by `-sum()`, i.e. by
      descending total; equal totals keep their insertion order (Python's sort is stable). */
  method GetTop(scoresDict: ScoresDict) returns (top: seq<(string, UserScores)>)
    requires scoresDict.Valid()
    ensures var r := Ranked(scoresDict.standings);
      |top| == |r| && forall i :: 0 <= i < |top| ==> top[i].0 == r[i]
    ensures forall i :: 0 <= i < |top| ==> top[i].0 in scoresDict.records && top[i].1 == scoresDict.records[top[i].0]
  {
    var keys := NegatedTotals(scoresDict);
    var order := PySort.StableOrder(keys);
    top := PySort.Pick(scoresDict.users, scoresDict.records, order);
  }

  /** The sort keys of get_top, `-sum()` of every user's record, in dictionary order. */
  method NegatedTotals(scoresDict: ScoresDict) returns (keys: seq<int>)
    requires scoresDict.Valid()
    ensures keys == NegTotals(scoresDict.standings)
  {
    var users, records := scoresDict.users, scoresDict.records;
    keys := [];
    for i := 0 to |users|
      invariant |keys| == i
      invariant forall j :: 0 <= j < i ==> keys[j] == -MapSum(scoresDict.standings.values[users[j]])
    {
      keys := keys + [-records[users[i]].Sum()];
    }
  }
}
