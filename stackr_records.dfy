/** One participant's scores in the current bot version (geostackr.py, class UserScores):
    a dictionary from round index (the 1-based position of a post in its series) to the
    score extracted in that round. The aggregates are derived from it on every call. */
module StackrRecords {

  /** `k` is the highest round index recorded in `m`. */
  ghost predicate IsLastRound(m: map<int, int>, k: int) {
    k in m && forall j :: j in m ==> j <= k
  }

  lemma {:induction false} HighestExists(keys: set<int>)
    requires keys != {}
    ensures exists k :: k in keys && forall j :: j in keys ==> j <= k
    decreases |keys|
  {
    var x := PickOne(keys);
    var rest := keys - {x};
    if forall y :: y !in rest {
      forall j | j in keys
        ensures j <= x
      {
        assert j !in rest;
      }
    } else {
      assert |rest| == |keys| - 1;
      NonEmpty(rest);
      HighestExists(rest);
      var k :| k in rest && forall j :: j in rest ==> j <= k;
      var top := if x <= k then k else x;
      forall j | j in keys
        ensures j <= top
      {
        if j != x { assert j in rest; }
      }
      assert top in keys;
    }
  }

  lemma NonEmpty(keys: set<int>)
    requires exists y :: y in keys
    ensures keys != {}
  {
  }

  lemma PickOne(keys: set<int>) returns (x: int)
    requires keys != {}
    ensures x in keys
  {
    if forall y :: y !in keys {
      NoMemberMeansEmpty(keys);
      assert false;
    }
    x :| x in keys;
  }

  lemma NoMemberMeansEmpty(keys: set<int>)
    requires forall y :: y !in keys
    ensures keys == {}
  {
    assert forall y :: y in keys <==> y in {};
  }

  /** Python's `max(d)` over the round indices of a non-empty dictionary. */
  function MaxKey(keys: set<int>): (k: int)
    requires keys != {}
    ensures k in keys && forall j :: j in keys ==> j <= k
  {
    HighestExists(keys);
    var k :| k in keys && forall j :: j in keys ==> j <= k;
    k
  }

  /** Python's `sum(d.values())`, adding the highest round first (the order does not matter,
      see MapSumRemove). */
  function MapSum(m: map<int, int>): int
    decreases |m|
  {
    if m == map[] then 0
    else
      var k := MaxKey(m.Keys);
      assert |m - {k}| < |m| by { assert (m - {k}).Keys == m.Keys - {k}; }
      m[k] + MapSum(m - {k})
  }

  /** Any recorded round can be taken out of the sum first. */
  lemma {:induction false} MapSumRemove(m: map<int, int>, k: int)
    requires k in m
    ensures MapSum(m) == m[k] + MapSum(m - {k})
    decreases |m|
  {
    var top := MaxKey(m.Keys);
    if k != top {
      assert (m - {top}).Keys == m.Keys - {top};
      MapSumRemove(m - {top}, k);
      var rest := m - {k};
      assert top in rest && forall j :: j in rest ==> j <= top;
      assert MaxKey(rest.Keys) == top;
      assert rest - {top} == (m - {top}) - {k};
    }
  }

  /** Overwriting the score of one round changes the sum by the difference. */
  lemma MapSumPut(m: map<int, int>, r: int, s: int)
    ensures MapSum(m[r := s]) == MapSum(m) - (if r in m then m[r] else 0) + s
  {
    MapSumRemove(m[r := s], r);
    assert m[r := s] - {r} == m - {r};
    if r in m {
      MapSumRemove(m, r);
    } else {
      assert m - {r} == m;
    }
  }

  /** The scores of rounds 1..n. */
  function RoundsUpTo(m: map<int, int>, n: int): map<int, int> {
    map k | k in m && 1 <= k <= n :: m[k]
  }

  /** The total of rounds 1..n is that of rounds 1..n-1 plus round n's score, if any. */
  lemma RoundsUpToStep(m: map<int, int>, n: int)
    requires n >= 1
    ensures MapSum(RoundsUpTo(m, n)) == MapSum(RoundsUpTo(m, n - 1)) + (if n in m then m[n] else 0)
  {
    var upTo := RoundsUpTo(m, n);
    if n in m {
      MapSumRemove(upTo, n);
      assert upTo - {n} == RoundsUpTo(m, n - 1);
    } else {
      assert upTo == RoundsUpTo(m, n - 1);
    }
  }

  class UserScores {
    const author: string
    var scores: map<int, int>

    constructor (author: string)
      ensures this.author == author && scores == map[]
    {
      this.author := author;
      scores := map[];
    }

    /** Records `score` for round `roundIndex`, replacing a score already recorded there. */
    method Add(roundIndex: int, score: int)
      modifies this
      ensures scores == old(scores)[roundIndex := score]
    {
      scores := scores[roundIndex := score];
    }

    /** The total of all recorded scores (in any order of rounds: see MapSumRemove). */
    function Sum(): int
      reads this
    {
      MapSum(scores)
    }

    /** The number of distinct rounds with a score. */
    function Len(): (n: nat)
      reads this
      ensures n == |scores.Keys|
    {
      |scores|
    }

    /** `sum // len`: Python floors, which for the positive count is Dafny's division. Only
        defined when a round is recorded; Python raises ZeroDivisionError otherwise. */
    function Avg(): (mean: int)
      reads this
      requires scores != map[]
      ensures mean * Len() <= Sum() < mean * Len() + Len()
    {
      Sum() / Len()
    }

    /** The score of the highest recorded round; Python raises ValueError on an empty record. */
    function Last(): (score: int)
      reads this
      requires scores != map[]
      ensures forall k :: IsLastRound(scores, k) ==> score == scores[k]
    {
      scores[MaxKey(scores.Keys)]
    }

    /** The cumulative score series the plot draws: x runs over rounds 1..highest round, and y
        is the running total, carried forward through rounds without a score. */
    method XY() returns (xs: seq<int>, ys: seq<int>)
      requires scores != map[]
      ensures var last := MaxKey(scores.Keys); |xs| == |ys| == (if last >= 1 then last else 0)
      ensures forall i :: 0 <= i < |xs| ==> xs[i] == i + 1
      ensures forall i :: 0 <= i < |ys| ==> ys[i] == MapSum(RoundsUpTo(scores, i + 1))
      ensures forall i :: 0 < i < |ys| && i + 1 !in scores ==> ys[i] == ys[i - 1]
      ensures (forall k :: k in scores ==> k >= 1) ==> |ys| > 0 && ys[|ys| - 1] == Sum()
    {
      var last := MaxKey(scores.Keys);
      xs, ys := [], [];
      var prevY := 0;
      assert RoundsUpTo(scores, 0) == map[];
      var i := 1;
      while i < last + 1
        invariant 1 <= i <= if last >= 1 then last + 1 else 1
        invariant |xs| == |ys| == i - 1
        invariant forall j :: 0 <= j < i - 1 ==> xs[j] == j + 1 && ys[j] == MapSum(RoundsUpTo(scores, j + 1))
        invariant prevY == MapSum(RoundsUpTo(scores, i - 1))
      {
        xs := xs + [i];
        RoundsUpToStep(scores, i);
        if i in scores {
          prevY := prevY + scores[i];
        }
        ys := ys + [prevY];
        i := i + 1;
      }
      forall i | 0 < i < |ys| && i + 1 !in scores
        ensures ys[i] == ys[i - 1]
      {
        RoundsUpToStep(scores, i + 1);
      }
      if forall k :: k in scores ==> k >= 1 {
        assert RoundsUpTo(scores, last) == scores;
      }
    }
  }

  /** Two scores for the same round: only the later one is kept, every other round is as it
      was, and the round is counted once. With equal scores (the same post processed again) the
      record ends as after a single call. */
  method AddTwice(u: UserScores, roundIndex: int, first: int, second: int)
    modifies u
    ensures u.scores == old(u.scores)[roundIndex := second]
    ensures roundIndex in u.scores && u.scores[roundIndex] == second
    ensures forall k :: k in old(u.scores) && k != roundIndex ==> k in u.scores && u.scores[k] == old(u.scores)[k]
    ensures u.Len() == old(u.Len()) + (if roundIndex in old(u.scores) then 0 else 1)
  {
    u.Add(roundIndex, first);
    u.Add(roundIndex, second);
  }
}
