/** One participant's scores in the original bot version (GeoStackr.py, class UserScores): a
    list with one score per post the user took part in, appended to and never changed. */
module LegacyRecords {

  /** Python's `sum` of a list. */
  function SeqSum(s: seq<int>): int {
    if s == [] then 0 else SeqSum(s[..|s| - 1]) + s[|s| - 1]
  }

  /** Appending a score adds it to the sum. */
  lemma SeqSumAppend(s: seq<int>, x: int)
    ensures SeqSum(s + [x]) == SeqSum(s) + x
  {
    assert (s + [x])[..|s|] == s;
  }

  /** The sum adds up the list from the front as well (the order Python's `sum` uses). */
  lemma {:induction false} SeqSumFront(s: seq<int>)
    requires s != []
    ensures SeqSum(s) == s[0] + SeqSum(s[1..])
  {
    if |s| > 1 {
      var front := s[..|s| - 1];
      SeqSumFront(front);
      assert front[1..] == s[1..][..|s| - 2];
    }
  }

  class UserScores {
    const author: string
    var scores: seq<int>

    constructor (author: string)
      ensures this.author == author && scores == []
    {
      this.author := author;
      scores := [];
    }

    /** Appends `score`: the list grows by one and ends with it; earlier scores stay. */
    method Add(score: int)
      modifies this
      ensures scores == old(scores) + [score]
      ensures |scores| == |old(scores)| + 1 && scores[|scores| - 1] == score
      ensures Sum() == old(Sum()) + score
    {
      SeqSumAppend(scores, score);
      scores := scores + [score];
    }

    function Sum(): int
      reads this
    {
      SeqSum(scores)
    }

    /** The number of scores, repeats included. */
    function Len(): (n: nat)
      reads this
      ensures n == |scores|
    {
      |scores|
    }

    /** `sum // len`: Python floors, which for the positive length is Dafny's division. Python
        raises ZeroDivisionError on an empty list. */
    function Avg(): (mean: int)
      reads this
      requires scores != []
      ensures mean * Len() <= Sum() < mean * Len() + Len()
    {
      Sum() / Len()
    }
  }

  /** Every post counts: the same score added twice is two entries, not one. */
  method AddTwice(u: UserScores, score: int)
    modifies u
    ensures u.scores == old(u.scores) + [score, score]
    ensures u.Len() == old(u.Len()) + 2 && u.Sum() == old(u.Sum()) + 2 * score
  {
    u.Add(score);
    u.Add(score);
    assert old(u.scores) + [score] + [score] == old(u.scores) + [score, score];
  }
}
