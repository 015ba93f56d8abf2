/** The leaderboard table of the current bot version (geostackr.py): `nice_index` (an English
    ordinal such as "1st" or "112th") and the rank column of get_formatted_table, where users
    with equal sums share the rank of the first of them. */
module StackrTable {
  import opened Wrappers
  import opened StackrRecords

  /** The character of decimal digit `d`. */
  function DigitChar(d: nat): (c: char)
    requires d < 10
    ensures '0' <= c <= '9' && c as int - '0' as int == d
  {
    ('0' as int + d) as char
  }

  ghost predicate AllDigits(s: string) {
    forall i :: 0 <= i < |s| ==> '0' <= s[i] <= '9'
  }

  /** The decimal digits of `n`, most significant first: `str(n)` for n >= 0. */
  function Digits(n: nat): (s: string)
    ensures |s| >= 1 && AllDigits(s)
    ensures |s| > 1 ==> s[0] != '0'
  {
    if n < 10 then [DigitChar(n)] else Digits(n / 10) + [DigitChar(n % 10)]
  }

  /** The number a string of decimal digits denotes (an independent reading of `Digits`). */
  function DecimalValue(s: string): int
    requires AllDigits(s)
  {
    if s == [] then 0 else DecimalValue(s[..|s| - 1]) * 10 + (s[|s| - 1] as int - '0' as int)
  }

  lemma {:induction false} DigitsRoundTrip(n: nat)
    ensures DecimalValue(Digits(n)) == n
  {
    if n >= 10 {
      DigitsRoundTrip(n / 10);
      var s := Digits(n);
      assert s[..|s| - 1] == Digits(n / 10);
    }
  }

  /** Python's `str` of an integer: a minus sign before the digits of a negative number. */
  function Str(i: int): (s: string)
    ensures |s| >= 1 && (s[0] == '-' <==> i < 0)
  {
    if i < 0 then "-" + Digits(-i) else Digits(i)
  }

  /** Python's `int` of a string `Str` produces. */
  function ParseInt(s: string): int
    requires |s| >= 1 && AllDigits(if s[0] == '-' then s[1..] else s)
  {
    if s[0] == '-' then -DecimalValue(s[1..]) else DecimalValue(s)
  }

  lemma StrRoundTrip(i: int)
    ensures var s := Str(i); AllDigits(if s[0] == '-' then s[1..] else s) && ParseInt(s) == i
  {
    var s := Str(i);
    if i < 0 {
      assert s[1..] == Digits(-i);
      DigitsRoundTrip(-i);
    } else {
      DigitsRoundTrip(i);
    }
  }

  /** The ending nice_index tries for 1, 2 and 3 in turn (Python's `%` by a positive number is
      Dafny's `%`, so this holds for negative indices too). */
  function Suffix(index: int): string {
    if index % 10 == 1 && index % 100 != 11 then "st"
    else if index % 10 == 2 && index % 100 != 12 then "nd"
    else if index % 10 == 3 && index % 100 != 13 then "rd"
    else "th"
  }

  /** `nice_index`: the index followed by its English ordinal ending. */
  function NiceIndex(index: int): string {
    Str(index) + Suffix(index)
  }

  /** The one-line variant kept in a comment next to nice_index: look the ending up by the whole
      number when it ends in 10..13, by its last digit otherwise. */
  function GolfedSuffix(i: int): string {
    var key := if 9 < i % 100 < 14 then i else i % 10;
    if key == 1 then "st" else if key == 2 then "nd" else if key == 3 then "rd" else "th"
  }

  /** Both formulations give every integer the same ending. */
  lemma SuffixMatchesGolfed(i: int)
    ensures Suffix(i) == GolfedSuffix(i)
  {
    if 9 < i % 100 < 14 {
      assert i % 10 == i % 100 - 10 by {
        assert i % 100 == i - 100 * (i / 100);
        assert i == 10 * (10 * (i / 100) + 1) + (i % 100 - 10);
      }
      assert i != 1 && i != 2 && i != 3;
    }
  }

  /** The printed index reads back as the index, followed by its ending. */
  lemma NiceIndexParts(index: int)
    ensures var s := NiceIndex(index); var n := |s| - 2;
      s[n..] == Suffix(index) && s[..n] == Str(index) && ParseInt(s[..n]) == index
  {
    var s := NiceIndex(index);
    assert s[..|s| - 2] == Str(index);
    StrRoundTrip(index);
  }

  /** The first endings, and the teens, which all take "th". */
  lemma NiceIndexSmall()
    ensures NiceIndex(1) == "1st" && NiceIndex(2) == "2nd" && NiceIndex(3) == "3rd" && NiceIndex(4) == "4th"
    ensures NiceIndex(11) == "11th" && NiceIndex(12) == "12th" && NiceIndex(13) == "13th"
  {
    assert Digits(11) == "11" && Digits(12) == "12" && Digits(13) == "13";
  }

  /** Past the teens the last digit decides again, except in each hundred's own teens. */
  lemma NiceIndexLarge()
    ensures NiceIndex(21) == "21st" && NiceIndex(101) == "101st" && NiceIndex(112) == "112th"
  {
    assert Digits(21) == "21";
    assert Digits(10) == "10" && Digits(101) == "101";
    assert Digits(11) == "11" && Digits(112) == "112";
  }

  /** The 0-based position where the run of equal sums containing position `i` starts. */
  function RunStart(sums: seq<int>, i: nat): (j: nat)
    requires i < |sums|
    ensures j <= i
  {
    if i == 0 || sums[i - 1] != sums[i] then i else RunStart(sums, i - 1)
  }

  /** Every sum from the run's start to `i` equals that at `i`, and the sum just before the run
      (if any) differs. */
  lemma {:induction false} RunStartMeaning(sums: seq<int>, i: nat)
    requires i < |sums|
    ensures forall k :: RunStart(sums, i) <= k <= i ==> sums[k] == sums[i]
    ensures RunStart(sums, i) == 0 || sums[RunStart(sums, i) - 1] != sums[i]
  {
    if i > 0 && sums[i - 1] == sums[i] {
      RunStartMeaning(sums, i - 1);
    }
  }

  /** How many of `s` are greater than `v`. */
  function CountAbove(s: seq<int>, v: int): nat {
    if s == [] then 0 else CountAbove(s[..|s| - 1], v) + (if s[|s| - 1] > v then 1 else 0)
  }

  lemma {:induction false} CountAboveSplit(s: seq<int>, v: int, m: nat)
    requires m <= |s|
    requires forall k :: 0 <= k < m ==> s[k] > v
    requires forall k :: m <= k < |s| ==> s[k] <= v
    ensures CountAbove(s, v) == m
  {
    if |s| > 0 {
      var front := s[..|s| - 1];
      if m == |s| {
        CountAboveSplit(front, v, m - 1);
      } else {
        CountAboveSplit(front, v, m);
      }
    }
  }

  ghost predicate NonIncreasing(sums: seq<int>) {
    forall a, b :: 0 <= a < b < |sums| ==> sums[a] >= sums[b]
  }

  /** On sums in descending order, the shared rank is competition ranking: one more than the
      number of users with a strictly greater sum (so 1, 2, 2, 4). */
  lemma CompetitionRank(sums: seq<int>, i: nat)
    requires i < |sums| && NonIncreasing(sums)
    ensures RunStart(sums, i) == CountAbove(sums[..i], sums[i])
  {
    RunSplit(sums, i);
    CountAboveSplit(sums[..i], sums[i], RunStart(sums, i));
  }

  /** In descending order, the sums before the run of position `i` are greater than the sum at
      `i`, and those from the run's start up to `i` are not. */
  lemma RunSplit(sums: seq<int>, i: nat)
    requires i < |sums| && NonIncreasing(sums)
    ensures var front, j := sums[..i], RunStart(sums, i);
      (forall k :: 0 <= k < j ==> front[k] > sums[i]) &&
      (forall k :: j <= k < |front| ==> front[k] <= sums[i])
  {
    var j := RunStart(sums, i);
    RunStartMeaning(sums, i);
    if j > 0 {
      assert sums[j - 1] > sums[i];
      forall k | 0 <= k < j
        ensures sums[k] > sums[i]
      {
        assert sums[k] >= sums[j - 1];
      }
    }
  }

  /** The cells of one line of the table: the rank (printed by NiceIndex), the user, times
      played, average and sum. */
  datatype Row = Row(rank: int, user: string, timesPlayed: nat, average: int, total: int)

  /** The sum column of a table. */
  function RowTotals(rows: seq<Row>): (sums: seq<int>)
    ensures |sums| == |rows| && forall i :: 0 <= i < |rows| ==> sums[i] == rows[i].total
  {
    seq(|rows|, i requires 0 <= i < |rows| => rows[i].total)
  }

  /** Where a run starts depends only on the entries up to it. */
  lemma {:induction false} RunStartPrefix(s: seq<int>, t: seq<int>, k: nat)
    requires k < |s|
    ensures RunStart(s + t, k) == RunStart(s, k)
  {
    if k > 0 && s[k - 1] == s[k] {
      RunStartPrefix(s, t, k - 1);
    }
  }

  /** `row` lists the user of `entry`, with their times played, average and sum. */
  ghost predicate Lists(row: Row, entry: (string, UserScores))
    requires entry.1.scores != map[]
    reads entry.1
  {
    row.user == entry.0 && row.timesPlayed == entry.1.Len() &&
    row.average == entry.1.Avg() && row.total == entry.1.Sum()
  }

  /** get_formatted_table without its literal text: one row per entry of `top`, in order, with
      the entry's user, times played, average and sum; the rank is the 1-based position of the
      first row of the run of equal sums the row belongs to. */
  method GetFormattedTable(top: seq<(string, UserScores)>) returns (rows: seq<Row>)
    requires forall i :: 0 <= i < |top| ==> top[i].1.scores != map[]
    ensures |rows| == |top|
    ensures forall i :: 0 <= i < |top| ==>
      rows[i].user == top[i].0 && rows[i].timesPlayed == top[i].1.Len() &&
      rows[i].average == top[i].1.Avg() && rows[i].total == top[i].1.Sum()
    ensures forall i :: 0 <= i < |rows| ==> rows[i].rank == SharedIndices(RowTotals(rows))[i]
  {
    rows := [];
    var lastScore: Option<int>, lastIndex := None, 0;
    for i := 0 to |top|
      invariant |rows| == i
      invariant forall k :: 0 <= k < i ==> Lists(rows[k], top[k])
      invariant lastScore.None? <==> i == 0
      invariant i > 0 ==> lastScore == Some(rows[i - 1].total) && lastIndex == rows[i - 1].rank
      invariant RowRanks(rows) == SharedIndices(RowTotals(rows))
    {
      var user, scores := top[i].0, top[i].1;
      if lastScore != Some(scores.Sum()) {
        lastScore, lastIndex := Some(scores.Sum()), i + 1;
      }
      var row := Row(lastIndex, user, scores.Len(), scores.Avg(), scores.Sum());
      SharedIndicesAppend(RowTotals(rows), row.total, lastIndex);
      ListsAppend(rows, row, top);
      ColumnsAppend(rows, row);
      rows := rows + [row];
    }
    forall k | 0 <= k < |top|
      ensures rows[k].user == top[k].0 && rows[k].timesPlayed == top[k].1.Len() &&
        rows[k].average == top[k].1.Avg() && rows[k].total == top[k].1.Sum()
    {
      assert Lists(rows[k], top[k]);
    }
  }

  /** The rank column of a table. */
  function RowRanks(rows: seq<Row>): (ranks: seq<int>)
    ensures |ranks| == |rows| && forall i :: 0 <= i < |rows| ==> ranks[i] == rows[i].rank
  {
    seq(|rows|, i requires 0 <= i < |rows| => rows[i].rank)
  }

  /** Appending a row appends its cells to the rank and sum columns. */
  lemma ColumnsAppend(rows: seq<Row>, row: Row)
    ensures RowRanks(rows + [row]) == RowRanks(rows) + [row.rank]
    ensures RowTotals(rows + [row]) == RowTotals(rows) + [row.total]
  {
  }

  /** The remembered index of an appended sum continues the run before it or starts a new one
      at its own 1-based position. */
  lemma SharedIndicesAppend(sums: seq<int>, v: int, index: int)
    requires |sums| > 0 && sums[|sums| - 1] == v ==> index == SharedIndices(sums)[|sums| - 1]
    requires (|sums| == 0 || sums[|sums| - 1] != v) ==> index == |sums| + 1
    ensures SharedIndices(sums + [v]) == SharedIndices(sums) + [index]
  {
    assert (sums + [v])[..|sums|] == sums;
  }

  /** Appending the row of the next entry keeps every row listing its own entry. */
  lemma ListsAppend(rows: seq<Row>, row: Row, top: seq<(string, UserScores)>)
    requires |rows| < |top| && forall i :: 0 <= i < |top| ==> top[i].1.scores != map[]
    requires forall k :: 0 <= k < |rows| ==> Lists(rows[k], top[k])
    requires Lists(row, top[|rows|])
    ensures forall k :: 0 <= k <= |rows| ==> Lists((rows + [row])[k], top[k])
  {
    forall k | 0 <= k <= |rows|
      ensures Lists((rows + [row])[k], top[k])
    {
      if k < |rows| {
        assert (rows + [row])[k] == rows[k];
      }
    }
  }

  /** The index the loop of get_formatted_table remembers in `last_score_and_index` for each
      position: one more than the position when the sum there differs from the one before it,
      the previous position's index otherwise. */
  ghost function SharedIndices(sums: seq<int>): (r: seq<int>)
    ensures |r| == |sums|
    decreases |sums|
  {
    if sums == [] then []
    else
      var n := |sums|;
      var p := SharedIndices(sums[..n - 1]);
      p + [if n == 1 || sums[n - 2] != sums[n - 1] then n else p[n - 2]]
  }

  /** The remembered index is one more than the start of the run of equal sums. */
  lemma {:induction false} SharedIndicesRunStart(sums: seq<int>, k: nat)
    requires k < |sums|
    ensures SharedIndices(sums)[k] == RunStart(sums, k) + 1
    decreases |sums|
  {
    var n := |sums|;
    var front := sums[..n - 1];
    assert sums == front + [sums[n - 1]];
    if k < n - 1 {
      SharedIndicesRunStart(front, k);
      RunStartPrefix(front, [sums[n - 1]], k);
    } else if n > 1 && sums[n - 2] == sums[n - 1] {
      SharedIndicesRunStart(front, n - 2);
      RunStartPrefix(front, [sums[n - 1]], n - 2);
    }
  }

  /** For a leaderboard in descending order of sums, the rank get_formatted_table prints is one
      more than the number of users with a strictly greater sum. */
  lemma SharedIndexIsCompetitionRank(sums: seq<int>, i: nat)
    requires i < |sums| && NonIncreasing(sums)
    ensures SharedIndices(sums)[i] == CountAbove(sums[..i], sums[i]) + 1
  {
    SharedIndicesRunStart(sums, i);
    CompetitionRank(sums, i);
  }
}
