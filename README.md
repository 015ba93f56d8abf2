# GeoStackr score bookkeeping, in Dafny

GeoStackr is a Reddit bot for "streak stacker" series. A series is a sequence of posts. In the
comments of each post, participants report a score. After each post the bot adds every
participant's score to a running leaderboard and replies with a table that ranks the
participants by their total.

This project models the bot's core in two versions. For each it models:

- how a comment's numbers become a score;
- how a post's scores are merged into the leaderboard;
- how the leaderboard is ranked;
- what the posted table holds.

The two versions are:

- **Current** (`geostackr.py`): modules `StackrRecords`, `StackrExtract`, `StackrBoard` and
  `StackrTable`.
  - A participant's record maps a round index (the post's position in the series) to a score.
    Adding a score overwrites that round.
  - A score is the highest or lowest number of a comment, optionally bounded by `min`/`max`.
  - The table shows a competition rank ("1st", "2nd", "2nd", "4th").
- **Original** (`GeoStackr.py`): modules `LegacyRecords`, `LegacyExtract` and `LegacyBoard`.
  - A record is an append-only list.
  - A score is the highest number of a comment.
  - The table lists the top ten.
  - `check_submissions` replies to each post with the table of the earlier posts, then merges
    the post.

Shared modules:

- `Wrappers`: `Option`, `Result`, and the Python exceptions the code can raise (KeyError,
  ValueError, AttributeError).
- `PyDict`: an insertion-ordered Python dict as a value.
- `PySort`: Python's stable `list.sort(key=...)`, as the order of positions it produces.
- `PySeq`: Python's `max` and `min` of a list.
- `Reddit`: a comment as the bot reads it: its author (`None` for a deleted account) and the integers its body holds.

What mutates in place is modelled as a class:

- `UserScores` objects are classes whose methods update their field.
- The `scores_dict` of each version is a class `ScoresDict`. It holds the key order and the
  record objects, plus a ghost value of the whole board (`standings`).
- Every mutating method of a `ScoresDict` is proved against a pure function over `standings`.
  For example, `MergeScores` leaves `standings == MergeRound(old(standings), ScoreList(...), index)`,
  and the lemmas state what those functions mean. `UserScores.Add` states its new `scores`
  directly in terms of the old ones.

Python specifics are written out:

- `//` with a positive divisor is Dafny's `/`.
- `%` with a positive divisor is Dafny's `%`.
- A `filter` object is always truthy.
- `if number:` drops a 0.
- A deleted comment author is `None`.

## Model

| member | source | states |
|---|---|---|
| PyDict.PutOrder | geostackr.py:167 | `d[k] = v` keeps insertion order: a present key stays where it is and a new key goes last |
| PySort.StableOrder | geostackr.py:180-183 | `list.sort(key=...)` yields every position exactly once, with keys ascending and equal keys in their original order |
| PySort.PickedNames | geostackr.py:181-182 | names taken from distinct dictionary keys in sorted order are distinct, and names with equal sort keys keep dictionary order |
| PySort.SortedByMembers | geostackr.py:182 | sorting a list by a key neither drops nor adds an element: same length, same elements |
| PySort.Pick | geostackr.py:181 | the sorted `items()` list: the (key, value) pair of each sorted position, in order |
| StackrRecords.HighestExists | geostackr.py:83 | a non-empty set of round indices has a largest element |
| StackrRecords.MaxKey | geostackr.py:83 | `max(self.scores)` is a recorded round, and no recorded round is larger |
| StackrRecords.MapSumRemove | geostackr.py:73-74 | the sum of the stored scores is any one round's score plus the sum of the others, so the summing order does not matter |
| StackrRecords.MapSumPut | geostackr.py:70-74 | overwriting one round's score changes the sum by the new score minus the old one (or by the score, for a new round) |
| StackrRecords.RoundsUpToStep | geostackr.py:91-95 | the total of rounds 1..n is the total of rounds 1..n-1 plus round n's score if it has one |
| StackrRecords.UserScores.constructor | geostackr.py:66-68 | a new record has the author's name and no rounds |
| StackrRecords.UserScores.Sum | geostackr.py:73-74 | `sum(self.scores.values())`; that it adds every round once, in any order, is MapSumRemove, and how `add` changes it is MapSumPut |
| StackrRecords.UserScores.Add | geostackr.py:70-71 | `add(r, s)` sets round r to s and leaves every other round as it was |
| StackrRecords.UserScores.Avg | geostackr.py:79-80 | `avg` is the floor of sum over len: avg·len ≤ sum < avg·len + len |
| StackrRecords.UserScores.Last | geostackr.py:82-83 | `last` is the score of the highest recorded round |
| StackrRecords.UserScores.XY | geostackr.py:88-96 | x is 1..max round; y has the same length; y[i] is the total of rounds 1..i+1; y is flat at rounds without a score; with all rounds ≥ 1, y ends at `sum()` |
| StackrRecords.AddTwice | geostackr.py:70-71 | two adds for the same round keep only the second score, leave the other rounds alone, and count the round once (the same score twice is idempotent) |
| StackrExtract.GetGoalFunction | geostackr.py:138-142 | no goal or "highest" selects max, "lowest" selects min, and any other name raises KeyError |
| StackrExtract.Filtered | geostackr.py:150-153 | the kept candidates are exactly those within the optional inclusive bounds, and there are no more of them than candidates |
| StackrExtract.Select | geostackr.py:155-156 | the goal function on the survivors returns one of them: the largest for "highest", the smallest for "lowest" |
| PySeq.SeqMax | geostackr.py:156 | `max` of a non-empty list is one of its elements and no element is larger |
| PySeq.SeqMin | geostackr.py:156 | `min` of a non-empty list is one of its elements and no element is smaller |
| StackrExtract.GetGoalNumberFromText | geostackr.py:145-157 | an unknown goal raises KeyError; no bounds and no candidates give None; a bound set with no surviving candidate raises ValueError; no other exception occurs; with a valid goal and a surviving candidate a value is returned, and it is a surviving candidate that is the largest (highest) or smallest (lowest) of them |
| StackrExtract.Step | geostackr.py:162-167 | one comment turns a valid dictionary into a valid dictionary, or fails |
| StackrExtract.ScoreListFrom | geostackr.py:162-168 | the rest of the loop keeps the dictionary valid |
| StackrExtract.ScoreList | geostackr.py:160-168 | get_score_list returns a valid insertion-ordered dictionary when it does not raise |
| StackrExtract.GetScoreList | geostackr.py:160-168 | the loop over the comments computes `ScoreList` |
| StackrExtract.ScoreListFromFails | geostackr.py:162-167 | the loop raises exactly when the extraction raises for a comment by a present, non-ignored author |
| StackrExtract.StepFor | geostackr.py:163-167 | one comment adds or overwrites exactly its author's entry, with a non-zero extracted score |
| StackrExtract.ScoreListFromHas | geostackr.py:162-167 | a user has an entry iff they had one or some comment gives them a score |
| StackrExtract.ScoreListFromKeeps | geostackr.py:162-167 | a user whom no comment gives a score keeps their entry |
| StackrExtract.ScoreListFromLast | geostackr.py:162-167 | a user's entry is the score of the last comment that gives them one |
| StackrExtract.ScoreListFails | geostackr.py:160-168 | get_score_list raises exactly when some counted comment's extraction raises |
| StackrExtract.ScoreListUsers | geostackr.py:160-168 | the listed users are exactly those given a score by some comment: author present, not ignored, extracted value neither None nor 0 |
| StackrExtract.ScoreListLastWins | geostackr.py:160-168 | for repeat authors the last qualifying comment's score wins |
| StackrExtract.StepOrder | geostackr.py:167 | storing a score keeps the place of a user already listed and puts a new user last |
| StackrExtract.GivenBeforeStep | geostackr.py:162-167 | the first comment decides which of two users is given a score first when it gives one of them, and leaves it to the rest otherwise |
| StackrExtract.ScoreListFromOrder | geostackr.py:162-167 | users already listed keep their order and precede new ones; new users are ordered by the comment that first gives them a score |
| StackrExtract.ScoreListOrder | geostackr.py:160-168 | of two listed users, the one whose first score comes from an earlier comment has the earlier key, and conversely |
| StackrBoard.MergeKeys | geostackr.py:234-237 | merging keeps the board a valid insertion-ordered dictionary |
| StackrBoard.MergeRound | geostackr.py:232-237 | merging a post keeps the board valid |
| StackrBoard.MergeKeysFor | geostackr.py:234-237 | a merged user gets the round set to their score over their earlier rounds; every other user is unchanged |
| StackrBoard.MergeKeysOrder | geostackr.py:235-236 | users without a record are appended to the key order, in merge order |
| StackrBoard.MergeRoundMeaning | geostackr.py:232-237 | each user of the post's scores ends with `scores[series_index]` equal to their score, with a record created only if absent, the sum changed by the difference, and the order extended by the new users; all other users are unchanged |
| StackrBoard.MergeKeysStep | geostackr.py:234-237 | merging one more user is one more dictionary store |
| StackrBoard.ScoresDict.constructor | geostackr.py:303 | an empty dictionary |
| StackrBoard.MergeOne | geostackr.py:235-237 | one loop iteration creates the record if absent, then sets the round; the board stays valid |
| StackrBoard.AddUser | geostackr.py:235-237 | a new user gets a fresh record holding just this round, appended to the order |
| StackrBoard.NewRecord | geostackr.py:236-237 | `UserScores(user)` then `add` holds exactly that round |
| StackrBoard.AddScore | geostackr.py:237 | a known user's existing record gets the round set; no record is created |
| StackrBoard.MergeScores | geostackr.py:232-237 | merge_scores fails iff get_score_list raises, with get_score_list's exception, changing nothing then; otherwise the board becomes `MergeRound` of the old board |
| StackrBoard.MergeAll | geostackr.py:234-237 | the loop over the post's scores computes `MergeRound` |
| StackrBoard.Ranked | geostackr.py:180-183 | the users in get_top's order, a `PySort.SortedBy` of the key order by `-sum()`; RankedMeaning states it is a permutation with non-increasing sums and stable ties |
| StackrBoard.RankedMeaning | geostackr.py:180-183 | get_top is a permutation of the users with non-increasing sums and ties in insertion order |
| StackrBoard.RankedOrder | geostackr.py:180-183 | the ranking has no repeats, its sums do not increase, and equal sums keep insertion order |
| StackrBoard.GetTop | geostackr.py:180-183 | get_top returns the ranking's users, each with its own record object |
| StackrBoard.NegatedTotals | geostackr.py:182 | the sort keys the loop computes, `-sum()` of each record in dictionary order, are the keys `Ranked` sorts by |
| StackrTable.DigitChar | geostackr.py:191 | the character of a decimal digit |
| StackrTable.Digits | geostackr.py:191 | `str` of a natural number is a non-empty string of digits without a leading zero |
| StackrTable.DigitsRoundTrip | geostackr.py:191 | the digits read back as the number |
| StackrTable.Str | geostackr.py:191 | `str` of an integer starts with '-' exactly for negative numbers |
| StackrTable.StrRoundTrip | geostackr.py:191 | `int(str(i)) == i` |
| StackrTable.Suffix | geostackr.py:189-192 | the ending nice_index picks; SuffixMatchesGolfed proves it equal to the one-line variant in the source comment |
| StackrTable.NiceIndex | geostackr.py:186-192 | `nice_index`; NiceIndexParts, NiceIndexSmall and NiceIndexLarge state what it prints |
| StackrTable.SuffixMatchesGolfed | geostackr.py:186-192 | the loop in nice_index gives every integer the same ending as the one-line variant in its comment (st/nd/rd by last digit, except 11-13 modulo 100, else th) |
| StackrTable.NiceIndexParts | geostackr.py:186-192 | `nice_index(n)` is `str(n)` followed by the two-letter ending, and its number part reads back as n |
| StackrTable.NiceIndexSmall | geostackr.py:186-192 | 1st, 2nd, 3rd, 4th, 11th, 12th, 13th |
| StackrTable.NiceIndexLarge | geostackr.py:186-192 | 21st, 101st, 112th |
| StackrTable.RunStart | geostackr.py:198-204 | the start of the run of equal sums holding a position is at or before it |
| StackrTable.RunStartMeaning | geostackr.py:198-204 | every entry from the run start up to the position has the same sum, and the entry before the run has a different sum |
| StackrTable.CountAboveSplit | geostackr.py:198-204 | a list whose first m entries are above v and the rest not has exactly m entries above v |
| StackrTable.RunSplit | geostackr.py:198-204 | in a non-increasing list, the entries before a run are strictly above it and those from the run on are not |
| StackrTable.CompetitionRank | geostackr.py:198-204 | in a non-increasing list, a run starts after exactly the entries with a strictly higher sum |
| StackrTable.RunStartPrefix | geostackr.py:198-204 | appending entries does not move an earlier run's start |
| StackrTable.GetFormattedTable | geostackr.py:195-206 | one row per entry, in order, with the user, len, avg and sum of that entry; the rank cell holds the shared index of the entry's run |
| StackrTable.ColumnsAppend | geostackr.py:199-205 | appending a row appends to both columns |
| StackrTable.SharedIndicesAppend | geostackr.py:202-204 | the next rank is the carried rank when the sum repeats, else the new 1-based position |
| StackrTable.ListsAppend | geostackr.py:205 | the rows written so far keep describing their entries |
| StackrTable.SharedIndices | geostackr.py:198-204 | one carried rank per entry |
| StackrTable.SharedIndicesRunStart | geostackr.py:198-204 | the carried rank is the 1-based position of the first entry of the current run of equal sums |
| StackrTable.SharedIndexIsCompetitionRank | geostackr.py:198-204 | for get_top's non-increasing sums the rank is 1 + the number of strictly higher sums (1, 2, 2, 4) |
| LegacyRecords.SeqSumAppend | GeoStackr.py:69-73 | appending a score adds it to the sum |
| LegacyRecords.SeqSumFront | GeoStackr.py:72-73 | the sum adds up from the front as well |
| LegacyRecords.UserScores.constructor | GeoStackr.py:65-67 | a new record has the author's name and an empty list |
| LegacyRecords.UserScores.Sum | GeoStackr.py:72-73 | `sum(self.scores)`; SeqSumFront shows it is the front-to-back sum, SeqSumAppend how `add` changes it |
| LegacyRecords.UserScores.Add | GeoStackr.py:69-70 | `add` appends: the list grows by one, ends with the score, keeps the earlier scores, and its sum grows by the score |
| LegacyRecords.UserScores.Avg | GeoStackr.py:78-79 | `avg` is the floor of sum over len, for a non-empty list |
| LegacyRecords.AddTwice | GeoStackr.py:69-76 | the same score added twice is two entries: len +2, sum +2·score |
| LegacyExtract.IgnoreUsers | GeoStackr.py:52 | the names skipped: the bot's own account and the tracking bot; ScoreListUsers states that no author among them is ever listed |
| LegacyExtract.Step | GeoStackr.py:55-60 | one comment turns a valid dictionary into a valid dictionary, or fails |
| LegacyExtract.ScoreListFrom | GeoStackr.py:55-61 | the rest of the loop keeps the dictionary valid |
| LegacyExtract.ScoreList | GeoStackr.py:51-61 | get_score_list returns a valid insertion-ordered dictionary when it does not raise |
| LegacyExtract.GetScoreList | GeoStackr.py:51-61 | the loop over the comments computes `ScoreList` |
| LegacyExtract.ScoreListFromFails | GeoStackr.py:55-60 | the loop raises AttributeError exactly when a comment with numbers has no author |
| LegacyExtract.StepFor | GeoStackr.py:57-60 | one comment adds or overwrites exactly its author's entry, with its highest number |
| LegacyExtract.ScoreListFromHas | GeoStackr.py:55-60 | a user has an entry iff they had one or some comment gives them a score |
| LegacyExtract.ScoreListFromKeeps | GeoStackr.py:55-60 | a user whom no comment gives a score keeps their entry |
| LegacyExtract.ScoreListFromLast | GeoStackr.py:55-60 | a user's entry is the score of the last comment that gives them one |
| LegacyExtract.ScoreListFails | GeoStackr.py:51-61 | get_score_list raises AttributeError exactly when a comment with numbers has a deleted author |
| LegacyExtract.ScoreListUsers | GeoStackr.py:51-61 | the listed users are exactly the non-ignored authors of comments with at least one number |
| LegacyExtract.ScoreListLastWins | GeoStackr.py:51-61 | a user's score is the highest number of their last comment with numbers (a 0 included) |
| LegacyExtract.StepOrder | GeoStackr.py:60 | storing a score keeps the place of a user already listed and puts a new user last |
| LegacyExtract.GivenBeforeStep | GeoStackr.py:55-60 | the first comment decides which of two users is given a score first when it gives one of them, and leaves it to the rest otherwise |
| LegacyExtract.ScoreListFromOrder | GeoStackr.py:55-60 | users already listed keep their order and precede new ones; new users are ordered by the comment that first gives them a score |
| LegacyExtract.ScoreListOrder | GeoStackr.py:51-61 | of two listed users, the one whose first comment with numbers comes earlier has the earlier key, and conversely |
| LegacyBoard.AppendKeys | GeoStackr.py:112-115 | appending keeps the board a valid insertion-ordered dictionary |
| LegacyBoard.AppendRound | GeoStackr.py:110-115 | merging a post keeps the board valid |
| LegacyBoard.AppendKeysFor | GeoStackr.py:112-115 | a merged user's list gets the score appended; every other user is unchanged |
| LegacyBoard.AppendKeysOrder | GeoStackr.py:113-114 | users without a record are appended to the key order, in merge order |
| LegacyBoard.AppendRoundMeaning | GeoStackr.py:110-115 | each extracted user's list grows by exactly one, ends with the score, and its sum grows by it; a new user gets a one-element list at the end of the order; users absent from the post are untouched |
| LegacyBoard.AppendRoundScored | GeoStackr.py:110-115 | merging leaves nobody with an empty list |
| LegacyBoard.ScoresDict.constructor | GeoStackr.py:128 | an empty dictionary |
| LegacyBoard.MergeOne | GeoStackr.py:113-115 | one loop iteration creates the record if absent, then appends the score |
| LegacyBoard.AddUser | GeoStackr.py:113-115 | a new user gets a fresh record holding just this score, appended to the order |
| LegacyBoard.NewRecord | GeoStackr.py:114-115 | `UserScores(user)` then `add` holds exactly that score |
| LegacyBoard.AddScore | GeoStackr.py:115 | a known user's existing record gets the score appended |
| LegacyBoard.MergeScores | GeoStackr.py:110-115 | merge_scores fails iff get_score_list raises, changing nothing then; otherwise the board becomes `AppendRound` of the old board |
| LegacyBoard.MergeAll | GeoStackr.py:112-115 | the loop over the post's scores computes `AppendRound` |
| LegacyBoard.AppendKeysStep | GeoStackr.py:112-115 | appending for one more user is one more dictionary store |
| LegacyBoard.Ranked | GeoStackr.py:93-95 | the users in the order of the sort, a `PySort.SortedBy` of the key order by `-sum()`; RankedMeaning states it is a permutation with non-increasing sums and stable ties |
| LegacyBoard.Top10 | GeoStackr.py:93-96 | get_top10 on values; Top10Meaning states it is the first min(10, n) of the ranking and nobody left out has a higher sum |
| LegacyBoard.RankedMeaning | GeoStackr.py:93-95 | the sorted list is a permutation of the users with non-increasing sums and ties in insertion order |
| LegacyBoard.RankedSorted | GeoStackr.py:93-95 | the sorted list has no repeats and its sums do not increase |
| LegacyBoard.RankedPair | GeoStackr.py:95 | of two sorted positions, the earlier holds another user with a larger or equal sum |
| LegacyBoard.RankedTies | GeoStackr.py:95 | equal sums keep insertion order |
| LegacyBoard.Top10Meaning | GeoStackr.py:93-96 | get_top10 is the first min(10, n) users of the stable descending sort, with no repeats and non-increasing sums, and nobody left out has a higher sum than anybody listed |
| LegacyBoard.Top10Sorted | GeoStackr.py:93-96 | the top ten are board users, without repeats, with non-increasing sums |
| LegacyBoard.Top10Highest | GeoStackr.py:93-96 | nobody outside the top ten has a higher sum than anybody in it |
| LegacyBoard.Top10HighestAt | GeoStackr.py:93-96 | the same for one user and one place |
| LegacyBoard.GetTop10 | GeoStackr.py:93-96 | get_top10 returns the top ten's users, each with its own record object |
| LegacyBoard.SortedItems | GeoStackr.py:94-95 | the sorted item list holds the ranking's users with their records |
| LegacyBoard.NegatedTotals | GeoStackr.py:95 | computes `-sum()` of each record in dictionary order |
| LegacyBoard.Body | GeoStackr.py:99-107 | the rows of the posted table for a board; BodyMeaning states their shape, GetFormattedBody and TableOf that the code produces them |
| LegacyBoard.BodyMeaning | GeoStackr.py:99-107 | the posted table has at most ten rows, one per distinct user, with non-increasing sums; each row counts at least one post and its average is the floor of sum over count |
| LegacyBoard.GetFormattedBody | GeoStackr.py:99-107 | one row per top10 entry, in order, showing that entry's user, len, avg and sum |
| LegacyBoard.Merged | GeoStackr.py:128-141 | the board built from the posts so far is valid and nobody on it has an empty list |
| LegacyBoard.Replies | GeoStackr.py:129-141 | the replies check_submissions makes; RepliesSound and RepliesComplete state which posts get one and what it holds |
| LegacyBoard.CheckSubmissions | GeoStackr.py:128-141 | the replies are `Replies(posts)`; the run fails iff merging some post raises, with that post's exception |
| LegacyBoard.HandlePost | GeoStackr.py:133-141 | one iteration replies with the table of the board before the post (only if the board is non-empty and the post needs it), then merges the post |
| LegacyBoard.TableOf | GeoStackr.py:135-136 | the formatted body of get_top10 is the table of the board |
| LegacyBoard.BodyOfTop10 | GeoStackr.py:135-136 | the rows formatted from get_top10's items equal the board's table |
| LegacyBoard.MergedSticks | GeoStackr.py:141 | after the first exception, no later post is merged or replied to |
| LegacyBoard.RepliesStep | GeoStackr.py:129-141 | one more post adds at most its own reply, built from the board before it |
| LegacyBoard.MergedStep | GeoStackr.py:140-141 | after its reply, one more post is merged into the board before it, or its exception ends the run |
| LegacyBoard.RepliesSound | GeoStackr.py:129-141 | every reply answers its post with the table of the earlier posts only; the first post never gets a reply; there is at most one reply per post, in post order |
| LegacyBoard.RepliesLast | GeoStackr.py:129-141 | the replies for all posts extend those for all but the last by at most the last post's reply |
| LegacyBoard.AnswersLonger | GeoStackr.py:129-141 | a reply to an earlier post stays one as later posts are added |
| LegacyBoard.RepliesComplete | GeoStackr.py:129-141 | every post that needs a table and follows a non-empty, error-free board gets a reply |

## Left out

- Reddit I/O through praw is not modelled:
  - fetching submissions and comments, `reply`, `edit` and messages;
  - the credentials file and `get_bot_username`.
  - The bot's name is a parameter. A post is its list of comments plus a `needsPost` flag.
- Configuration loading (YAML, `sys.exit`) is not modelled. A series' settings are a `SeriesConfig` value with `goal`, `min` and `max`.
- Regular expressions are not modelled. Each comment carries the integers `re.findall` matched in its body, in order.
- The `regex` setting itself, `get_already_posted_comment`, `still_needs_post` and `if_graph_needs_update` are not modelled.
  - They are string searches over comment bodies.
  - `still_needs_post` becomes the input flag `needsPost`. The AttributeError it could raise on a deleted author is not modelled.
- Plotting and image upload (`save_plot`, Imgur) are left out: floating point and foreign calls.
- `get_iso_date`, `format_title` and the sleep-and-retry loops are left out: clock, string formatting and process control.
- Literal markdown and footer text is not modelled: `get_info_line`, the table headers, the text of `get_formatted_body`/`get_formatted_csv` in the current version, the `print` calls.
  - A table is a sequence of rows holding the cell values.
  - The rank cell is the integer that `nice_index` prints (`StackrTable.NiceIndex`, proved separately).
- `check_submissions_for_series` and the submission search and sort by `created_utc` in both versions are not modelled.
  - In the original version the posts arrive already sorted, oldest first.
- StackrRecords.UserScores.Avg and LegacyRecords.UserScores.Avg: the ZeroDivisionError on an empty record is a precondition, not an error result. A record is always created just before its first score, and the board invariant `Valid` keeps every record non-empty.
- StackrRecords.UserScores.XY: the ValueError of `max` on an empty record is a precondition; `save_plot` only plots records of the board, and every record there holds at least one round.
- StackrRecords.UserScores.Last: the ValueError of `max` on an empty record is likewise a precondition.
- Python integers are unbounded, like Dafny's `int`: no width is modelled.

## Behaviour of the code worth knowing

- The current version drops an extracted score of 0 (geostackr.py:166); the original version keeps it (GeoStackr.py:59-60).
- In the current version, once `min` or `max` is set, a comment with no candidate inside the bounds raises ValueError (geostackr.py:150-156), while an unbounded comment without candidates gives None.
- Equal totals keep the order in which the users first scored (the sort at geostackr.py:182 and GeoStackr.py:95 is stable), and in the current version they share one rank. Within one post, "first scored" means the comment that first gave the user a score (`ScoreListOrder`); across posts, users new to the board follow those already on it (`MergeKeysOrder`, `AppendKeysOrder`).
