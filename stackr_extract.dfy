/** Reading participants' scores out of a post's comments in the current bot version
    (geostackr.py: get_goal_function, get_goal_number_from_text, get_score_list). The regular
    expression of the series is not modelled: a comment carries the integers that `re.findall`
    matched in its body, in order. */
module StackrExtract {
  import opened Wrappers
  import PyDict
  import opened Reddit
  import opened PySeq

  datatype Goal = Highest | Lowest

  /** What extraction reads from a series' settings: `goal`, `min` and `max`, each optional. */
  datatype SeriesConfig = SeriesConfig(goal: Option<string>, min: Option<int>, max: Option<int>)

  /** The goal table lookup: no `goal` means "highest"; a name not in the table raises KeyError. */
  function GetGoalFunction(config: SeriesConfig): (r: Result<Goal, Fault>)
    ensures r == Ok(Highest) <==> config.goal == None || config.goal == Some("highest")
    ensures r == Ok(Lowest) <==> config.goal == Some("lowest")
    ensures r.Err? ==> r.error == KeyError
  {
    match config.goal
    case None => Ok(Highest)
    case Some(name) =>
      if name == "highest" then Ok(Highest)
      else if name == "lowest" then Ok(Lowest)
      else Err(KeyError)
  }

  /** `x` passes the optional `min` and `max` filters (both inclusive). */
  predicate InBounds(config: SeriesConfig, x: int) {
    && (config.min.None? || config.min.value <= x)
    && (config.max.None? || x <= config.max.value)
  }

  /** Setting either bound replaces the list by a `filter` object. */
  predicate Bounded(config: SeriesConfig) {
    config.min.Some? || config.max.Some?
  }

  /** The candidates that survive the bound filters, in their original order. */
  function Filtered(config: SeriesConfig, numbers: seq<int>): (kept: seq<int>)
    ensures |kept| <= |numbers|
    ensures forall x :: x in kept <==> x in numbers && InBounds(config, x)
  {
    if numbers == [] then []
    else if InBounds(config, numbers[0]) then [numbers[0]] + Filtered(config, numbers[1..])
    else Filtered(config, numbers[1..])
  }

  /** The goal function applied to the surviving candidates: `max` for the highest, `min` for
      the lowest. */
  function Select(goal: Goal, s: seq<int>): (x: int)
    requires s != []
    ensures x in s
    ensures goal.Highest? ==> forall y :: y in s ==> y <= x
    ensures goal.Lowest? ==> forall y :: y in s ==> x <= y
  {
    match goal
    case Highest => SeqMax(s)
    case Lowest => SeqMin(s)
  }

  /** The score a comment's numbers stand for. Without bounds an empty candidate list gives
      None; with a bound set the (always truthy) filter object reaches max()/min(), which raise
      ValueError when no candidate survives. */
  function GetGoalNumberFromText(config: SeriesConfig, numbers: seq<int>): (r: Result<Option<int>, Fault>)
    ensures GetGoalFunction(config).Err? ==> r == Err(KeyError)
    ensures r.Err? ==> (r == Err(KeyError) && GetGoalFunction(config).Err?) || r == Err(ValueError)
    ensures GetGoalFunction(config).Ok? && (exists x :: x in numbers && InBounds(config, x)) ==> r.Ok? && r.value.Some?
    ensures r == Ok(None) <==> GetGoalFunction(config).Ok? && !Bounded(config) && numbers == []
    ensures r == Err(ValueError) <==>
      GetGoalFunction(config).Ok? && Bounded(config) && forall x :: x in numbers ==> !InBounds(config, x)
    ensures r.Ok? && r.value.Some? ==>
      var v := r.value.value;
      && v in numbers && InBounds(config, v)
      && (GetGoalFunction(config) == Ok(Highest) ==> forall x :: x in numbers && InBounds(config, x) ==> x <= v)
      && (GetGoalFunction(config) == Ok(Lowest) ==> forall x :: x in numbers && InBounds(config, x) ==> v <= x)
  {
    match GetGoalFunction(config)
    case Err(e) => Err(e)
    case Ok(goal) =>
      if !Bounded(config) then
        if numbers == [] then Ok(None) else Ok(Some(Select(goal, numbers)))
      else
        var kept := Filtered(config, numbers);
        if kept == [] then Err(ValueError) else Ok(Some(Select(goal, kept)))
  }

  /** The comment is read at all: it has an author who is not ignored. */
  predicate Counted(c: Comment, ignoreUsers: set<string>) {
    c.author.Some? && c.author.value !in ignoreUsers
  }

  /** Comment `c` gives `user` the score `n`: a counted comment by `user` whose extracted
      number is `n`, which must be truthy (a score of 0 is dropped like None). */
  ghost predicate Gives(c: Comment, user: string, n: int, config: SeriesConfig, ignoreUsers: set<string>) {
    c.author == Some(user) && user !in ignoreUsers && n != 0 &&
    GetGoalNumberFromText(config, c.numbers) == Ok(Some(n))
  }

  /** One iteration of get_score_list's loop. */
  function Step(d: PyDict.Dict<string, int>, c: Comment, config: SeriesConfig, ignoreUsers: set<string>)
    : (r: Result<PyDict.Dict<string, int>, Fault>)
    requires PyDict.Valid(d)
    ensures r.Ok? ==> PyDict.Valid(r.value)
  {
    if !Counted(c, ignoreUsers) then Ok(d)
    else
      match GetGoalNumberFromText(config, c.numbers)
      case Err(e) => Err(e)
      case Ok(None) => Ok(d)
      case Ok(Some(n)) => if n == 0 then Ok(d) else Ok(PyDict.Put(d, c.author.value, n))
  }

  /** The rest of get_score_list's loop, from the dictionary built so far. */
  function ScoreListFrom(d: PyDict.Dict<string, int>, cs: seq<Comment>, config: SeriesConfig, ignoreUsers: set<string>)
    : (r: Result<PyDict.Dict<string, int>, Fault>)
    requires PyDict.Valid(d)
    ensures r.Ok? ==> PyDict.Valid(r.value)
    decreases |cs|
  {
    if cs == [] then Ok(d)
    else
      match Step(d, cs[0], config, ignoreUsers)
      case Err(e) => Err(e)
      case Ok(d') => ScoreListFrom(d', cs[1..], config, ignoreUsers)
  }

  /** What get_score_list returns for a post with comments `cs`, or the exception it raises. */
  function ScoreList(cs: seq<Comment>, config: SeriesConfig, ignoreUsers: set<string>)
    : (r: Result<PyDict.Dict<string, int>, Fault>)
    ensures r.Ok? ==> PyDict.Valid(r.value)
  {
    ScoreListFrom(PyDict.Empty(), cs, config, ignoreUsers)
  }

  method GetScoreList(comments: seq<Comment>, config: SeriesConfig, ignoreUsers: set<string>)
    returns (r: Result<PyDict.Dict<string, int>, Fault>)
    ensures r == ScoreList(comments, config, ignoreUsers)
  {
    var scoreList := PyDict.Empty();
    for i := 0 to |comments|
      invariant PyDict.Valid(scoreList)
      invariant ScoreListFrom(scoreList, comments[i..], config, ignoreUsers) == ScoreList(comments, config, ignoreUsers)
    {
      var comment := comments[i];
      assert comments[i..][1..] == comments[i + 1..];
      if comment.author.Some? {
        if comment.author.value !in ignoreUsers {
          var number := GetGoalNumberFromText(config, comment.numbers);
          if number.Err? {
            return Err(number.error);
          }
          if number.value.Some? && number.value.value != 0 {
            scoreList := PyDict.Put(scoreList, comment.author.value, number.value.value);
          }
        }
      }
    }
    assert comments[|comments|..] == [];
    return Ok(scoreList);
  }

  /** The loop fails exactly when a counted comment's extraction raises. */
  lemma {:induction false} ScoreListFromFails(d: PyDict.Dict<string, int>, cs: seq<Comment>, config: SeriesConfig, ignoreUsers: set<string>)
    requires PyDict.Valid(d)
    ensures ScoreListFrom(d, cs, config, ignoreUsers).Err? <==>
      exists i :: 0 <= i < |cs| && Counted(cs[i], ignoreUsers) && GetGoalNumberFromText(config, cs[i].numbers).Err?
    decreases |cs|
  {
    if cs != [] {
      var step := Step(d, cs[0], config, ignoreUsers);
      if step.Ok? {
        ScoreListFromFails(step.value, cs[1..], config, ignoreUsers);
        if exists i :: 0 <= i < |cs| && Counted(cs[i], ignoreUsers) && GetGoalNumberFromText(config, cs[i].numbers).Err? {
          var i :| 0 <= i < |cs| && Counted(cs[i], ignoreUsers) && GetGoalNumberFromText(config, cs[i].numbers).Err?;
          assert i > 0;
          assert cs[1..][i - 1] == cs[i];
        }
      }
    }
  }

  /** What one comment does to one user's entry. */
  lemma StepFor(d: PyDict.Dict<string, int>, c: Comment, u: string, config: SeriesConfig, ignoreUsers: set<string>)
    requires PyDict.Valid(d) && Step(d, c, config, ignoreUsers).Ok?
    ensures var d' := Step(d, c, config, ignoreUsers).value;
      && (u in d'.values <==> u in d.values || exists n :: Gives(c, u, n, config, ignoreUsers))
      && (forall n :: Gives(c, u, n, config, ignoreUsers) ==> d'.values[u] == n)
      && ((forall n :: !Gives(c, u, n, config, ignoreUsers)) && u in d.values ==> d'.values[u] == d.values[u])
  {
    var d' := Step(d, c, config, ignoreUsers).value;
    var x := GetGoalNumberFromText(config, c.numbers);
    if Counted(c, ignoreUsers) && x.Ok? && x.value.Some? && x.value.value != 0 {
      assert d' == PyDict.Put(d, c.author.value, x.value.value);
      if u == c.author.value {
        assert Gives(c, u, x.value.value, config, ignoreUsers);
      } else {
        assert forall n :: !Gives(c, u, n, config, ignoreUsers);
      }
    } else {
      assert d' == d;
      assert forall n :: !Gives(c, u, n, config, ignoreUsers);
    }
  }

  /** From a dictionary `d`, a user has an entry afterwards iff they had one or a comment gives them a score. */
  lemma {:induction false} ScoreListFromHas(d: PyDict.Dict<string, int>, cs: seq<Comment>, u: string, config: SeriesConfig, ignoreUsers: set<string>)
    requires PyDict.Valid(d) && ScoreListFrom(d, cs, config, ignoreUsers).Ok?
    ensures u in ScoreListFrom(d, cs, config, ignoreUsers).value.values <==>
      u in d.values || exists i, n :: 0 <= i < |cs| && Gives(cs[i], u, n, config, ignoreUsers)
    decreases |cs|
  {
    if cs != [] {
      var d' := Step(d, cs[0], config, ignoreUsers).value;
      StepFor(d, cs[0], u, config, ignoreUsers);
      ScoreListFromHas(d', cs[1..], u, config, ignoreUsers);
      if exists i, n :: 0 <= i < |cs| && Gives(cs[i], u, n, config, ignoreUsers) {
        var i, n :| 0 <= i < |cs| && Gives(cs[i], u, n, config, ignoreUsers);
        if i > 0 { assert Gives(cs[1..][i - 1], u, n, config, ignoreUsers); }
      }
      if exists i, n :: 0 <= i < |cs| - 1 && Gives(cs[1..][i], u, n, config, ignoreUsers) {
        var i, n :| 0 <= i < |cs| - 1 && Gives(cs[1..][i], u, n, config, ignoreUsers);
        assert Gives(cs[i + 1], u, n, config, ignoreUsers);
      }
    }
  }

  /** A user no comment gives a score keeps the entry they had. */
  lemma {:induction false} ScoreListFromKeeps(d: PyDict.Dict<string, int>, cs: seq<Comment>, u: string, config: SeriesConfig, ignoreUsers: set<string>)
    requires PyDict.Valid(d) && ScoreListFrom(d, cs, config, ignoreUsers).Ok?
    requires u in d.values && forall i, n :: 0 <= i < |cs| ==> !Gives(cs[i], u, n, config, ignoreUsers)
    ensures u in ScoreListFrom(d, cs, config, ignoreUsers).value.values
    ensures ScoreListFrom(d, cs, config, ignoreUsers).value.values[u] == d.values[u]
    decreases |cs|
  {
    ScoreListFromHas(d, cs, u, config, ignoreUsers);
    if cs != [] {
      var d' := Step(d, cs[0], config, ignoreUsers).value;
      StepFor(d, cs[0], u, config, ignoreUsers);
      forall i, n | 0 <= i < |cs| - 1
        ensures !Gives(cs[1..][i], u, n, config, ignoreUsers)
      {
        assert cs[1..][i] == cs[i + 1];
      }
      assert forall n :: !Gives(cs[0], u, n, config, ignoreUsers);
      ScoreListFromKeeps(d', cs[1..], u, config, ignoreUsers);
    }
  }

  /** A user's entry is the score given by the last comment that gives one. */
  lemma {:induction false} ScoreListFromLast(d: PyDict.Dict<string, int>, cs: seq<Comment>, i: nat, u: string, n: int, config: SeriesConfig, ignoreUsers: set<string>)
    requires PyDict.Valid(d) && ScoreListFrom(d, cs, config, ignoreUsers).Ok?
    requires i < |cs| && Gives(cs[i], u, n, config, ignoreUsers)
    requires forall j, m :: i < j < |cs| ==> !Gives(cs[j], u, m, config, ignoreUsers)
    ensures u in ScoreListFrom(d, cs, config, ignoreUsers).value.values
    ensures ScoreListFrom(d, cs, config, ignoreUsers).value.values[u] == n
    decreases |cs|
  {
    ScoreListFromHas(d, cs, u, config, ignoreUsers);
    var d' := Step(d, cs[0], config, ignoreUsers).value;
    StepFor(d, cs[0], u, config, ignoreUsers);
    forall j, m | i - 1 < j < |cs| - 1
      ensures !Gives(cs[1..][j], u, m, config, ignoreUsers)
    {
      assert cs[1..][j] == cs[j + 1];
    }
    if i > 0 {
      assert Gives(cs[1..][i - 1], u, n, config, ignoreUsers);
      ScoreListFromLast(d', cs[1..], i - 1, u, n, config, ignoreUsers);
    } else {
      ScoreListFromKeeps(d', cs[1..], u, config, ignoreUsers);
    }
  }

  /** Some comment gives `user` a score before any comment gives `other` one: `user`'s first
      score comes from an earlier comment than `other`'s, or `other` gets none. */
  ghost predicate GivenBefore(cs: seq<Comment>, user: string, other: string, config: SeriesConfig, ignoreUsers: set<string>) {
    exists i :: 0 <= i < |cs| && (exists n :: Gives(cs[i], user, n, config, ignoreUsers)) &&
      forall j, m :: 0 <= j <= i ==> !Gives(cs[j], other, m, config, ignoreUsers)
  }

  /** What the first comment decides about which of two users is given a score first. */
  lemma GivenBeforeStep(cs: seq<Comment>, u: string, v: string, config: SeriesConfig, ignoreUsers: set<string>)
    requires cs != [] && u != v
    ensures (exists n :: Gives(cs[0], u, n, config, ignoreUsers)) ==> GivenBefore(cs, u, v, config, ignoreUsers)
    ensures (exists m :: Gives(cs[0], v, m, config, ignoreUsers)) ==> !GivenBefore(cs, u, v, config, ignoreUsers)
    ensures (forall n :: !Gives(cs[0], u, n, config, ignoreUsers)) && (forall m :: !Gives(cs[0], v, m, config, ignoreUsers)) ==>
      (GivenBefore(cs, u, v, config, ignoreUsers) <==> GivenBefore(cs[1..], u, v, config, ignoreUsers))
  {
    if (forall n :: !Gives(cs[0], u, n, config, ignoreUsers)) && (forall m :: !Gives(cs[0], v, m, config, ignoreUsers)) {
      if GivenBefore(cs, u, v, config, ignoreUsers) {
        GivenBeforeDrop(cs, u, v, config, ignoreUsers);
      }
      if GivenBefore(cs[1..], u, v, config, ignoreUsers) {
        GivenBeforeCons(cs, u, v, config, ignoreUsers);
      }
    }
  }

  /** Dropping a first comment that gives neither user a score keeps who is given one first. */
  lemma GivenBeforeDrop(cs: seq<Comment>, u: string, v: string, config: SeriesConfig, ignoreUsers: set<string>)
    requires cs != [] && (forall n :: !Gives(cs[0], u, n, config, ignoreUsers)) && GivenBefore(cs, u, v, config, ignoreUsers)
    ensures GivenBefore(cs[1..], u, v, config, ignoreUsers)
  {
    var i :| 0 <= i < |cs| && (exists n :: Gives(cs[i], u, n, config, ignoreUsers)) &&
      forall j, m :: 0 <= j <= i ==> !Gives(cs[j], v, m, config, ignoreUsers);
    assert i > 0;
    forall j, m | 0 <= j <= i - 1 ensures !Gives(cs[1..][j], v, m, config, ignoreUsers) {
      assert cs[1..][j] == cs[j + 1];
    }
    assert cs[1..][i - 1] == cs[i];
  }

  /** Putting in front a comment that gives `v` no score keeps who is given one first. */
  lemma GivenBeforeCons(cs: seq<Comment>, u: string, v: string, config: SeriesConfig, ignoreUsers: set<string>)
    requires cs != [] && (forall m :: !Gives(cs[0], v, m, config, ignoreUsers)) && GivenBefore(cs[1..], u, v, config, ignoreUsers)
    ensures GivenBefore(cs, u, v, config, ignoreUsers)
  {
    var i :| 0 <= i < |cs| - 1 && (exists n :: Gives(cs[1..][i], u, n, config, ignoreUsers)) &&
      forall j, m :: 0 <= j <= i ==> !Gives(cs[1..][j], v, m, config, ignoreUsers);
    forall j, m | 0 <= j <= i + 1 ensures !Gives(cs[j], v, m, config, ignoreUsers) {
      if j > 0 { assert cs[j] == cs[1..][j - 1]; }
    }
    assert cs[i + 1] == cs[1..][i];
  }

  /** How one comment orders two users of the resulting dictionary. */
  lemma StepOrder(d: PyDict.Dict<string, int>, c: Comment, u: string, v: string, config: SeriesConfig, ignoreUsers: set<string>)
    requires PyDict.Valid(d) && Step(d, c, config, ignoreUsers).Ok?
    requires u in Step(d, c, config, ignoreUsers).value.values && v in Step(d, c, config, ignoreUsers).value.values
    ensures var d' := Step(d, c, config, ignoreUsers).value;
      PyDict.IndexOf(d'.keys, u) < PyDict.IndexOf(d'.keys, v) <==>
        u in d.values && (v !in d.values || PyDict.IndexOf(d.keys, u) < PyDict.IndexOf(d.keys, v))
  {
    var x := GetGoalNumberFromText(config, c.numbers);
    if Counted(c, ignoreUsers) && x.Ok? && x.value.Some? && x.value.value != 0 {
      PyDict.PutOrder(d, c.author.value, x.value.value, u, v);
    }
  }

  /** From a dictionary `d`, two users of the result are ordered as they were in `d`; a user of
      `d` comes before a user new to it; and two new users are ordered by their first scores. */
  lemma {:induction false} ScoreListFromOrder(d: PyDict.Dict<string, int>, cs: seq<Comment>, u: string, v: string, config: SeriesConfig, ignoreUsers: set<string>)
    requires PyDict.Valid(d) && ScoreListFrom(d, cs, config, ignoreUsers).Ok? && u != v
    requires u in ScoreListFrom(d, cs, config, ignoreUsers).value.values
    requires v in ScoreListFrom(d, cs, config, ignoreUsers).value.values
    ensures var r := ScoreListFrom(d, cs, config, ignoreUsers).value;
      PyDict.IndexOf(r.keys, u) < PyDict.IndexOf(r.keys, v) <==>
        (u in d.values && (v !in d.values || PyDict.IndexOf(d.keys, u) < PyDict.IndexOf(d.keys, v))) ||
        (u !in d.values && v !in d.values && GivenBefore(cs, u, v, config, ignoreUsers))
    decreases |cs|
  {
    if cs != [] {
      var d' := Step(d, cs[0], config, ignoreUsers).value;
      StepFor(d, cs[0], u, config, ignoreUsers);
      StepFor(d, cs[0], v, config, ignoreUsers);
      GivenBeforeStep(cs, u, v, config, ignoreUsers);
      ScoreListFromHas(d', cs[1..], u, config, ignoreUsers);
      ScoreListFromOrder(d', cs[1..], u, v, config, ignoreUsers);
      if u in d'.values && v in d'.values {
        StepOrder(d, cs[0], u, v, config, ignoreUsers);
      }
    }
  }

  /** get_score_list fails exactly when the extraction raises for a counted comment. */
  lemma ScoreListFails(cs: seq<Comment>, config: SeriesConfig, ignoreUsers: set<string>)
    ensures ScoreList(cs, config, ignoreUsers).Err? <==>
      exists i :: 0 <= i < |cs| && Counted(cs[i], ignoreUsers) && GetGoalNumberFromText(config, cs[i].numbers).Err?
  {
    ScoreListFromFails(PyDict.Empty(), cs, config, ignoreUsers);
  }

  /** A user is listed iff some comment gives them a (non-zero) score. */
  lemma ScoreListUsers(cs: seq<Comment>, config: SeriesConfig, ignoreUsers: set<string>)
    requires ScoreList(cs, config, ignoreUsers).Ok?
    ensures var r := ScoreList(cs, config, ignoreUsers).value;
      forall u :: u in r.values <==> exists i, n :: 0 <= i < |cs| && Gives(cs[i], u, n, config, ignoreUsers)
  {
    forall u {
      ScoreListFromHas(PyDict.Empty(), cs, u, config, ignoreUsers);
    }
  }

  /** A user's listed score is the one given by the last comment that gives them one. */
  lemma ScoreListLastWins(cs: seq<Comment>, config: SeriesConfig, ignoreUsers: set<string>)
    requires ScoreList(cs, config, ignoreUsers).Ok?
    ensures var r := ScoreList(cs, config, ignoreUsers).value;
      forall i, u, n ::
        (0 <= i < |cs| && Gives(cs[i], u, n, config, ignoreUsers) &&
         forall j, m :: i < j < |cs| ==> !Gives(cs[j], u, m, config, ignoreUsers)) ==> u in r.values && r.values[u] == n
  {
    forall i, u, n | 0 <= i < |cs| && Gives(cs[i], u, n, config, ignoreUsers) &&
        forall j, m :: i < j < |cs| ==> !Gives(cs[j], u, m, config, ignoreUsers)
      ensures u in ScoreList(cs, config, ignoreUsers).value.values
      ensures ScoreList(cs, config, ignoreUsers).value.values[u] == n
    {
      ScoreListFromLast(PyDict.Empty(), cs, i, u, n, config, ignoreUsers);
    }
  }

  /** get_score_list lists users in the order of their first scores: of two listed users, the one
      whose first giving comment comes earlier has the earlier key. */
  lemma ScoreListOrder(cs: seq<Comment>, config: SeriesConfig, ignoreUsers: set<string>)
    requires ScoreList(cs, config, ignoreUsers).Ok?
    ensures var r := ScoreList(cs, config, ignoreUsers).value;
      forall u, v :: u in r.values && v in r.values && u != v ==>
        (PyDict.IndexOf(r.keys, u) < PyDict.IndexOf(r.keys, v) <==> GivenBefore(cs, u, v, config, ignoreUsers))
  {
    var r := ScoreList(cs, config, ignoreUsers).value;
    forall u, v | u in r.values && v in r.values && u != v
      ensures PyDict.IndexOf(r.keys, u) < PyDict.IndexOf(r.keys, v) <==> GivenBefore(cs, u, v, config, ignoreUsers)
    {
      ScoreListFromOrder(PyDict.Empty(), cs, u, v, config, ignoreUsers);
    }
  }
}
