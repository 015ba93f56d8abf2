/** Reading participants' scores out of a post's comments in the original bot version
    (GeoStackr.py: get_score_list). There are no series settings: every comment's score is the
    highest number it contains. The regular expression (two to five digits) is not modelled: a
    comment carries the integers it matched, in order. */
module LegacyExtract {
  import opened Wrappers
  import PyDict
  import opened Reddit
  import opened PySeq

  /** The names get_score_list skips: the account the bot is logged in as and the tracking bot. */
  function IgnoreUsers(botName: string): set<string> {
    {botName, "GeoGuessrTrackingBot"}
  }

  /** The author lookup fails: a comment with numbers whose account is deleted has no author,
      and reading its name raises AttributeError. A deleted comment without numbers is skipped
      before the lookup. */
  predicate Raises(c: Comment) {
    c.numbers != [] && c.author.None?
  }

  /** Comment `c` gives `user` the score `n`: it holds at least one number, its author is
      `user`, who is not ignored, and `n` is its highest number (a 0 is kept). */
  ghost predicate Gives(c: Comment, user: string, n: int, botName: string) {
    c.numbers != [] && c.author == Some(user) && user !in IgnoreUsers(botName) && n == SeqMax(c.numbers)
  }

  /** One iteration of get_score_list's loop. */
  function Step(d: PyDict.Dict<string, int>, c: Comment, botName: string): (r: Result<PyDict.Dict<string, int>, Fault>)
    requires PyDict.Valid(d)
    ensures r.Ok? ==> PyDict.Valid(r.value)
  {
    if c.numbers == [] then Ok(d)
    else if c.author.None? then Err(AttributeError)
    else if c.author.value in IgnoreUsers(botName) then Ok(d)
    else Ok(PyDict.Put(d, c.author.value, SeqMax(c.numbers)))
  }

  /** The rest of get_score_list's loop, from the dictionary built so far. */
  function ScoreListFrom(d: PyDict.Dict<string, int>, cs: seq<Comment>, botName: string)
    : (r: Result<PyDict.Dict<string, int>, Fault>)
    requires PyDict.Valid(d)
    ensures r.Ok? ==> PyDict.Valid(r.value)
    decreases |cs|
  {
    if cs == [] then Ok(d)
    else
      match Step(d, cs[0], botName)
      case Err(e) => Err(e)
      case Ok(d') => ScoreListFrom(d', cs[1..], botName)
  }

  /** What get_score_list returns for a post with comments `cs`, or the exception it raises. */
  function ScoreList(cs: seq<Comment>, botName: string): (r: Result<PyDict.Dict<string, int>, Fault>)
    ensures r.Ok? ==> PyDict.Valid(r.value)
  {
    ScoreListFrom(PyDict.Empty(), cs, botName)
  }

  method GetScoreList(comments: seq<Comment>, botName: string) returns (r: Result<PyDict.Dict<string, int>, Fault>)
    ensures r == ScoreList(comments, botName)
  {
    var ignoreUsers := IgnoreUsers(botName);
    var scoreList := PyDict.Empty();
    for i := 0 to |comments|
      invariant PyDict.Valid(scoreList)
      invariant ScoreListFrom(scoreList, comments[i..], botName) == ScoreList(comments, botName)
    {
      var comment := comments[i];
      assert comments[i..][1..] == comments[i + 1..];
      if comment.numbers != [] {
        if comment.author.None? {
          return Err(AttributeError);
        }
        if comment.author.value !in ignoreUsers {
          var highest := SeqMax(comment.numbers);
          scoreList := PyDict.Put(scoreList, comment.author.value, highest);
        }
      }
    }
    assert comments[|comments|..] == [];
    return Ok(scoreList);
  }

  /** The loop fails, with AttributeError, exactly when a comment with numbers has no author. */
  lemma {:induction false} ScoreListFromFails(d: PyDict.Dict<string, int>, cs: seq<Comment>, botName: string)
    requires PyDict.Valid(d)
    ensures ScoreListFrom(d, cs, botName).Err? <==> exists i :: 0 <= i < |cs| && Raises(cs[i])
    ensures ScoreListFrom(d, cs, botName).Err? ==> ScoreListFrom(d, cs, botName).error == AttributeError
    decreases |cs|
  {
    if cs != [] {
      var step := Step(d, cs[0], botName);
      if step.Ok? {
        ScoreListFromFails(step.value, cs[1..], botName);
        if exists i :: 0 <= i < |cs| && Raises(cs[i]) {
          var i :| 0 <= i < |cs| && Raises(cs[i]);
          assert i > 0;
          assert cs[1..][i - 1] == cs[i];
        }
      }
    }
  }

  /** What one comment does to one user's entry. */
  lemma StepFor(d: PyDict.Dict<string, int>, c: Comment, u: string, botName: string)
    requires PyDict.Valid(d) && Step(d, c, botName).Ok?
    ensures var d' := Step(d, c, botName).value;
      && (u in d'.values <==> u in d.values || exists n :: Gives(c, u, n, botName))
      && (forall n :: Gives(c, u, n, botName) ==> d'.values[u] == n)
      && ((forall n :: !Gives(c, u, n, botName)) && u in d.values ==> d'.values[u] == d.values[u])
  {
    var d' := Step(d, c, botName).value;
    if c.numbers != [] && c.author.Some? && c.author.value !in IgnoreUsers(botName) {
      assert d' == PyDict.Put(d, c.author.value, SeqMax(c.numbers));
      if u == c.author.value {
        assert Gives(c, u, SeqMax(c.numbers), botName);
      } else {
        assert forall n :: !Gives(c, u, n, botName);
      }
    } else {
      assert d' == d;
      assert forall n :: !Gives(c, u, n, botName);
    }
  }

  /** From a dictionary `d`, a user has an entry afterwards iff they had one or a comment gives them a score. */
  lemma {:induction false} ScoreListFromHas(d: PyDict.Dict<string, int>, cs: seq<Comment>, u: string, botName: string)
    requires PyDict.Valid(d) && ScoreListFrom(d, cs, botName).Ok?
    ensures u in ScoreListFrom(d, cs, botName).value.values <==>
      u in d.values || exists i, n :: 0 <= i < |cs| && Gives(cs[i], u, n, botName)
    decreases |cs|
  {
    if cs != [] {
      var d' := Step(d, cs[0], botName).value;
      StepFor(d, cs[0], u, botName);
      ScoreListFromHas(d', cs[1..], u, botName);
      if exists i, n :: 0 <= i < |cs| && Gives(cs[i], u, n, botName) {
        var i, n :| 0 <= i < |cs| && Gives(cs[i], u, n, botName);
        if i > 0 { assert Gives(cs[1..][i - 1], u, n, botName); }
      }
      if exists i, n :: 0 <= i < |cs| - 1 && Gives(cs[1..][i], u, n, botName) {
        var i, n :| 0 <= i < |cs| - 1 && Gives(cs[1..][i], u, n, botName);
        assert Gives(cs[i + 1], u, n, botName);
      }
    }
  }

  /** A user no comment gives a score keeps the entry they had. */
  lemma {:induction false} ScoreListFromKeeps(d: PyDict.Dict<string, int>, cs: seq<Comment>, u: string, botName: string)
    requires PyDict.Valid(d) && ScoreListFrom(d, cs, botName).Ok?
    requires u in d.values && forall i, n :: 0 <= i < |cs| ==> !Gives(cs[i], u, n, botName)
    ensures u in ScoreListFrom(d, cs, botName).value.values
    ensures ScoreListFrom(d, cs, botName).value.values[u] == d.values[u]
    decreases |cs|
  {
    ScoreListFromHas(d, cs, u, botName);
    if cs != [] {
      var d' := Step(d, cs[0], botName).value;
      StepFor(d, cs[0], u, botName);
      forall i, n | 0 <= i < |cs| - 1
        ensures !Gives(cs[1..][i], u, n, botName)
      {
        assert cs[1..][i] == cs[i + 1];
      }
      assert forall n :: !Gives(cs[0], u, n, botName);
      ScoreListFromKeeps(d', cs[1..], u, botName);
    }
  }

  /** A user's entry is the score given by the last comment that gives one. */
  lemma {:induction false} ScoreListFromLast(d: PyDict.Dict<string, int>, cs: seq<Comment>, i: nat, u: string, n: int, botName: string)
    requires PyDict.Valid(d) && ScoreListFrom(d, cs, botName).Ok?
    requires i < |cs| && Gives(cs[i], u, n, botName)
    requires forall j, m :: i < j < |cs| ==> !Gives(cs[j], u, m, botName)
    ensures u in ScoreListFrom(d, cs, botName).value.values
    ensures ScoreListFrom(d, cs, botName).value.values[u] == n
    decreases |cs|
  {
    ScoreListFromHas(d, cs, u, botName);
    var d' := Step(d, cs[0], botName).value;
    StepFor(d, cs[0], u, botName);
    forall j, m | i - 1 < j < |cs| - 1
      ensures !Gives(cs[1..][j], u, m, botName)
    {
      assert cs[1..][j] == cs[j + 1];
    }
    if i > 0 {
      assert Gives(cs[1..][i - 1], u, n, botName);
      ScoreListFromLast(d', cs[1..], i - 1, u, n, botName);
    } else {
      ScoreListFromKeeps(d', cs[1..], u, botName);
    }
  }

  /** Some comment gives `user` a score before any comment gives `other` one: `user`'s first
      score comes from an earlier comment than `other`'s, or `other` gets none. */
  ghost predicate GivenBefore(cs: seq<Comment>, user: string, other: string, botName: string) {
    exists i :: 0 <= i < |cs| && (exists n :: Gives(cs[i], user, n, botName)) &&
      forall j, m :: 0 <= j <= i ==> !Gives(cs[j], other, m, botName)
  }

  /** What the first comment decides about which of two users is given a score first. */
  lemma GivenBeforeStep(cs: seq<Comment>, u: string, v: string, botName: string)
    requires cs != [] && u != v
    ensures (exists n :: Gives(cs[0], u, n, botName)) ==> GivenBefore(cs, u, v, botName)
    ensures (exists m :: Gives(cs[0], v, m, botName)) ==> !GivenBefore(cs, u, v, botName)
    ensures (forall n :: !Gives(cs[0], u, n, botName)) && (forall m :: !Gives(cs[0], v, m, botName)) ==>
      (GivenBefore(cs, u, v, botName) <==> GivenBefore(cs[1..], u, v, botName))
  {
    if (forall n :: !Gives(cs[0], u, n, botName)) && (forall m :: !Gives(cs[0], v, m, botName)) {
      if GivenBefore(cs, u, v, botName) {
        GivenBeforeDrop(cs, u, v, botName);
      }
      if GivenBefore(cs[1..], u, v, botName) {
        GivenBeforeCons(cs, u, v, botName);
      }
    }
  }

  /** Dropping a first comment that gives neither user a score keeps who is given one first. */
  lemma GivenBeforeDrop(cs: seq<Comment>, u: string, v: string, botName: string)
    requires cs != [] && (forall n :: !Gives(cs[0], u, n, botName)) && GivenBefore(cs, u, v, botName)
    ensures GivenBefore(cs[1..], u, v, botName)
  {
    var i :| 0 <= i < |cs| && (exists n :: Gives(cs[i], u, n, botName)) &&
      forall j, m :: 0 <= j <= i ==> !Gives(cs[j], v, m, botName);
    assert i > 0;
    forall j, m | 0 <= j <= i - 1 ensures !Gives(cs[1..][j], v, m, botName) {
      assert cs[1..][j] == cs[j + 1];
    }
    assert cs[1..][i - 1] == cs[i];
  }

  /** Putting in front a comment that gives `v` no score keeps who is given one first. */
  lemma GivenBeforeCons(cs: seq<Comment>, u: string, v: string, botName: string)
    requires cs != [] && (forall m :: !Gives(cs[0], v, m, botName)) && GivenBefore(cs[1..], u, v, botName)
    ensures GivenBefore(cs, u, v, botName)
  {
    var i :| 0 <= i < |cs| - 1 && (exists n :: Gives(cs[1..][i], u, n, botName)) &&
      forall j, m :: 0 <= j <= i ==> !Gives(cs[1..][j], v, m, botName);
    forall j, m | 0 <= j <= i + 1 ensures !Gives(cs[j], v, m, botName) {
      if j > 0 { assert cs[j] == cs[1..][j - 1]; }
    }
    assert cs[i + 1] == cs[1..][i];
  }

  /** How one comment orders two users of the resulting dictionary. */
  lemma StepOrder(d: PyDict.Dict<string, int>, c: Comment, u: string, v: string, botName: string)
    requires PyDict.Valid(d) && Step(d, c, botName).Ok?
    requires u in Step(d, c, botName).value.values && v in Step(d, c, botName).value.values
    ensures var d' := Step(d, c, botName).value;
      PyDict.IndexOf(d'.keys, u) < PyDict.IndexOf(d'.keys, v) <==>
        u in d.values && (v !in d.values || PyDict.IndexOf(d.keys, u) < PyDict.IndexOf(d.keys, v))
  {
    if c.numbers != [] && c.author.Some? && c.author.value !in IgnoreUsers(botName) {
      PyDict.PutOrder(d, c.author.value, SeqMax(c.numbers), u, v);
    }
  }

  /** From a dictionary `d`, two users of the result are ordered as they were in `d`; a user of
      `d` comes before a user new to it; and two new users are ordered by their first scores. */
  lemma {:induction false} ScoreListFromOrder(d: PyDict.Dict<string, int>, cs: seq<Comment>, u: string, v: string, botName: string)
    requires PyDict.Valid(d) && ScoreListFrom(d, cs, botName).Ok? && u != v
    requires u in ScoreListFrom(d, cs, botName).value.values
    requires v in ScoreListFrom(d, cs, botName).value.values
    ensures var r := ScoreListFrom(d, cs, botName).value;
      PyDict.IndexOf(r.keys, u) < PyDict.IndexOf(r.keys, v) <==>
        (u in d.values && (v !in d.values || PyDict.IndexOf(d.keys, u) < PyDict.IndexOf(d.keys, v))) ||
        (u !in d.values && v !in d.values && GivenBefore(cs, u, v, botName))
    decreases |cs|
  {
    if cs != [] {
      var d' := Step(d, cs[0], botName).value;
      StepFor(d, cs[0], u, botName);
      StepFor(d, cs[0], v, botName);
      GivenBeforeStep(cs, u, v, botName);
      ScoreListFromHas(d', cs[1..], u, botName);
      ScoreListFromOrder(d', cs[1..], u, v, botName);
      if u in d'.values && v in d'.values {
        StepOrder(d, cs[0], u, v, botName);
      }
    }
  }

  /** get_score_list raises AttributeError exactly when a comment with numbers has no author. */
  lemma ScoreListFails(cs: seq<Comment>, botName: string)
    ensures ScoreList(cs, botName).Err? <==> exists i :: 0 <= i < |cs| && Raises(cs[i])
    ensures ScoreList(cs, botName).Err? ==> ScoreList(cs, botName).error == AttributeError
  {
    ScoreListFromFails(PyDict.Empty(), cs, botName);
  }

  /** A user is listed iff some comment gives them a score. */
  lemma ScoreListUsers(cs: seq<Comment>, botName: string)
    requires ScoreList(cs, botName).Ok?
    ensures var r := ScoreList(cs, botName).value;
      forall u :: u in r.values <==> exists i, n :: 0 <= i < |cs| && Gives(cs[i], u, n, botName)
  {
    forall u {
      ScoreListFromHas(PyDict.Empty(), cs, u, botName);
    }
  }

  /** A user's listed score is the highest number of the last comment of theirs that holds numbers. */
  lemma ScoreListLastWins(cs: seq<Comment>, botName: string)
    requires ScoreList(cs, botName).Ok?
    ensures var r := ScoreList(cs, botName).value;
      forall i, u, n ::
        (0 <= i < |cs| && Gives(cs[i], u, n, botName) &&
         forall j, m :: i < j < |cs| ==> !Gives(cs[j], u, m, botName)) ==> u in r.values && r.values[u] == n
  {
    forall i, u, n | 0 <= i < |cs| && Gives(cs[i], u, n, botName) &&
        forall j, m :: i < j < |cs| ==> !Gives(cs[j], u, m, botName)
      ensures u in ScoreList(cs, botName).value.values
      ensures ScoreList(cs, botName).value.values[u] == n
    {
      ScoreListFromLast(PyDict.Empty(), cs, i, u, n, botName);
    }
  }

  /** get_score_list lists users in the order of their first scores: of two listed users, the one
      whose first comment with numbers comes earlier has the earlier key. */
  lemma ScoreListOrder(cs: seq<Comment>, botName: string)
    requires ScoreList(cs, botName).Ok?
    ensures var r := ScoreList(cs, botName).value;
      forall u, v :: u in r.values && v in r.values && u != v ==>
        (PyDict.IndexOf(r.keys, u) < PyDict.IndexOf(r.keys, v) <==> GivenBefore(cs, u, v, botName))
  {
    var r := ScoreList(cs, botName).value;
    forall u, v | u in r.values && v in r.values && u != v
      ensures PyDict.IndexOf(r.keys, u) < PyDict.IndexOf(r.keys, v) <==> GivenBefore(cs, u, v, botName)
    {
      ScoreListFromOrder(PyDict.Empty(), cs, u, v, botName);
    }
  }
}
