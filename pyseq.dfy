/** Python's `max` and `min` of a non-empty list of integers. */
module PySeq {

  function SeqMax(s: seq<int>): (m: int)
    requires s != []
    ensures m in s && forall x :: x in s ==> x <= m
  {
    if |s| == 1 then s[0]
    else
      assert s == [s[0]] + s[1..];
      var rest := SeqMax(s[1..]);
      if s[0] >= rest then s[0] else rest
  }

  function SeqMin(s: seq<int>): (m: int)
    requires s != []
    ensures m in s && forall x :: x in s ==> m <= x
  {
    if |s| == 1 then s[0]
    else
      assert s == [s[0]] + s[1..];
      var rest := SeqMin(s[1..]);
      if s[0] <= rest then s[0] else rest
  }
}
