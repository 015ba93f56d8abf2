/** Python's `list.sort(key=f)`: the key of every item is computed once, then the items are
    put in ascending key order by a STABLE sort, so items with equal keys keep their relative
    order. An item is identified here by its position in the unsorted list; `StableOrder(keys)`
    is the list of positions in the order the sorted list holds them. */
module PySort {
  import PyDict

  ghost predicate InRange(ps: seq<nat>, n: nat) {
    forall i :: 0 <= i < |ps| ==> ps[i] < n
  }

  ghost predicate Increasing(ps: seq<nat>) {
    forall i, j :: 0 <= i < j < |ps| ==> ps[i] < ps[j]
  }

  /** Keys never decrease along the list. */
  ghost predicate Ascending(ps: seq<nat>, keys: seq<int>)
    requires InRange(ps, |keys|)
  {
    forall i, j :: 0 <= i < j < |ps| ==> keys[ps[i]] <= keys[ps[j]]
  }

  /** Items with equal keys appear in the order of their original positions. */
  ghost predicate Stable(ps: seq<nat>, keys: seq<int>)
    requires InRange(ps, |keys|)
  {
    forall i, j :: 0 <= i < j < |ps| && keys[ps[i]] == keys[ps[j]] ==> ps[i] < ps[j]
  }

  /** `[lo, lo + 1, ..., hi - 1]`. */
  function Positions(lo: nat, hi: nat): (ps: seq<nat>)
    decreases hi - lo
    ensures |ps| == if lo <= hi then hi - lo else 0
    ensures forall i :: 0 <= i < |ps| ==> ps[i] == lo + i
  {
    if hi <= lo then [] else [lo] + Positions(lo + 1, hi)
  }

  /** Puts `x` in front of the first element whose key is not smaller than that of `x`. */
  function Insert(x: nat, t: seq<nat>, keys: seq<int>): (r: seq<nat>)
    requires x < |keys| && InRange(t, |keys|)
    ensures |r| == |t| + 1 && InRange(r, |keys|)
    ensures forall p :: p in r <==> p == x || p in t
  {
    if t == [] || keys[x] <= keys[t[0]] then [x] + t else [t[0]] + Insert(x, t[1..], keys)
  }

  /** Insertion sort of the positions `ps`, the first one inserted last. */
  function Sort(ps: seq<nat>, keys: seq<int>): (r: seq<nat>)
    requires InRange(ps, |keys|)
    ensures |r| == |ps| && InRange(r, |keys|)
    ensures forall p :: p in r <==> p in ps
  {
    if ps == [] then []
    else
      Insert(ps[0], Sort(ps[1..], keys), keys)
  }

  /** `Insert` splits `t` at a point: every key before it is smaller than that of `x`. */
  lemma {:induction false} InsertShape(x: nat, t: seq<nat>, keys: seq<int>) returns (k: nat)
    requires x < |keys| && InRange(t, |keys|)
    ensures k <= |t| && Insert(x, t, keys) == t[..k] + [x] + t[k..]
    ensures forall q :: 0 <= q < k ==> keys[t[q]] < keys[x]
    ensures k < |t| ==> keys[x] <= keys[t[k]]
  {
    if t == [] || keys[x] <= keys[t[0]] {
      k := 0;
    } else {
      var k' := InsertShape(x, t[1..], keys);
      k := k' + 1;
      assert t[..k] == [t[0]] + t[1..][..k'];
      assert t[k..] == t[1..][k'..];
    }
  }

  /** Sorting increasing positions yields them in ascending key order, ties in position order. */
  lemma {:induction false} SortCorrect(ps: seq<nat>, keys: seq<int>)
    requires InRange(ps, |keys|) && Increasing(ps)
    ensures Ascending(Sort(ps, keys), keys) && Stable(Sort(ps, keys), keys) && Distinct(Sort(ps, keys))
  {
    if ps != [] {
      var x, t := ps[0], Sort(ps[1..], keys);
      SortCorrect(ps[1..], keys);
      var k := InsertShape(x, t, keys);
      forall q | 0 <= q < |t|
        ensures x < t[q]
      {
        assert t[q] in ps[1..];
      }
      InsertKeepsOrder(x, t, k, keys);
    }
  }

  ghost predicate Distinct(ps: seq<nat>) {
    forall i, j :: 0 <= i < j < |ps| ==> ps[i] != ps[j]
  }

  /** Inserting a position smaller than all others at the split point `InsertShape` finds keeps
      the list sorted and stable. */
  lemma InsertKeepsOrder(x: nat, t: seq<nat>, k: nat, keys: seq<int>)
    requires x < |keys| && InRange(t, |keys|) && k <= |t|
    requires Ascending(t, keys) && Stable(t, keys) && Distinct(t)
    requires forall q :: 0 <= q < |t| ==> x < t[q]
    requires forall q :: 0 <= q < k ==> keys[t[q]] < keys[x]
    requires k < |t| ==> keys[x] <= keys[t[k]]
    ensures var r := t[..k] + [x] + t[k..];
      InRange(r, |keys|) && Ascending(r, keys) && Stable(r, keys) && Distinct(r)
  {
    var r := t[..k] + [x] + t[k..];
    SplitAt(x, t, k);
    InsertAscending(x, t, k, r, keys);
    InsertStable(x, t, k, r, keys);
  }

  /** The elements of `t[..k] + [x] + t[k..]` by index. */
  lemma SplitAt(x: nat, t: seq<nat>, k: nat)
    requires k <= |t|
    ensures var r := t[..k] + [x] + t[k..];
      |r| == |t| + 1 && r[k] == x &&
      (forall i :: 0 <= i < k ==> r[i] == t[i]) && (forall i :: k < i < |r| ==> r[i] == t[i - 1])
  {
  }

  lemma InsertAscending(x: nat, t: seq<nat>, k: nat, r: seq<nat>, keys: seq<int>)
    requires x < |keys| && InRange(t, |keys|) && k <= |t| && Ascending(t, keys)
    requires forall q :: 0 <= q < k ==> keys[t[q]] < keys[x]
    requires k < |t| ==> keys[x] <= keys[t[k]]
    requires |r| == |t| + 1 && r[k] == x
    requires (forall i :: 0 <= i < k ==> r[i] == t[i]) && (forall i :: k < i < |r| ==> r[i] == t[i - 1])
    ensures InRange(r, |keys|) && Ascending(r, keys)
  {
    forall i, j | 0 <= i < j < |r|
      ensures keys[r[i]] <= keys[r[j]]
    {
      if k < |t| && i <= k < j {
        assert keys[x] <= keys[t[k]];
      }
    }
  }

  lemma InsertStable(x: nat, t: seq<nat>, k: nat, r: seq<nat>, keys: seq<int>)
    requires x < |keys| && InRange(t, |keys|) && k <= |t| && Stable(t, keys) && Distinct(t)
    requires forall q :: 0 <= q < |t| ==> x < t[q]
    requires forall q :: 0 <= q < k ==> keys[t[q]] < keys[x]
    requires |r| == |t| + 1 && r[k] == x
    requires (forall i :: 0 <= i < k ==> r[i] == t[i]) && (forall i :: k < i < |r| ==> r[i] == t[i - 1])
    ensures InRange(r, |keys|) && Stable(r, keys) && Distinct(r)
  {
  }

  /** The positions of an n-item list in the order `list.sort(key=...)` leaves them, for keys
      `keys[0..n)`: a rearrangement of all n positions, keys ascending, ties in original order. */
  function StableOrder(keys: seq<int>): (r: seq<nat>)
    ensures |r| == |keys| && InRange(r, |keys|)
    ensures forall p: nat :: p in r <==> p < |keys|
    ensures Distinct(r) && Ascending(r, keys) && Stable(r, keys)
  {
    var ps := Positions(0, |keys|);
    forall p: nat
      ensures p in ps <==> p < |keys|
    {
      if p < |keys| { assert ps[p] == p; }
    }
    SortCorrect(ps, keys);
    Sort(ps, keys)
  }

  /** The list `names` as `sort(key=...)` leaves it when `keys[i]` is the key of `names[i]`. */
  function SortedBy<K>(names: seq<K>, keys: seq<int>): seq<K>
    requires |names| == |keys|
  {
    var order := StableOrder(keys);
    seq(|order|, i requires 0 <= i < |order| => names[order[i]])
  }

  /** Sorting neither drops nor adds an item: the sorted list is as long as the list and holds
      exactly its elements. */
  lemma SortedByMembers<K>(names: seq<K>, keys: seq<int>)
    requires |names| == |keys|
    ensures |SortedBy(names, keys)| == |names|
    ensures forall u :: u in SortedBy(names, keys) <==> u in names
  {
    var order := StableOrder(keys);
    var r := SortedBy(names, keys);
    forall u | u in names
      ensures u in r
    {
      var p :| 0 <= p < |names| && names[p] == u;
      assert p in order;
      var i :| 0 <= i < |order| && order[i] == p;
      assert r[i] == u;
    }
  }

  /** The (key, value) items of a dictionary at the sorted positions `order`: the sorted list
      of `items()`. */
  method Pick<K, V>(keys: seq<K>, values: map<K, V>, order: seq<nat>)
    returns (items: seq<(K, V)>)
    requires forall i :: 0 <= i < |keys| ==> keys[i] in values
    requires forall i :: 0 <= i < |order| ==> order[i] < |keys|
    ensures |items| == |order|
    ensures forall j :: 0 <= j < |order| ==> items[j] == (keys[order[j]], values[keys[order[j]]])
  {
    items := [];
    for i := 0 to |order|
      invariant |items| == i
      invariant forall j :: 0 <= j < i ==> items[j] == (keys[order[j]], values[keys[order[j]]])
    {
      items := items + [(keys[order[i]], values[keys[order[i]]])];
    }
  }

  /** Keys picked from a dictionary's key order in stable sorted order are distinct, and keys
      with equal sort keys come in the dictionary's order. */
  lemma PickedNames<K>(names: seq<K>, keys: seq<int>, order: seq<nat>)
    requires |keys| == |names| && forall i, j :: 0 <= i < j < |names| ==> names[i] != names[j]
    requires order == StableOrder(keys)
    ensures forall i :: 0 <= i < |order| ==> order[i] < |names|
    ensures forall i, j :: 0 <= i < j < |order| ==> names[order[i]] != names[order[j]]
    ensures forall i, j :: 0 <= i < j < |order| && keys[order[i]] == keys[order[j]] ==>
      PyDict.IndexOf(names, names[order[i]]) < PyDict.IndexOf(names, names[order[j]])
  {
    forall i, j | 0 <= i < j < |order| && keys[order[i]] == keys[order[j]]
      ensures PyDict.IndexOf(names, names[order[i]]) < PyDict.IndexOf(names, names[order[j]])
    {
      PyDict.IndexOfAt(names, order[i]);
      PyDict.IndexOfAt(names, order[j]);
    }
  }
}
