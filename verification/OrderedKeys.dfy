/** The key order of an ordered map with numeric keys: its first and last key,
    the key after a given one, and all keys in order. */
module OrderedKeys {
  import opened Wrappers

  ghost predicate Increasing(s: seq<int>) {
    forall i, j :: 0 <= i < j < |s| ==> s[i] < s[j]
  }

  ghost predicate IsLeast(m: int, s: set<int>) {
    m in s && forall y :: y in s ==> m <= y
  }

  lemma {:induction false} LeastExists(s: set<int>)
    requires s != {}
    ensures exists m :: IsLeast(m, s)
    decreases |s|
  {
    var x := Element(s);
    var rest := s - {x};
    assert forall y :: y in s ==> y == x || y in rest;
    if rest == {} {
      assert IsLeast(x, s);
    } else {
      LeastExists(rest);
      var m :| IsLeast(m, rest);
      assert IsLeast(if x < m then x else m, s);
    }
  }

  function Min(s: set<int>): (m: int)
    requires s != {}
    ensures IsLeast(m, s)
  {
    LeastExists(s);
    var m :| m in s && forall y :: y in s ==> m <= y;
    m
  }

  /** `begin()`; `None` is `end()`. */
  function First(s: set<int>): (r: Option<int>)
    ensures r.None? <==> s == {}
    ensures r.Some? ==> IsLeast(r.value, s)
  {
    if s == {} then None else Some(Min(s))
  }

  /** `++it`; `None` is `end()`. */
  function Next(s: set<int>, k: int): (r: Option<int>)
    ensures r.None? ==> forall y :: y in s ==> y <= k
    ensures r.Some? ==> r.value in s && r.value > k && forall y :: y in s && y > k ==> r.value <= y
  {
    var above := set y | y in s && y > k;
    assert forall y :: y in s && y > k ==> y in above;
    First(above)
  }

  ghost predicate IsGreatest(m: int, s: set<int>) {
    m in s && forall y :: y in s ==> y <= m
  }

  lemma {:induction false} GreatestExists(s: set<int>)
    requires s != {}
    ensures exists m :: IsGreatest(m, s)
    decreases |s|
  {
    var x := Element(s);
    var rest := s - {x};
    assert forall y :: y in s ==> y == x || y in rest;
    if rest == {} {
      assert IsGreatest(x, s);
    } else {
      GreatestExists(rest);
      var m :| IsGreatest(m, rest);
      assert IsGreatest(if x > m then x else m, s);
    }
  }

  /** `rbegin()`. */
  function Last(s: set<int>): (r: Option<int>)
    ensures r.None? <==> s == {}
    ensures r.Some? ==> IsGreatest(r.value, s)
  {
    if s == {} then
      None
    else
      GreatestExists(s);
      var m :| m in s && forall y :: y in s ==> y <= m;
      Some(m)
  }

  function Sorted(s: set<int>): (r: seq<int>)
    ensures Increasing(r) && |r| == |s|
    ensures forall i :: 0 <= i < |r| ==> r[i] in s
    ensures forall x :: x in s ==> x in r
  {
    if s == {} then [] else [Min(s)] + Sorted(s - {Min(s)})
  }

  /** An increasing sequence is determined by the set of its elements. */
  lemma {:induction false} SortedUnique(s: set<int>, r: seq<int>)
    requires Increasing(r)
    requires forall x :: x in r <==> x in s
    ensures Sorted(s) == r
  {
    if r == [] {
      assert s == {} by { if s != {} { var x := Element(s); } }
    } else {
      assert r[0] in r;
      assert Min(s) == r[0];
      TailElements(r);
      SortedUnique(s - {r[0]}, r[1..]);
    }
  }

  lemma TailElements(r: seq<int>)
    requires Increasing(r) && r != []
    ensures forall x :: x in r[1..] <==> x in r && x != r[0]
  {
    forall x | x in r && x != r[0] ensures x in r[1..] {
      var i :| 0 <= i < |r| && r[i] == x;
      assert x == r[1..][i - 1];
    }
  }
}
