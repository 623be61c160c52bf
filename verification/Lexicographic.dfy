/** The order of strings, and iteration over string keys in that order. */
module Lexicographic {
  import opened Wrappers

  predicate Less(a: string, b: string) {
    if b == "" then false
    else if a == "" then true
    else a[0] < b[0] || (a[0] == b[0] && Less(a[1..], b[1..]))
  }

  /** `b` goes on where `a` ends, or has the greater character where they first differ. */
  ghost predicate DifferAt(a: string, b: string, k: nat) {
    && k <= |a| && k < |b| && a[..k] == b[..k]
    && (k == |a| || a[k] < b[k])
  }

  lemma {:induction false} LessIff(a: string, b: string)
    ensures Less(a, b) <==> exists k: nat :: DifferAt(a, b, k)
  {
    if b == "" {
    } else if a == "" || a[0] != b[0] {
      assert a == "" || a[0] < b[0] ==> DifferAt(a, b, 0);
      assert forall k: nat :: DifferAt(a, b, k) && k > 0 ==> a[..k][0] == b[..k][0];
    } else {
      LessIff(a[1..], b[1..]);
      if k: nat :| DifferAt(a[1..], b[1..], k) {
        assert a[..k + 1] == [a[0]] + a[1..][..k] && b[..k + 1] == [b[0]] + b[1..][..k];
        assert DifferAt(a, b, k + 1);
      }
      if k: nat :| DifferAt(a, b, k) {
        assert k > 0;
        assert a[1..][..k - 1] == a[..k][1..] && b[1..][..k - 1] == b[..k][1..];
        assert DifferAt(a[1..], b[1..], k - 1);
      }
    }
  }

  lemma {:induction false} Irreflexive(a: string)
    ensures !Less(a, a)
  {
    if a == "" {
    } else {
      Irreflexive(a[1..]);
    }
  }

  lemma {:induction false} Transitive(a: string, b: string, c: string)
    requires Less(a, b) && Less(b, c)
    ensures Less(a, c)
  {
    if a != "" && a[0] == b[0] == c[0] {
      Transitive(a[1..], b[1..], c[1..]);
    }
  }

  lemma {:induction false} Total(a: string, b: string)
    ensures a == b || Less(a, b) || Less(b, a)
  {
    if a != "" && b != "" && a[0] == b[0] {
      Total(a[1..], b[1..]);
      assert a == [a[0]] + a[1..] && b == [b[0]] + b[1..];
    }
  }

  ghost predicate IsFirst(m: string, s: set<string>) {
    m in s && forall y :: y in s && y != m ==> Less(m, y)
  }

  lemma {:induction false} FirstExists(s: set<string>)
    requires s != {}
    ensures exists m :: IsFirst(m, s)
    decreases |s|
  {
    var x :| x in s;
    var rest := s - {x};
    assert forall y :: y in s ==> y == x || y in rest;
    if rest == {} {
      assert IsFirst(x, s);
    } else {
      FirstExists(rest);
      var m :| IsFirst(m, rest);
      Total(x, m);
      forall y | y in rest && y != m && Less(x, m) ensures Less(x, y) {
        Transitive(x, m, y);
      }
      assert IsFirst(if Less(x, m) then x else m, s);
    }
  }

  /** `begin()`; `None` is `end()`. */
  method Begin(s: set<string>) returns (r: Option<string>)
    ensures r.None? <==> s == {}
    ensures r.Some? ==> IsFirst(r.value, s)
  {
    if s == {} {
      return None;
    }
    FirstExists(s);
    var m :| m in s && forall y :: y in s && y != m ==> Less(m, y);
    return Some(m);
  }

  /** `++it`; `None` is `end()`. */
  method Advance(s: set<string>, k: string) returns (r: Option<string>)
    ensures r.None? ==> forall y :: y in s ==> !Less(k, y)
    ensures r.Some? ==> r.value in s && Less(k, r.value)
    ensures r.Some? ==> forall y :: y in s && Less(k, y) && y != r.value ==> Less(r.value, y)
  {
    var above := set y | y in s && Less(k, y);
    assert forall y :: y in s && Less(k, y) ==> y in above;
    r := Begin(above);
  }
}
