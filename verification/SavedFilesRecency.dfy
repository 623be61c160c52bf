/** What the bounded list is for: it holds the files used most recently, and their numbers
    change only when they have to. */
module SavedFilesRecency {
  import opened SavedFilesSpec

  // ----- The most recent files -----

  /** When the file was last enqueued: in the first call, 1, and so on; 0 if never. */
  function LastUse(ids: seq<Id>, id: Id): nat {
    if ids == [] then 0
    else if ids[|ids| - 1] == id then |ids|
    else LastUse(ids[..|ids| - 1], id)
  }

  predicate Used(ids: seq<Id>, id: Id) {
    LastUse(ids, id) > 0
  }

  predicate Older(ids: seq<Id>, a: Id, b: Id) {
    LastUse(ids, a) < LastUse(ids, b)
  }

  ghost predicate Ascending(ids: seq<Id>, q: seq<Id>) {
    && (forall i :: 0 <= i < |q| ==> Used(ids, q[i]))
    && (forall i, j :: 0 <= i < j < |q| ==> Older(ids, q[i], q[j]))
  }

  /** A file that has been used and is not in the queue is older than all that are, and
      then the queue is full. */
  ghost predicate OthersOlder(ids: seq<Id>, q: seq<Id>, maxEntries: nat) {
    forall id :: Used(ids, id) && id !in q ==>
                   |q| == maxEntries && forall y :: y in q ==> Older(ids, id, y)
  }

  ghost predicate Recent(ids: seq<Id>, q: seq<Id>, maxEntries: nat) {
    |q| <= maxEntries && Ascending(ids, q) && OthersOlder(ids, q, maxEntries)
  }

  lemma LastUseGrows(ids: seq<Id>, x: Id)
    ensures LastUse(ids + [x], x) == |ids| + 1
    ensures forall id :: id != x ==> LastUse(ids + [x], id) == LastUse(ids, id)
    ensures forall id :: LastUse(ids, id) <= |ids|
  {
    assert (ids + [x])[..|ids|] == ids;
    forall id ensures LastUse(ids, id) <= |ids| {
      LastUseBound(ids, id);
    }
  }

  lemma {:induction false} LastUseBound(ids: seq<Id>, id: Id)
    ensures LastUse(ids, id) <= |ids|
  {
    if ids == [] {
    } else {
      LastUseBound(ids[..|ids| - 1], id);
    }
  }

  lemma {:induction false} DropAbsent(q: seq<Id>, x: Id)
    requires x !in q
    ensures Drop(q, x) == q
  {
    if q == [] {
    } else {
      DropAbsent(q[1..], x);
    }
  }

  lemma {:induction false} DropAt(q: seq<Id>, i: nat, r: seq<Id>)
    requires i < |q| && r == q[..i] + q[i + 1..] && forall j :: 0 <= j < |q| && j != i ==> q[j] != q[i]
    ensures Drop(q, q[i]) == r
  {
    if i == 0 {
      assert r == q[1..];
      DropAbsent(q[1..], q[0]);
    } else {
      assert q[0] != q[i] && q[1..][i - 1] == q[i];
      DropAt(q[1..], i - 1, r[1..]);
      assert r == [q[0]] + r[1..];
    }
  }

  lemma UseAges(ids: seq<Id>, x: Id)
    ensures forall id :: Used(ids + [x], id) <==> id == x || Used(ids, id)
    ensures forall a, b :: a != x && b != x ==> (Older(ids + [x], a, b) <==> Older(ids, a, b))
    ensures forall a :: a != x ==> Older(ids + [x], a, x)
  {
    LastUseGrows(ids, x);
    hide LastUse;
  }

  lemma DistinctUses(ids: seq<Id>, q: seq<Id>)
    requires Ascending(ids, q)
    ensures forall i, j :: 0 <= i < j < |q| ==> q[i] != q[j]
  {
    hide LastUse;
    assert forall a :: !Older(ids, a, a);
    hide Older;
  }

  lemma SpliceAscending(ids: seq<Id>, q: seq<Id>, i: nat, r: seq<Id>)
    requires Ascending(ids, q) && i < |q| && r == q[..i] + q[i + 1..]
    ensures Ascending(ids, r)
    ensures forall y :: y in r <==> y in q && y != q[i]
  {
    DistinctUses(ids, q);
    hide Used, Older;
    assert forall j :: 0 <= j < |r| ==> r[j] == q[if j < i then j else j + 1];
    forall y | y in q && y != q[i] ensures y in r {
      var k :| 0 <= k < |q| && q[k] == y;
      assert r[if k < i then k else k - 1] == y;
    }
  }

  /** The file that is used comes to the back of what is kept. */
  lemma AppendRecent(ids: seq<Id>, kept: seq<Id>, x: Id, maxEntries: nat)
    requires |kept| < maxEntries && Ascending(ids, kept) && x !in kept
    requires forall id :: Used(ids, id) && id !in kept && id != x ==>
               |kept| + 1 == maxEntries && forall y :: y in kept ==> Older(ids, id, y)
    ensures Recent(ids + [x], kept + [x], maxEntries)
  {
    UseAges(ids, x);
    hide Used, Older;
    assert forall j :: 0 <= j < |kept| ==> kept[j] in kept;
  }

  /** A file of the queue is used again. */
  lemma UsedAgain(ids: seq<Id>, q: seq<Id>, x: Id, maxEntries: nat, i: nat, r: seq<Id>)
    requires Recent(ids, q, maxEntries) && i < |q| && q[i] == x && r == q[..i] + q[i + 1..]
    ensures Recent(ids + [x], r + [x], maxEntries)
  {
    SpliceAscending(ids, q, i, r);
    hide Used, Older, Ascending;
    AppendRecent(ids, r, x, maxEntries);
  }

  /** A new file is used, and the oldest one leaves if there is no room. */
  lemma UsedNew(ids: seq<Id>, q: seq<Id>, x: Id, maxEntries: nat)
    requires Recent(ids, q, maxEntries) && x !in q
    ensures var longer := q + [x];
            Recent(ids + [x], if |longer| > maxEntries then longer[1..] else longer, maxEntries)
  {
    if |q| < maxEntries {
      AppendRecent(ids, q, x, maxEntries);
    } else if q == [] {
      assert (q + [x])[1..] == [];
    } else {
      SpliceAscending(ids, q, 0, q[1..]);
      OldestFirst(ids, q);
      assert (q + [x])[1..] == q[1..] + [x];
      hide Used, Older, Ascending;
      AppendRecent(ids, q[1..], x, maxEntries);
    }
  }

  lemma OldestFirst(ids: seq<Id>, q: seq<Id>)
    requires Ascending(ids, q) && q != []
    ensures forall y :: y in q[1..] ==> Older(ids, q[0], y)
  {
    hide Used, Older;
    assert forall j :: 0 <= j < |q[1..]| ==> q[1..][j] == q[j + 1];
  }

  lemma UseKeepsRecent(ids: seq<Id>, q: seq<Id>, x: Id, maxEntries: nat)
    requires Recent(ids, q, maxEntries)
    ensures Recent(ids + [x], EnqueueList(q, x, maxEntries), maxEntries)
  {
    if x in q {
      var i :| 0 <= i < |q| && q[i] == x;
      DistinctUses(ids, q);
      DropAt(q, i, q[..i] + q[i + 1..]);
      hide Recent, Drop;
      UsedAgain(ids, q, x, maxEntries, i, q[..i] + q[i + 1..]);
      assert i == |q| - 1 ==> q[..i] + q[i + 1..] + [x] == q;
    } else {
      hide Recent, Drop;
      UsedNew(ids, q, x, maxEntries);
    }
  }

  lemma {:induction false} RunRecent(ids: seq<Id>, maxEntries: nat)
    ensures Recent(ids, RunList([], ids, maxEntries), maxEntries)
  {
    if ids == [] {
    } else {
      var n := |ids| - 1;
      RunRecent(ids[..n], maxEntries);
      assert ids[..n] + [ids[n]] == ids;
      hide Recent, EnqueueList;
      UseKeepsRecent(ids[..n], RunList([], ids[..n], maxEntries), ids[n], maxEntries);
    }
  }

  /** The files used after this one was last used. */
  function Since(ids: seq<Id>, id: Id): set<Id> {
    set x | x in ids && LastUse(ids, x) > LastUse(ids, id)
  }

  lemma {:induction false} UsedIff(ids: seq<Id>, id: Id)
    ensures LastUse(ids, id) > 0 <==> id in ids
  {
    if ids == [] {
    } else {
      UsedIff(ids[..|ids| - 1], id);
      assert ids == ids[..|ids| - 1] + [ids[|ids| - 1]];
    }
  }

  lemma {:induction false} DistinctSize(q: seq<Id>)
    requires forall i, j :: 0 <= i < j < |q| ==> q[i] != q[j]
    ensures |(set x | x in q)| == |q|
  {
    if q == [] {
      assert (set x | x in q) == {};
    } else {
      DistinctSize(q[1..]);
      assert (set x | x in q) == {q[0]} + set x | x in q[1..];
    }
  }

  lemma {:induction false} Subset(a: set<Id>, b: set<Id>)
    requires a <= b
    ensures |a| <= |b|
  {
    if a == {} {
    } else {
      var x :| x in a;
      Subset(a - {x}, b - {x});
    }
  }

  /** After every run of enqueue calls on an empty queue, the files in it are exactly those
      after which fewer than maxEntries others have been used; the least recently used is
      at the front, and so on to the back. */
  lemma MostRecentlyUsed(ids: seq<Id>, limits: Limits)
    requires limits.Valid()
    ensures var q := Ids(Run([], ids, limits));
            && (forall id :: id in q <==> id in ids && |Since(ids, id)| < limits.maxEntries)
            && (forall i, j :: 0 <= i < j < |q| ==> LastUse(ids, q[i]) < LastUse(ids, q[j]))
  {
    RunRefinesList([], ids, limits);
    RunRecent(ids, limits.maxEntries);
    var q := RunList([], ids, limits.maxEntries);
    assert Ids([]) == [];
    hide Run, RunList, LastUse, OthersOlder;
    assert forall i, j :: 0 <= i < j < |q| ==> Older(ids, q[i], q[j]);
    forall id ensures id in q <==> id in ids && |Since(ids, id)| < limits.maxEntries {
      RecentIff(ids, q, limits.maxEntries, id);
    }
  }

  lemma RecentIff(ids: seq<Id>, q: seq<Id>, maxEntries: nat, id: Id)
    requires Recent(ids, q, maxEntries)
    ensures id in q <==> id in ids && |Since(ids, id)| < maxEntries
  {
    forall x ensures LastUse(ids, x) > 0 <==> x in ids {
      UsedIff(ids, x);
    }
    hide LastUse;
    if id in q {
      var i :| 0 <= i < |q| && q[i] == id;
      var later := q[i + 1..];
      assert forall j :: 0 <= j < |later| ==> later[j] == q[i + 1 + j];
      DistinctSize(later);
      forall x | x in Since(ids, id) ensures x in later {
        assert x in q;
        var k :| 0 <= k < |q| && q[k] == x;
        assert k > i;
        assert later[k - i - 1] == x;
      }
      Subset(Since(ids, id), (set x | x in later));
    } else if id in ids {
      DistinctSize(q);
      Subset((set x | x in q), Since(ids, id));
    }
  }

  // ----- The numbers -----

  /** The number after the last one. */
  function NumberAfter(l: Ledger): int {
    if l == [] then 1 else l[|l| - 1].number + 1
  }

  /** While the next number is below the maximum, the file gets it, and every other file
      that stays keeps its own. */
  lemma NumbersKept(l: Ledger, id: Id, limits: Limits)
    requires WellFormed(l) && (l != [] ==> l[|l| - 1].id != id) && NumberAfter(l) < limits.maxNumber
    ensures var r := Enqueue(l, id, limits);
            forall i :: 0 <= i < |r| ==> if r[i].id == id then r[i].number == NumberAfter(l) else r[i] in l
  {
    WithoutWellFormed(l, id);
    WithoutIn(l, id);
    var kept := Without(l, id);
    assert forall i :: 0 <= i < |kept| ==> kept[i] in kept;
    assert forall i :: 0 <= i < |kept| ==> kept[i].id != id;
    hide Without, WellFormed, Has;
  }

  /** When the next number reaches the maximum, all are numbered anew, from 1. */
  lemma NumbersRestart(l: Ledger, id: Id, limits: Limits)
    requires (l != [] ==> l[|l| - 1].id != id) && NumberAfter(l) >= limits.maxNumber
    ensures var r := Enqueue(l, id, limits);
            forall i :: 0 <= i < |r| ==> r[i].number == i + 1
  {
    var appended := Without(l, id) + [Slot(id, NextNumber(l))];
    assert appended[|appended| - 1].number == NumberAfter(l);
    hide Without, Has;
  }

  lemma {:induction false} WithoutIn(l: Ledger, id: Id)
    ensures forall s :: s in Without(l, id) ==> s in l && s.id != id
  {
    if l == [] {
    } else {
      WithoutIn(l[1..], id);
    }
  }
}
