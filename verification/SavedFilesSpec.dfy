/** The retained-files queue as values: the ledger of numbered slots that the
    ordered map holds, the plain bounded list it stands for, and the dictionary
    that persists it. */
module SavedFilesSpec {
  import opened OrderedKeys

  type Id = string
  type Path = string
  type ExtensionId = string

  datatype FileInfo = FileInfo(path: Path, isDirectory: bool)

  /** One position of the queue: the retained id and its sequence number. */
  datatype Slot = Slot(id: Id, number: int)

  type Ledger = seq<Slot>

  datatype Limits = Limits(maxEntries: nat, maxNumber: int) {
    /** What MaybeCompactSequenceNumbers demands of the two limits. */
    predicate Valid() { maxEntries <= maxNumber }
  }

  function Ids(l: Ledger): (ids: seq<Id>)
    ensures |ids| == |l| && forall i :: 0 <= i < |l| ==> ids[i] == l[i].id
  {
    seq(|l|, i requires 0 <= i < |l| => l[i].id)
  }

  predicate Has(l: Ledger, id: Id) {
    exists i :: 0 <= i < |l| && l[i].id == id
  }

  ghost predicate WellFormed(l: Ledger) {
    && (forall i, j :: 0 <= i < j < |l| ==> l[i].number < l[j].number)
    && (forall i :: 0 <= i < |l| ==> 1 <= l[i].number)
    && (forall i, j :: 0 <= i < j < |l| ==> l[i].id != l[j].id)
  }

  predicate HasNumber(l: Ledger, k: int) {
    exists i :: 0 <= i < |l| && l[i].number == k
  }

  ghost predicate Lists(l: Ledger, lru: map<int, Id>) {
    && (forall i, j :: 0 <= i < j < |l| ==> l[i].number < l[j].number)
    && (forall i :: 0 <= i < |l| ==> l[i].number in lru && lru[l[i].number] == l[i].id)
    && (forall k :: k in lru ==> HasNumber(l, k))
  }

  ghost function SlotsAt(lru: map<int, Id>, keys: seq<int>): (l: Ledger)
    requires forall i :: 0 <= i < |keys| ==> keys[i] in lru
    ensures |l| == |keys| && forall i :: 0 <= i < |l| ==> l[i] == Slot(lru[keys[i]], keys[i])
  {
    seq(|keys|, i requires 0 <= i < |keys| => Slot(lru[keys[i]], keys[i]))
  }

  lemma SlotsAtLists(lru: map<int, Id>, keys: seq<int>)
    requires Increasing(keys) && (forall i :: 0 <= i < |keys| ==> keys[i] in lru)
    requires forall k :: k in lru.Keys ==> k in keys
    ensures Lists(SlotsAt(lru, keys), lru)
  {
    var l := SlotsAt(lru, keys);
    forall k | k in lru ensures HasNumber(l, k) {
      assert k in lru.Keys;
      var i :| 0 <= i < |keys| && keys[i] == k;
      assert l[i].number == k;
    }
  }

  /** The ledger that an ordered map from sequence numbers to ids holds. */
  ghost function LedgerOf(lru: map<int, Id>): (l: Ledger)
    ensures Lists(l, lru)
  {
    SlotsAtLists(lru, Sorted(lru.Keys));
    var l :| Lists(l, lru);
    l
  }

  /** An ordered map lists exactly one ledger. */
  lemma ListsUnique(l: Ledger, lru: map<int, Id>)
    requires Lists(l, lru)
    ensures l == LedgerOf(lru) && |l| == |lru|
  {
    NumbersSorted(l, lru);
    NumbersSorted(LedgerOf(lru), lru);
    SameNumbers(l, LedgerOf(lru), lru);
  }

  lemma NumbersSorted(l: Ledger, lru: map<int, Id>)
    requires Lists(l, lru)
    ensures Numbers(l, lru) == Sorted(lru.Keys) && |l| == |lru|
  {
    SortedUnique(lru.Keys, Numbers(l, lru));
  }

  lemma SameNumbers(l: Ledger, l': Ledger, lru: map<int, Id>)
    requires Lists(l, lru) && Lists(l', lru) && Numbers(l, lru) == Numbers(l', lru)
    ensures l == l'
  {
    assert |l| == |Numbers(l, lru)| == |l'|;
    forall i | 0 <= i < |l| ensures l[i] == l'[i] {
      assert l[i].number == Numbers(l, lru)[i] == l'[i].number;
    }
  }

  ghost function Numbers(l: Ledger, lru: map<int, Id>): (r: seq<int>)
    requires Lists(l, lru)
    ensures |r| == |l| && forall i :: 0 <= i < |l| ==> r[i] == l[i].number
    ensures forall x :: x in r <==> x in lru.Keys
  {
    var r := seq(|l|, i requires 0 <= i < |l| => l[i].number);
    assert forall x :: x in lru.Keys ==> x in r by {
      forall x | x in lru.Keys ensures x in r {
        assert HasNumber(l, x);
        var i :| 0 <= i < |l| && l[i].number == x;
        assert r[i] == x;
      }
    }
    r
  }

  // ----- The operations on ledgers -----

  function Without(l: Ledger, id: Id): (r: Ledger) {
    if l == [] then []
    else if l[0].id == id then Without(l[1..], id)
    else [l[0]] + Without(l[1..], id)
  }

  function NextNumber(l: Ledger): int {
    if l == [] then 1 else l[|l| - 1].number + 1
  }

  function Renumber(l: Ledger): (r: Ledger) {
    seq(|l|, i requires 0 <= i < |l| => Slot(l[i].id, i + 1))
  }

  predicate MustCompact(l: Ledger, maxNumber: int) {
    l != [] && l[|l| - 1].number >= maxNumber
  }

  function Compact(l: Ledger, maxNumber: int): (r: Ledger) {
    if MustCompact(l, maxNumber) then Renumber(l) else l
  }

  /** The ledger after the file has been appended and, if the queue was full,
      its front has been dropped; numbers are not compacted yet. */
  function Append(l: Ledger, id: Id, maxEntries: nat): (r: Ledger) {
    var appended := Without(l, id) + [Slot(id, NextNumber(l))];
    if !Has(l, id) && |appended| > maxEntries then appended[1..] else appended
  }

  function Enqueue(l: Ledger, id: Id, limits: Limits): (r: Ledger) {
    if l != [] && l[|l| - 1].id == id then l
    else Compact(Append(l, id, limits.maxEntries), limits.maxNumber)
  }

  // ----- The plain bounded list -----

  function Drop(q: seq<Id>, id: Id): (r: seq<Id>) {
    if q == [] then []
    else if q[0] == id then Drop(q[1..], id)
    else [q[0]] + Drop(q[1..], id)
  }

  /** Already last: unchanged. Present: moved to the back. New: appended, and the
      front is dropped if the list is then over the limit. */
  function EnqueueList(q: seq<Id>, id: Id, maxEntries: nat): (r: seq<Id>) {
    if q != [] && q[|q| - 1] == id then q
    else if id in q then Drop(q, id) + [id]
    else
      var longer := q + [id];
      if |longer| > maxEntries then longer[1..] else longer
  }

  // ----- Facts about ledgers -----

  lemma {:induction false} WithoutAbsent(l: Ledger, id: Id)
    requires !Has(l, id)
    ensures Without(l, id) == l
  {
    if l == [] {
    } else {
      assert !Has(l[1..], id) by {
        assert forall i :: 0 <= i < |l[1..]| ==> l[1..][i] == l[i + 1];
      }
      WithoutAbsent(l[1..], id);
    }
  }

  ghost predicate DistinctIds(l: Ledger) {
    forall i, j :: 0 <= i < j < |l| ==> l[i].id != l[j].id
  }

  lemma {:induction false} WithoutAt(l: Ledger, i: nat)
    requires i < |l| && DistinctIds(l)
    ensures Without(l, l[i].id) == l[..i] + l[i + 1..]
  {
    var rest := l[1..];
    if i == 0 {
      WithoutAbsent(rest, l[0].id);
    } else {
      assert rest[i - 1] == l[i];
      WithoutAt(rest, i - 1);
      assert [l[0]] + (rest[..i - 1] + rest[i..]) == l[..i] + l[i + 1..];
    }
  }

  lemma {:induction false} IdsWithout(l: Ledger, id: Id)
    ensures Ids(Without(l, id)) == Drop(Ids(l), id)
  {
    if l == [] {
    } else {
      assert Ids(l)[1..] == Ids(l[1..]);
      IdsWithout(l[1..], id);
      assert l[0].id != id ==> Ids(Without(l, id)) == [l[0].id] + Ids(Without(l[1..], id));
    }
  }

  /** Every number of a well-formed ledger is below the next one to be given out. */
  lemma BelowNext(l: Ledger)
    requires WellFormed(l)
    ensures forall i :: 0 <= i < |l| ==> l[i].number < NextNumber(l)
    ensures forall i :: 0 <= i < |l| ==> i + 1 <= l[i].number
  {
    if l != [] {
      PositionBelowNumber(l, |l| - 1);
      forall i | 0 <= i < |l| ensures i + 1 <= l[i].number { PositionBelowNumber(l, i); }
    }
  }

  lemma {:induction false} PositionBelowNumber(l: Ledger, i: nat)
    requires WellFormed(l) && i < |l|
    ensures i + 1 <= l[i].number
  {
    if i == 0 {
    } else {
      PositionBelowNumber(l, i - 1);
    }
  }

  /** Taking one slot out keeps the order and loses that id. */
  lemma SpliceWellFormed(l: Ledger, i: nat, r: Ledger)
    requires WellFormed(l) && i < |l| && r == l[..i] + l[i + 1..]
    ensures WellFormed(r)
    ensures !Has(r, l[i].id)
    ensures forall j :: 0 <= j < |r| ==> r[j].number < NextNumber(l)
  {
    BelowNext(l);
    forall x, y | 0 <= x < y < |r| ensures r[x].number < r[y].number && r[x].id != r[y].id {
      assert r[x] == l[if x < i then x else x + 1] && r[y] == l[if y < i then y else y + 1];
    }
    forall x | 0 <= x < |r|
      ensures 1 <= r[x].number < NextNumber(l) && r[x].id != l[i].id
    {
      assert r[x] == l[if x < i then x else x + 1];
    }
    hide NextNumber;
  }

  lemma WithoutWellFormed(l: Ledger, id: Id)
    requires WellFormed(l)
    ensures WellFormed(Without(l, id)) && !Has(Without(l, id), id)
    ensures |Without(l, id)| == if Has(l, id) then |l| - 1 else |l|
    ensures forall i :: 0 <= i < |Without(l, id)| ==> Without(l, id)[i].number < NextNumber(l)
  {
    if Has(l, id) {
      var i :| 0 <= i < |l| && l[i].id == id;
      WithoutAt(l, i);
      SpliceWellFormed(l, i, Without(l, id));
    } else {
      WithoutAbsent(l, id);
    }
  }

  lemma AppendWellFormed(l: Ledger, id: Id, maxEntries: nat)
    requires WellFormed(l)
    ensures WellFormed(Append(l, id, maxEntries))
  {
    var kept := Without(l, id);
    WithoutWellFormed(l, id);
    BelowNext(l);
    var appended := kept + [Slot(id, NextNumber(l))];
    assert WellFormed(appended);
    assert WellFormed(appended[1..]);
  }

  lemma EnqueueWellFormed(l: Ledger, id: Id, limits: Limits)
    requires WellFormed(l)
    ensures WellFormed(Enqueue(l, id, limits))
  {
    AppendWellFormed(l, id, limits.maxEntries);
  }

  lemma HasIffInIds(l: Ledger, id: Id)
    ensures Has(l, id) <==> id in Ids(l)
  {
    if Has(l, id) {
      var i :| 0 <= i < |l| && l[i].id == id;
      assert Ids(l)[i] == id;
    }
  }

  lemma AppendRefinesList(l: Ledger, id: Id, maxEntries: nat)
    requires l == [] || l[|l| - 1].id != id
    ensures Ids(Append(l, id, maxEntries)) == EnqueueList(Ids(l), id, maxEntries)
  {
    HasIffInIds(l, id);
    IdsWithout(l, id);
    if !Has(l, id) {
      WithoutAbsent(l, id);
    }
    hide Has, Without, Drop;
    var appended := Without(l, id) + [Slot(id, NextNumber(l))];
    assert Ids(appended) == Drop(Ids(l), id) + [id];
    assert Ids(appended[1..]) == Ids(appended)[1..];
  }

  /** The ordered map, read in key order, is the plain bounded list: renumbering
      and compaction cannot be seen in it. */
  lemma EnqueueRefinesList(l: Ledger, id: Id, limits: Limits)
    ensures Ids(Enqueue(l, id, limits)) == EnqueueList(Ids(l), id, limits.maxEntries)
  {
    if l != [] && l[|l| - 1].id == id {
    } else {
      AppendRefinesList(l, id, limits.maxEntries);
      var kept := Append(l, id, limits.maxEntries);
      assert Ids(Renumber(kept)) == Ids(kept);
    }
  }

  // ----- The bound on sequence numbers -----

  /** The number that enqueueing computes, and stores in a 32-bit int, before any
      compaction. */
  function Transient(l: Ledger, id: Id): int {
    if l != [] && l[|l| - 1].id == id then l[|l| - 1].number else NextNumber(l)
  }

  function HighWater(limits: Limits): int {
    if limits.maxEntries < limits.maxNumber then limits.maxNumber - 1 else limits.maxEntries
  }

  /** A queue that respects both limits. */
  ghost predicate Fits(l: Ledger, limits: Limits) {
    && WellFormed(l)
    && |l| <= limits.maxEntries
    && forall i :: 0 <= i < |l| ==> l[i].number <= HighWater(limits)
  }

  lemma CompactFits(kept: Ledger, limits: Limits)
    requires limits.Valid() && WellFormed(kept) && |kept| <= limits.maxEntries
    ensures var r := Compact(kept, limits.maxNumber);
            |r| == |kept| && forall i :: 0 <= i < |r| ==> r[i].number <= HighWater(limits)
  {
    if !MustCompact(kept, limits.maxNumber) {
      forall i | 0 <= i < |kept| ensures kept[i].number <= kept[|kept| - 1].number {
      }
    }
  }

  lemma EnqueueFits(l: Ledger, id: Id, limits: Limits)
    requires limits.Valid() && Fits(l, limits)
    ensures Fits(Enqueue(l, id, limits), limits)
    ensures Transient(l, id) <= HighWater(limits) + 1
  {
    EnqueueWellFormed(l, id, limits);
    if l != [] && l[|l| - 1].id == id {
    } else {
      AppendShorter(l, id, limits.maxEntries);
      AppendWellFormed(l, id, limits.maxEntries);
      hide WellFormed, Append, Compact;
      CompactFits(Append(l, id, limits.maxEntries), limits);
    }
  }

  lemma AppendShorter(l: Ledger, id: Id, maxEntries: nat)
    requires |l| <= maxEntries && WellFormed(l)
    ensures |Append(l, id, maxEntries)| <= maxEntries
  {
    WithoutWellFormed(l, id);
  }

  /** A whole run of enqueue calls. */
  function Run(l: Ledger, ids: seq<Id>, limits: Limits): (r: Ledger) {
    if ids == [] then l
    else Enqueue(Run(l, ids[..|ids| - 1], limits), ids[|ids| - 1], limits)
  }

  function RunList(q: seq<Id>, ids: seq<Id>, maxEntries: nat): (r: seq<Id>) {
    if ids == [] then q
    else EnqueueList(RunList(q, ids[..|ids| - 1], maxEntries), ids[|ids| - 1], maxEntries)
  }

  /** For every run: the queue respects the limits and is the bounded list. */
  lemma {:induction false} RunRefinesList(l: Ledger, ids: seq<Id>, limits: Limits)
    requires limits.Valid() && Fits(l, limits)
    ensures Fits(Run(l, ids, limits), limits)
    ensures Ids(Run(l, ids, limits)) == RunList(Ids(l), ids, limits.maxEntries)
  {
    if ids == [] {
    } else {
      var before := Run(l, ids[..|ids| - 1], limits);
      RunRefinesList(l, ids[..|ids| - 1], limits);
      EnqueueFits(before, ids[|ids| - 1], limits);
      EnqueueRefinesList(before, ids[|ids| - 1], limits);
    }
  }

  ghost predicate NeverExceeds(limits: Limits) {
    forall ids: seq<Id>, id: Id :: Transient(Run([], ids, limits), id) <= limits.maxNumber
  }

  /** No run makes the service compute a number above maxNumber, exactly when the
      entry limit is strictly below it. */
  lemma NeverExceedsIff(limits: Limits)
    requires limits.Valid()
    ensures NeverExceeds(limits) <==> limits.maxEntries < limits.maxNumber
  {
    if limits.maxEntries < limits.maxNumber {
      forall ids: seq<Id>, id: Id ensures Transient(Run([], ids, limits), id) <= limits.maxNumber {
        RunRefinesList([], ids, limits);
        EnqueueFits(Run([], ids, limits), id, limits);
      }
    } else {
      var ids := Tally(limits.maxEntries);
      FillRun(ids, limits);
      var id := seq(limits.maxEntries, _ => 'a');
      assert Transient(Run([], ids, limits), id) == limits.maxNumber + 1;
    }
  }

  /** The distinct ids "", "a", "aa", ... */
  function Tally(n: nat): (ids: seq<Id>)
    ensures |ids| == n && forall i :: 0 <= i < n ==> |ids[i]| == i
  {
    seq(n, i requires 0 <= i => seq(i, _ => 'a'))
  }

  lemma TallyGrows(n: nat)
    ensures Tally(n + 1) == Tally(n) + [Tally(n + 1)[n]] && Tally(n + 1)[n] !in Tally(n)
  {
    var more, ids := Tally(n + 1), Tally(n);
    forall i | 0 <= i < n ensures more[i] == ids[i] {
      assert more[i] == seq(i, _ => 'a') && ids[i] == seq(i, _ => 'a');
    }
  }

  function Numbered(ids: seq<Id>): (l: Ledger)
    ensures |l| == |ids| && forall i :: 0 <= i < |ids| ==> l[i] == Slot(ids[i], i + 1)
  {
    seq(|ids|, i requires 0 <= i < |ids| => Slot(ids[i], i + 1))
  }

  lemma EnqueueNumbered(ids: seq<Id>, id: Id, limits: Limits)
    requires |ids| < limits.maxEntries
    requires id !in ids
    ensures Enqueue(Numbered(ids), id, limits) == Numbered(ids + [id])
  {
    var l := Numbered(ids);
    WithoutAbsent(l, id);
    var appended := l + [Slot(id, NextNumber(l))];
    assert appended == Numbered(ids + [id]);
    assert Renumber(appended) == appended;
  }

  /** Enqueueing distinct ids into an empty queue that can hold them numbers them 1, 2, ... */
  lemma {:induction false} FillRun(ids: seq<Id>, limits: Limits)
    requires |ids| <= limits.maxEntries
    requires forall i, j :: 0 <= i < j < |ids| ==> ids[i] != ids[j]
    ensures Run([], ids, limits) == Numbered(ids)
  {
    if ids == [] {
    } else {
      var front, id := ids[..|ids| - 1], ids[|ids| - 1];
      FillRun(front, limits);
      EnqueueNumbered(front, id, limits);
      assert ids == front + [id];
    }
  }
}
