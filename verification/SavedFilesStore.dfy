/** The persisted form of the queue, and the agreement between the registered
    entries, the ordered map and the preference dictionary. */
module SavedFilesStore {
  import opened Wrappers
  import opened OrderedKeys
  import opened SavedFilesSpec

  /** A value of the preference dictionary; a key that is missing, or holds a
      value of the wrong type, reads as `None`. */
  datatype StoredEntry =
    | NotDictionary
    | Stored(path: Option<Path>, isDirectory: Option<bool>, number: Option<int>)

  type Dict = map<Id, StoredEntry>

  /** A SavedFileEntry as GetSavedFileEntries and GetAllFileEntries copy it out. */
  datatype SavedEntry = SavedEntry(id: Id, path: Path, isDirectory: bool, number: int)

  function StoredOf(info: FileInfo, number: int): StoredEntry {
    Stored(Some(info.path), Some(info.isDirectory), Some(number))
  }

  /** The entries that GetSavedFileEntries does not skip. */
  predicate Loadable(e: StoredEntry) {
    e.Stored? && e.path.Some? && e.number.Some? && e.number.value != 0
  }

  function InfoOf(e: StoredEntry): FileInfo
    requires Loadable(e)
  {
    FileInfo(e.path.value, e.isDirectory.Some? && e.isDirectory.value)
  }

  /** An entry is loaded if it is a dictionary with a path and a number other than 0; a
      directory flag that is missing reads as false. */
  lemma LoadableMeans(e: StoredEntry)
    ensures Loadable(e) <==>
            exists path, flag, number :: e == Stored(Some(path), flag, Some(number)) && number != 0
    ensures Loadable(e) ==>
              && e.path == Some(InfoOf(e).path)
              && (InfoOf(e).isDirectory <==> e.isDirectory == Some(true))
  {
    if Loadable(e) {
      assert e == Stored(Some(e.path.value), e.isDirectory, Some(e.number.value));
    }
  }

  /** The entry is loaded as this file with this number. */
  predicate Stores(e: StoredEntry, info: FileInfo, number: int) {
    Loadable(e) && InfoOf(e) == info && e.number == Some(number)
  }

  /** One extension's state as values: what is registered, the sequence numbers of
      the registered entries, the ids in the ordered map, and the dictionary. */
  datatype Snapshot = Snapshot(files: map<Id, FileInfo>, numbers: map<Id, int>, lru: map<int, Id>, dict: Dict)

  /** The class invariant. A registered file has a nonzero number exactly when the
      ordered map holds it under that number, and exactly when the dictionary holds
      it with that number, its path and its flag. */
  ghost predicate Linked(s: Snapshot) {
    && s.numbers.Keys == s.files.Keys
    && (forall k :: k in s.lru ==> 1 <= k && s.lru[k] in s.files && s.numbers[s.lru[k]] == k)
    && (forall id :: id in s.files && s.numbers[id] != 0 ==> s.numbers[id] in s.lru && s.lru[s.numbers[id]] == id)
    && (forall id :: id in s.dict <==> id in s.files && s.numbers[id] != 0)
    && (forall id :: id in s.dict ==> Stores(s.dict[id], s.files[id], s.numbers[id]))
  }

  lemma LinkedWellFormed(s: Snapshot)
    requires Linked(s)
    ensures WellFormed(LedgerOf(s.lru))
    ensures forall id :: id in s.files ==> (Has(LedgerOf(s.lru), id) <==> s.numbers[id] != 0)
  {
    var l := LedgerOf(s.lru);
    forall id | id in s.files && s.numbers[id] != 0 ensures Has(l, id) {
      assert HasNumber(l, s.numbers[id]);
      var i :| 0 <= i < |l| && l[i].number == s.numbers[id];
    }
  }

  /** What the service can be given: loadable entries with distinct positive numbers. */
  ghost predicate Storable(dict: Dict) {
    && (forall id :: id in dict ==> Loadable(dict[id]) && 1 <= dict[id].number.value)
    && (forall x, y :: x in dict && y in dict && x != y ==> dict[x].number != dict[y].number)
  }

  lemma LinkedStorable(s: Snapshot)
    requires Linked(s)
    ensures Storable(s.dict)
    ensures forall id :: id in s.dict ==> id in s.files && InfoOf(s.dict[id]) == s.files[id]
  {
  }

  /** Any two valid states over one dictionary retain the same queue. */
  lemma LinkedDetermined(s: Snapshot, s': Snapshot)
    requires Linked(s) && Linked(s') && s.dict == s'.dict
    ensures LedgerOf(s.lru) == LedgerOf(s'.lru)
  {
    LinkedIncluded(s, s');
    LinkedIncluded(s', s);
    ListsUnique(LedgerOf(s.lru), s'.lru);
  }

  lemma LinkedIncluded(s: Snapshot, s': Snapshot)
    requires Linked(s) && Linked(s') && s.dict == s'.dict
    ensures forall k :: k in s.lru ==> k in s'.lru && s.lru[k] == s'.lru[k]
  {
    forall k | k in s.lru ensures k in s'.lru && s.lru[k] == s'.lru[k] {
      assert s.lru[k] in s'.dict;
    }
  }

  // ----- The steps of EnqueueFileEntry and of the compaction loop -----

  lemma LinkedRegister(s: Snapshot, id: Id, info: FileInfo)
    requires Linked(s) && id !in s.files
    ensures Linked(s.(files := s.files[id := info], numbers := s.numbers[id := 0]))
  {
  }

  /** A retained file moves to a free number. */
  function Moved(s: Snapshot, id: Id, n: int): Snapshot
    requires id in s.files && id in s.numbers && id in s.dict && s.dict[id].Stored?
  {
    s.(numbers := s.numbers[id := n],
       lru := (s.lru - {s.numbers[id]})[n := id],
       dict := s.dict[id := s.dict[id].(number := Some(n))])
  }

  lemma LinkedMove(s: Snapshot, id: Id, n: int)
    requires Linked(s) && id in s.files && s.numbers[id] != 0
    requires 1 <= n && (n !in s.lru || n == s.numbers[id])
    ensures id in s.dict && s.dict[id].Stored?
    ensures Linked(Moved(s, id, n))
  {
    assert Stores(s.dict[id], s.files[id], s.numbers[id]);
    assert Stores(s.dict[id].(number := Some(n)), s.files[id], n);
    hide Stores;
  }

  /** A registered file that is not retained takes a free number. */
  function Added(s: Snapshot, id: Id, n: int): Snapshot
    requires id in s.files
  {
    s.(numbers := s.numbers[id := n], lru := s.lru[n := id], dict := s.dict[id := StoredOf(s.files[id], n)])
  }

  lemma LinkedAdd(s: Snapshot, id: Id, n: int)
    requires Linked(s) && id in s.files && s.numbers[id] == 0
    requires 1 <= n && n !in s.lru
    ensures Linked(Added(s, id, n))
    ensures id !in s.dict
  {
    assert Stores(StoredOf(s.files[id], n), s.files[id], n);
    hide Stores, StoredOf;
  }

  function Evicted(s: Snapshot, k: int): Snapshot
    requires k in s.lru
  {
    s.(numbers := s.numbers[s.lru[k] := 0], lru := s.lru - {k}, dict := s.dict - {s.lru[k]})
  }

  lemma LinkedEvict(s: Snapshot, k: int)
    requires Linked(s) && k in s.lru
    ensures Linked(Evicted(s, k))
  {
    hide Stores;
  }

  // ----- How the ordered map's ledger follows the map -----

  lemma ListsMove(l: Ledger, lru: map<int, Id>, i: nat)
    requires WellFormed(l) && Lists(l, lru) && i < |l|
    ensures Lists(Without(l, l[i].id) + [Slot(l[i].id, NextNumber(l))],
                  lru[NextNumber(l) := l[i].id] - {l[i].number})
  {
    WithoutAt(l, i);
    var rest, n := l[..i] + l[i + 1..], NextNumber(l);
    SpliceWellFormed(l, i, rest);
    ListsSplice(l, lru, i, rest);
    ListsAddAbove(rest, lru - {l[i].number}, Slot(l[i].id, n));
    InsertErase(lru, n, l[i].id, l[i].number);
  }

  lemma InsertErase(lru: map<int, Id>, inserted: int, id: Id, erased: int)
    requires inserted != erased
    ensures lru[inserted := id] - {erased} == (lru - {erased})[inserted := id]
  {
  }

  lemma ListsSplice(l: Ledger, lru: map<int, Id>, i: nat, r: Ledger)
    requires Lists(l, lru) && i < |l| && r == l[..i] + l[i + 1..]
    ensures Lists(r, lru - {l[i].number})
  {
    SpliceIncreasing(l, i, r);
    hide HasNumber;
    var lru' := lru - {l[i].number};
    forall j | 0 <= j < |r| ensures r[j].number in lru' && lru'[r[j].number] == r[j].id {
      var x := if j < i then j else j + 1;
      assert r[j] == l[x] && l[x].number in lru;
    }
    forall k | k in lru' ensures HasNumber(r, k) {
      assert HasNumber(l, k);
      SpliceHas(l, i, r, k);
    }
  }

  lemma SpliceIncreasing(l: Ledger, i: nat, r: Ledger)
    requires forall x, y :: 0 <= x < y < |l| ==> l[x].number < l[y].number
    requires i < |l| && r == l[..i] + l[i + 1..]
    ensures forall x, y :: 0 <= x < y < |r| ==> r[x].number < r[y].number
    ensures forall j :: 0 <= j < |r| ==> r[j].number != l[i].number
  {
    forall j | 0 <= j < |r| ensures r[j] == l[if j < i then j else j + 1] {
    }
  }

  lemma SpliceHas(l: Ledger, i: nat, r: Ledger, k: int)
    requires i < |l| && r == l[..i] + l[i + 1..] && HasNumber(l, k) && k != l[i].number
    ensures HasNumber(r, k)
  {
    var j :| 0 <= j < |l| && l[j].number == k;
    assert r[if j < i then j else j - 1] == l[j];
  }

  lemma ListsAddAbove(l: Ledger, lru: map<int, Id>, s: Slot)
    requires Lists(l, lru)
    requires forall i :: 0 <= i < |l| ==> l[i].number < s.number
    ensures Lists(l + [s], lru[s.number := s.id])
  {
    var l' := l + [s];
    forall k | k in lru || k == s.number ensures HasNumber(l', k) {
      if k == s.number {
        assert l'[|l|].number == k;
      } else {
        assert HasNumber(l, k);
        var j :| 0 <= j < |l| && l[j].number == k;
        assert l'[j].number == k;
      }
    }
  }

  lemma ListsAdd(l: Ledger, lru: map<int, Id>, id: Id)
    requires WellFormed(l) && Lists(l, lru)
    ensures NextNumber(l) !in lru
    ensures Lists(l + [Slot(id, NextNumber(l))], lru[NextNumber(l) := id])
  {
    BelowNext(l);
    assert HasNumber(l, NextNumber(l)) ==> false;
    ListsAddAbove(l, lru, Slot(id, NextNumber(l)));
  }

  lemma ListsEvict(l: Ledger, lru: map<int, Id>)
    requires Lists(l, lru) && l != []
    ensures Lists(l[1..], lru - {l[0].number})
  {
    ListsSplice(l, lru, 0, l[1..]);
  }

  /** The ledger when the compaction loop has renumbered the first `j` slots. */
  function Partial(l: Ledger, j: nat): (r: Ledger)
    ensures |r| == |l|
    ensures forall i :: 0 <= i < |l| ==> r[i] == if i < j then Slot(l[i].id, i + 1) else l[i]
  {
    seq(|l|, i requires 0 <= i < |l| => if i < j then Slot(l[i].id, i + 1) else l[i])
  }

  /** The numbers that are in the map after `j` rounds: 1 to j, and the others unchanged. */
  lemma PartialNumber(l: Ledger, j: nat, i: nat)
    requires WellFormed(l) && i < |l|
    ensures Partial(l, j)[i].number == if i < j then i + 1 else l[i].number
    ensures i >= j ==> Partial(l, j)[i].number > j
  {
    PositionBelowNumber(l, i);
  }

  /** One slot gets another number that keeps it in its place. */
  lemma ListsSet(p: Ledger, lru: map<int, Id>, i: nat, n: int, p': Ledger)
    requires Lists(p, lru) && i < |p| && p' == p[i := Slot(p[i].id, n)]
    requires forall x, y :: 0 <= x < y < |p'| ==> p'[x].number < p'[y].number
    ensures Lists(p', (lru - {p[i].number})[n := p[i].id])
  {
    var lru' := (lru - {p[i].number})[n := p[i].id];
    forall k | k in lru' ensures HasNumber(p', k) {
      if k == n {
        assert p'[i].number == k;
      } else {
        assert HasNumber(p, k);
        var x :| 0 <= x < |p| && p[x].number == k;
        assert p'[x].number == k;
      }
    }
    forall x | 0 <= x < |p'| ensures p'[x].number in lru' && lru'[p'[x].number] == p'[x].id {
      assert p'[i].number == n;
      assert x < i ==> p'[x].number < p'[i].number && p[x].number < p[i].number;
      assert x > i ==> p'[x].number > p'[i].number && p[x].number > p[i].number;
    }
  }

  /** In round j + 1 the new number is the entry's own or free. */
  lemma RenumberFree(l: Ledger, j: nat, lru: map<int, Id>)
    requires WellFormed(l) && j < |l| && Lists(Partial(l, j), lru)
    ensures l[j].number in lru && lru[l[j].number] == l[j].id
    ensures j + 1 <= l[j].number && (l[j].number == j + 1 || j + 1 !in lru)
  {
    var p := Partial(l, j);
    assert p[j] == l[j];
    PositionBelowNumber(l, j);
    if j + 1 in lru {
      assert HasNumber(p, j + 1);
      var i :| 0 <= i < |p| && p[i].number == j + 1;
      PartialNumber(l, j, i);
    }
  }

  /** Round j + 1 of the compaction loop gives the entry it stands on a number that is the
      entry's own or free, and keeps the map in order. */
  lemma {:induction false} ListsRenumber(l: Ledger, j: nat, lru: map<int, Id>)
    requires WellFormed(l) && j < |l| && Lists(Partial(l, j), lru)
    ensures j + 1 <= l[j].number && (l[j].number == j + 1 || j + 1 !in lru)
    ensures l[j].number in lru && lru[l[j].number] == l[j].id
    ensures Lists(Partial(l, j + 1), (lru - {l[j].number})[j + 1 := l[j].id])
  {
    RenumberFree(l, j, lru);
    var p, p' := Partial(l, j), Partial(l, j + 1);
    assert p' == p[j := Slot(p[j].id, j + 1)];
    forall x, y | 0 <= x < y < |p'| ensures p'[x].number < p'[y].number {
      PartialNumber(l, j + 1, x);
      PartialNumber(l, j + 1, y);
    }
    hide Lists, WellFormed;
    ListsSet(p, lru, j, j + 1, p');
  }

  // ----- What each step does to the queue -----

  lemma MoveStep(s: Snapshot, id: Id)
    requires Linked(s) && id in s.files && s.numbers[id] != 0
    ensures var l := LedgerOf(s.lru);
            var n := NextNumber(l);
            && id in s.numbers && n !in s.lru && s.numbers[id] in s.lru && Has(l, id)
            && id in s.dict && s.dict[id].Stored?
            && Linked(Moved(s, id, n))
            && LedgerOf(Moved(s, id, n).lru) == Without(l, id) + [Slot(id, n)]
            && Moved(s, id, n).lru == s.lru[n := id] - {s.numbers[id]}
  {
    var l := LedgerOf(s.lru);
    var n := NextNumber(l);
    LinkedWellFormed(s);
    ListsAdd(l, s.lru, id);
    LinkedMove(s, id, n);
    var i :| 0 <= i < |l| && l[i].id == id;
    ListsMove(l, s.lru, i);
    InsertErase(s.lru, n, id, s.numbers[id]);
    ListsUnique(Without(l, id) + [Slot(id, n)], Moved(s, id, n).lru);
  }

  lemma AddStep(s: Snapshot, id: Id)
    requires Linked(s) && id in s.files && s.numbers[id] == 0
    ensures var l := LedgerOf(s.lru);
            var n := NextNumber(l);
            && n !in s.lru && id !in s.dict && !Has(l, id)
            && Linked(Added(s, id, n))
            && LedgerOf(Added(s, id, n).lru) == Without(l, id) + [Slot(id, n)]
  {
    var l := LedgerOf(s.lru);
    var n := NextNumber(l);
    LinkedWellFormed(s);
    ListsAdd(l, s.lru, id);
    LinkedAdd(s, id, n);
    WithoutAbsent(l, id);
    ListsUnique(l + [Slot(id, n)], Added(s, id, n).lru);
  }

  lemma EvictStep(s: Snapshot)
    requires Linked(s) && LedgerOf(s.lru) != []
    ensures var l := LedgerOf(s.lru);
            && First(s.lru.Keys) == Some(l[0].number) && l[0].number in s.lru
            && s.lru[l[0].number] in s.files
            && Linked(Evicted(s, l[0].number))
            && LedgerOf(Evicted(s, l[0].number).lru) == l[1..]
  {
    var l := LedgerOf(s.lru);
    assert l[0].number in s.lru.Keys;
    assert HasNumber(l, First(s.lru.Keys).value);
    LinkedEvict(s, l[0].number);
    ListsEvict(l, s.lru);
    ListsUnique(l[1..], Evicted(s, l[0].number).lru);
  }

  /** The largest key is the number of the ledger's last slot. */
  lemma LastStep(s: Snapshot)
    requires Linked(s)
    ensures var l := LedgerOf(s.lru);
            && (l == [] <==> Last(s.lru.Keys).None?)
            && (l != [] ==> Last(s.lru.Keys) == Some(l[|l| - 1].number)
                            && l[|l| - 1].number in s.lru && s.lru[l[|l| - 1].number] == l[|l| - 1].id)
            && |l| == |s.lru| && WellFormed(l)
  {
    var l := LedgerOf(s.lru);
    LinkedWellFormed(s);
    ListsUnique(l, s.lru);
    if l != [] {
      assert l[0].number in s.lru.Keys;
      assert HasNumber(l, Last(s.lru.Keys).value);
    } else {
      assert forall k :: k in s.lru.Keys ==> HasNumber(l, k);
    }
  }

  /** One round of the compaction loop that finds the slot already numbered. */
  lemma SkipStep(s: Snapshot, l: Ledger, n: int)
    requires Linked(s) && 1 <= n <= |l| && l[n - 1].number in s.lru
    ensures s.numbers[s.lru[l[n - 1].number]] == l[n - 1].number
    ensures l[n - 1].number == n ==> Partial(l, n) == Partial(l, n - 1)
  {
  }

  /** One round of the compaction loop that has work to do. */
  lemma RenumberStep(s: Snapshot, l: Ledger, n: int)
    requires Linked(s) && WellFormed(l) && 1 <= n <= |l| && l[n - 1].number != n
    requires Lists(Partial(l, n - 1), s.lru)
    ensures var k, id := l[n - 1].number, l[n - 1].id;
            && k in s.lru && s.lru[k] == id && id in s.files && id in s.numbers && s.numbers[id] == k && n !in s.lru
            && id in s.dict && s.dict[id].Stored?
            && Linked(Moved(s, id, n))
            && Lists(Partial(l, n), Moved(s, id, n).lru)
  {
    hide Lists, WellFormed, Partial;
    ListsRenumber(l, n - 1, s.lru);
    LinkedMove(s, l[n - 1].id, n);
  }

  /** After `j` rounds the iterator's next stop is the first slot not yet visited. */
  lemma IteratorStep(l: Ledger, j: nat, lru: map<int, Id>)
    requires WellFormed(l) && j <= |l| && Lists(Partial(l, j), lru)
    ensures Next(lru.Keys, j) == if j < |l| then Some(l[j].number) else None
    ensures j < |l| ==> l[j].number in lru && lru[l[j].number] == l[j].id
    ensures j == 0 ==> First(lru.Keys) == Next(lru.Keys, 0)
  {
    if j < |l| {
      RenumberFree(l, j, lru);
    }
    forall k | k in lru.Keys ensures k >= 1 && (k <= j || (j < |l| && l[j].number <= k)) {
      KeyVisited(l, j, lru, k);
    }
    hide Lists, WellFormed;
    assert j < |l| ==> l[j].number in lru.Keys;
  }

  lemma KeyVisited(l: Ledger, j: nat, lru: map<int, Id>, k: int)
    requires WellFormed(l) && j <= |l| && Lists(Partial(l, j), lru) && k in lru
    ensures k >= 1 && (k <= j || (j < |l| && l[j].number <= k))
  {
    var p := Partial(l, j);
    assert HasNumber(p, k);
    var i :| 0 <= i < |p| && p[i].number == k;
    PartialNumber(l, j, i);
    PositionBelowNumber(l, i);
  }

  // ----- Loading -----

  ghost predicate HasEntry(entries: seq<SavedEntry>, id: Id) {
    exists i :: 0 <= i < |entries| && entries[i].id == id
  }

  ghost predicate DistinctEntries(entries: seq<SavedEntry>) {
    forall i, j :: 0 <= i < j < |entries| ==> entries[i].id != entries[j].id
  }

  /** The entries are copies of the loadable ones among `ids`, each once. */
  ghost predicate Copies(entries: seq<SavedEntry>, dict: Dict, ids: set<Id>) {
    && DistinctEntries(entries)
    && (forall i :: 0 <= i < |entries| ==>
          && entries[i].id in ids && entries[i].id in dict && Loadable(dict[entries[i].id])
          && var stored := dict[entries[i].id];
             entries[i] ==
             SavedEntry(entries[i].id, InfoOf(stored).path, InfoOf(stored).isDirectory, stored.number.value))
    && (forall id :: id in ids && id in dict && Loadable(dict[id]) ==> HasEntry(entries, id))
  }

  lemma CopiesSkip(entries: seq<SavedEntry>, dict: Dict, ids: set<Id>, id: Id)
    requires Copies(entries, dict, ids) && id !in ids && (id in dict ==> !Loadable(dict[id]))
    ensures Copies(entries, dict, ids + {id})
  {
  }

  lemma CopiesAdd(entries: seq<SavedEntry>, dict: Dict, ids: set<Id>, e: SavedEntry)
    requires Copies(entries, dict, ids) && e.id !in ids && e.id in dict && Loadable(dict[e.id])
    requires var stored := dict[e.id];
             e == SavedEntry(e.id, InfoOf(stored).path, InfoOf(stored).isDirectory, stored.number.value)
    ensures Copies(entries + [e], dict, ids + {e.id})
  {
    var entries' := entries + [e];
    forall id | HasEntry(entries, id) || id == e.id ensures HasEntry(entries', id) {
      if id == e.id {
        assert entries'[|entries|].id == id;
      } else {
        var i :| 0 <= i < |entries| && entries[i].id == id;
        assert entries'[i].id == id;
      }
    }
  }

  /** The state while LoadSavedFileEntriesFromPreferences has loaded `ids`. */
  ghost predicate PartlyLoaded(s: Snapshot, ids: set<Id>) {
    && s.files.Keys == ids == s.numbers.Keys
    && (forall id :: id in ids ==> id in s.dict && Loadable(s.dict[id]))
    && (forall id :: id in ids ==> s.files[id] == InfoOf(s.dict[id]) && s.numbers[id] == s.dict[id].number.value)
    && (forall id :: id in ids ==> s.numbers[id] in s.lru && s.lru[s.numbers[id]] == id)
    && (forall k :: k in s.lru ==> s.lru[k] in ids && s.numbers[s.lru[k]] == k)
  }

  /** Distinct stored numbers find their key free. */
  lemma LoadFree(s: Snapshot, ids: set<Id>, id: Id)
    requires PartlyLoaded(s, ids) && Storable(s.dict) && id in s.dict && id !in ids
    ensures Loadable(s.dict[id]) && s.dict[id].number.value !in s.lru
  {
  }

  lemma LoadStep(s: Snapshot, ids: set<Id>, e: SavedEntry)
    requires PartlyLoaded(s, ids) && e.id in s.dict && e.id !in ids && e.number !in s.lru
    requires Loadable(s.dict[e.id])
    requires FileInfo(e.path, e.isDirectory) == InfoOf(s.dict[e.id]) && e.number == s.dict[e.id].number.value
    ensures PartlyLoaded(s.(files := s.files[e.id := FileInfo(e.path, e.isDirectory)],
                            numbers := s.numbers[e.id := e.number],
                            lru := s.lru[e.number := e.id]), ids + {e.id})
  {
  }

  lemma FullyLoaded(s: Snapshot)
    requires PartlyLoaded(s, s.dict.Keys) && Storable(s.dict)
    ensures Linked(s)
  {
  }

  ghost function IdsOf(entries: seq<SavedEntry>): (ids: set<Id>) {
    set i | 0 <= i < |entries| :: entries[i].id
  }

  /** What the loading loop needs to know of the entries it is given. */
  lemma CopiesMeans(entries: seq<SavedEntry>, dict: Dict, i: nat)
    requires Copies(entries, dict, dict.Keys) && Storable(dict) && i < |entries|
    ensures var e := entries[i];
            && e.id in dict && Loadable(dict[e.id]) && FileInfo(e.path, e.isDirectory) == InfoOf(dict[e.id])
            && e.number == dict[e.id].number.value
            && e.id !in IdsOf(entries[..i]) && IdsOf(entries[..i + 1]) == IdsOf(entries[..i]) + {e.id}
  {
    var before, after := entries[..i], entries[..i + 1];
    assert after == before + [entries[i]];
    forall id | id in IdsOf(before) + {entries[i].id} ensures id in IdsOf(after) {
      if id in IdsOf(before) {
        var j :| 0 <= j < |before| && before[j].id == id;
        assert after[j].id == id;
      } else {
        assert after[i].id == id;
      }
    }
  }

  lemma CopiesAll(entries: seq<SavedEntry>, dict: Dict)
    requires Copies(entries, dict, dict.Keys) && Storable(dict)
    ensures IdsOf(entries) == dict.Keys
  {
    forall id | id in dict.Keys ensures id in IdsOf(entries) {
      assert HasEntry(entries, id);
      var i :| 0 <= i < |entries| && entries[i].id == id;
    }
  }

  // ----- The state a client sees -----

  /** The registered files of one extension and its queue. */
  datatype View = View(files: map<Id, FileInfo>, queue: Ledger)

  ghost function ViewOf(s: Snapshot): View {
    View(s.files, LedgerOf(s.lru))
  }

  /** The sequence number of a file, 0 if it is not in the queue. */
  ghost function NumberIn(l: Ledger, id: Id): int {
    if Has(l, id) then var i :| 0 <= i < |l| && l[i].id == id; l[i].number else 0
  }

  lemma NumberInView(s: Snapshot)
    requires Linked(s)
    ensures forall id :: id in s.files ==> s.numbers[id] == NumberIn(LedgerOf(s.lru), id)
  {
    LinkedWellFormed(s);
  }

  /** What is left of a view when only the retained files are kept. */
  ghost function Retained(v: View): View {
    View(map id | id in v.files && Has(v.queue, id) :: v.files[id], v.queue)
  }

  ghost predicate ReloadsTo(dict: Dict, v: View) {
    exists s :: Linked(s) && s.dict == dict && s.files.Keys == dict.Keys && ViewOf(s) == v
  }

  /** The view that loading a dictionary gives. */
  ghost function Reload(dict: Dict): (v: View)
    requires Storable(dict)
    ensures ReloadsTo(dict, v)
  {
    ReloadExists(dict);
    var v :| ReloadsTo(dict, v);
    v
  }

  lemma {:induction false} LoadsSome(s: Snapshot, ids: set<Id>) returns (s': Snapshot)
    requires Storable(s.dict) && ids <= s.dict.Keys && PartlyLoaded(s, s.dict.Keys - ids)
    ensures PartlyLoaded(s', s.dict.Keys) && s'.dict == s.dict
    decreases |ids|
  {
    hide Storable, PartlyLoaded;
    if ids == {} {
      assert s.dict.Keys - ids == s.dict.Keys;
      s' := s;
    } else {
      var id :| id in ids;
      LoadFree(s, s.dict.Keys - ids, id);
      var info := InfoOf(s.dict[id]);
      var e := SavedEntry(id, info.path, info.isDirectory, s.dict[id].number.value);
      LoadStep(s, s.dict.Keys - ids, e);
      assert s.dict.Keys - (ids - {id}) == s.dict.Keys - ids + {id};
      s' := LoadsSome(s.(files := s.files[id := info], numbers := s.numbers[id := e.number],
                         lru := s.lru[e.number := id]), ids - {id});
    }
  }

  lemma ReloadExists(dict: Dict)
    requires Storable(dict)
    ensures exists v :: ReloadsTo(dict, v)
  {
    var s0 := Snapshot(map[], map[], map[], dict);
    assert dict.Keys - dict.Keys == {};
    assert PartlyLoaded(s0, {});
    var s := LoadsSome(s0, dict.Keys);
    FullyLoaded(s);
    assert ReloadsTo(dict, ViewOf(s));
  }

  /** The persistence round trip: what the dictionary reloads to is the queue with
      the same numbers, paths and flags; the files that were registered but not
      retained are dropped, and nothing else. */
  lemma ReloadRetained(s: Snapshot)
    requires Linked(s)
    ensures Storable(s.dict) && Reload(s.dict) == Retained(ViewOf(s))
  {
    LinkedStorable(s);
    var v := Reload(s.dict);
    var s' :| Linked(s') && s'.dict == s.dict && s'.files.Keys == s.dict.Keys && ViewOf(s') == v;
    RetainedFiles(s, s');
    hide Linked, Storable;
    LinkedDetermined(s, s');
  }

  lemma RetainedFiles(s: Snapshot, s': Snapshot)
    requires Linked(s) && Linked(s') && s'.dict == s.dict && s'.files.Keys == s.dict.Keys
    ensures s'.files == Retained(ViewOf(s)).files
  {
    hide Lists, Has;
    LinkedWellFormed(s);
    var kept := Retained(ViewOf(s)).files;
    forall id ensures id in s'.files <==> id in kept {
      assert id in s'.files <==> id in s.dict;
    }
    forall id | id in kept ensures s'.files[id] == kept[id] {
      assert Stores(s.dict[id], s.files[id], s.numbers[id]) && Stores(s.dict[id], s'.files[id], s'.numbers[id]);
    }
  }

  /** A container that holds exactly what is stored shows what reloading gives. */
  lemma ReloadFresh(s: Snapshot)
    requires Linked(s) && s.files.Keys == s.dict.Keys
    ensures Storable(s.dict) && Reload(s.dict) == ViewOf(s)
  {
    ReloadRetained(s);
    RetainedFiles(s, s);
  }

  /** The entries are those of a view, each once, with their sequence numbers. */
  ghost predicate AllEntries(entries: seq<SavedEntry>, v: View) {
    && DistinctEntries(entries)
    && (forall i :: 0 <= i < |entries| ==>
          && entries[i].id in v.files
          && entries[i] == SavedEntry(entries[i].id, v.files[entries[i].id].path, v.files[entries[i].id].isDirectory,
                                      NumberIn(v.queue, entries[i].id)))
    && (forall id :: id in v.files ==> HasEntry(entries, id))
  }

  lemma EntryOf(s: Snapshot, id: Id)
    requires Linked(s) && id in s.dict
    ensures id in s.files && InfoOf(s.dict[id]) == s.files[id]
    ensures s.dict[id].number == Some(NumberIn(LedgerOf(s.lru), id))
  {
    NumberInView(s);
    hide NumberIn, Lists;
    assert Stores(s.dict[id], s.files[id], s.numbers[id]);
  }

  lemma CopiesShow(entries: seq<SavedEntry>, s: Snapshot)
    requires Linked(s) && Storable(s.dict) && s.files.Keys == s.dict.Keys && Copies(entries, s.dict, s.dict.Keys)
    ensures AllEntries(entries, ViewOf(s))
  {
    assert forall id :: id in s.files ==> id in s.dict.Keys && Loadable(s.dict[id]);
    hide Linked, Storable, NumberIn, HasEntry, LedgerOf, DistinctEntries;
    forall i | 0 <= i < |entries|
      ensures entries[i].id in s.files
      ensures entries[i] == SavedEntry(entries[i].id, s.files[entries[i].id].path, s.files[entries[i].id].isDirectory,
                                       NumberIn(LedgerOf(s.lru), entries[i].id))
    {
      EntryOf(s, entries[i].id);
    }
  }

  /** GetSavedFileEntries reads off the view that loading would give. */
  lemma CopiesAreEntries(entries: seq<SavedEntry>, dict: Dict)
    requires Storable(dict) && Copies(entries, dict, dict.Keys)
    ensures AllEntries(entries, Reload(dict))
  {
    var v := Reload(dict);
    var s :| Linked(s) && s.dict == dict && s.files.Keys == dict.Keys && ViewOf(s) == v;
    hide Linked, Storable, Copies, AllEntries;
    CopiesShow(entries, s);
  }
}
