/** The per-extension container of registered and retained files, updated in place. */
module SavedFiles {
  import opened Wrappers
  import opened OrderedKeys
  import opened SavedFilesSpec
  import opened SavedFilesStore

  class SavedFileEntry {
    const id: Id
    const path: Path
    const isDirectory: bool
    /** 0 means the entry is not in the queue. */
    var sequenceNumber: int

    constructor (id: Id, path: Path, isDirectory: bool, sequenceNumber: int)
      ensures this.id == id && this.path == path && this.isDirectory == isDirectory
      ensures this.sequenceNumber == sequenceNumber
    {
      this.id, this.path, this.isDirectory := id, path, isDirectory;
      this.sequenceNumber := sequenceNumber;
    }
  }

  /** The "file_entries" preference of every extension. */
  class ExtensionPrefs {
    var fileEntries: map<ExtensionId, Dict>

    function Entries(extensionId: ExtensionId): Dict
      reads this
    {
      if extensionId in fileEntries then fileEntries[extensionId] else map[]
    }

    method AddSavedFileEntry(extensionId: ExtensionId, entry: SavedFileEntry)
      requires entry.id in Entries(extensionId) ==> Entries(extensionId)[entry.id].NotDictionary?
      modifies this
      ensures fileEntries == old(fileEntries)[extensionId := old(Entries(extensionId))[entry.id :=
                               StoredOf(FileInfo(entry.path, entry.isDirectory), entry.sequenceNumber)]]
    {
      var entries := Entries(extensionId);
      var stored := Stored(Some(entry.path), Some(entry.isDirectory), Some(entry.sequenceNumber));
      fileEntries := fileEntries[extensionId := entries[entry.id := stored]];
    }

    method UpdateSavedFileEntry(extensionId: ExtensionId, entry: SavedFileEntry)
      requires extensionId in fileEntries
      requires entry.id in fileEntries[extensionId] && fileEntries[extensionId][entry.id].Stored?
      modifies this
      ensures fileEntries == old(fileEntries)[extensionId := old(Entries(extensionId))[entry.id :=
                               old(Entries(extensionId))[entry.id].(number := Some(entry.sequenceNumber))]]
    {
      var entries := fileEntries[extensionId];
      var stored := entries[entry.id].(number := Some(entry.sequenceNumber));
      fileEntries := fileEntries[extensionId := entries[entry.id := stored]];
    }

    method RemoveSavedFileEntry(extensionId: ExtensionId, id: Id)
      modifies this
      ensures fileEntries == old(fileEntries)[extensionId := old(Entries(extensionId)) - {id}]
    {
      fileEntries := fileEntries[extensionId := Entries(extensionId) - {id}];
    }

    method ClearSavedFileEntries(extensionId: ExtensionId)
      modifies this
      ensures fileEntries == old(fileEntries) - {extensionId}
    {
      fileEntries := fileEntries - {extensionId};
    }

    method GetSavedFileEntries(extensionId: ExtensionId) returns (result: seq<SavedEntry>)
      ensures Copies(result, Entries(extensionId), Entries(extensionId).Keys)
    {
      hide Copies;
      result := [];
      var entries := Entries(extensionId);
      var ids := entries.Keys;
      NoCopies(entries);
      while ids != {}
        invariant ids <= entries.Keys
        invariant Copies(result, entries, entries.Keys - ids)
      {
        var id :| id in ids;
        ghost var done := entries.Keys - ids;
        ids := ids - {id};
        assert entries.Keys - ids == done + {id};
        if entries[id].NotDictionary? || entries[id].path.None? {
          CopiesSkip(result, entries, done, id);
          continue;
        }
        var isDirectory := false;
        if entries[id].isDirectory.Some? {
          isDirectory := entries[id].isDirectory.value;
        }
        var sequenceNumber := 0;
        if entries[id].number.Some? {
          sequenceNumber := entries[id].number.value;
        }
        if sequenceNumber == 0 {
          CopiesSkip(result, entries, done, id);
          continue;
        }
        CopiesAdd(result, entries, done, SavedEntry(id, entries[id].path.value, isDirectory, sequenceNumber));
        result := result + [SavedEntry(id, entries[id].path.value, isDirectory, sequenceNumber)];
      }
      assert entries.Keys - ids == entries.Keys;
    }
  }

  /** Preferences that agree away from one extension agree on every other. */
  lemma OtherEntries(before: map<ExtensionId, Dict>, after: map<ExtensionId, Dict>, e: ExtensionId, x: ExtensionId)
    requires after - {e} == before - {e} && x != e
    ensures x in after <==> x in before
    ensures x in after ==> after[x] == before[x]
  {
    assert x in after <==> x in after - {e};
    assert x in before <==> x in before - {e};
    if x in after {
      assert (after - {e})[x] == after[x];
    }
  }

  class SavedFiles {
    const prefs: ExtensionPrefs
    const extensionId: ExtensionId
    var registered: map<Id, SavedFileEntry>
    var lru: map<int, SavedFileEntry>

    /** The state as values. */
    ghost var state: Snapshot

    constructor (prefs: ExtensionPrefs, extensionId: ExtensionId)
      requires Storable(prefs.Entries(extensionId))
      ensures this.prefs == prefs && this.extensionId == extensionId
      ensures Valid() && fresh(registered.Values)
      ensures state.files.Keys == prefs.Entries(extensionId).Keys
    {
      this.prefs, this.extensionId := prefs, extensionId;
      registered, lru := map[], map[];
      state := Snapshot(map[], map[], map[], prefs.Entries(extensionId));
      new;
      LoadSavedFileEntriesFromPreferences();
    }

    method LoadSavedFileEntriesFromPreferences()
      requires Concrete() && Storable(state.dict) && state == Snapshot(map[], map[], map[], state.dict)
      modifies this`registered, this`lru, this`state
      ensures Valid() && fresh(registered.Values - old(registered.Values))
      ensures state.files.Keys == state.dict.Keys && state.dict == old(state.dict)
    {
      hide Storable, PartlyLoaded, Copies;
      var saved := prefs.GetSavedFileEntries(extensionId);
      ghost var dict := state.dict;
      NothingLoaded(state);
      assert saved[..0] == [];
      for i := 0 to |saved|
        invariant Concrete() && state.dict == dict
        invariant PartlyLoaded(state, IdsOf(saved[..i]))
        invariant state.files.Keys == IdsOf(saved[..i])
        invariant fresh(registered.Values - old(registered.Values))
      {
        LoadEntry(saved, i);
      }
      assert saved[..|saved|] == saved;
      CopiesAll(saved, dict);
      FullyLoaded(state);
    }

    method LoadEntry(saved: seq<SavedEntry>, i: nat)
      requires i < |saved| && Concrete() && Storable(state.dict)
      requires Copies(saved, state.dict, state.dict.Keys)
      requires PartlyLoaded(state, IdsOf(saved[..i])) && state.files.Keys == IdsOf(saved[..i])
      modifies this`registered, this`lru, this`state
      ensures Concrete() && state.dict == old(state.dict)
      ensures PartlyLoaded(state, IdsOf(saved[..i + 1])) && state.files.Keys == IdsOf(saved[..i + 1])
      ensures fresh(registered.Values - old(registered.Values))
    {
      hide Storable, PartlyLoaded, Copies, Local;
      assert saved[i].id in registered ==> saved[i].id in state.files.Keys by { RegisteredIds(); }
      CopiesMeans(saved, state.dict, i);
      LoadFree(state, IdsOf(saved[..i]), saved[i].id);
      LoadStep(state, IdsOf(saved[..i]), saved[i]);
      var entry := new SavedFileEntry(saved[i].id, saved[i].path, saved[i].isDirectory, saved[i].number);
      AddRegistered(entry);
      InsertInLru(saved[i].number, entry);
    }

    /** `state` is what the fields hold: every entry is registered under its own id,
        and the ordered map shares the registered entries. */
    ghost predicate Local()
      reads this, registered.Values
    {
      && registered.Keys == state.files.Keys == state.numbers.Keys
      && (forall id :: id in registered ==>
            && registered[id].id == id
            && state.files[id] == FileInfo(registered[id].path, registered[id].isDirectory)
            && state.numbers[id] == registered[id].sequenceNumber)
      && lru.Keys == state.lru.Keys
      && (forall k :: k in lru ==>
            lru[k].id == state.lru[k] && state.lru[k] in registered && registered[state.lru[k]] == lru[k])
    }

    ghost predicate Concrete()
      reads this, prefs, registered.Values
    {
      Local() && state.dict == prefs.Entries(extensionId)
    }

    ghost predicate Valid()
      reads this, prefs, registered.Values
    {
      Concrete() && Linked(state)
    }

    ghost function Queue(): Ledger
      reads this
    {
      LedgerOf(state.lru)
    }

    /** The rest of the preferences is left alone. */
    twostate predicate OthersKept()
      reads this, prefs
    {
      prefs.fileEntries - {extensionId} == old(prefs.fileEntries) - {extensionId}
    }

    /** Only a change to the container, its entries or its dictionary can matter. */
    twostate lemma StillValid()
      requires old(Valid()) && unchanged(this) && unchanged(registered.Values)
      requires prefs.Entries(extensionId) == old(prefs.Entries(extensionId))
      ensures Valid()
    {
    }

    lemma RegisteredIds()
      requires Local()
      ensures registered.Keys == state.files.Keys
    {
    }

    /** This is the entry registered under its id. */
    ghost predicate Holds(entry: SavedFileEntry)
      reads this
    {
      entry.id in registered && registered[entry.id] == entry
    }

    // ----- Reading the containers -----

    method Find(id: Id) returns (entry: SavedFileEntry)
      requires Concrete() && id in registered
      ensures Holds(entry) && entry in registered.Values && entry.id == id && id in state.files
      ensures entry.path == state.files[id].path && entry.isDirectory == state.files[id].isDirectory
      ensures entry.sequenceNumber == state.numbers[id]
    {
      entry := registered[id];
    }

    /** `it->second`. */
    method At(k: int) returns (entry: SavedFileEntry)
      requires Concrete() && k in state.lru
      ensures Holds(entry) && entry in registered.Values && entry.id == state.lru[k] && entry.id in state.files
      ensures entry.sequenceNumber == state.numbers[entry.id]
    {
      entry := lru[k];
    }

    method Begin() returns (it: Option<int>)
      requires Concrete()
      ensures it == First(state.lru.Keys)
    {
      it := First(lru.Keys);
    }

    method Advance(k: int) returns (it: Option<int>)
      requires Concrete()
      ensures it == Next(state.lru.Keys, k)
    {
      it := Next(lru.Keys, k);
    }

    method RBegin() returns (it: Option<int>)
      requires Concrete()
      ensures it == Last(state.lru.Keys)
    {
      it := Last(lru.Keys);
    }

    method Size() returns (n: nat)
      requires Concrete()
      ensures n == |state.lru|
    {
      n := |lru|;
    }

    // ----- The elementary updates -----

    method SetNumber(entry: SavedFileEntry, n: int)
      requires Concrete() && Holds(entry)
      modifies entry, this`state
      ensures Concrete() && Holds(entry) && entry.sequenceNumber == n
      ensures state == old(state).(numbers := old(state).numbers[entry.id := n])
    {
      entry.sequenceNumber := n;
      state := state.(numbers := state.numbers[entry.id := n]);
    }

    method InsertInLru(n: int, entry: SavedFileEntry)
      requires Concrete() && Holds(entry)
      modifies this`lru, this`state
      ensures Concrete()
      ensures state == old(state).(lru := Insert(old(state).lru, n, entry.id))
    {
      lru := Insert(lru, n, entry);
      state := state.(lru := Insert(state.lru, n, entry.id));
    }

    method EraseFromLru(k: int)
      requires Concrete()
      modifies this`lru, this`state
      ensures Concrete()
      ensures state == old(state).(lru := old(state).lru - {k})
    {
      lru := lru - {k};
      state := state.(lru := state.lru - {k});
    }

    method AddRegistered(entry: SavedFileEntry)
      requires Concrete() && entry.id !in registered
      modifies this`registered, this`state
      ensures Concrete() && registered == old(registered)[entry.id := entry] && Holds(entry)
      ensures state == old(state).(files := old(state).files[entry.id := FileInfo(entry.path, entry.isDirectory)],
                                   numbers := old(state).numbers[entry.id := entry.sequenceNumber])
    {
      registered := registered[entry.id := entry];
      state := state.(files := state.files[entry.id := FileInfo(entry.path, entry.isDirectory)],
                      numbers := state.numbers[entry.id := entry.sequenceNumber]);
    }

    method AddToPrefs(entry: SavedFileEntry)
      requires Concrete() && entry.id !in state.dict
      modifies prefs, this`state
      ensures Concrete() && OthersKept()
      ensures state == old(state).(dict := old(state).dict[entry.id :=
                         StoredOf(FileInfo(entry.path, entry.isDirectory), entry.sequenceNumber)])
    {
      prefs.AddSavedFileEntry(extensionId, entry);
      state := state.(dict := prefs.Entries(extensionId));
    }

    method UpdateInPrefs(entry: SavedFileEntry)
      requires Concrete() && entry.id in state.dict && state.dict[entry.id].Stored?
      modifies prefs, this`state
      ensures Concrete() && OthersKept()
      ensures state == old(state).(dict := old(state).dict[entry.id :=
                         old(state).dict[entry.id].(number := Some(entry.sequenceNumber))])
    {
      prefs.UpdateSavedFileEntry(extensionId, entry);
      state := state.(dict := prefs.Entries(extensionId));
    }

    method RemoveFromPrefs(id: Id)
      requires Concrete()
      modifies prefs, this`state
      ensures Concrete() && OthersKept()
      ensures state == old(state).(dict := old(state).dict - {id})
    {
      prefs.RemoveSavedFileEntry(extensionId, id);
      state := state.(dict := prefs.Entries(extensionId));
    }

    // ----- The operations -----

    method RegisterFileEntry(id: Id, path: Path, isDirectory: bool)
      requires Valid()
      modifies this`registered, this`state
      ensures Valid()
      ensures state == if id in old(state).files then old(state) else
                old(state).(files := old(state).files[id := FileInfo(path, isDirectory)],
                            numbers := old(state).numbers[id := 0])
      ensures fresh(registered.Values - old(registered.Values))
    {
      hide Linked;
      if id in registered {
        return;
      }
      var entry := new SavedFileEntry(id, path, isDirectory, 0);
      LinkedRegister(state, id, FileInfo(path, isDirectory));
      AddRegistered(entry);
    }

    method EnqueueFileEntry(id: Id, limits: Limits)
      requires Valid() && limits.Valid()
      requires id in registered
      modifies this`lru, this`state, registered.Values, prefs
      ensures Valid() && OthersKept()
      ensures state.files == old(state).files
      ensures Queue() == Enqueue(old(Queue()), id, limits)
    {
      hide Linked, Local, Concrete, WellFormed, Has, Lists;
      var entry := Find(id);
      LastStep(state);
      var n := 1;
      var last := RBegin();
      if last.Some? {
        var back := At(last.value);
        if back == entry {
          return;
        }
        n := last.value + 1;
      }
      if entry.sequenceNumber != 0 {
        MoveToBack(entry, n);
      } else {
        AddToBack(entry, n);
        LastStep(state);
        var size := Size();
        if size > limits.maxEntries {
          EvictFront();
        }
      }
      MaybeCompactSequenceNumbers(limits);
    }

    method IsRegistered(id: Id) returns (b: bool)
      requires Valid()
      ensures b <==> id in state.files
    {
      b := id in registered;
    }

    method GetAllFileEntries() returns (result: seq<SavedEntry>)
      requires Valid()
      ensures AllEntries(result, ViewOf(state))
    {
      result := [];
      var ids := registered.Keys;
      NumberInView(state);
      while ids != {}
        invariant ids <= registered.Keys
        invariant AllEntries(result, Restricted(ViewOf(state), registered.Keys - ids))
      {
        var id :| id in ids;
        var entry := registered[id];
        EntriesAdd(result, ViewOf(state), registered.Keys - ids, id);
        assert registered.Keys - (ids - {id}) == registered.Keys - ids + {id};
        result := result + [SavedEntry(entry.id, entry.path, entry.isDirectory, entry.sequenceNumber)];
        ids := ids - {id};
      }
      assert registered.Keys - ids == registered.Keys;
      assert Restricted(ViewOf(state), registered.Keys) == ViewOf(state);
    }

    /** Gives a retained entry the next sequence number. */
    method MoveToBack(entry: SavedFileEntry, n: int)
      requires Valid() && Holds(entry) && entry in registered.Values && entry.id in state.files
      requires entry.sequenceNumber == state.numbers[entry.id] != 0
      requires n == NextNumber(Queue())
      modifies this`lru, this`state, registered.Values, prefs
      ensures Valid() && OthersKept()
      ensures state.files == old(state).files
      ensures Has(old(Queue()), entry.id)
      ensures Queue() == Without(old(Queue()), entry.id) + [Slot(entry.id, n)]
    {
      hide Linked, Local, Concrete;
      ghost var s := state;
      var oldNumber := entry.sequenceNumber;
      MoveStep(s, entry.id);
      SetNumber(entry, n);
      InsertInLru(n, entry);
      EraseFromLru(oldNumber);
      UpdateInPrefs(entry);
      assert state == Moved(s, entry.id, n);
    }

    /** Gives an entry that is not retained the next sequence number. */
    method AddToBack(entry: SavedFileEntry, n: int)
      requires Valid() && Holds(entry) && entry in registered.Values && entry.id in state.files
      requires FileInfo(entry.path, entry.isDirectory) == state.files[entry.id]
      requires entry.sequenceNumber == state.numbers[entry.id] == 0
      requires n == NextNumber(Queue())
      modifies this`lru, this`state, registered.Values, prefs
      ensures Valid() && OthersKept()
      ensures state.files == old(state).files
      ensures !Has(old(Queue()), entry.id)
      ensures Queue() == Without(old(Queue()), entry.id) + [Slot(entry.id, n)]
    {
      hide Linked, Local, Concrete;
      ghost var s := state;
      AddStep(s, entry.id);
      SetNumber(entry, n);
      InsertInLru(n, entry);
      AddToPrefs(entry);
      assert state == Added(s, entry.id, n);
    }

    /** Drops the least recently used entry from the queue. */
    method EvictFront()
      requires Valid() && Queue() != []
      modifies this`lru, this`state, registered.Values, prefs
      ensures Valid() && OthersKept()
      ensures state.files == old(state).files
      ensures Queue() == old(Queue())[1..]
    {
      hide Linked, Local, Concrete;
      ghost var s := state;
      EvictStep(s);
      var first := Begin();
      var oldest := At(first.value);
      SetNumber(oldest, 0);
      RemoveFromPrefs(oldest.id);
      EraseFromLru(first.value);
      assert state == Evicted(s, first.value);
    }

    method MaybeCompactSequenceNumbers(limits: Limits)
      requires Valid() && limits.Valid()
      modifies this`lru, this`state, registered.Values, prefs
      ensures Valid() && OthersKept()
      ensures state.files == old(state).files
      ensures Queue() == Compact(old(Queue()), limits.maxNumber)
    {
      hide Linked, Local, Concrete, WellFormed;
      LastStep(state);
      var last := RBegin();
      if last.None? || last.value < limits.maxNumber {
        return;
      }
      CompactSequenceNumbers();
    }

    /** The loop of MaybeCompactSequenceNumbers: it erases and reinserts the element
        under the iterator while it walks the ordered map. */
    method CompactSequenceNumbers()
      requires Valid()
      modifies this`lru, this`state, registered.Values, prefs
      ensures Valid() && OthersKept()
      ensures state.files == old(state).files
      ensures Queue() == Renumber(old(Queue()))
    {
      hide Linked, Local, Concrete, Lists, WellFormed;
      ghost var l := Queue();
      LastStep(state);
      assert Partial(l, 0) == l;
      IteratorStep(l, 0, state.lru);
      var sequenceNumber := 0;
      var it := Begin();
      while it.Some?
        invariant Valid() && OthersKept()
        invariant state.files == old(state).files
        invariant 0 <= sequenceNumber <= |l|
        invariant Lists(Partial(l, sequenceNumber), state.lru)
        invariant it == if sequenceNumber < |l| then Some(l[sequenceNumber].number) else None
        decreases |l| - sequenceNumber
      {
        sequenceNumber := sequenceNumber + 1;
        it := CompactAt(l, it.value, sequenceNumber);
      }
      assert Partial(l, |l|) == Renumber(l);
      ListsUnique(Renumber(l), state.lru);
    }

    /** The body of the loop, and `++it`. */
    method CompactAt(ghost l: Ledger, key: int, n: int) returns (it: Option<int>)
      requires Valid() && WellFormed(l) && 1 <= n <= |l| && l[n - 1].number == key
      requires Lists(Partial(l, n - 1), state.lru)
      modifies this`lru, this`state, registered.Values, prefs
      ensures Valid() && OthersKept()
      ensures state.files == old(state).files
      ensures Lists(Partial(l, n), state.lru)
      ensures it == if n < |l| then Some(l[n].number) else None
    {
      hide Linked, Local, Concrete, Lists, WellFormed, Partial;
      RenumberFree(l, n - 1, state.lru);
      SkipStep(state, l, n);
      var entry := At(key);
      var at := key;
      if entry.sequenceNumber != n {
        RenumberAt(l, key, entry, n);
        at := n;
      }
      IteratorStep(l, n, state.lru);
      it := Advance(at);
    }

    /** Erase the element and reinsert it under its new number, where the iterator then is. */
    method RenumberAt(ghost l: Ledger, key: int, entry: SavedFileEntry, n: int)
      requires Valid() && WellFormed(l) && 1 <= n <= |l| && l[n - 1].number == key != n
      requires Lists(Partial(l, n - 1), state.lru)
      requires Holds(entry) && entry in registered.Values && key in state.lru && state.lru[key] == entry.id
      modifies this`lru, this`state, registered.Values, prefs
      ensures Valid() && OthersKept()
      ensures state.files == old(state).files
      ensures Lists(Partial(l, n), state.lru)
    {
      hide Linked, Local, Concrete, Lists, WellFormed, Partial;
      ghost var s := state;
      RenumberStep(s, l, n);
      SetNumber(entry, n);
      UpdateInPrefs(entry);
      EraseFromLru(key);
      InsertInLru(n, entry);
      assert state == Moved(s, entry.id, n);
    }
  }

  ghost function Restricted(v: View, ids: set<Id>): View {
    View(map id | id in v.files && id in ids :: v.files[id], v.queue)
  }

  lemma EntriesAdd(entries: seq<SavedEntry>, v: View, ids: set<Id>, id: Id)
    requires AllEntries(entries, Restricted(v, ids)) && id in v.files && id !in ids
    ensures AllEntries(entries + [SavedEntry(id, v.files[id].path, v.files[id].isDirectory, NumberIn(v.queue, id))],
                       Restricted(v, ids + {id}))
  {
    var entries' := entries + [SavedEntry(id, v.files[id].path, v.files[id].isDirectory, NumberIn(v.queue, id))];
    forall x | HasEntry(entries, x) || x == id ensures HasEntry(entries', x) {
      if x == id {
        assert entries'[|entries|].id == x;
      } else {
        var i :| 0 <= i < |entries| && entries[i].id == x;
        assert entries'[i].id == x;
      }
    }
  }

  lemma NothingLoaded(s: Snapshot)
    requires s == Snapshot(map[], map[], map[], s.dict)
    ensures PartlyLoaded(s, IdsOf([]))
  {
  }

  lemma NoCopies(dict: Dict)
    ensures Copies([], dict, dict.Keys - dict.Keys)
  {
  }

  /** `std::map::insert`, which leaves an existing key alone. */
  function Insert<K, V>(m: map<K, V>, k: K, v: V): (r: map<K, V>)
    ensures k in m ==> r == m
    ensures k !in m ==> r == m[k := v]
  {
    if k in m then m else m[k := v]
  }
}
