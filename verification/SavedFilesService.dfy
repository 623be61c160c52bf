/** The service: one container per extension, loaded from the preferences on first
    use and dropped when the extension's host is destroyed. */
module SavedFilesService {
  import opened SavedFilesSpec
  import opened SavedFilesStore
  import opened SavedFiles

  class SavedFilesService {
    const prefs: ExtensionPrefs
    var loaded: map<ExtensionId, SavedFiles>
    ghost var containers: set<SavedFiles>
    ghost var entries: set<SavedFileEntry>

    constructor (prefs: ExtensionPrefs)
      requires forall e :: Storable(prefs.Entries(e))
      ensures this.prefs == prefs && loaded == map[] && containers == {} && entries == {} && Valid()
    {
      this.prefs := prefs;
      loaded := map[];
      containers, entries := {}, {};
    }

    /** Each container belongs to its extension and owns its entries. */
    ghost predicate Owned()
      reads this, containers`registered
    {
      && (forall e :: e in loaded ==> loaded[e] in containers)
      && (forall e :: e in loaded ==> loaded[e].prefs == prefs && loaded[e].extensionId == e)
      && (forall e :: e in loaded ==> loaded[e].registered.Values <= entries)
      && (forall e, e' :: e in loaded && e' in loaded && e != e' ==>
            loaded[e].registered.Values !! loaded[e'].registered.Values)
    }

    ghost predicate Valid()
      reads this, prefs, containers, entries
    {
      && Owned()
      && (forall e :: e in loaded ==> loaded[e].Valid())
      && (forall e :: Storable(prefs.Entries(e)))
    }

    /** What a client sees of an extension. Whether it is loaded cannot be seen. */
    ghost function ViewFor(e: ExtensionId): View
      requires Owned() && Storable(prefs.Entries(e))
      reads this, prefs, containers
    {
      if e in loaded then ViewOf(loaded[e].state) else Reload(prefs.Entries(e))
    }

    /** The service may grow its footprint by new objects only. */
    twostate predicate Grown()
      reads this
    {
      && old(containers) <= containers && fresh(containers - old(containers))
      && old(entries) <= entries && fresh(entries - old(entries))
    }

    method Load(e: ExtensionId) returns (files: SavedFiles)
      requires Storable(prefs.Entries(e))
      ensures fresh(files) && fresh(files.registered.Values)
      ensures files.prefs == prefs && files.extensionId == e && files.Valid()
      ensures ViewOf(files.state) == Reload(prefs.Entries(e))
    {
      files := new SavedFiles(prefs, e);
      hide Linked, SavedFiles.Local, Storable, Reload;
      ReloadFresh(files.state);
    }

    method GetOrInsert(e: ExtensionId) returns (files: SavedFiles)
      requires Valid()
      modifies this
      ensures Valid() && Grown() && e in loaded && files == loaded[e] && files in containers
      ensures forall x :: ViewFor(x) == old(ViewFor(x))
    {
      hide SavedFiles.Valid, Storable, Reload, ViewOf, Owned;
      if e in loaded {
        files := loaded[e];
        Contained();
      } else {
        files := Load(e);
        Attach(e, files);
      }
    }

    lemma Contained()
      requires Owned()
      ensures forall e :: e in loaded ==> loaded[e] in containers && loaded[e].registered.Values <= entries
      ensures forall e :: e in loaded ==> loaded[e].prefs == prefs && loaded[e].extensionId == e
    {
    }

    method Attach(e: ExtensionId, files: SavedFiles)
      requires Valid() && e !in loaded
      requires files.Valid() && files.prefs == prefs && files.extensionId == e
      requires files.registered.Values !! entries
      requires ViewOf(files.state) == Reload(prefs.Entries(e))
      modifies this
      ensures Valid() && loaded == old(loaded)[e := files]
      ensures containers == old(containers) + {files} && entries == old(entries) + files.registered.Values
      ensures forall x :: ViewFor(x) == old(ViewFor(x))
    {
      hide SavedFiles.Valid, Storable, Reload, ViewOf, Owned;
      loaded := loaded[e := files];
      containers := containers + {files};
      entries := entries + files.registered.Values;
      StillOwned(e, files);
    }

    /** A container may be added, or register new entries. */
    twostate lemma StillOwned(e: ExtensionId, new files: SavedFiles)
      requires old(Owned()) && files.prefs == prefs && files.extensionId == e
      requires loaded == old(loaded)[e := files]
      requires containers == old(containers) + {files} && entries == old(entries) + files.registered.Values
      requires files.registered.Values !! old(entries) ||
               (e in old(loaded) && old(loaded[e]) == files
                && (files.registered.Values - old(files.registered.Values)) !! old(entries))
      requires forall x :: x in loaded && x != e ==> loaded[x].registered == old(loaded[x].registered)
      ensures Owned()
    {
    }

    /** The other extensions are untouched by a change to one of them. */
    twostate lemma OthersUntouched(e: ExtensionId)
      requires old(Valid()) && Owned()
      requires forall x :: x != e ==> (x in loaded <==> x in old(loaded))
      requires forall x :: x in loaded && x != e ==>
                 loaded[x] == old(loaded)[x] && unchanged(loaded[x]) && unchanged(loaded[x].registered.Values)
      requires prefs.fileEntries - {e} == old(prefs.fileEntries) - {e}
      ensures forall x :: x in loaded && x != e ==> loaded[x].Valid()
      ensures forall x :: x != e ==> Storable(prefs.Entries(x))
      ensures forall x :: x != e ==> ViewFor(x) == old(ViewFor(x))
    {
      hide SavedFiles.Valid, Storable, Reload, ViewOf;
      forall x | x != e ensures prefs.Entries(x) == old(prefs.Entries(x)) {
        OtherEntries(old(prefs.fileEntries), prefs.fileEntries, e, x);
      }
      forall x | x in loaded && x != e ensures loaded[x].Valid() {
        var files := loaded[x];
        assert old(files.Valid());
        files.StillValid();
      }
    }

    method RegisterFileEntry(e: ExtensionId, id: Id, path: Path, isDirectory: bool)
      requires Valid()
      modifies this, containers
      ensures Valid() && Grown()
      ensures forall x :: ViewFor(x) ==
                if x == e then Registered(old(ViewFor(e)), id, FileInfo(path, isDirectory)) else old(ViewFor(x))
    {
      var files := GetOrInsert(e);
      RegisterLoaded(e, files, id, path, isDirectory);
    }

    method RegisterLoaded(e: ExtensionId, files: SavedFiles, id: Id, path: Path, isDirectory: bool)
      requires Valid() && e in loaded && files == loaded[e]
      modifies this`entries, files`registered, files`state
      ensures Valid() && Grown()
      ensures forall x :: ViewFor(x) ==
                if x == e then Registered(old(ViewFor(e)), id, FileInfo(path, isDirectory)) else old(ViewFor(x))
    {
      hide Linked, SavedFiles.Local, Storable, Reload, Owned;
      Contained();
      files.RegisterFileEntry(id, path, isDirectory);
      entries := entries + files.registered.Values;
      StillOwned(e, files);
      OthersUntouched(e);
    }

    method EnqueueFileEntry(e: ExtensionId, id: Id, limits: Limits)
      requires Valid() && limits.Valid() && id in ViewFor(e).files
      modifies this, containers, entries, prefs
      ensures Valid() && Grown()
      ensures forall x :: ViewFor(x) == if x == e then Enqueued(old(ViewFor(e)), id, limits) else old(ViewFor(x))
    {
      hide Linked, SavedFiles.Local, Storable, Reload, Enqueued;
      var files := GetOrInsert(e);
      EnqueueLoaded(e, files, id, limits);
    }

    method EnqueueLoaded(e: ExtensionId, files: SavedFiles, id: Id, limits: Limits)
      requires Valid() && e in loaded && files == loaded[e]
      requires limits.Valid() && id in ViewFor(e).files
      modifies files`lru, files`state, files.registered.Values, prefs
      ensures Valid() && Grown()
      ensures forall x :: ViewFor(x) == if x == e then Enqueued(old(ViewFor(e)), id, limits) else old(ViewFor(x))
    {
      hide Linked, SavedFiles.Local, Storable, Reload;
      files.RegisteredIds();
      files.EnqueueFileEntry(id, limits);
      LinkedStorable(files.state);
      OthersUntouched(e);
    }

    method Clear(e: ExtensionId)
      requires Valid()
      modifies this`loaded
      ensures Valid()
      ensures forall x :: ViewFor(x) == if x == e then Retained(old(ViewFor(e))) else old(ViewFor(x))
    {
      hide SavedFiles.Local, Linked, Storable, Reload, Retained;
      if e in loaded {
        ReloadRetained(loaded[e].state);
        loaded := loaded - {e};
      } else {
        RetainedTwice(prefs.Entries(e));
      }
    }

    method ClearQueue(e: ExtensionId)
      requires Valid()
      modifies this`loaded, prefs
      ensures Valid()
      ensures forall x :: ViewFor(x) == if x == e then View(map[], []) else old(ViewFor(x))
    {
      hide Linked, SavedFiles.Local, SavedFiles.Valid, Storable, Reload, ViewOf;
      prefs.ClearSavedFileEntries(e);
      ReloadEmpty();
      loaded := loaded - {e};
      OthersUntouched(e);
    }

    /** Unloaded, the answer comes straight from the preferences; it is the same. */
    method GetAllFileEntries(e: ExtensionId) returns (result: seq<SavedEntry>)
      requires Valid()
      ensures AllEntries(result, ViewFor(e))
    {
      hide AllEntries, Copies, Storable, Reload;
      if e in loaded {
        result := loaded[e].GetAllFileEntries();
      } else {
        result := prefs.GetSavedFileEntries(e);
        CopiesAreEntries(result, prefs.Entries(e));
      }
    }

    method IsRegistered(e: ExtensionId, id: Id) returns (b: bool)
      requires Valid()
      modifies this
      ensures Valid() && Grown()
      ensures forall x :: ViewFor(x) == old(ViewFor(x))
      ensures b <==> id in ViewFor(e).files
    {
      hide Linked, SavedFiles.Local, Storable, Reload;
      var files := GetOrInsert(e);
      b := files.IsRegistered(id);
    }

    /** Observe, when an extension's host has been destroyed. */
    method OnHostDestroyed(e: ExtensionId, mayRetain: bool)
      requires Valid()
      modifies this`loaded, prefs
      ensures Valid()
      ensures forall x :: ViewFor(x) ==
                if x == e then (if mayRetain then Retained(old(ViewFor(e))) else View(map[], [])) else old(ViewFor(x))
    {
      hide Valid, ViewOf, Reload;
      if !mayRetain {
        ClearQueue(e);
      }
      Clear(e);
    }

    /** Any run of calls shows each extension exactly what the simple model says. */
    method Replay(calls: seq<Call>, limits: Limits)
      requires Valid() && limits.Valid()
      requires forall e, k :: 0 <= k < |calls| ==> Legal(RunView(ViewFor(e), e, calls[..k], limits), e, calls[k])
      modifies this, containers, entries, prefs
      ensures Valid() && Grown()
      ensures forall e :: ViewFor(e) == RunView(old(ViewFor(e)), e, calls, limits)
    {
      hide Owned, ViewFor, SavedFiles.Valid, Storable, Retained;
      for k := 0 to |calls|
        invariant Valid() && Grown()
        invariant forall e :: ViewFor(e) == RunView(old(ViewFor(e)), e, calls[..k], limits)
      {
        assert calls[..k + 1][..k] == calls[..k];
        match calls[k] {
          case Register(e, id, info) => RegisterFileEntry(e, id, info.path, info.isDirectory);
          case Retain(e, id) =>
            assert Legal(RunView(old(ViewFor(e)), e, calls[..k], limits), e, calls[k]);
            EnqueueFileEntry(e, id, limits);
          case HostDestroyed(e, mayRetain) => OnHostDestroyed(e, mayRetain);
        }
      }
      assert calls[..|calls|] == calls;
    }
  }

  // ----- The service as a client understands it -----

  datatype Call =
    | Register(e: ExtensionId, id: Id, info: FileInfo)
    | Retain(e: ExtensionId, id: Id)
    | HostDestroyed(e: ExtensionId, mayRetain: bool)

  ghost predicate Legal(v: View, e: ExtensionId, call: Call) {
    call.Retain? && call.e == e ==> call.id in v.files
  }

  ghost function StepView(v: View, e: ExtensionId, call: Call, limits: Limits): View {
    if call.e != e then v else
    match call
    case Register(_, id, info) => Registered(v, id, info)
    case Retain(_, id) => Enqueued(v, id, limits)
    case HostDestroyed(_, mayRetain) => if mayRetain then Retained(v) else View(map[], [])
  }

  ghost function RunView(v: View, e: ExtensionId, calls: seq<Call>, limits: Limits): View {
    if calls == [] then v
    else StepView(RunView(v, e, calls[..|calls| - 1], limits), e, calls[|calls| - 1], limits)
  }

  /** The same run on plain lists of ids. */
  function RunIds(q: seq<Id>, e: ExtensionId, calls: seq<Call>, maxEntries: nat): seq<Id> {
    if calls == [] then q
    else
      var before, call := RunIds(q, e, calls[..|calls| - 1], maxEntries), calls[|calls| - 1];
      if call.e != e || call.Register? then before
      else if call.Retain? then EnqueueList(before, call.id, maxEntries)
      else if call.mayRetain then before
      else []
  }

  /** For every run of the service, over registering, retaining and host destruction:
      an extension's queue is the bounded list, and respects both limits. */
  lemma {:induction false} RunViewIsList(v: View, e: ExtensionId, calls: seq<Call>, limits: Limits)
    requires limits.Valid() && Fits(v.queue, limits)
    ensures Fits(RunView(v, e, calls, limits).queue, limits)
    ensures Ids(RunView(v, e, calls, limits).queue) == RunIds(Ids(v.queue), e, calls, limits.maxEntries)
  {
    if calls == [] {
    } else {
      var before, call := RunView(v, e, calls[..|calls| - 1], limits), calls[|calls| - 1];
      RunViewIsList(v, e, calls[..|calls| - 1], limits);
      if call.e == e && call.Retain? {
        EnqueueFits(before.queue, call.id, limits);
        EnqueueRefinesList(before.queue, call.id, limits);
      }
    }
  }

  /** What a call changes of the view: a new file is registered with what it is registered
      as, and a known one is not registered again; retaining changes the queue only; when
      the host is destroyed, the files in the queue stay if they may, and else none. Calls
      of other extensions change nothing. */
  lemma CallMeans(v: View, e: ExtensionId, call: Call, limits: Limits)
    ensures var v' := StepView(v, e, call, limits);
            && (call.e != e ==> v' == v)
            && (call.e == e && call.Register? ==>
                  && v'.queue == v.queue
                  && (forall x :: x in v'.files <==> x in v.files || x == call.id)
                  && (forall x :: x in v.files ==> v'.files[x] == v.files[x])
                  && (call.id !in v.files ==> v'.files[call.id] == call.info))
            && (call.e == e && call.Retain? ==> v'.files == v.files)
            && (call.e == e && call.HostDestroyed? && call.mayRetain ==>
                  && v'.queue == v.queue
                  && (forall x :: x in v'.files <==> x in v.files && x in Ids(v.queue))
                  && (forall x :: x in v'.files ==> v'.files[x] == v.files[x]))
            && (call.e == e && call.HostDestroyed? && !call.mayRetain ==> v' == NO_FILES)
  {
    forall x ensures Has(v.queue, x) <==> x in Ids(v.queue) {
      HasIffInIds(v.queue, x);
    }
    hide Has, Enqueue;
  }

  // ----- The bound on sequence numbers, over runs of the service -----

  const NO_FILES := View(map[], [])

  ghost predicate LegalRun(v: View, e: ExtensionId, calls: seq<Call>, limits: Limits) {
    forall k :: 0 <= k < |calls| ==> Legal(RunView(v, e, calls[..k], limits), e, calls[k])
  }

  /** No run of the service makes it compute a number above maxNumber. */
  ghost predicate ServiceNeverExceeds(limits: Limits) {
    forall e: ExtensionId, calls: seq<Call>, id: Id ::
      LegalRun(NO_FILES, e, calls, limits) && id in RunView(NO_FILES, e, calls, limits).files ==>
      Transient(RunView(NO_FILES, e, calls, limits).queue, id) <= limits.maxNumber
  }

  lemma CallsGrow(v: View, e: ExtensionId, calls: seq<Call>, call: Call, limits: Limits)
    ensures RunView(v, e, calls + [call], limits) == StepView(RunView(v, e, calls, limits), e, call, limits)
    ensures LegalRun(v, e, calls, limits) && Legal(RunView(v, e, calls, limits), e, call) ==>
              LegalRun(v, e, calls + [call], limits)
  {
    var more, n := calls + [call], |calls|;
    assert more[..n] == calls;
    assert RunView(v, e, more, limits) == StepView(RunView(v, e, more[..n], limits), e, more[n], limits);
    hide RunView, Legal, StepView;
    assert forall k :: 0 <= k < n ==> more[..k] == calls[..k] && more[k] == calls[k];
  }

  /** Registers and retains "", "a", "aa", ... */
  function FillCalls(e: ExtensionId, n: nat): seq<Call> {
    if n == 0 then []
    else
      var id := Tally(n)[n - 1];
      FillCalls(e, n - 1) + [Register(e, id, FileInfo("", false))] + [Retain(e, id)]
  }

  lemma FillOne(e: ExtensionId, calls: seq<Call>, ids: seq<Id>, id: Id, limits: Limits)
    requires LegalRun(NO_FILES, e, calls, limits) && RunView(NO_FILES, e, calls, limits).queue == Numbered(ids)
    requires |ids| < limits.maxEntries && id !in ids
    ensures var more := calls + [Register(e, id, FileInfo("", false))] + [Retain(e, id)];
            LegalRun(NO_FILES, e, more, limits) && RunView(NO_FILES, e, more, limits).queue == Numbered(ids + [id])
  {
    hide RunView, LegalRun, Enqueue, Numbered;
    var register := Register(e, id, FileInfo("", false));
    CallsGrow(NO_FILES, e, calls, register, limits);
    CallsGrow(NO_FILES, e, calls + [register], Retain(e, id), limits);
    EnqueueNumbered(ids, id, limits);
  }

  /** Registering and retaining the next id. */
  lemma FillNext(e: ExtensionId, n: nat, calls: seq<Call>, limits: Limits)
    requires n < limits.maxEntries
    requires LegalRun(NO_FILES, e, calls, limits) && RunView(NO_FILES, e, calls, limits).queue == Numbered(Tally(n))
    ensures var id := Tally(n + 1)[n];
            var more := calls + [Register(e, id, FileInfo("", false))] + [Retain(e, id)];
            LegalRun(NO_FILES, e, more, limits) && RunView(NO_FILES, e, more, limits).queue == Numbered(Tally(n + 1))
  {
    hide Tally, RunView, LegalRun, Numbered;
    TallyGrows(n);
    FillOne(e, calls, Tally(n), Tally(n + 1)[n], limits);
  }

  lemma FillNone(e: ExtensionId, limits: Limits)
    ensures LegalRun(NO_FILES, e, [], limits)
    ensures RunView(NO_FILES, e, [], limits).queue == Numbered(Tally(0))
  {
    assert Numbered(Tally(0)) == [];
  }

  lemma {:induction false} FillView(e: ExtensionId, n: nat, limits: Limits)
    requires n <= limits.maxEntries
    ensures LegalRun(NO_FILES, e, FillCalls(e, n), limits)
    ensures RunView(NO_FILES, e, FillCalls(e, n), limits).queue == Numbered(Tally(n))
  {
    hide RunView, LegalRun, Numbered, Tally;
    if n == 0 {
      FillNone(e, limits);
    } else {
      FillView(e, n - 1, limits);
      FillNext(e, n - 1, FillCalls(e, n - 1), limits);
    }
  }

  /** Nor does any run of the service, registering and host destruction included, exactly
      under the same condition. */
  lemma ServiceNeverExceedsIff(limits: Limits)
    requires limits.Valid()
    ensures ServiceNeverExceeds(limits) <==> limits.maxEntries < limits.maxNumber
  {
    hide RunView, LegalRun;
    if limits.maxEntries < limits.maxNumber {
      forall e: ExtensionId, calls: seq<Call>, id: Id
        ensures Transient(RunView(NO_FILES, e, calls, limits).queue, id) <= limits.maxNumber
      {
        RunViewIsList(NO_FILES, e, calls, limits);
        EnqueueFits(RunView(NO_FILES, e, calls, limits).queue, id, limits);
      }
    } else {
      var n := limits.maxEntries;
      var e, calls, id := "", FillCalls("", n), Tally(n + 1)[n];
      FillView(e, n, limits);
      var register := Register(e, id, FileInfo("", false));
      CallsGrow(NO_FILES, e, calls, register, limits);
      assert Transient(RunView(NO_FILES, e, calls + [register], limits).queue, id) == limits.maxNumber + 1;
    }
  }

  ghost function Registered(v: View, id: Id, info: FileInfo): View {
    if id in v.files then v else v.(files := v.files[id := info])
  }

  ghost function Enqueued(v: View, id: Id, limits: Limits): View {
    v.(queue := Enqueue(v.queue, id, limits))
  }

  lemma RetainedTwice(dict: Dict)
    requires Storable(dict)
    ensures Retained(Reload(dict)) == Reload(dict)
  {
    assert ReloadsTo(dict, Reload(dict));
    var s :| Linked(s) && s.dict == dict && s.files.Keys == dict.Keys && ViewOf(s) == Reload(dict);
    ReloadRetained(s);
  }

  lemma ReloadEmpty()
    ensures Storable(map[]) && Reload(map[]) == View(map[], [])
  {
    var s := Snapshot(map[], map[], map[], map[]);
    assert Linked(s);
    ReloadFresh(s);
    ListsUnique([], s.lru);
  }
}
