/** How many windows of an extension the geometry cache holds, over whole runs. */
module GeometryLimit {
  import opened GeometrySpec
  import opened GeometryRuns

  // ----- One save -----

  /** A save of the default geometry that is ignored as a duplicate of the entry it has
      just created, in an extension that is full. */
  predicate SlipsIn(c: Cache, e: ExtensionId, w: WindowId, g: Geometry) {
    && g == DEFAULT_GEOMETRY && w !in WindowsOf(c, e) && e !in c.unsynced
    && |WindowsOf(c, e)| >= MAX_CACHED_WINDOWS
  }

  function SizeAfter(c: Cache, e: ExtensionId, w: WindowId, g: Geometry): nat {
    var n := |WindowsOf(c, e)|;
    if Duplicate(c, e, w, g) then (if w in WindowsOf(c, e) then n else n + 1)
    else if w in WindowsOf(c, e) then (if n > MAX_CACHED_WINDOWS then n - 1 else n)
    else (if n >= MAX_CACHED_WINDOWS then n else n + 1)
  }

  lemma SavedSize(c: Cache, e: ExtensionId, w: WindowId, g: Geometry, now: int)
    ensures |WindowsOf(Saved(c, e, w, g, now), e)| == SizeAfter(c, e, w, g)
  {
    var ws, cached := WindowsOf(Saved(c, e, w, g, now), e), WindowsOf(c, e);
    var data := if Duplicate(c, e, w, g) then DataOf(c, e, w) else WindowData(g, now);
    PutSize(cached, w, data);
    if Duplicate(c, e, w, g) {
      assert ws == cached[w := data];
    } else if Overfull(cached[w := data]) {
      OverfullHasOther(cached[w := data], w);
      assert ws == Evict(cached[w := data], w, now);
      EvictSize(cached[w := data], w, now);
    } else {
      assert ws == cached[w := data];
    }
    hide Evict, Saved, Duplicate, DataOf;
  }

  lemma PutSize(ws: Windows, w: WindowId, data: WindowData)
    ensures |ws[w := data]| == if w in ws then |ws| else |ws| + 1
  {
    assert ws[w := data].Keys == ws.Keys + {w};
  }

  lemma EvictSize(ws: Windows, saved: WindowId, now: int)
    requires ws.Keys - {saved} != {}
    ensures |Evict(ws, saved, now)| == |ws| - 1
  {
    var c, r := Clamped(ws, saved, now), Evict(ws, saved, now);
    assert Evicted(ws, saved, now, r);
    hide Evict, Clamped;
    var v :| OldestIn(c, c.Keys - {saved}, v) && r == c - {v};
    assert r.Keys == ws.Keys - {v} && v in ws.Keys;
  }

  /** A save leaves no more windows than the limit, or than there were, unless it slips in. */
  lemma SavedBoundIff(c: Cache, e: ExtensionId, w: WindowId, g: Geometry, now: int)
    ensures var n := |WindowsOf(Saved(c, e, w, g, now), e)|;
            (n <= MAX_CACHED_WINDOWS || n <= |WindowsOf(c, e)|) <==> !SlipsIn(c, e, w, g)
  {
    SavedSize(c, e, w, g, now);
    hide Saved;
  }

  // ----- Whole runs -----

  ghost predicate Within(c: Cache) {
    forall e :: |WindowsOf(c, e)| <= MAX_CACHED_WINDOWS
  }

  /** What an operation must meet to keep the limit: a save does not slip in, and when
      stored windows are added, they are within the limit together with the cached ones. */
  predicate Fits(c: Cache, op: Op) {
    match op
    case Save(e, w, g, _) => !SlipsIn(c, e, w, g)
    case Load(e) => |DecodeAll(StoredOf(c, e)).Keys + WindowsOf(c, e).Keys| <= MAX_CACHED_WINDOWS
    case Read(e, _) => e in c.windows || |DecodeAll(StoredOf(c, e))| <= MAX_CACHED_WINDOWS
    case _ => true
  }

  /** Only one extension's windows change. */
  lemma WithinAt(c: Cache, s: Cache, e: ExtensionId)
    requires Within(c) && forall x :: x != e ==> WindowsOf(s, x) == WindowsOf(c, x)
    ensures Within(s) <==> |WindowsOf(s, e)| <= MAX_CACHED_WINDOWS
  {
    hide WindowsOf;
    if |WindowsOf(s, e)| <= MAX_CACHED_WINDOWS {
      forall x ensures |WindowsOf(s, x)| <= MAX_CACHED_WINDOWS {
        assert |WindowsOf(c, x)| <= MAX_CACHED_WINDOWS;
      }
    }
  }

  lemma LoadedSize(c: Cache, e: ExtensionId)
    ensures |WindowsOf(Loaded(c, e), e)| == |DecodeAll(StoredOf(c, e)).Keys + WindowsOf(c, e).Keys|
    ensures e !in c.windows ==> |WindowsOf(Loaded(c, e), e)| == |DecodeAll(StoredOf(c, e))|
  {
    var stored, cached := DecodeAll(StoredOf(c, e)), WindowsOf(c, e);
    hide DecodeAll;
    assert (stored + cached).Keys == stored.Keys + cached.Keys;
    assert e !in c.windows ==> cached == map[] && stored + map[] == stored;
  }

  lemma SyncedSize(c: Cache, x: ExtensionId, e: ExtensionId)
    ensures WindowsOf(Synced(c), e) == WindowsOf(c, e)
    ensures WindowsOf(Synced(c).(timerRunning := false), e) == WindowsOf(c, e)
    ensures WindowsOf(Unloaded(c, x), e) == if e == x then map[] else WindowsOf(c, e)
  {
    hide EncodeAll;
  }

  lemma SaveWithin(c: Cache, e: ExtensionId, w: WindowId, g: Geometry, now: int)
    requires Within(c)
    ensures Within(Saved(c, e, w, g, now)) <==> !SlipsIn(c, e, w, g)
  {
    assert |WindowsOf(c, e)| <= MAX_CACHED_WINDOWS;
    SavedBoundIff(c, e, w, g, now);
    SavedElsewhere(c, e, w, g, now);
    hide Saved, Within, SlipsIn;
    WithinAt(c, Saved(c, e, w, g, now), e);
  }

  lemma SavedElsewhere(c: Cache, e: ExtensionId, w: WindowId, g: Geometry, now: int)
    ensures forall x :: x != e ==> WindowsOf(Saved(c, e, w, g, now), x) == WindowsOf(c, x)
  {
    hide Evict;
  }

  lemma LoadWithin(c: Cache, e: ExtensionId)
    requires Within(c)
    ensures Within(Loaded(c, e)) <==> |DecodeAll(StoredOf(c, e)).Keys + WindowsOf(c, e).Keys| <= MAX_CACHED_WINDOWS
    ensures e !in c.windows ==> (Within(Loaded(c, e)) <==> |DecodeAll(StoredOf(c, e))| <= MAX_CACHED_WINDOWS)
  {
    LoadedSize(c, e);
    hide DecodeAll, Within;
    WithinAt(c, Loaded(c, e), e);
  }

  lemma SyncWithin(c: Cache, x: ExtensionId)
    requires Within(c)
    ensures Within(Synced(c)) && Within(Synced(c).(timerRunning := false)) && Within(Unloaded(c, x))
  {
    hide Synced, Unloaded, WindowsOf;
    forall e
      ensures |WindowsOf(Synced(c), e)| <= MAX_CACHED_WINDOWS
      ensures |WindowsOf(Synced(c).(timerRunning := false), e)| <= MAX_CACHED_WINDOWS
      ensures |WindowsOf(Unloaded(c, x), e)| <= MAX_CACHED_WINDOWS
    {
      assert |WindowsOf(c, e)| <= MAX_CACHED_WINDOWS;
      SyncedSize(c, x, e);
    }
  }

  /** One operation keeps the limit exactly if it meets its condition. */
  lemma WithinIffFits(c: Cache, op: Op)
    requires Within(c)
    ensures Within(Step(c, op)) <==> Fits(c, op)
  {
    hide Within, Saved, Loaded, Synced, Unloaded, SlipsIn, DecodeAll;
    match op
    case Save(e, w, g, now) => SaveWithin(c, e, w, g, now);
    case Read(e, _) => LoadWithin(c, e);
    case Load(e) => LoadWithin(c, e);
    case Unload(e) => SyncWithin(c, e);
    case TimerFired => SyncWithin(c, "");
    case Shutdown => SyncWithin(c, "");
  }

  ghost predicate AlwaysWithin(c: Cache, ops: seq<Op>) {
    forall k :: 0 <= k <= |ops| ==> Within(Run(c, ops[..k]))
  }

  ghost predicate AllFit(c: Cache, ops: seq<Op>) {
    forall k :: 0 <= k < |ops| ==> Fits(Run(c, ops[..k]), ops[k])
  }

  lemma WithinLast(c: Cache, ops: seq<Op>)
    requires ops != []
    ensures var n := |ops| - 1;
            && (AlwaysWithin(c, ops) <==> AlwaysWithin(c, ops[..n]) && Within(Run(c, ops)))
            && (AlwaysWithin(c, ops[..n]) ==> Within(Run(c, ops[..n])))
  {
    hide Run, Within;
    var n := |ops| - 1;
    var front := ops[..n];
    assert ops[..n + 1] == ops && front[..n] == front;
    assert forall k :: 0 <= k <= n ==> front[..k] == ops[..k];
  }

  lemma FitsLast(c: Cache, ops: seq<Op>)
    requires ops != []
    ensures var n := |ops| - 1;
            AllFit(c, ops) <==> AllFit(c, ops[..n]) && Fits(Run(c, ops[..n]), ops[n])
  {
    hide Run, Fits;
    var n := |ops| - 1;
    assert forall k :: 0 <= k < n ==> ops[..n][..k] == ops[..k] && ops[..n][k] == ops[k];
  }

  /** Over every run from a cache within the limit, no extension ever has more windows than
      the limit if and only if every operation meets its condition. */
  lemma {:induction false} AlwaysWithinIff(c: Cache, ops: seq<Op>)
    requires Within(c)
    ensures AlwaysWithin(c, ops) <==> AllFit(c, ops)
  {
    hide Within, Fits, Step;
    if ops == [] {
      assert AlwaysWithin(c, ops);
    } else {
      var n := |ops| - 1;
      AlwaysWithinIff(c, ops[..n]);
      WithinLast(c, ops);
      FitsLast(c, ops);
      hide AlwaysWithin, AllFit;
      if AlwaysWithin(c, ops[..n]) {
        WithinIffFits(Run(c, ops[..n]), ops[n]);
      }
    }
  }

  // ----- The limit is passed -----

  function Name(k: nat): WindowId {
    seq(k, _ => 'a')
  }

  function Fill(n: nat, data: WindowData): Windows {
    if n == 0 then map[] else Fill(n - 1, data)[Name(n - 1) := data]
  }

  lemma {:induction false} FillSize(n: nat, data: WindowData)
    ensures |Fill(n, data)| == n && forall w :: w in Fill(n, data) ==> |w| < n
  {
    if n == 0 {
    } else {
      FillSize(n - 1, data);
      assert Name(n - 1) !in Fill(n - 1, data);
      assert Fill(n, data).Keys == Fill(n - 1, data).Keys + {Name(n - 1)};
    }
  }

  lemma FirstSave(store: map<ExtensionId, StoredWindows>, e: ExtensionId, w: WindowId, g: Geometry, now: int)
    requires g.Valid()
    ensures var saved := Saved(Fresh(store), e, w, g, now);
            WindowsOf(saved, e).Keys == {w} && StoredOf(saved, e) == StoredOf(Fresh(store), e)
  {
    hide Evict;
    assert |map[w := WindowData(g, now)]| == 1;
  }

  /** A valid save of a window that is not stored, before any load, and then a load. */
  lemma LoadAfterSave(ws: Windows, e: ExtensionId, w: WindowId, g: Geometry, now: int)
    requires g.Valid() && w !in ws
    ensures var saved := Saved(Fresh(map[e := EncodeAll(ws)]), e, w, g, now);
            |WindowsOf(Loaded(saved, e), e)| == |ws| + 1
  {
    var store := map[e := EncodeAll(ws)];
    DecodeEncode(ws);
    FirstSave(store, e, w, g, now);
    hide EncodeAll, DecodeAll, Saved, Loaded;
    LoadedSize(Saved(Fresh(store), e, w, g, now), e);
    assert |ws.Keys + {w}| == |ws.Keys| + 1;
  }

  /** With 100 windows stored, a valid save of another one before any load, and then a
      load, leave 101 windows. */
  lemma LimitPassed(e: ExtensionId, g: Geometry, now: int)
    requires g.Valid()
    ensures var stored := EncodeAll(Fill(MAX_CACHED_WINDOWS, WindowData(g, now)));
            var saved := Saved(Fresh(map[e := stored]), e, Name(MAX_CACHED_WINDOWS), g, now);
            |stored| == MAX_CACHED_WINDOWS && |WindowsOf(Loaded(saved, e), e)| == MAX_CACHED_WINDOWS + 1
  {
    hide Fill, Saved, Loaded, DecodeAll;
    var ws := Fill(MAX_CACHED_WINDOWS, WindowData(g, now));
    FillSize(MAX_CACHED_WINDOWS, WindowData(g, now));
    assert EncodeAll(ws).Keys == ws.Keys;
    hide EncodeAll;
    LoadAfterSave(ws, e, Name(MAX_CACHED_WINDOWS), g, now);
  }
}
