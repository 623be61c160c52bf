/** The cache of window geometry, updated in place and written back by a timer. */
module GeometryCache {
  import opened Wrappers
  import opened Gfx
  import opened Lexicographic
  import opened GeometrySpec

  class ShellWindowGeometryCache {
    var windows: map<ExtensionId, Windows>
    var unsynced: set<ExtensionId>
    /** The geometry preferences of every extension. */
    var store: map<ExtensionId, StoredWindows>
    var timerRunning: bool

    constructor (store: map<ExtensionId, StoredWindows>)
      ensures State() == Cache(map[], {}, store, false)
    {
      windows, unsynced, this.store, timerRunning := map[], {}, store, false;
    }

    ghost function State(): Cache
      reads this
    {
      Cache(windows, unsynced, store, timerRunning)
    }

    /** What the checks in SyncToStorage demand. */
    ghost predicate Storable()
      reads this
    {
      forall e :: e in unsynced ==> AllValid(WindowsOf(State(), e))
    }

    method SaveGeometry(e: ExtensionId, w: WindowId, g: Geometry, now: int)
      modifies this
      ensures State() == Saved(old(State()), e, w, g, now)
    {
      var data := if e in windows then windows[e] else map[];
      if w !in data {
        data := data[w := DEFAULT_DATA];
      }
      if data[w].geometry == g && e !in unsynced {
        windows := windows[e := data];
        assert data == WindowsOf(old(State()), e)[w := DataOf(old(State()), e, w)];
        return;
      }
      data := data[w := WindowData(g, now)];
      assert data == WindowsOf(old(State()), e)[w := WindowData(g, now)];
      if |data| > MAX_CACHED_WINDOWS {
        OverfullHasOther(data, w);
        data := EvictOldest(data, w, now);
      }
      windows := windows[e := data];
      unsynced := unsynced + {e};
      timerRunning := true;
    }

    method SyncToStorage()
      requires Storable()
      modifies this`windows, this`unsynced, this`store
      ensures State() == Synced(old(State()))
    {
      hide EncodeAll, AllValid, WindowsWith, StoreWith;
      var toSync := unsynced;
      unsynced := {};
      ghost var c := old(State());
      ghost var done := {};
      SyncNone(c);
      while toSync != {}
        invariant done + toSync == c.unsynced && done !! toSync
        invariant unsynced == {} && windows == WindowsWith(c, done) && store == StoreWith(c, done)
      {
        var e :| e in toSync;
        var data := if e in windows then windows[e] else map[];
        NotSynced(c, done, e);
        SyncOne(c, done, e);
        windows := windows[e := data];
        var dict := EncodeWindows(data);
        store := store[e := dict];
        toSync, done := toSync - {e}, done + {e};
      }
      assert done == c.unsynced;
    }

    /** Answers with the geometry, or nothing if the window is unknown or a part that
        is asked for is corrupt. */
    method GetGeometry(e: ExtensionId, w: WindowId, wantBounds: bool, wantScreenBounds: bool, wantState: bool)
      returns (r: Option<Geometry>)
      modifies this`windows
      ensures State() == Touched(old(State()), e)
      ensures r.Some? <==>
              && w in Current(old(State()), e)
              && var g := Current(old(State()), e)[w].geometry;
                 && !(wantBounds && g.bounds.IsEmpty())
                 && !(wantScreenBounds && g.screenBounds.IsEmpty())
                 && !(wantState && g.state == 0)
      ensures r.Some? ==> r.value == Current(old(State()), e)[w].geometry
      ensures wantBounds && wantScreenBounds && wantState ==> r == Answer(old(State()), e, w)
    {
      hide DecodeAll;
      AnswerCurrent(State(), e, w);
      TouchKeepsCurrent(State(), e, e);
      if e !in windows {
        LoadGeometryFromStorage(e);
      }
      var data := windows[e];
      if w !in data {
        return None;
      }
      var g := data[w].geometry;
      if || (wantBounds && g.bounds.IsEmpty())
         || (wantScreenBounds && g.screenBounds.IsEmpty())
         || (wantState && g.state == 0)
      {
        return None;
      }
      return Some(g);
    }

    method LoadGeometryFromStorage(e: ExtensionId)
      modifies this`windows
      ensures State() == Loaded(old(State()), e)
    {
      hide Decode, DecodeAll;
      var data := if e in windows then windows[e] else map[];
      ghost var before := data;
      if e in store {
        var stored := store[e];
        var ids := stored.Keys;
        ghost var done := {};
        Merged(stored, done, before);
        while ids != {}
          invariant done + ids == stored.Keys && done !! ids
          invariant data == DecodeAll(Restrict(stored, done)) + before && windows == old(windows)
        {
          var w :| w in ids;
          MergeOne(stored, done, before, w);
          if w !in data && stored[w].Stored? {
            var decoded := DecodeWindow(stored[w]);
            data := data[w := decoded];
          }
          ids, done := ids - {w}, done + {w};
        }
        assert Restrict(stored, done) == stored;
      } else {
        Merged(map[], {}, before);
      }
      assert data == DecodeAll(StoredOf(old(State()), e)) + before;
      windows := windows[e := data];
    }

    method OnExtensionUnloaded(e: ExtensionId)
      requires Storable()
      modifies this
      ensures State() == Unloaded(old(State()), e)
    {
      SyncToStorage();
      windows := windows - {e};
    }

    method OnTimer()
      requires Storable()
      modifies this
      ensures State() == Synced(old(State())).(timerRunning := false)
    {
      hide Synced;
      SyncToStorage();
      timerRunning := false;
    }
  }

  /** Any run of calls takes the cache through the states of the machine. */
  method Replay(cache: ShellWindowGeometryCache, ops: seq<Op>)
    requires WriteBehind(cache.State()) && Checked(cache.State()) && forall i :: 0 <= i < |ops| ==> ValidOp(ops[i])
    modifies cache
    ensures cache.State() == Run(old(cache.State()), ops)
    ensures WriteBehind(cache.State()) && Checked(cache.State())
  {
    hide WriteBehind, Checked, ShellWindowGeometryCache.State, ShellWindowGeometryCache.Storable;
    ghost var c := cache.State();
    for i := 0 to |ops|
      invariant cache.State() == Run(c, ops[..i]) && WriteBehind(cache.State()) && Checked(cache.State())
    {
      assert ops[..i + 1][..i] == ops[..i];
      WriteBehindStep(cache.State(), ops[i]);
      CheckedStep(cache.State(), ops[i]);
      DirtyValid(cache);
      match ops[i] {
        case Save(e, w, g, now) => cache.SaveGeometry(e, w, g, now);
        case Read(e, w) => var _ := cache.GetGeometry(e, w, true, true, true);
        case Load(e) => cache.LoadGeometryFromStorage(e);
        case Unload(e) => cache.OnExtensionUnloaded(e);
        case TimerFired => cache.OnTimer();
        case Shutdown => cache.SyncToStorage();
      }
    }
    assert ops[..|ops|] == ops;
  }

  lemma DirtyValid(cache: ShellWindowGeometryCache)
    requires Checked(cache.State())
    ensures cache.Storable()
  {
  }

  lemma SyncNone(c: Cache)
    ensures WindowsWith(c, {}) == c.windows && StoreWith(c, {}) == c.store
  {
  }

  lemma SyncOne(c: Cache, es: set<ExtensionId>, e: ExtensionId)
    requires e !in es
    ensures WindowsWith(c, es + {e}) == WindowsWith(c, es)[e := WindowsOf(c, e)]
    ensures StoreWith(c, es + {e}) == StoreWith(c, es)[e := EncodeAll(WindowsOf(c, e))]
  {
    hide EncodeAll, WindowsOf;
    var cached, stored := map x | x in es :: WindowsOf(c, x), map x | x in es :: EncodeAll(WindowsOf(c, x));
    assert (map x | x in es + {e} :: WindowsOf(c, x)) == cached[e := WindowsOf(c, e)];
    assert (map x | x in es + {e} :: EncodeAll(WindowsOf(c, x))) == stored[e := EncodeAll(WindowsOf(c, e))];
    PutLast(c.windows, cached, e, WindowsOf(c, e));
    PutLast(c.store, stored, e, EncodeAll(WindowsOf(c, e)));
  }

  lemma PutLast<V>(m: map<ExtensionId, V>, more: map<ExtensionId, V>, e: ExtensionId, v: V)
    ensures m + more[e := v] == (m + more)[e := v]
  {
  }

  /** An extension that has not been synced yet is cached as it was. */
  lemma NotSynced(c: Cache, es: set<ExtensionId>, e: ExtensionId)
    requires e !in es
    ensures (if e in WindowsWith(c, es) then WindowsWith(c, es)[e] else map[]) == WindowsOf(c, e)
  {
    assert e in WindowsWith(c, es) <==> e in c.windows;
  }

  function Restrict(stored: StoredWindows, ids: set<WindowId>): StoredWindows {
    map w | w in stored && w in ids :: stored[w]
  }

  lemma Merged(stored: StoredWindows, ids: set<WindowId>, before: Windows)
    requires ids == {}
    ensures DecodeAll(Restrict(stored, ids)) + before == before
    ensures stored == map[] ==> DecodeAll(stored) + before == before
  {
    assert Restrict(stored, ids) == map[];
  }

  /** One more stored window is looked at; it is taken unless it is already there. */
  lemma MergeOne(stored: StoredWindows, ids: set<WindowId>, before: Windows, w: WindowId)
    requires w in stored && w !in ids
    ensures var data := DecodeAll(Restrict(stored, ids)) + before;
            DecodeAll(Restrict(stored, ids + {w})) + before ==
            if w !in data && stored[w].Stored? then data[w := Decode(stored[w])] else data
  {
    hide Decode;
    assert w !in Restrict(stored, ids);
  }

  /** A stored window read field by field over the default one. */
  method DecodeWindow(stored: StoredWindow) returns (d: WindowData)
    requires stored.Stored?
    ensures d == Decode(stored)
  {
    var b, s, state, ts := EMPTY_RECT, EMPTY_RECT, 0, 0;
    if stored.x.Some? { b := b.(x := stored.x.value); }
    if stored.y.Some? { b := b.(y := stored.y.value); }
    if stored.w.Some? { b := b.(width := NonNegative(stored.w.value)); }
    if stored.h.Some? { b := b.(height := NonNegative(stored.h.value)); }
    if stored.sx.Some? { s := s.(x := stored.sx.value); }
    if stored.sy.Some? { s := s.(y := stored.sy.value); }
    if stored.sw.Some? { s := s.(width := NonNegative(stored.sw.value)); }
    if stored.sh.Some? { s := s.(height := NonNegative(stored.sh.value)); }
    if stored.state.Some? { state := stored.state.value; }
    if stored.ts.Some? { ts := stored.ts.value; }
    d := WindowData(Geometry(b, s, state), ts);
  }

  method EncodeWindows(data: Windows) returns (dict: StoredWindows)
    requires AllValid(data)
    ensures dict == EncodeAll(data)
  {
    hide Encode;
    dict := map[];
    var ids := data.Keys;
    ghost var done := {};
    while ids != {}
      invariant done + ids == data.Keys && done !! ids
      invariant dict == EncodeAll(map w | w in data && w in done :: data[w])
    {
      var w :| w in ids;
      assert data[w].geometry.Valid();
      dict := dict[w := Encode(data[w])];
      ids, done := ids - {w}, done + {w};
    }
    assert (map w | w in data && w in done :: data[w]) == data;
  }

  /** The keys an iterator has passed. */
  ghost predicate Passed(keys: set<WindowId>, it: Option<WindowId>, done: set<WindowId>) {
    && done <= keys
    && (it.Some? ==> it.value in keys)
    && forall k :: k in keys ==> (k in done <==> it.None? || Less(k, it.value))
  }

  lemma PassedFirst(keys: set<WindowId>, it: Option<WindowId>)
    requires it.None? <==> keys == {}
    requires it.Some? ==> IsFirst(it.value, keys)
    ensures Passed(keys, it, {})
  {
    forall k | k in keys ensures !Less(k, it.value) {
      Irreflexive(k);
      if Less(k, it.value) { Transitive(k, it.value, k); }
    }
  }

  lemma PassedNext(keys: set<WindowId>, k: WindowId, done: set<WindowId>, it: Option<WindowId>)
    requires Passed(keys, Some(k), done)
    requires it.None? ==> forall y :: y in keys ==> !Less(k, y)
    requires it.Some? ==> it.value in keys && Less(k, it.value)
    requires it.Some? ==> forall y :: y in keys && Less(k, y) && y != it.value ==> Less(it.value, y)
    ensures Passed(keys, it, done + {k})
  {
    forall y | y in keys ensures y in done + {k} <==> it.None? || Less(y, it.value) {
      Total(y, k);
      if it.Some? {
        Irreflexive(y);
        if Less(y, k) { Transitive(y, k, it.value); }
        if Less(y, it.value) && Less(it.value, y) { Transitive(y, it.value, y); }
      }
    }
  }

  /** The loop of SaveGeometry that finds the oldest window and erases it. */
  method EvictOldest(data: Windows, saved: WindowId, now: int) returns (kept: Windows)
    requires data.Keys - {saved} != {}
    ensures kept == Evict(data, saved, now)
  {
    hide Passed, OldestIn, IsFirst;
    kept := data;
    ghost var c := Clamped(data, saved, now);
    var oldest: Option<WindowId> := None;
    var it := Begin(data.Keys);
    PassedFirst(data.Keys, it);
    ghost var done: set<WindowId> := {};
    while it.Some?
      invariant kept.Keys == data.Keys && done <= data.Keys && Passed(data.Keys, it, done)
      invariant forall k :: k in data ==> kept[k] == if k in done then c[k] else data[k]
      invariant oldest.None? ==> done - {saved} == {}
      invariant oldest.Some? ==> OldestIn(c, done - {saved}, oldest.value) && oldest.value in done
      decreases data.Keys - done
    {
      var k := it.value;
      PassedMeans(data.Keys, k, done);
      if k != saved {
        if kept[k].lastChange > now {
          kept := kept[k := kept[k].(lastChange := now)];
        }
        assert kept[k] == c[k];
        OldestStep(c, done, saved, oldest, k);
        if oldest.None? || kept[k].lastChange < kept[oldest.value].lastChange {
          oldest := Some(k);
        }
      }
      assert (done + {k}) - {saved} == if k == saved then done - {saved} else (done - {saved}) + {k};
      it := Advance(data.Keys, k);
      PassedNext(data.Keys, k, done, it);
      done := done + {k};
    }
    PassedAll(data.Keys, done);
    assert kept == c;
    EvictUnique(data, saved, now, oldest.value);
    kept := kept - {oldest.value};
  }

  lemma PassedMeans(keys: set<WindowId>, k: WindowId, done: set<WindowId>)
    requires Passed(keys, Some(k), done)
    ensures k in keys && k !in done && forall y :: y in done ==> Less(y, k) && !Less(k, y)
  {
    Irreflexive(k);
    forall y | y in done ensures !Less(k, y) {
      if Less(k, y) { Transitive(k, y, k); }
    }
  }

  lemma PassedAll(keys: set<WindowId>, done: set<WindowId>)
    requires Passed(keys, None, done)
    ensures done == keys
  {
  }

  lemma OldestStep(c: Windows, done: set<WindowId>, saved: WindowId, oldest: Option<WindowId>, k: WindowId)
    requires done <= c.Keys && k in c && k !in done && k != saved
    requires forall y :: y in done ==> !Less(k, y)
    requires oldest.None? ==> done - {saved} == {}
    requires oldest.Some? ==> OldestIn(c, done - {saved}, oldest.value) && oldest.value in done
    ensures var next := if oldest.None? || c[k].lastChange < c[oldest.value].lastChange then k else oldest.value;
            OldestIn(c, (done - {saved}) + {k}, next)
  {
    if oldest.Some? {
      OldestWith(c, done - {saved}, oldest.value, k);
    }
  }

  lemma EvictUnique(ws: Windows, saved: WindowId, now: int, x: WindowId)
    requires ws.Keys - {saved} != {} && OldestIn(Clamped(ws, saved, now), ws.Keys - {saved}, x)
    ensures Evict(ws, saved, now) == Clamped(ws, saved, now) - {x}
  {
    var c := Clamped(ws, saved, now);
    assert Evicted(ws, saved, now, Evict(ws, saved, now));
    var y :| OldestIn(c, c.Keys - {saved}, y) && Evict(ws, saved, now) == c - {y};
    OldestUnique(c, c.Keys - {saved}, x, y);
  }
}
