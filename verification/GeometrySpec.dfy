/** The window geometry cache as a state machine over values, and what its clients
    can observe over whole runs. */
module GeometrySpec {
  import opened Wrappers
  import opened Gfx
  import opened Lexicographic

  type ExtensionId = string
  type WindowId = string

  /** The show state is the integer that is persisted; 0 is the default state. */
  datatype Geometry = Geometry(bounds: Rect, screenBounds: Rect, state: int) {
    /** What SyncToStorage demands of every window, and GetGeometry of what it returns. */
    predicate Valid() { !bounds.IsEmpty() && !screenBounds.IsEmpty() && state != 0 }
  }

  datatype WindowData = WindowData(geometry: Geometry, lastChange: int)

  const DEFAULT_GEOMETRY := Geometry(EMPTY_RECT, EMPTY_RECT, 0)
  const DEFAULT_DATA := WindowData(DEFAULT_GEOMETRY, 0)

  type Windows = map<WindowId, WindowData>

  const MAX_CACHED_WINDOWS: nat := 100

  // ----- The stored form -----

  /** A value of the stored dictionary; a missing or mistyped key reads as `None`. */
  datatype StoredWindow =
    | NotDictionary
    | Stored(x: Option<int>, y: Option<int>, w: Option<int>, h: Option<int>,
             sx: Option<int>, sy: Option<int>, sw: Option<int>, sh: Option<int>,
             state: Option<int>, ts: Option<int>)

  type StoredWindows = map<WindowId, StoredWindow>

  function Encode(d: WindowData): StoredWindow {
    var b, s := d.geometry.bounds, d.geometry.screenBounds;
    Stored(Some(b.x), Some(b.y), Some(b.width), Some(b.height),
           Some(s.x), Some(s.y), Some(s.width), Some(s.height),
           Some(d.geometry.state), Some(d.lastChange))
  }

  function Or(i: Option<int>): int {
    if i.Some? then i.value else 0
  }

  function Decode(s: StoredWindow): WindowData
    requires s.Stored?
  {
    WindowData(Geometry(Rect(Or(s.x), Or(s.y), NonNegative(Or(s.w)), NonNegative(Or(s.h))),
                        Rect(Or(s.sx), Or(s.sy), NonNegative(Or(s.sw)), NonNegative(Or(s.sh))),
                        Or(s.state)),
               Or(s.ts))
  }

  function EncodeAll(ws: Windows): StoredWindows {
    map w | w in ws :: Encode(ws[w])
  }

  function DecodeAll(stored: StoredWindows): Windows {
    map w | w in stored && stored[w].Stored? :: Decode(stored[w])
  }

  lemma DecodeEncode(ws: Windows)
    ensures DecodeAll(EncodeAll(ws)) == ws
  {
    assert forall w :: w in ws ==> Decode(Encode(ws[w])) == ws[w];
  }

  // ----- Eviction -----

  /** Times in the future count as now; the window just saved is left alone. */
  function Clamped(ws: Windows, saved: WindowId, now: int): (r: Windows)
    ensures r.Keys == ws.Keys
    ensures forall w :: w in ws ==>
              r[w] == if w != saved && ws[w].lastChange > now then ws[w].(lastChange := now) else ws[w]
  {
    map w | w in ws :: if w != saved && ws[w].lastChange > now then ws[w].(lastChange := now) else ws[w]
  }

  predicate Before(ws: Windows, w: WindowId, w': WindowId)
    requires w in ws && w' in ws
  {
    ws[w].lastChange < ws[w'].lastChange || (ws[w].lastChange == ws[w'].lastChange && Less(w, w'))
  }

  lemma BeforeOrder(ws: Windows, a: WindowId, b: WindowId, c: WindowId)
    requires a in ws && b in ws && c in ws
    ensures a == b || Before(ws, a, b) || Before(ws, b, a)
    ensures !(Before(ws, a, b) && Before(ws, b, a))
    ensures Before(ws, a, b) && Before(ws, b, c) ==> Before(ws, a, c)
  {
    Total(a, b);
    Irreflexive(a);
    if Less(a, b) && Less(b, a) { Transitive(a, b, a); }
    if Less(a, b) && Less(b, c) { Transitive(a, b, c); }
  }

  /** The first window in key order among those changed longest ago. */
  ghost predicate OldestIn(ws: Windows, among: set<WindowId>, w: WindowId)
    requires among <= ws.Keys
  {
    w in among && forall w' :: w' in among && w' != w ==> Before(ws, w, w')
  }

  lemma OldestUnique(ws: Windows, among: set<WindowId>, w: WindowId, w': WindowId)
    requires among <= ws.Keys && OldestIn(ws, among, w) && OldestIn(ws, among, w')
    ensures w == w'
  {
    BeforeOrder(ws, w, w', w);
  }

  lemma {:induction false} OldestExists(ws: Windows, among: set<WindowId>)
    requires among != {} && among <= ws.Keys
    ensures exists w :: OldestIn(ws, among, w)
    decreases |among|
  {
    var x :| x in among;
    var rest := among - {x};
    if rest == {} {
      assert among == {x};
      assert OldestIn(ws, among, x);
    } else {
      OldestExists(ws, rest);
      var m :| OldestIn(ws, rest, m);
      OldestWith(ws, rest, m, x);
      assert among == rest + {x};
    }
  }

  /** Looking at one more window. */
  lemma OldestWith(ws: Windows, among: set<WindowId>, m: WindowId, x: WindowId)
    requires among <= ws.Keys && OldestIn(ws, among, m) && x in ws && x !in among
    ensures OldestIn(ws, among + {x}, if Before(ws, x, m) then x else m)
  {
    hide Before;
    BeforeOrder(ws, x, m, x);
    forall w' | w' in among && w' != m ensures Before(ws, x, m) ==> Before(ws, x, w') {
      BeforeOrder(ws, x, m, w');
    }
  }

  ghost predicate Evicted(ws: Windows, saved: WindowId, now: int, r: Windows) {
    var c := Clamped(ws, saved, now);
    exists x :: OldestIn(c, c.Keys - {saved}, x) && r == c - {x}
  }

  lemma EvictedExists(ws: Windows, saved: WindowId, now: int)
    requires ws.Keys - {saved} != {}
    ensures exists r :: Evicted(ws, saved, now, r)
  {
    var c := Clamped(ws, saved, now);
    OldestExists(c, c.Keys - {saved});
    var x :| OldestIn(c, c.Keys - {saved}, x);
    assert Evicted(ws, saved, now, c - {x});
  }

  /** The windows that remain when one is evicted to make room for the saved one. */
  ghost function Evict(ws: Windows, saved: WindowId, now: int): (r: Windows)
    requires ws.Keys - {saved} != {}
    ensures Evicted(ws, saved, now, r)
  {
    EvictedExists(ws, saved, now);
    var r :| Evicted(ws, saved, now, r);
    r
  }

  // ----- The state machine -----

  datatype Cache = Cache(windows: map<ExtensionId, Windows>, unsynced: set<ExtensionId>,
                         store: map<ExtensionId, StoredWindows>, timerRunning: bool)

  datatype Op =
    | Save(e: ExtensionId, w: WindowId, g: Geometry, now: int)
    | Read(e: ExtensionId, w: WindowId)
    | Load(e: ExtensionId)
    | Unload(e: ExtensionId)
    | TimerFired
    | Shutdown

  function WindowsOf(c: Cache, e: ExtensionId): Windows {
    if e in c.windows then c.windows[e] else map[]
  }

  function StoredOf(c: Cache, e: ExtensionId): StoredWindows {
    if e in c.store then c.store[e] else map[]
  }

  function DataOf(c: Cache, e: ExtensionId, w: WindowId): WindowData {
    if w in WindowsOf(c, e) then WindowsOf(c, e)[w] else DEFAULT_DATA
  }

  /** SaveGeometry ignores a save that changes nothing. */
  predicate Duplicate(c: Cache, e: ExtensionId, w: WindowId, g: Geometry) {
    DataOf(c, e, w).geometry == g && e !in c.unsynced
  }

  predicate Overfull(ws: Windows) {
    |ws| > MAX_CACHED_WINDOWS
  }

  lemma OverfullHasOther(ws: Windows, saved: WindowId)
    requires Overfull(ws)
    ensures ws.Keys - {saved} != {}
  {
    if ws.Keys - {saved} == {} {
      assert ws.Keys <= {saved};
      assert |ws.Keys| <= |{saved}| by { SubsetSize(ws.Keys, {saved}); }
    }
  }

  lemma {:induction false} SubsetSize(a: set<WindowId>, b: set<WindowId>)
    requires a <= b
    ensures |a| <= |b|
  {
    if a != {} {
      var x :| x in a;
      SubsetSize(a - {x}, b - {x});
    }
  }

  /** One window leaves if there are too many. */
  ghost function Kept(ws: Windows, saved: WindowId, now: int): Windows {
    if Overfull(ws) then OverfullHasOther(ws, saved); Evict(ws, saved, now) else ws
  }

  ghost function Saved(c: Cache, e: ExtensionId, w: WindowId, g: Geometry, now: int): Cache {
    if Duplicate(c, e, w, g) then
      c.(windows := c.windows[e := WindowsOf(c, e)[w := DataOf(c, e, w)]])
    else
      var kept := Kept(WindowsOf(c, e)[w := WindowData(g, now)], w, now);
      c.(windows := c.windows[e := kept], unsynced := c.unsynced + {e}, timerRunning := true)
  }

  function WindowsWith(c: Cache, es: set<ExtensionId>): map<ExtensionId, Windows> {
    c.windows + map e | e in es :: WindowsOf(c, e)
  }

  function StoreWith(c: Cache, es: set<ExtensionId>): map<ExtensionId, StoredWindows> {
    c.store + map e | e in es :: EncodeAll(WindowsOf(c, e))
  }

  function Synced(c: Cache): Cache {
    c.(windows := WindowsWith(c, c.unsynced), unsynced := {}, store := StoreWith(c, c.unsynced))
  }

  /** Stored windows never overwrite cached ones. */
  function Loaded(c: Cache, e: ExtensionId): Cache {
    c.(windows := c.windows[e := DecodeAll(StoredOf(c, e)) + WindowsOf(c, e)])
  }

  function Unloaded(c: Cache, e: ExtensionId): Cache {
    var s := Synced(c);
    s.(windows := s.windows - {e})
  }

  function Touched(c: Cache, e: ExtensionId): Cache {
    if e in c.windows then c else Loaded(c, e)
  }

  /** What GetGeometry answers; corrupt data is not returned. */
  function Answer(c: Cache, e: ExtensionId, w: WindowId): Option<Geometry> {
    var ws := WindowsOf(Touched(c, e), e);
    if w in ws && ws[w].geometry.Valid() then Some(ws[w].geometry) else None
  }

  ghost function Step(c: Cache, op: Op): Cache {
    match op
    case Save(e, w, g, now) => Saved(c, e, w, g, now)
    case Read(e, _) => Touched(c, e)
    case Load(e) => Loaded(c, e)
    case Unload(e) => Unloaded(c, e)
    case TimerFired => Synced(c).(timerRunning := false)
    case Shutdown => Synced(c)
  }

  ghost function Run(c: Cache, ops: seq<Op>): Cache {
    if ops == [] then c else Step(Run(c, ops[..|ops| - 1]), ops[|ops| - 1])
  }

  // ----- The write-behind invariant -----

  /** A cached extension that is not unsynced equals its stored dictionary. */
  ghost predicate Coherent(c: Cache) {
    forall e :: e in c.windows && e !in c.unsynced ==> c.windows[e] == DecodeAll(StoredOf(c, e))
  }

  /** Unsynced extensions are cached, the others equal what is stored, and unsynced data
      has a flush scheduled. */
  ghost predicate WriteBehind(c: Cache) {
    && c.unsynced <= c.windows.Keys
    && Coherent(c)
    && (c.unsynced != {} ==> c.timerRunning)
  }

  predicate NonDefault(op: Op) {
    op.Save? ==> op.g != DEFAULT_GEOMETRY
  }

  /** A duplicate of a cached window changes nothing. */
  lemma DuplicateIgnored(c: Cache, e: ExtensionId, w: WindowId, g: Geometry, now: int)
    requires Duplicate(c, e, w, g) && w in WindowsOf(c, e)
    ensures Saved(c, e, w, g, now) == c
  {
    assert WindowsOf(c, e)[w := DataOf(c, e, w)] == WindowsOf(c, e);
    assert c.windows[e := WindowsOf(c, e)] == c.windows;
  }

  lemma WriteBehindSaved(c: Cache, e: ExtensionId, w: WindowId, g: Geometry, now: int)
    requires WriteBehind(c) && g != DEFAULT_GEOMETRY
    ensures WriteBehind(Saved(c, e, w, g, now))
  {
    if Duplicate(c, e, w, g) {
      DuplicateIgnored(c, e, w, g, now);
    } else {
      WriteBehindDirty(c, e, WindowsOf(Saved(c, e, w, g, now), e));
    }
    hide WriteBehind;
  }

  lemma WriteBehindDirty(c: Cache, e: ExtensionId, ws: Windows)
    requires WriteBehind(c)
    ensures WriteBehind(c.(windows := c.windows[e := ws], unsynced := c.unsynced + {e}, timerRunning := true))
  {
    hide DecodeAll;
  }

  lemma WriteBehindLoaded(c: Cache, e: ExtensionId)
    requires WriteBehind(c)
    ensures WriteBehind(Loaded(c, e))
  {
    hide DecodeAll;
    var ws := WindowsOf(Loaded(c, e), e);
    assert e !in c.unsynced ==> ws == DecodeAll(StoredOf(c, e));
  }

  /** After a sync every cached extension is stored as it is cached. */
  lemma SyncedStored(c: Cache)
    requires c.unsynced <= c.windows.Keys
    ensures Synced(c).windows == c.windows
    ensures forall e :: e in c.unsynced ==> DecodeAll(StoredOf(Synced(c), e)) == c.windows[e]
    ensures forall e :: e !in c.unsynced ==> StoredOf(Synced(c), e) == StoredOf(c, e)
  {
    hide DecodeAll, EncodeAll;
    forall e | e in c.unsynced ensures DecodeAll(StoredOf(Synced(c), e)) == c.windows[e] {
      DecodeEncode(c.windows[e]);
    }
  }

  lemma WriteBehindSynced(c: Cache)
    requires WriteBehind(c)
    ensures WriteBehind(Synced(c)) && WriteBehind(Synced(c).(timerRunning := false))
  {
    hide DecodeAll, EncodeAll;
    SyncedStored(c);
  }

  lemma WriteBehindUnloaded(c: Cache, e: ExtensionId)
    requires WriteBehind(c)
    ensures WriteBehind(Unloaded(c, e))
  {
    hide DecodeAll, EncodeAll;
    WriteBehindSynced(c);
  }

  /** Every operation keeps the invariant, on any store and for any geometry that is not
      the default one. */
  lemma WriteBehindStep(c: Cache, op: Op)
    requires WriteBehind(c) && NonDefault(op)
    ensures WriteBehind(Step(c, op))
  {
    hide WriteBehind;
    match op
    case Save(e, w, g, now) => WriteBehindSaved(c, e, w, g, now);
    case Read(e, _) => WriteBehindLoaded(c, e);
    case Load(e) => WriteBehindLoaded(c, e);
    case Unload(e) => WriteBehindUnloaded(c, e);
    case TimerFired => WriteBehindSynced(c);
    case Shutdown => WriteBehindSynced(c);
  }

  lemma {:induction false} WriteBehindRun(c: Cache, ops: seq<Op>)
    requires WriteBehind(c) && forall i :: 0 <= i < |ops| ==> NonDefault(ops[i])
    ensures WriteBehind(Run(c, ops))
  {
    hide WriteBehind, Step;
    if ops == [] {
    } else {
      WriteBehindRun(c, ops[..|ops| - 1]);
      WriteBehindStep(Run(c, ops[..|ops| - 1]), ops[|ops| - 1]);
    }
  }

  /** A save breaks coherence exactly when it is the default geometry, for a window
      that is not cached, of an extension with nothing to sync: it is then ignored as
      a duplicate of the entry it has just created, and that entry alone is not by
      chance what is stored. */
  lemma SaveCoherentIff(c: Cache, e: ExtensionId, w: WindowId, g: Geometry, now: int)
    requires WriteBehind(c)
    ensures Coherent(Saved(c, e, w, g, now)) <==>
            || !(g == DEFAULT_GEOMETRY && w !in WindowsOf(c, e) && e !in c.unsynced)
            || (e !in c.windows && DecodeAll(StoredOf(c, e)) == map[w := DEFAULT_DATA])
  {
    hide DecodeAll;
    if !Duplicate(c, e, w, g) {
      WriteBehindDirty(c, e, WindowsOf(Saved(c, e, w, g, now), e));
    } else if w in WindowsOf(c, e) {
      DuplicateIgnored(c, e, w, g, now);
    } else {
      var s := Saved(c, e, w, g, now);
      assert s.windows[e] == WindowsOf(c, e)[w := DEFAULT_DATA];
      assert w in s.windows[e];
      assert e !in c.windows ==> s.windows[e] == map[w := DEFAULT_DATA];
      assert Coherent(s) <==> s.windows[e] == DecodeAll(StoredOf(c, e));
    }
  }

  // ----- The checks of SyncToStorage -----

  ghost predicate AllValid(ws: Windows) {
    forall w :: w in ws ==> ws[w].geometry.Valid()
  }

  /** Every window, cached or stored, has the geometry that SyncToStorage demands. */
  ghost predicate Checked(c: Cache) {
    && (forall e :: AllValid(WindowsOf(c, e)))
    && (forall e :: AllValid(DecodeAll(StoredOf(c, e))))
  }

  predicate ValidOp(op: Op) {
    op.Save? ==> op.g.Valid()
  }

  lemma SavedValid(c: Cache, e: ExtensionId, w: WindowId, g: Geometry, now: int)
    requires AllValid(WindowsOf(c, e)) && g.Valid()
    ensures AllValid(WindowsOf(Saved(c, e, w, g, now), e))
  {
    hide DecodeAll;
    var ws := WindowsOf(c, e)[w := WindowData(g, now)];
    assert AllValid(ws) && AllValid(Clamped(ws, w, now));
  }

  /** Only the cached windows of one extension change. */
  lemma CheckedWith(c: Cache, s: Cache, e: ExtensionId)
    requires Checked(c) && s.store == c.store && AllValid(WindowsOf(s, e))
    requires forall x :: x != e ==> WindowsOf(s, x) == WindowsOf(c, x)
    ensures Checked(s)
  {
    hide AllValid, DecodeAll, WindowsOf;
    forall x ensures AllValid(WindowsOf(s, x)) && AllValid(DecodeAll(StoredOf(s, x))) {
      assert AllValid(WindowsOf(c, x)) && AllValid(DecodeAll(StoredOf(c, x)));
    }
  }

  lemma CheckedSaved(c: Cache, e: ExtensionId, w: WindowId, g: Geometry, now: int)
    requires Checked(c) && g.Valid()
    ensures Checked(Saved(c, e, w, g, now))
  {
    SavedValid(c, e, w, g, now);
    hide Checked, AllValid;
    CheckedWith(c, Saved(c, e, w, g, now), e);
  }

  lemma CheckedLoaded(c: Cache, e: ExtensionId)
    requires Checked(c)
    ensures Checked(Loaded(c, e))
  {
    var stored, cached := DecodeAll(StoredOf(c, e)), WindowsOf(c, e);
    hide DecodeAll;
    assert AllValid(stored + cached) by {
      assert AllValid(stored) && AllValid(cached);
    }
    hide Checked, AllValid;
    CheckedWith(c, Loaded(c, e), e);
  }

  lemma CheckedSynced(c: Cache)
    requires WriteBehind(c) && Checked(c)
    ensures Checked(Synced(c))
  {
    SyncedStored(c);
    hide AllValid, DecodeAll, Synced;
    var s := Synced(c);
    forall e ensures AllValid(WindowsOf(s, e)) && AllValid(DecodeAll(StoredOf(s, e))) {
      assert AllValid(WindowsOf(c, e)) && AllValid(DecodeAll(StoredOf(c, e)));
      assert WindowsOf(s, e) == WindowsOf(c, e);
      assert e in c.unsynced ==> DecodeAll(StoredOf(s, e)) == WindowsOf(c, e);
    }
  }

  lemma CheckedUnloaded(c: Cache, e: ExtensionId)
    requires Checked(Synced(c))
    ensures Checked(Unloaded(c, e))
  {
    hide DecodeAll, Synced;
    assert AllValid(map[]);
    hide Checked, AllValid;
    CheckedWith(Synced(c), Unloaded(c, e), e);
  }

  lemma CheckedTimer(c: Cache)
    requires Checked(c)
    ensures Checked(c.(timerRunning := false))
  {
    hide AllValid, DecodeAll;
    var s := c.(timerRunning := false);
    forall e ensures AllValid(WindowsOf(s, e)) && AllValid(DecodeAll(StoredOf(s, e))) {
      assert AllValid(WindowsOf(c, e)) && AllValid(DecodeAll(StoredOf(c, e)));
    }
  }

  /** On a store whose windows meet the checks, valid saves keep them met. */
  lemma CheckedStep(c: Cache, op: Op)
    requires WriteBehind(c) && Checked(c) && ValidOp(op)
    ensures Checked(Step(c, op))
  {
    hide Checked, WriteBehind, Saved, Loaded, Synced, Unloaded;
    match op
    case Save(e, w, g, now) => CheckedSaved(c, e, w, g, now);
    case Read(e, _) => CheckedLoaded(c, e);
    case Load(e) => CheckedLoaded(c, e);
    case Unload(e) =>
      CheckedSynced(c);
      CheckedUnloaded(c, e);
    case TimerFired =>
      CheckedSynced(c);
      CheckedTimer(Synced(c));
    case Shutdown => CheckedSynced(c);
  }

  // ----- What a client can observe -----

  /** What is in the cache, or else in the store. */
  function Current(c: Cache, e: ExtensionId): Windows {
    if e in c.windows then c.windows[e] else DecodeAll(StoredOf(c, e))
  }

  lemma AnswerCurrent(c: Cache, e: ExtensionId, w: WindowId)
    ensures Answer(c, e, w) == if w in Current(c, e) && Current(c, e)[w].geometry.Valid()
                               then Some(Current(c, e)[w].geometry) else None
  {
    hide DecodeAll;
    assert DecodeAll(StoredOf(c, e)) + map[] == DecodeAll(StoredOf(c, e));
  }

  lemma SyncKeepsCurrent(c: Cache, x: ExtensionId, e: ExtensionId)
    requires WriteBehind(c)
    ensures Current(Synced(c), e) == Current(c, e) && Current(Unloaded(c, x), e) == Current(c, e)
  {
    hide DecodeAll, EncodeAll;
    SyncedStored(c);
  }

  lemma TouchKeepsCurrent(c: Cache, x: ExtensionId, e: ExtensionId)
    ensures Current(Touched(c, x), e) == Current(c, e)
  {
    hide DecodeAll;
    assert DecodeAll(StoredOf(c, e)) + map[] == DecodeAll(StoredOf(c, e));
  }

  /** Writing back, unloading and reading cannot be observed. */
  lemma Invisible(c: Cache, op: Op, e: ExtensionId, w: WindowId)
    requires WriteBehind(c) && (op.Read? || op.Unload? || op.TimerFired? || op.Shutdown?)
    ensures Answer(Step(c, op), e, w) == Answer(c, e, w)
  {
    AnswerCurrent(c, e, w);
    AnswerCurrent(Step(c, op), e, w);
    match op
    case Read(x, _) => TouchKeepsCurrent(c, x, e);
    case Unload(x) => SyncKeepsCurrent(c, x, e);
    case TimerFired => SyncKeepsCurrent(c, e, e);
    case Shutdown => SyncKeepsCurrent(c, e, e);
    hide WriteBehind, Answer;
  }

  /** A load never changes an answer that was there. */
  lemma LoadKeepsAnswers(c: Cache, x: ExtensionId, e: ExtensionId, w: WindowId)
    requires Answer(c, e, w).Some?
    ensures Answer(Loaded(c, x), e, w) == Answer(c, e, w)
  {
    hide DecodeAll;
  }

  /** A valid save can be read back at once: the saved window is never evicted. */
  lemma SaveThenRead(c: Cache, e: ExtensionId, w: WindowId, g: Geometry, now: int)
    requires g.Valid()
    ensures Answer(Saved(c, e, w, g, now), e, w) == Some(g)
  {
    hide DecodeAll;
  }

  // ----- Eviction, seen from outside -----

  /** The save makes room by dropping `x`: the cache of the extension is over the
      limit, and `x` is the first window in key order among those changed longest ago,
      a time in the future counting as now. */
  ghost predicate Evicts(c: Cache, e: ExtensionId, w: WindowId, g: Geometry, now: int, x: WindowId) {
    var ws := WindowsOf(c, e)[w := WindowData(g, now)];
    !Duplicate(c, e, w, g) && Overfull(ws) && OldestIn(Clamped(ws, w, now), ws.Keys - {w}, x)
  }

  lemma SavedWindows(c: Cache, e: ExtensionId, w: WindowId, g: Geometry, now: int, x: WindowId)
    ensures var ws := WindowsOf(Saved(c, e, w, g, now), e);
            && w in ws && ws[w].geometry == g
            && (x != w ==> (x in ws <==> x in WindowsOf(c, e) && !Evicts(c, e, w, g, now, x)))
            && (x != w && x in ws ==> ws[x].geometry == WindowsOf(c, e)[x].geometry)
  {
    var ws := WindowsOf(c, e)[w := WindowData(g, now)];
    if !Duplicate(c, e, w, g) && Overfull(ws) {
      OverfullHasOther(ws, w);
      assert Evicted(ws, w, now, Evict(ws, w, now));
      var v :| OldestIn(Clamped(ws, w, now), ws.Keys - {w}, v) && Evict(ws, w, now) == Clamped(ws, w, now) - {v};
      if Evicts(c, e, w, g, now, x) {
        OldestUnique(Clamped(ws, w, now), ws.Keys - {w}, v, x);
      }
    }
    hide Evict, Evicted, OldestIn;
  }

  /** A time in the future counts as now. */
  function Capped(time: int, now: int): int {
    if time > now then now else time
  }

  /** Changed longer ago, or just as long ago and first in the order of strings. */
  predicate Sooner(ws: Windows, x: WindowId, y: WindowId, now: int)
    requires x in ws && y in ws
  {
    var a, b := Capped(ws[x].lastChange, now), Capped(ws[y].lastChange, now);
    a < b || (a == b && Less(x, y))
  }

  lemma BeforeMeans(ws: Windows, saved: WindowId, now: int, x: WindowId, y: WindowId)
    requires x in ws && y in ws && x != saved && y != saved
    ensures Before(Clamped(ws, saved, now), x, y) == Sooner(ws, x, y, now)
  {
    hide Less;
    var clamped := Clamped(ws, saved, now);
    assert clamped[x].lastChange == Capped(ws[x].lastChange, now);
    assert clamped[y].lastChange == Capped(ws[y].lastChange, now);
  }

  /** The evicted window: not the saved one, and sooner than all others. */
  lemma EvictsMeans(c: Cache, e: ExtensionId, w: WindowId, g: Geometry, now: int, x: WindowId)
    requires !(e !in c.unsynced && DataOf(c, e, w).geometry == g)
    ensures var ws := WindowsOf(c, e)[w := WindowData(g, now)];
            Evicts(c, e, w, g, now, x) <==>
            |ws| > 100 && x in ws && x != w && forall y :: y in ws && y != w && y != x ==> Sooner(ws, x, y, now)
  {
    var ws := WindowsOf(c, e)[w := WindowData(g, now)];
    if x in ws && x != w {
      forall y | y in ws && y != w ensures Before(Clamped(ws, w, now), x, y) == Sooner(ws, x, y, now) {
        BeforeMeans(ws, w, now, x, y);
      }
    }
    hide Clamped, Before, Sooner, WindowsOf, DataOf;
  }

  /** The save finds the window as it leaves it, and nothing of its extension to flush. */
  predicate Known(c: Cache, e: ExtensionId, w: WindowId, g: Geometry) {
    e !in c.unsynced && e in c.windows && w in c.windows[e] && c.windows[e][w].geometry == g
  }

  /** Such a save changes nothing at all. */
  lemma KnownIgnored(c: Cache, e: ExtensionId, w: WindowId, g: Geometry, now: int)
    requires Known(c, e, w, g)
    ensures Saved(c, e, w, g, now) == c
  {
    DuplicateIgnored(c, e, w, g, now);
  }

  /** What a save leaves of the windows: the saved one has the geometry and the present
      time; the others that stay keep their geometry and, unless one had to leave, their
      time, which else is capped. */
  ghost predicate Stamped(before: Windows, after: Windows, w: WindowId, g: Geometry, now: int) {
    && w in after && after[w] == WindowData(g, now)
    && forall y :: y in after && y != w ==>
         && y in before && after[y].geometry == before[y].geometry
         && after[y].lastChange ==
            if |before.Keys + {w}| > 100 then Capped(before[y].lastChange, now) else before[y].lastChange
  }

  /** Any other save, of a geometry that is not the default one: its extension waits for a
      flush, which is scheduled; nothing is stored, and other extensions are as before. */
  lemma SaveStamps(c: Cache, e: ExtensionId, w: WindowId, g: Geometry, now: int)
    requires !Known(c, e, w, g) && g != DEFAULT_GEOMETRY
    ensures var s := Saved(c, e, w, g, now);
            && e in s.windows
            && s == Cache(c.windows[e := s.windows[e]], c.unsynced + {e}, c.store, true)
            && Stamped(WindowsOf(c, e), s.windows[e], w, g, now)
  {
    NotDuplicate(c, e, w, g);
    hide Duplicate, Known, Kept, Stamped, DataOf;
    StampsKept(WindowsOf(c, e), w, g, now);
  }

  lemma NotDuplicate(c: Cache, e: ExtensionId, w: WindowId, g: Geometry)
    requires !Known(c, e, w, g) && g != DEFAULT_GEOMETRY
    ensures !Duplicate(c, e, w, g)
  {
  }

  lemma StampsKept(before: Windows, w: WindowId, g: Geometry, now: int)
    ensures Stamped(before, Kept(before[w := WindowData(g, now)], w, now), w, g, now)
  {
    var ws := before[w := WindowData(g, now)];
    assert ws.Keys == before.Keys + {w};
    if Overfull(ws) {
      OverfullHasOther(ws, w);
      EvictKeeps(ws, w, now);
    }
    hide Evict, Capped;
  }

  lemma EvictKeeps(ws: Windows, saved: WindowId, now: int)
    requires saved in ws && ws.Keys - {saved} != {}
    ensures var r := Evict(ws, saved, now);
            && saved in r && r[saved] == ws[saved]
            && forall y :: y in r && y != saved ==>
                 y in ws && r[y] == ws[y].(lastChange := Capped(ws[y].lastChange, now))
  {
    assert Evicted(ws, saved, now, Evict(ws, saved, now));
    hide Evict;
  }

  /** Each value is stored under its own key. */
  lemma EncodeKeys(g: Geometry, time: int)
    ensures var s := Encode(WindowData(g, time));
            && s.Stored?
            && s.x == Some(g.bounds.x) && s.y == Some(g.bounds.y)
            && s.w == Some(g.bounds.width) && s.h == Some(g.bounds.height)
            && s.sx == Some(g.screenBounds.x) && s.sy == Some(g.screenBounds.y)
            && s.sw == Some(g.screenBounds.width) && s.sh == Some(g.screenBounds.height)
            && s.state == Some(g.state) && s.ts == Some(time)
  {
  }

  /** A value read from the stored dictionary: 0 if its key is missing. */
  predicate Reads(stored: Option<int>, value: int) {
    (stored.None? ==> value == 0) && (stored.Some? ==> value == stored.value)
  }

  /** The same for a width or a height, where a negative number also reads as 0. */
  predicate ReadsLength(stored: Option<int>, value: int) {
    if stored.Some? && stored.value >= 0 then value == stored.value else value == 0
  }

  lemma DecodeKeys(s: StoredWindow)
    requires s.Stored?
    ensures var d := Decode(s);
            var b, sb := d.geometry.bounds, d.geometry.screenBounds;
            && Reads(s.x, b.x) && Reads(s.y, b.y) && ReadsLength(s.w, b.width) && ReadsLength(s.h, b.height)
            && Reads(s.sx, sb.x) && Reads(s.sy, sb.y) && ReadsLength(s.sw, sb.width) && ReadsLength(s.sh, sb.height)
            && Reads(s.state, d.geometry.state) && Reads(s.ts, d.lastChange)
  {
  }

  /** After a load, what was cached is answered as before, and of the other windows, what
      is stored. */
  lemma LoadAnswers(c: Cache, e: ExtensionId, w: WindowId)
    ensures e in c.windows && w in c.windows[e] ==> Answer(Loaded(c, e), e, w) == Answer(c, e, w)
    ensures !(e in c.windows && w in c.windows[e]) ==>
              Answer(Loaded(c, e), e, w) ==
              if w in StoredOf(c, e) && StoredOf(c, e)[w].Stored? && Decode(StoredOf(c, e)[w]).geometry.Valid()
              then Some(Decode(StoredOf(c, e)[w]).geometry) else None
  {
  }
}
