/** What clients of the geometry cache can rely on over whole runs, on any store and for
    any saves. */
module GeometryRuns {
  import opened Wrappers
  import opened GeometrySpec

  // ----- No valid geometry is lost by dropping a cached extension -----

  /** The geometry is stored for the window. */
  ghost predicate StoredAs(c: Cache, e: ExtensionId, w: WindowId, g: Geometry) {
    var stored := DecodeAll(StoredOf(c, e));
    w in stored && stored[w].geometry == g
  }

  /** Unsynced extensions are cached, and every valid geometry of a cached extension that
      is not unsynced is also stored. */
  ghost predicate Backed(c: Cache) {
    && c.unsynced <= c.windows.Keys
    && forall e, w :: e in c.windows && e !in c.unsynced && w in c.windows[e] && c.windows[e][w].geometry.Valid() ==>
         StoredAs(c, e, w, c.windows[e][w].geometry)
  }

  lemma BackedSaved(c: Cache, e: ExtensionId, w: WindowId, g: Geometry, now: int)
    requires Backed(c)
    ensures Backed(Saved(c, e, w, g, now))
  {
    hide DecodeAll, Evict;
    var s := Saved(c, e, w, g, now);
    forall x, v | x in s.windows && x !in s.unsynced && v in s.windows[x] && s.windows[x][v].geometry.Valid()
      ensures StoredAs(s, x, v, s.windows[x][v].geometry)
    {
      assert x in c.windows && v in c.windows[x] && c.windows[x][v] == s.windows[x][v];
      assert StoredAs(c, x, v, c.windows[x][v].geometry);
    }
  }

  lemma BackedLoaded(c: Cache, e: ExtensionId)
    requires Backed(c)
    ensures Backed(Loaded(c, e))
  {
    hide DecodeAll;
    var s := Loaded(c, e);
    forall x, v | x in s.windows && x !in s.unsynced && v in s.windows[x] && s.windows[x][v].geometry.Valid()
      ensures StoredAs(s, x, v, s.windows[x][v].geometry)
    {
      if x in c.windows && v in c.windows[x] {
        assert StoredAs(c, x, v, c.windows[x][v].geometry);
      }
    }
  }

  lemma BackedSynced(c: Cache)
    requires Backed(c)
    ensures Backed(Synced(c)) && Backed(Synced(c).(timerRunning := false))
  {
    SyncedStored(c);
    hide DecodeAll, Synced;
    var s := Synced(c);
    forall x, v | x in s.windows && v in s.windows[x] && s.windows[x][v].geometry.Valid()
      ensures StoredAs(s, x, v, s.windows[x][v].geometry)
    {
      if x !in c.unsynced {
        assert StoredAs(c, x, v, c.windows[x][v].geometry);
      }
    }
    assert forall x, v, g :: StoredAs(s.(timerRunning := false), x, v, g) == StoredAs(s, x, v, g);
    assert s.unsynced == {} by { SyncedClean(c); }
  }

  lemma SyncedClean(c: Cache)
    ensures Synced(c).unsynced == {}
  {
  }

  lemma BackedUnloaded(c: Cache, e: ExtensionId)
    requires Backed(c)
    ensures Backed(Unloaded(c, e))
  {
    BackedSynced(c);
    var s, u := Synced(c), Unloaded(c, e);
    assert u == s.(windows := s.windows - {e}) && s.unsynced == {};
    hide DecodeAll, Synced;
    assert forall x, v, g :: StoredAs(u, x, v, g) == StoredAs(s, x, v, g);
  }

  /** Every operation keeps this, a save of the default geometry included. */
  lemma BackedStep(c: Cache, op: Op)
    requires Backed(c)
    ensures Backed(Step(c, op))
  {
    hide Backed;
    match op
    case Save(e, w, g, now) => BackedSaved(c, e, w, g, now);
    case Read(e, _) => BackedLoaded(c, e);
    case Load(e) => BackedLoaded(c, e);
    case Unload(e) => BackedUnloaded(c, e);
    case TimerFired => BackedSynced(c);
    case Shutdown => BackedSynced(c);
  }

  lemma {:induction false} BackedRun(c: Cache, ops: seq<Op>)
    requires Backed(c)
    ensures Backed(Run(c, ops))
  {
    hide Backed, Step;
    if ops == [] {
    } else {
      BackedRun(c, ops[..|ops| - 1]);
      BackedStep(Run(c, ops[..|ops| - 1]), ops[|ops| - 1]);
    }
  }

  // ----- Reading one's writes -----

  /** The operation takes `g` away from window `w`: it saves another geometry for it;
      or it saves another window and evicts `w`; or it saves another window of an
      extension that has not been loaded or read since it was unloaded. */
  ghost predicate Loses(c: Cache, op: Op, e: ExtensionId, w: WindowId, g: Geometry) {
    op.Save? && op.e == e &&
    if op.w == w then op.g != g
    else e !in c.windows || Evicts(c, e, op.w, op.g, op.now, w)
  }

  lemma SaveElsewhere(c: Cache, op: Op, e: ExtensionId)
    requires op.Save? && op.e != e
    ensures Current(Step(c, op), e) == Current(c, e)
  {
    hide DecodeAll, Evict;
  }

  /** Flushing keeps what is there. */
  lemma SyncKeepsAnswer(c: Cache, e: ExtensionId, w: WindowId, g: Geometry)
    requires Backed(c) && Answer(c, e, w) == Some(g)
    ensures Answer(Synced(c), e, w) == Some(g) && Answer(Synced(c).(timerRunning := false), e, w) == Some(g)
  {
    AnswerCurrent(c, e, w);
    AnswerCurrent(Synced(c), e, w);
    AnswerCurrent(Synced(c).(timerRunning := false), e, w);
    SyncedStored(c);
    hide DecodeAll, EncodeAll, Answer, Synced;
  }

  lemma UnloadedCurrent(c: Cache, x: ExtensionId, e: ExtensionId)
    ensures var s := Synced(c);
            Current(Unloaded(c, x), e) == if e == x then DecodeAll(StoredOf(s, e)) else Current(s, e)
  {
    hide DecodeAll, Synced;
  }

  /** So does dropping an extension after flushing. */
  lemma UnloadKeepsAnswer(c: Cache, x: ExtensionId, e: ExtensionId, w: WindowId, g: Geometry)
    requires Backed(c) && Answer(c, e, w) == Some(g)
    ensures Answer(Unloaded(c, x), e, w) == Some(g)
  {
    var s := Synced(c);
    SyncKeepsAnswer(c, e, w, g);
    BackedSynced(c);
    SyncedClean(c);
    AnswerCurrent(s, e, w);
    AnswerCurrent(Unloaded(c, x), e, w);
    UnloadedCurrent(c, x, e);
    hide DecodeAll, Answer, Synced, Unloaded;
    if e in s.windows {
      assert StoredAs(s, e, w, g);
    }
  }

  lemma SaveKeepsIff(c: Cache, x: ExtensionId, v: WindowId, h: Geometry, now: int,
                     e: ExtensionId, w: WindowId, g: Geometry)
    requires Answer(c, e, w) == Some(g)
    ensures Answer(Saved(c, x, v, h, now), e, w) == Some(g) <==> !Loses(c, Save(x, v, h, now), e, w, g)
  {
    AnswerCurrent(c, e, w);
    AnswerCurrent(Saved(c, x, v, h, now), e, w);
    if x == e {
      SavedWindows(c, e, v, h, now, w);
      assert e in Saved(c, e, v, h, now).windows;
    } else {
      SaveElsewhere(c, Save(x, v, h, now), e);
    }
    hide Answer, Saved, Evicts, DecodeAll;
  }

  /** One operation, whatever it is, keeps an answer exactly when it does not take it away. */
  lemma KeepsAnswerIff(c: Cache, op: Op, e: ExtensionId, w: WindowId, g: Geometry)
    requires Backed(c) && Answer(c, e, w) == Some(g)
    ensures Answer(Step(c, op), e, w) == Some(g) <==> !Loses(c, op, e, w, g)
  {
    hide Backed, Answer, Saved, Loaded, Synced, Unloaded;
    match op
    case Save(x, v, h, now) => SaveKeepsIff(c, x, v, h, now, e, w, g);
    case Read(x, _) => LoadKeepsAnswers(c, x, e, w);
    case Load(x) => LoadKeepsAnswers(c, x, e, w);
    case Unload(x) => UnloadKeepsAnswer(c, x, e, w, g);
    case TimerFired => SyncKeepsAnswer(c, e, w, g);
    case Shutdown => SyncKeepsAnswer(c, e, w, g);
  }

  ghost predicate AlwaysAnswers(c: Cache, ops: seq<Op>, e: ExtensionId, w: WindowId, g: Geometry) {
    forall k :: 0 <= k <= |ops| ==> Answer(Run(c, ops[..k]), e, w) == Some(g)
  }

  ghost predicate NeverLoses(c: Cache, ops: seq<Op>, e: ExtensionId, w: WindowId, g: Geometry) {
    forall k :: 0 <= k < |ops| ==> !Loses(Run(c, ops[..k]), ops[k], e, w, g)
  }

  lemma AnswersLast(c: Cache, ops: seq<Op>, e: ExtensionId, w: WindowId, g: Geometry)
    requires ops != []
    ensures var front := ops[..|ops| - 1];
            && (AlwaysAnswers(c, ops, e, w, g) <==>
                  AlwaysAnswers(c, front, e, w, g) && Answer(Run(c, ops), e, w) == Some(g))
            && (AlwaysAnswers(c, front, e, w, g) ==> Answer(Run(c, front), e, w) == Some(g))
  {
    hide Run, Answer;
    var n := |ops| - 1;
    var front := ops[..n];
    assert ops[..n + 1] == ops && front[..n] == front;
    assert forall k :: 0 <= k <= n ==> front[..k] == ops[..k];
  }

  lemma LosesLast(c: Cache, ops: seq<Op>, e: ExtensionId, w: WindowId, g: Geometry)
    requires ops != []
    ensures var n := |ops| - 1;
            NeverLoses(c, ops, e, w, g) <==>
              NeverLoses(c, ops[..n], e, w, g) && !Loses(Run(c, ops[..n]), ops[n], e, w, g)
  {
    hide Run, Loses;
    var n := |ops| - 1;
    assert forall k :: 0 <= k < n ==> ops[..n][..k] == ops[..k] && ops[..n][k] == ops[k];
  }

  lemma {:induction false} KeptOverRunIff(c: Cache, ops: seq<Op>, e: ExtensionId, w: WindowId, g: Geometry)
    requires Backed(c) && Answer(c, e, w) == Some(g)
    ensures AlwaysAnswers(c, ops, e, w, g) <==> NeverLoses(c, ops, e, w, g)
  {
    hide Backed, Answer, Loses, Step;
    if ops == [] {
      assert AlwaysAnswers(c, ops, e, w, g);
    } else {
      var n := |ops| - 1;
      var front := ops[..n];
      KeptOverRunIff(c, front, e, w, g);
      AnswersLast(c, ops, e, w, g);
      LosesLast(c, ops, e, w, g);
      hide AlwaysAnswers, NeverLoses;
      if AlwaysAnswers(c, front, e, w, g) {
        BackedRun(c, front);
        KeepsAnswerIff(Run(c, front), ops[n], e, w, g);
      }
    }
  }

  /** A new cache over a store. */
  function Fresh(store: map<ExtensionId, StoredWindows>): Cache {
    Cache(map[], {}, store, false)
  }

  /** On any store, after any operations before it and whatever operations follow: a valid
      geometry, once saved, is read back at every moment if and only if no operation takes
      it away. */
  lemma {:induction false} ReadYourWrites(store: map<ExtensionId, StoredWindows>, before: seq<Op>,
                                          e: ExtensionId, w: WindowId, g: Geometry, now: int, ops: seq<Op>)
    requires g.Valid()
    ensures var saved := Saved(Run(Fresh(store), before), e, w, g, now);
            AlwaysAnswers(saved, ops, e, w, g) <==> NeverLoses(saved, ops, e, w, g)
  {
    assert Backed(Fresh(store));
    hide Backed, Saved, Answer, Run, Fresh;
    var c := Run(Fresh(store), before);
    BackedRun(Fresh(store), before);
    BackedSaved(c, e, w, g, now);
    SaveThenRead(c, e, w, g, now);
    KeptOverRunIff(Saved(c, e, w, g, now), ops, e, w, g);
  }

  /** A default save on an empty cache leaves an entry that is neither stored nor to be. */
  lemma DefaultSaveIncoherent(e: ExtensionId, w: WindowId, now: int)
    ensures !Coherent(Saved(Fresh(map[]), e, w, DEFAULT_GEOMETRY, now))
  {
    var c := Fresh(map[]);
    SaveCoherentIff(c, e, w, DEFAULT_GEOMETRY, now);
    assert w !in DecodeAll(StoredOf(c, e));
    assert w in map[w := DEFAULT_DATA];
    hide Coherent, Saved;
  }

  /** A save before the extension has been loaded or read hides its stored windows. */
  lemma EarlySaveHides(e: ExtensionId, w: WindowId, other: WindowId, g: Geometry, now: int)
    requires g.Valid() && w != other
    ensures var c := Fresh(map[e := EncodeAll(map[w := WindowData(g, now)])]);
            Answer(c, e, w) == Some(g) && Answer(Saved(c, e, other, g, now), e, w) == None
  {
    var ws := map[w := WindowData(g, now)];
    var c := Fresh(map[e := EncodeAll(ws)]);
    DecodeEncode(ws);
    AnswerCurrent(c, e, w);
    AnswerCurrent(Saved(c, e, other, g, now), e, w);
    SavedWindows(c, e, other, g, now, w);
    hide Answer, Saved, Evicts, DecodeAll, EncodeAll;
  }

  // ----- Flushing -----

  /** The timer, shutdown and unloading write every unsynced extension, as it is cached,
      write no other, and leave none unsynced. */
  lemma FlushStores(c: Cache, op: Op)
    requires c.unsynced <= c.windows.Keys && (op.TimerFired? || op.Shutdown? || op.Unload?)
    ensures var s := Step(c, op);
            && s.unsynced == {}
            && (forall e :: e in c.unsynced ==> DecodeAll(StoredOf(s, e)) == c.windows[e])
            && (forall e :: e !in c.unsynced ==> StoredOf(s, e) == StoredOf(c, e))
            && s.windows == (if op.Unload? then c.windows - {op.e} else c.windows)
            && s.timerRunning == (c.timerRunning && !op.TimerFired?)
  {
    SyncedStored(c);
    SyncedClean(c);
    var s := Step(c, op);
    assert s.store == Synced(c).store && s.unsynced == Synced(c).unsynced;
    hide DecodeAll, Synced, Unloaded, Step;
    assert forall e :: StoredOf(s, e) == StoredOf(Synced(c), e);
  }

  /** A read or a load leaves the extension cached, and nothing to flush that was not. */
  lemma ReadCaches(c: Cache, op: Op)
    requires op.Read? || op.Load?
    ensures var s := Step(c, op);
            && s.windows.Keys == c.windows.Keys + {op.e}
            && s.unsynced == c.unsynced && s.store == c.store && s.timerRunning == c.timerRunning
            && (forall x :: x in c.windows && x != op.e ==> s.windows[x] == c.windows[x])
            && (op.Read? && op.e in c.windows ==> s == c)
  {
    hide DecodeAll;
  }

  lemma FreshCurrent(c: Cache, e: ExtensionId)
    ensures Current(Fresh(c.store), e) == DecodeAll(StoredOf(c, e))
  {
  }

  /** A cache that is built over the store left by a shutdown answers what could be read
      before; without saves of the default geometry it answers exactly the same. */
  lemma {:induction false} RestartKeepsAnswers(store: map<ExtensionId, StoredWindows>, ops: seq<Op>,
                                               e: ExtensionId, w: WindowId)
    ensures var c := Run(Fresh(store), ops);
            var again := Fresh(Step(c, Shutdown).store);
            && (Answer(c, e, w).Some? ==> Answer(again, e, w) == Answer(c, e, w))
            && ((forall i :: 0 <= i < |ops| ==> NonDefault(ops[i])) ==> Answer(again, e, w) == Answer(c, e, w))
  {
    assert Backed(Fresh(store)) && WriteBehind(Fresh(store));
    var c := Run(Fresh(store), ops);
    BackedRun(Fresh(store), ops);
    FlushStores(c, Shutdown);
    var s := Step(c, Shutdown);
    AnswerCurrent(c, e, w);
    FreshCurrent(s, e);
    AnswerCurrent(Fresh(s.store), e, w);
    if forall i :: 0 <= i < |ops| ==> NonDefault(ops[i]) {
      WriteBehindRun(Fresh(store), ops);
    }
    hide Run, Step, Answer, DecodeAll, Fresh;
    if && e in c.windows && e !in c.unsynced && w in c.windows[e]
       && c.windows[e][w].geometry.Valid()
    {
      assert StoredAs(c, e, w, c.windows[e][w].geometry);
    }
  }
}
