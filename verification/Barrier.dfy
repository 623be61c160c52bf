/** BarrierClosure over AtomicRefCount: any number of Run calls in flight at once, each
    on its own thread, taking one shared access at a time. */
module Barrier {
  import opened Atomics

  // ----- AtomicRefCount -----

  /** AtomicRefCountIsZero and AtomicRefCountDec, from what their access returned. */
  function IsZero(loaded: int): bool {
    loaded == 0
  }

  function DecSaysMore(incremented: int): bool {
    incremented != 0
  }

  const DECREMENT := Increment(-1)

  // ----- BarrierInfo::Run, one call per thread -----

  /** Where a call of Run is: in the debug check, in the decrement, or with the done
      closure. `won` remembers that its own decrement reached zero. */
  datatype Stage = NotStarted | Checking | Checked | Decrementing | Running | Resetting | Finished(won: bool)

  /** Every use of the done closure. */
  datatype Touch = RanAtConstruction | RanBy(tid: Tid) | ResetBy(tid: Tid)

  datatype State = State(w: World, calls: seq<Stage>, touches: seq<Touch>, failedCheck: bool)

  /** A call goes on to its next instruction, or makes its next shared access. */
  datatype Turn = Next(tid: Tid) | Touches(tid: Tid, lucky: bool)

  /** BarrierClosure: with nothing to wait for, the closure runs at once. */
  function Init(n: nat, calls: nat): State {
    State(World(n, map[], []), seq(calls, _ => NotStarted), if n == 0 then [RanAtConstruction] else [], false)
  }

  function Advance(m: Machine, s: State, t: Tid, move: Move, stage: Stage): State
    requires t < |s.calls|
  {
    s.(w := Step(m, s.w, move), calls := s.calls[t := stage])
  }

  function TakeTurn(m: Machine, s: State, turn: Turn): State {
    var t := turn.tid;
    if t >= |s.calls| then s
    else if turn.Touches? then s.(w := Step(m, s.w, Access(t, turn.lucky)))
    else
      match s.calls[t]
      case NotStarted => Advance(m, s, t, Call(t, Load), Checking)
      case Checking =>
        if !At(s.w, t).Done? then s
        else Advance(m, s, t, Leave(t), Checked).(failedCheck := s.failedCheck || IsZero(At(s.w, t).result))
      case Checked => Advance(m, s, t, Call(t, DECREMENT), Decrementing)
      case Decrementing =>
        if !At(s.w, t).Done? then s
        else Advance(m, s, t, Leave(t), if DecSaysMore(At(s.w, t).result) then Finished(false) else Running)
      case Running => s.(calls := s.calls[t := Resetting], touches := s.touches + [RanBy(t)])
      case Resetting => s.(calls := s.calls[t := Finished(true)], touches := s.touches + [ResetBy(t)])
      case Finished(_) => s
  }

  function RunAll(m: Machine, s: State, turns: seq<Turn>): State {
    if turns == [] then s else TakeTurn(m, RunAll(m, s, turns[..|turns| - 1]), turns[|turns| - 1])
  }

  // ----- The invariant -----

  function PhaseAt(s: State, t: Tid): Phase {
    PhaseOf(At(s.w, t))
  }

  /** What the call's stage says about its thread. */
  ghost predicate StageOk(s: State, t: Tid)
    requires t < |s.calls|
  {
    var p := PhaseAt(s, t);
    match s.calls[t]
    case Checking => p == Called(Load) || (p.Took? && p.op == Load)
    case Decrementing => p == Called(DECREMENT) || (p.Took? && p.op == DECREMENT)
    case _ => p == Free
  }

  predicate Decremented(s: State, t: Tid) {
    && t < |s.calls|
    && match s.calls[t]
       case Decrementing => PhaseAt(s, t).Took?
       case Running => true
       case Resetting => true
       case Finished(_) => true
       case _ => false
  }

  /** The call whose decrement reached zero. */
  predicate Winner(s: State, t: Tid) {
    && t < |s.calls|
    && match s.calls[t]
       case Decrementing => PhaseAt(s, t).Took? && PhaseAt(s, t).result == 0
       case Running => true
       case Resetting => true
       case Finished(won) => won
       case _ => false
  }

  function DecrementedSet(s: State): set<Tid> {
    set t: Tid | t < |s.calls| && Decremented(s, t)
  }

  /** The uses of the closure that the winner has made so far. */
  function TouchesOf(s: State, t: Tid): seq<Touch>
    requires t < |s.calls|
  {
    match s.calls[t]
    case Resetting => [RanBy(t)]
    case Finished(_) => [RanBy(t), ResetBy(t)]
    case _ => []
  }

  /** The number of decrements that bring the count to zero: n or, if it is zero already,
      once around all 32-bit numbers. */
  function Room(n: nat): nat {
    if n == 0 then WORD else n
  }

  /** The uses of the closure before any call. */
  function AtStart(n: nat): seq<Touch> {
    if n == 0 then [RanAtConstruction] else []
  }

  ghost predicate WinnersAgree(n: nat, s: State) {
    && (forall t, u :: Winner(s, t) && Winner(s, u) ==> t == u)
    && ((exists t :: Winner(s, t)) <==> |DecrementedSet(s)| == Room(n))
    && (forall t :: Winner(s, t) ==> s.touches == AtStart(n) + TouchesOf(s, t))
    && ((forall t :: !Winner(s, t)) ==> s.touches == AtStart(n))
    && (forall t :: Winner(s, t) <==> Effect(t, DECREMENT, 0) in s.w.trace)
  }

  /** The debug check of call t has not read zero. */
  predicate SeesMore(s: State, t: Tid)
    requires t < |s.calls|
  {
    s.calls[t].Checking? && PhaseAt(s, t).Took? ==> PhaseAt(s, t).result != 0
  }

  ghost predicate NoneSeesZero(s: State) {
    !s.failedCheck && forall t :: 0 <= t < |s.calls| ==> SeesMore(s, t)
  }

  /** A barrier over n calls, with at most n of them if n is not zero, and fewer than 2^32
      if it is. */
  predicate Admits(n: nat, calls: nat) {
    n <= 0x7FFF_FFFF && if n == 0 then calls < WORD else calls <= n
  }

  ghost predicate Inv(m: Machine, n: nat, s: State) {
    && Ok(m, s.w)
    && Admits(n, |s.calls|)
    && (forall t :: 0 <= t < |s.calls| ==> StageOk(s, t))
    && s.w.cell == Wrap(n - |DecrementedSet(s)|)
    && WinnersAgree(n, s)
    && (n > 0 ==> NoneSeesZero(s))
  }

  /** Counting down from n, or from 0 around, zero comes after Room(n) decrements. */
  lemma ZeroIff(n: nat, k: nat)
    requires n <= 0x7FFF_FFFF && 1 <= k <= Room(n)
    ensures Wrap(Wrap(n - (k - 1)) - 1) == Wrap(n - k)
    ensures Wrap(n - k) == 0 <==> k == Room(n)
  {
  }

  lemma {:induction false} Below(d: set<Tid>, k: nat)
    requires forall t <- d :: t < k
    ensures |d| <= k
  {
    if k == 0 {
      if t: Tid :| t in d {
        assert false;
      }
      assert d == {};
    } else {
      Below(d - {k - 1}, k - 1);
      assert d <= (d - {k - 1}) + {k - 1};
      assert |d| <= |d - {k - 1}| + 1;
    }
  }

  /** Fewer than all calls have decremented while call t has not. */
  lemma NotAll(s: State, t: Tid)
    requires t < |s.calls| && !Decremented(s, t)
    ensures |DecrementedSet(s)| < |s.calls|
  {
    Below(DecrementedSet(s) + {t}, |s.calls|);
  }

  // ----- Every turn keeps the invariant -----

  /** A thread enters or leaves an operation: nothing else that a client sees changes. */
  lemma ClientMove(m: Machine, w: World, move: Move)
    requires Ok(m, w) && !move.Access?
    ensures var w' := Step(m, w, move);
            && Ok(m, w') && w'.cell == w.cell
            && (forall u :: u != move.tid ==> PhaseOf(At(w', u)) == PhaseOf(At(w, u)))
            && (forall e: Event :: e.Effect? ==> (e in w'.trace <==> e in w.trace))
            && PhaseOf(At(w', move.tid)) ==
               match PhaseOf(At(w, move.tid))
               case Free => if move.Call? then Called(move.op) else Free
               case Took(op, r) => if move.Leave? then Free else Took(op, r)
               case p => p
  {
    var w' := Step(m, w, move);
    forall u ensures LocalOk(m, w', u) {
      assert LocalOk(m, w, u);
    }
  }

  /** The calls that have decremented, and the winner, are as before. */
  ghost predicate SameCount(s: State, s': State) {
    && |s'.calls| == |s.calls| && s'.w.cell == s.w.cell
    && (forall t :: Decremented(s', t) <==> Decremented(s, t))
    && (forall t :: Winner(s', t) <==> Winner(s, t))
    && (forall t :: Effect(t, DECREMENT, 0) in s'.w.trace <==> Effect(t, DECREMENT, 0) in s.w.trace)
  }

  lemma SameCountKeeps(n: nat, s: State, s': State)
    requires SameCount(s, s') && WinnersAgree(n, s) && s.w.cell == Wrap(n - |DecrementedSet(s)|)
    requires (forall t :: !Winner(s', t)) ==> s'.touches == AtStart(n)
    requires forall t :: Winner(s', t) ==> s'.touches == AtStart(n) + TouchesOf(s', t)
    ensures WinnersAgree(n, s') && s'.w.cell == Wrap(n - |DecrementedSet(s')|)
  {
    hide Winner, Decremented, Wrap, AtStart;
    assert DecrementedSet(s') == DecrementedSet(s);
  }

  /** Only call t moved, and it neither decremented nor touched the closure. */
  lemma UntouchedKeeps(n: nat, s: State, s': State, t: Tid)
    requires WinnersAgree(n, s) && s.w.cell == Wrap(n - |DecrementedSet(s)|)
    requires |s'.calls| == |s.calls| && s'.w.cell == s.w.cell && s'.touches == s.touches && t < |s.calls|
    requires forall u :: 0 <= u < |s.calls| && u != t ==> s'.calls[u] == s.calls[u] && PhaseAt(s', u) == PhaseAt(s, u)
    requires (Decremented(s', t) <==> Decremented(s, t)) && (Winner(s', t) <==> Winner(s, t))
    requires Winner(s, t) ==> TouchesOf(s', t) == TouchesOf(s, t)
    requires forall u :: Effect(u, DECREMENT, 0) in s'.w.trace <==> Effect(u, DECREMENT, 0) in s.w.trace
    ensures WinnersAgree(n, s') && s'.w.cell == Wrap(n - |DecrementedSet(s')|)
  {
    hide PhaseAt, Wrap, AtStart;
    forall u ensures (Decremented(s', u) <==> Decremented(s, u)) && (Winner(s', u) <==> Winner(s, u)) {
    }
    forall u ensures Winner(s, u) ==> TouchesOf(s', u) == TouchesOf(s, u) {
    }
    hide Decremented, Winner, TouchesOf;
    SameCountKeeps(n, s, s');
  }

  /** Only call t moved, and its stage and thread still fit. */
  lemma OthersStaged(s: State, s': State, t: Tid)
    requires |s'.calls| == |s.calls| && forall u :: 0 <= u < |s.calls| ==> StageOk(s, u)
    requires forall u :: 0 <= u < |s.calls| && u != t ==> s'.calls[u] == s.calls[u] && PhaseAt(s', u) == PhaseAt(s, u)
    requires t < |s.calls| && StageOk(s', t)
    ensures forall u :: 0 <= u < |s.calls| ==> StageOk(s', u)
    ensures NoneSeesZero(s) && SeesMore(s', t) && !s'.failedCheck ==> NoneSeesZero(s')
  {
    hide PhaseAt;
    forall u: Tid | u < |s.calls| ensures StageOk(s', u) {
      assert StageOk(s, u);
    }
    if NoneSeesZero(s) && SeesMore(s', t) {
      forall u: Tid | u < |s.calls| ensures SeesMore(s', u) {
        assert SeesMore(s, u);
      }
    }
  }

  lemma QuietAccess(m: Machine, n: nat, s: State, t: Tid, w': World)
    requires Inv(m, n, s) && t < |s.calls|
    requires Ok(m, w') && w'.cell == s.w.cell && w'.trace == s.w.trace
    requires forall u :: PhaseOf(At(w', u)) == PhaseOf(At(s.w, u))
    ensures Inv(m, n, s.(w := w'))
  {
    hide Ok, Wrap;
    var s' := s.(w := w');
    assert StageOk(s, t) && (n > 0 ==> SeesMore(s, t));
    forall u ensures PhaseAt(s', u) == PhaseAt(s, u) {
    }
    hide PhaseAt, WinnersAgree, DecrementedSet, NoneSeesZero;
    UntouchedKeeps(n, s, s', t);
    OthersStaged(s, s', t);
  }

  /** The debug check reads a count that is not zero, if n is not. */
  lemma LoadEffect(m: Machine, n: nat, s: State, t: Tid, w': World)
    requires Inv(m, n, s) && t < |s.calls| && Ok(m, w') && Atomic(s.w, w', t)
    requires PhaseAt(s, t) == Called(Load) && w'.cell == s.w.cell
    requires At(w', t) == Done(Load, s.w.cell) && w'.trace == s.w.trace + [Effect(t, Load, s.w.cell)]
    ensures Inv(m, n, s.(w := w'))
  {
    hide Ok;
    var s' := s.(w := w');
    assert StageOk(s, t);
    NotAll(s, t);
    assert n > 0 ==> s.w.cell != 0;
    hide Wrap;
    forall u ensures u != t ==> PhaseAt(s', u) == PhaseAt(s, u) {
    }
    hide Atomic, WinnersAgree, DecrementedSet, NoneSeesZero;
    UntouchedKeeps(n, s, s', t);
    OthersStaged(s, s', t);
  }

  /** A decrement: one call more has decremented, and it is the winner if it is the last. */
  lemma DecrementEffect(m: Machine, n: nat, s: State, t: Tid, w': World)
    requires Inv(m, n, s) && t < |s.calls| && Ok(m, w') && Atomic(s.w, w', t)
    requires PhaseAt(s, t) == Called(DECREMENT) && w'.cell == Wrap(s.w.cell - 1)
    requires At(w', t) == Done(DECREMENT, w'.cell) && w'.trace == s.w.trace + [Effect(t, DECREMENT, w'.cell)]
    ensures Inv(m, n, s.(w := w'))
  {
    hide Ok, Wrap, AtStart;
    var s' := s.(w := w');
    assert StageOk(s, t);
    NotAll(s, t);
    ZeroIff(n, |DecrementedSet(s)| + 1);
    forall u ensures u != t ==> PhaseAt(s', u) == PhaseAt(s, u) {
    }
    hide Atomic;
    OthersStaged(s, s', t);
    forall u ensures !Winner(s, u) && (u != t ==> (Decremented(s', u) <==> Decremented(s, u)) && !Winner(s', u)) {
      assert !Winner(s, u);
    }
    assert Winner(s', t) <==> w'.cell == 0;
    assert DecrementedSet(s') == DecrementedSet(s) + {t};
    assert TouchesOf(s', t) == [] && AtStart(n) + [] == AtStart(n);
    hide Winner, Decremented;
    forall u ensures Winner(s', u) <==> Effect(u, DECREMENT, 0) in s'.w.trace {
    }
  }

  lemma AccessKeeps(m: Machine, n: nat, s: State, t: Tid, lucky: bool)
    requires Inv(m, n, s) && t < |s.calls|
    ensures Inv(m, n, s.(w := Step(m, s.w, Access(t, lucky))))
  {
    var w' := Step(m, s.w, Access(t, lucky));
    AccessAtomic(m, s.w, t, lucky);
    assert StageOk(s, t);
    hide Step, Ok, WinnersAgree, DecrementedSet, Wrap, NoneSeesZero;
    if w'.trace == s.w.trace {
      QuietAccess(m, n, s, t, w');
    } else if PhaseAt(s, t) == Called(Load) {
      LoadEffect(m, n, s, t, w');
    } else {
      DecrementEffect(m, n, s, t, w');
    }
  }

  /** Entering or leaving an access touches neither the count nor the closure. */
  lemma EnterLeaveKeeps(m: Machine, n: nat, s: State, t: Tid, move: Move, stage: Stage)
    requires Inv(m, n, s) && t < |s.calls| && move.tid == t
    requires match s.calls[t]
             case NotStarted => move == Call(t, Load) && stage == Checking
             case Checking => PhaseAt(s, t).Took? && move == Leave(t) && stage == Checked
             case Checked => move == Call(t, DECREMENT) && stage == Decrementing
             case Decrementing =>
               && PhaseAt(s, t).Took? && move == Leave(t)
               && stage == if DecSaysMore(PhaseAt(s, t).result) then Finished(false) else Running
             case _ => false
    ensures Inv(m, n, Advance(m, s, t, move, stage))
  {
    var s' := Advance(m, s, t, move, stage);
    assert StageOk(s, t);
    ClientMove(m, s.w, move);
    forall u ensures u != t ==> PhaseAt(s', u) == PhaseAt(s, u) {
    }
    assert PhaseAt(s', t) == PhaseOf(At(s'.w, t));
    hide Step, Ok, PhaseAt, Wrap, WinnersAgree, DecrementedSet, NoneSeesZero;
    UntouchedKeeps(n, s, s', t);
    OthersStaged(s, s', t);
  }

  /** Only the winner gets to the closure, and everybody has decremented by then. */
  lemma ClosureKeeps(m: Machine, n: nat, s: State, t: Tid)
    requires Inv(m, n, s) && t < |s.calls| && (s.calls[t].Running? || s.calls[t].Resetting?)
    ensures Inv(m, n, TakeTurn(m, s, Next(t)))
  {
    hide Ok, Wrap, AtStart;
    var s' := TakeTurn(m, s, Next(t));
    assert StageOk(s, t) && Winner(s, t);
    forall u ensures PhaseAt(s', u) == PhaseAt(s, u) {
    }
    hide PhaseAt, Step;
    assert SameCount(s, s');
    forall u ensures Winner(s', u) ==> u == t {
      assert Winner(s', u) ==> Winner(s, u);
    }
    assert s'.touches == AtStart(n) + TouchesOf(s', t);
    SameCountKeeps(n, s, s');
    OthersStaged(s, s', t);
  }

  /** A failed check changes nothing else. */
  lemma CheckIrrelevant(m: Machine, s: State, failed: bool)
    requires Inv(m, 0, s)
    ensures Inv(m, 0, s.(failedCheck := failed))
  {
    hide Ok, Wrap;
    var s' := s.(failedCheck := failed);
    assert DecrementedSet(s') == DecrementedSet(s);
    assert forall t :: 0 <= t < |s.calls| && StageOk(s, t) ==> StageOk(s', t);
    assert forall t :: Winner(s', t) <==> Winner(s, t);
  }

  lemma NextKeeps(m: Machine, n: nat, s: State, t: Tid)
    requires Inv(m, n, s) && t < |s.calls|
    ensures Inv(m, n, TakeTurn(m, s, Next(t)))
  {
    assert StageOk(s, t) && (n > 0 ==> !s.failedCheck && SeesMore(s, t));
    hide Inv, Step;
    match s.calls[t]
    case NotStarted => EnterLeaveKeeps(m, n, s, t, Call(t, Load), Checking);
    case Checked => EnterLeaveKeeps(m, n, s, t, Call(t, DECREMENT), Decrementing);
    case Checking =>
      if At(s.w, t).Done? {
        EnterLeaveKeeps(m, n, s, t, Leave(t), Checked);
        if n == 0 {
          CheckIrrelevant(m, Advance(m, s, t, Leave(t), Checked), s.failedCheck || IsZero(At(s.w, t).result));
        } else {
          assert TakeTurn(m, s, Next(t)) == Advance(m, s, t, Leave(t), Checked);
        }
      }
    case Decrementing =>
      if At(s.w, t).Done? {
        EnterLeaveKeeps(m, n, s, t, Leave(t), if DecSaysMore(At(s.w, t).result) then Finished(false) else Running);
      }
    case Finished(_) =>
    case _ => ClosureKeeps(m, n, s, t);
  }

  lemma InitInv(m: Machine, n: nat, calls: nat)
    requires Admits(n, calls)
    ensures Inv(m, n, Init(n, calls))
  {
    var s := Init(n, calls);
    assert DecrementedSet(s) == {};
    assert forall t :: !Winner(s, t);
  }

  lemma TurnKeeps(m: Machine, n: nat, s: State, turn: Turn)
    requires Inv(m, n, s)
    ensures Inv(m, n, TakeTurn(m, s, turn)) && |TakeTurn(m, s, turn).calls| == |s.calls|
  {
    hide Inv, Step;
    if turn.tid >= |s.calls| {
    } else if turn.Touches? {
      AccessKeeps(m, n, s, turn.tid, turn.lucky);
    } else {
      NextKeeps(m, n, s, turn.tid);
    }
  }

  lemma {:induction false} InvHolds(m: Machine, n: nat, calls: nat, turns: seq<Turn>)
    requires Admits(n, calls)
    ensures Inv(m, n, RunAll(m, Init(n, calls), turns))
    ensures |RunAll(m, Init(n, calls), turns).calls| == calls
  {
    var s0 := Init(n, calls);
    assert |s0.calls| == calls;
    hide Inv, Init, TakeTurn;
    if turns == [] {
      InitInv(m, n, calls);
    } else {
      InvHolds(m, n, calls, turns[..|turns| - 1]);
      TurnKeeps(m, n, RunAll(m, s0, turns[..|turns| - 1]), turns[|turns| - 1]);
    }
  }

  // ----- What a barrier promises -----

  lemma {:induction false} Everybody(s: State, k: nat)
    requires k <= |s.calls| && forall t :: 0 <= t < |s.calls| ==> Decremented(s, t)
    ensures |set t: Tid | t < k && Decremented(s, t)| == k
  {
    if k > 0 {
      Everybody(s, k - 1);
      assert (set t: Tid | t < k && Decremented(s, t)) == (set t: Tid | t < k - 1 && Decremented(s, t)) + {k - 1};
    } else {
      assert (set t: Tid | t < k && Decremented(s, t)) == {};
    }
  }

  /** In every interleaving of at most n calls of Run, with n at least 1: the debug
      check never fails; the count reaches zero exactly when n calls have decremented;
      only the call whose decrement returned zero uses the closure, and it runs it at
      most once, before resetting it. */
  lemma ClosureIsTheWinners(m: Machine, n: nat, calls: nat, turns: seq<Turn>)
    requires 1 <= n <= 0x7FFF_FFFF && calls <= n
    ensures var s := RunAll(m, Init(n, calls), turns);
            && !s.failedCheck
            && ((exists t :: Effect(t, DECREMENT, 0) in s.w.trace) <==> |DecrementedSet(s)| == n)
            && (forall t, u :: Effect(t, DECREMENT, 0) in s.w.trace && Effect(u, DECREMENT, 0) in s.w.trace ==> t == u)
            && (s.touches == []
                || exists t :: && Effect(t, DECREMENT, 0) in s.w.trace
                               && (s.touches == [RanBy(t)] || s.touches == [RanBy(t), ResetBy(t)]))
  {
    InvHolds(m, n, calls, turns);
    hide RunAll, Init, Ok, Decremented, Winner, Wrap;
    var s := RunAll(m, Init(n, calls), turns);
    if s.touches != [] {
      var t :| Winner(s, t);
      assert Effect(t, DECREMENT, 0) in s.w.trace;
      assert s.touches == TouchesOf(s, t) by { assert Winner(s, t); }
    }
    if t :| Effect(t, DECREMENT, 0) in s.w.trace {
      assert Winner(s, t);
    }
  }

  /** Once every call has finished, the closure has been run and reset, once, if and
      only if all n calls were made. */
  lemma ClosureRunsIff(m: Machine, n: nat, calls: nat, turns: seq<Turn>)
    requires 1 <= n <= 0x7FFF_FFFF && calls <= n
    requires forall t :: 0 <= t < calls ==>
               var s := RunAll(m, Init(n, calls), turns); t < |s.calls| && s.calls[t].Finished?
    ensures var s := RunAll(m, Init(n, calls), turns);
            && (calls < n ==> s.touches == [])
            && (calls == n ==> exists t :: s.touches == [RanBy(t), ResetBy(t)])
  {
    InvHolds(m, n, calls, turns);
    hide RunAll, Init, Ok, Wrap;
    var s := RunAll(m, Init(n, calls), turns);
    Below(DecrementedSet(s), calls);
    if calls == n {
      Everybody(s, calls);
      assert DecrementedSet(s) == set t: Tid | t < calls && Decremented(s, t);
      var t :| Winner(s, t);
      assert s.touches == [RanBy(t), ResetBy(t)];
    }
  }

  /** A barrier over nothing has run the closure when it is built, and never again, however
      many calls of Run are made all the same, short of 2^32. */
  lemma NothingToWaitFor(m: Machine, calls: nat, turns: seq<Turn>)
    requires calls < WORD
    ensures RunAll(m, Init(0, calls), turns).touches == [RanAtConstruction]
  {
    InvHolds(m, 0, calls, turns);
    hide RunAll, Init, Ok, Wrap, Decremented, Winner;
    var s := RunAll(m, Init(0, calls), turns);
    Below(DecrementedSet(s), calls);
  }

  /** A call of Run on a barrier over nothing fails the debug check. */
  lemma CheckFailsAtZero(m: Machine)
    ensures RunAll(m, Init(0, 1), [Next(0), Touches(0, true), Next(0)]).failedCheck
  {
    var s0 := Init(0, 1);
    var s1 := TakeTurn(m, s0, Next(0));
    var s2 := TakeTurn(m, s1, Touches(0, true));
    var s3 := TakeTurn(m, s2, Next(0));
    assert At(s1.w, 0) == Ready(Load);
    assert At(s2.w, 0) == Done(Load, 0) && s2.calls[0] == Checking;
    assert s3.failedCheck;
    hide TakeTurn, Init;
    assert [Next(0)][..0] == [] && [Next(0), Touches(0, true)][..1] == [Next(0)];
    assert [Next(0), Touches(0, true), Next(0)][..2] == [Next(0), Touches(0, true)];
    assert RunAll(m, s0, [Next(0)]) == s1;
    assert RunAll(m, s0, [Next(0), Touches(0, true)]) == s2;
  }

  // ----- No call is ever stuck -----

  function ToGo(stage: Stage): nat {
    match stage
    case NotStarted => 6
    case Checking => 5
    case Checked => 4
    case Decrementing => 3
    case Running => 2
    case Resetting => 1
    case Finished(_) => 0
  }

  lemma {:induction false} RunOn(m: Machine, s: State, a: seq<Turn>, b: seq<Turn>)
    ensures RunAll(m, RunAll(m, s, a), b) == RunAll(m, s, a + b)
  {
    hide TakeTurn;
    if b == [] {
      assert a + b == a;
    } else {
      RunOn(m, s, a, b[..|b| - 1]);
      assert (a + b)[..|a + b| - 1] == a + b[..|b| - 1];
    }
  }

  lemma OneTurn(m: Machine, s: State, turn: Turn)
    ensures RunAll(m, s, [turn]) == TakeTurn(m, s, turn)
  {
    assert [turn][..0] == [];
    assert RunAll(m, s, []) == s;
    hide TakeTurn;
  }

  /** The operation that the call waits for takes effect, if only its thread moves. */
  lemma AccessesDone(m: Machine, s: State, t: Tid) returns (turns: seq<Turn>)
    requires t < |s.calls| && (PhaseAt(s, t).Called? || PhaseAt(s, t).Took?)
    ensures var s' := RunAll(m, s, turns); s'.calls == s.calls && At(s'.w, t).Done?
  {
    if PhaseAt(s, t).Took? {
      turns := [];
    } else {
      var touch := Touches(t, true);
      SettlesAlone(m, s.w, t);
      var s1 := TakeTurn(m, s, touch);
      var s2 := TakeTurn(m, s1, touch);
      var s3 := TakeTurn(m, s2, touch);
      var access := Access(t, true);
      assert s1 == s.(w := Step(m, s.w, access));
      assert s2 == s.(w := Step(m, s1.w, access));
      assert s3 == s.(w := Step(m, s2.w, access));
      hide TakeTurn, Step, RunAll;
      OneTurn(m, s, touch);
      OneTurn(m, s1, touch);
      OneTurn(m, s2, touch);
      RunOn(m, s, [touch], [touch]);
      RunOn(m, s, [touch] + [touch], [touch]);
      turns := [touch] + [touch] + [touch];
    }
  }

  lemma NextAdvances(m: Machine, s: State, t: Tid)
    requires t < |s.calls| && StageOk(s, t) && !s.calls[t].Finished?
    requires s.calls[t].Checking? || s.calls[t].Decrementing? ==> At(s.w, t).Done?
    ensures var s' := TakeTurn(m, s, Next(t));
            |s'.calls| == |s.calls| && ToGo(s'.calls[t]) < ToGo(s.calls[t])
  {
    hide Step;
  }

  lemma {:induction false} InvRuns(m: Machine, n: nat, s: State, turns: seq<Turn>)
    requires Inv(m, n, s)
    ensures Inv(m, n, RunAll(m, s, turns)) && |RunAll(m, s, turns).calls| == |s.calls|
  {
    hide Inv, TakeTurn;
    if turns == [] {
    } else {
      InvRuns(m, n, s, turns[..|turns| - 1]);
      TurnKeeps(m, n, RunAll(m, s, turns[..|turns| - 1]), turns[|turns| - 1]);
    }
  }

  lemma StageHolds(m: Machine, n: nat, s: State, t: Tid)
    requires Inv(m, n, s) && t < |s.calls|
    ensures StageOk(s, t)
  {
  }

  /** From every state that can be reached, any call of Run can go on and finish, whatever
      the others do. */
  lemma {:induction false} CallCanFinish(m: Machine, n: nat, s: State, t: Tid) returns (turns: seq<Turn>)
    requires Inv(m, n, s) && t < |s.calls|
    ensures var s' := RunAll(m, s, turns); t < |s'.calls| && s'.calls[t].Finished?
    decreases ToGo(s.calls[t])
  {
    turns := [];
    if !s.calls[t].Finished? {
      StageHolds(m, n, s, t);
      var access := [];
      if s.calls[t].Checking? || s.calls[t].Decrementing? {
        access := AccessesDone(m, s, t);
      }
      assert access == [] ==> RunAll(m, s, access) == s;
      var s1 := RunAll(m, s, access);
      InvRuns(m, n, s, access);
      StageHolds(m, n, s1, t);
      hide Inv, StageOk, TakeTurn, RunAll;
      NextAdvances(m, s1, t);
      OneTurn(m, s1, Next(t));
      RunOn(m, s, access, [Next(t)]);
      InvRuns(m, n, s1, [Next(t)]);
      var rest := CallCanFinish(m, n, RunAll(m, s1, [Next(t)]), t);
      RunOn(m, s, access + [Next(t)], rest);
      turns := access + [Next(t)] + rest;
    }
  }
}
