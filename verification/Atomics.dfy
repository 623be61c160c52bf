/** The atomic operations built from retry loops, as threads that take one shared
    memory access at a time on one 32-bit cell. */
module Atomics {
  import opened Wrappers

  type Tid = nat

  const WORD := 0x1_0000_0000

  /** Two's complement wrap-around of 32-bit addition. */
  function Wrap(x: int): (r: int)
    ensures -0x8000_0000 <= r < 0x8000_0000
  {
    (x + 0x8000_0000) % WORD - 0x8000_0000
  }

  // ----- What the operations promise: one indivisible update -----

  datatype Op =
    | CompareAndSwap(expected: int, replacement: int)
    | Exchange(replacement: int)
    | Increment(delta: int)
    | Load
    | Store(replacement: int)

  function NewCell(cell: int, op: Op): int {
    match op
    case CompareAndSwap(o, n) => if cell == o then n else cell
    case Exchange(n) => n
    case Increment(d) => Wrap(cell + d)
    case Load => cell
    case Store(n) => n
  }

  function Result(cell: int, op: Op): int {
    match op
    case CompareAndSwap(_, _) => cell
    case Exchange(_) => cell
    case Increment(d) => Wrap(cell + d)
    case Load => cell
    case Store(_) => 0
  }

  // ----- How they are implemented -----

  /** The three implementations: the compiler's strong compare-and-swap, the ARMv5
      kernel helper, and the load/store-exclusive pair. */
  datatype Machine = Gcc | ArmV5 | ArmExclusive

  /** Where a thread is in its retry loop. `Read` holds the value it has read and is
      about to replace; `reserved` is the exclusive monitor. */
  datatype Local =
    | Idle
    | Ready(op: Op)
    | Missed(op: Op)
    | Read(op: Op, seen: int, reserved: bool)
    | Done(op: Op, result: int)

  datatype Event =
    | Invoke(tid: Tid, op: Op)
    | Effect(tid: Tid, op: Op, result: int)
    | Return(tid: Tid, op: Op, result: int)

  datatype World = World(cell: int, threads: map<Tid, Local>, trace: seq<Event>)

  /** One move: a thread calls an operation, makes its next access, or returns.
      `lucky` is false when a conditional store fails for no reason of its own. */
  datatype Move = Call(tid: Tid, op: Op) | Access(tid: Tid, lucky: bool) | Leave(tid: Tid)

  function At(w: World, t: Tid): Local {
    if t in w.threads then w.threads[t] else Idle
  }

  function Put(w: World, t: Tid, l: Local): World {
    w.(threads := w.threads[t := l])
  }

  /** A store clears every exclusive monitor. */
  function Cleared(l: Local): Local {
    if l.Read? then l.(reserved := false) else l
  }

  function Write(w: World, v: int): World {
    w.(cell := v, threads := map t | t in w.threads :: Cleared(w.threads[t]))
  }

  /** The operation takes effect and its result is settled. */
  function Finish(w: World, t: Tid, op: Op, result: int): World {
    Put(w, t, Done(op, result)).(trace := w.trace + [Effect(t, op, result)])
  }

  /** The first access of an operation. */
  function FirstAccess(m: Machine, w: World, t: Tid, op: Op): World {
    match op
    case Load => Finish(w, t, op, w.cell)
    case Store(v) => Finish(Write(w, v), t, op, 0)
    case CompareAndSwap(o, n) =>
      if m.Gcc? then
        if w.cell == o then Finish(Write(w, n), t, op, o) else Put(w, t, Missed(op))
      else
        if w.cell != o then Finish(w, t, op, w.cell) else Put(w, t, Read(op, w.cell, m.ArmExclusive?))
    case _ => Put(w, t, Read(op, w.cell, m.ArmExclusive?))
  }

  function Replacement(op: Op, seen: int): int {
    match op
    case CompareAndSwap(_, n) => n
    case Exchange(n) => n
    case Increment(d) => Wrap(seen + d)
    case Load => seen
    case Store(n) => n
  }

  /** The conditional store that ends a round of the loop. */
  function SecondAccess(m: Machine, w: World, t: Tid, op: Op, seen: int, reserved: bool, lucky: bool): World {
    var stored := if m.ArmExclusive? then reserved && lucky else w.cell == seen && (lucky || m.Gcc?);
    if stored then
      Finish(Write(w, Replacement(op, seen)), t, op, if op.Increment? then Wrap(seen + op.delta) else seen)
    else
      Put(w, t, Ready(op))
  }

  function Step(m: Machine, w: World, move: Move): World {
    match move
    case Call(t, op) =>
      if At(w, t).Idle? then Put(w, t, Ready(op)).(trace := w.trace + [Invoke(t, op)]) else w
    case Access(t, lucky) =>
      (match At(w, t)
       case Ready(op) => FirstAccess(m, w, t, op)
       case Missed(op) =>
         if op.CompareAndSwap? && w.cell == op.expected then Put(w, t, Ready(op)) else Finish(w, t, op, w.cell)
       case Read(op, seen, reserved) => SecondAccess(m, w, t, op, seen, reserved, lucky)
       case _ => w)
    case Leave(t) =>
      (match At(w, t)
       case Done(op, r) => Put(w, t, Idle).(trace := w.trace + [Return(t, op, r)])
       case _ => w)
  }

  function Run(m: Machine, w: World, moves: seq<Move>): World {
    if moves == [] then w else Step(m, Run(m, w, moves[..|moves| - 1]), moves[|moves| - 1])
  }

  // ----- One access refines the indivisible update -----

  /** What is known about a thread inside its loop. */
  ghost predicate LocalOk(m: Machine, w: World, t: Tid) {
    match At(w, t)
    case Missed(op) => m.Gcc? && op.CompareAndSwap?
    case Read(op, seen, reserved) =>
      && (op.CompareAndSwap? || op.Exchange? || op.Increment?)
      && (op.CompareAndSwap? ==> seen == op.expected)
      && (m.ArmExclusive? && reserved ==> seen == w.cell)
    case _ => true
  }

  ghost predicate Ok(m: Machine, w: World) {
    forall t :: LocalOk(m, w, t)
  }

  /** A thread as a client sees it: not in a call, in a call that has not taken effect
      yet, or in one that has. */
  datatype Phase = Free | Called(op: Op) | Took(op: Op, result: int) | Broken

  function PhaseOf(l: Local): Phase {
    match l
    case Idle => Free
    case Ready(op) => Called(op)
    case Missed(op) => Called(op)
    case Read(op, _, _) => Called(op)
    case Done(op, r) => Took(op, r)
  }

  /** The access either changes nothing a client can see, or performs the whole
      operation at that instant. */
  ghost predicate Atomic(w: World, w': World, t: Tid) {
    && (forall u :: u != t ==> PhaseOf(At(w', u)) == PhaseOf(At(w, u)))
    && (|| (w'.cell == w.cell && w'.trace == w.trace && PhaseOf(At(w', t)) == PhaseOf(At(w, t)))
        || (&& PhaseOf(At(w, t)).Called?
            && var op := PhaseOf(At(w, t)).op;
               && w'.cell == NewCell(w.cell, op)
               && At(w', t) == Done(op, Result(w.cell, op))
               && w'.trace == w.trace + [Effect(t, op, Result(w.cell, op))]))
  }

  lemma AccessAtomic(m: Machine, w: World, t: Tid, lucky: bool)
    requires Ok(m, w)
    ensures Ok(m, Step(m, w, Access(t, lucky)))
    ensures Atomic(w, Step(m, w, Access(t, lucky)), t)
  {
    AccessOk(m, w, t, lucky);
    assert LocalOk(m, w, t);
    hide Ok, Atomic;
    match At(w, t)
    case Ready(op) => FirstAtomic(m, w, t, op);
    case Read(op, seen, reserved) => SecondAtomic(m, w, t, lucky);
    case Missed(op) => MissedAtomic(m, w, t, lucky);
    case _ => NothingAtomic(w, t);
  }

  lemma NothingAtomic(w: World, t: Tid)
    ensures Atomic(w, w, t)
  {
  }

  lemma FirstAtomic(m: Machine, w: World, t: Tid, op: Op)
    requires At(w, t) == Ready(op)
    ensures Atomic(w, FirstAccess(m, w, t, op), t)
  {
    hide Wrap;
  }

  lemma SecondAtomic(m: Machine, w: World, t: Tid, lucky: bool)
    requires LocalOk(m, w, t) && At(w, t).Read?
    ensures Atomic(w, Step(m, w, Access(t, lucky)), t)
  {
    hide Wrap;
  }

  lemma MissedAtomic(m: Machine, w: World, t: Tid, lucky: bool)
    requires LocalOk(m, w, t) && At(w, t).Missed?
    ensures Atomic(w, Step(m, w, Access(t, lucky)), t)
  {
    hide Wrap;
  }

  lemma AccessOk(m: Machine, w: World, t: Tid, lucky: bool)
    requires Ok(m, w)
    ensures Ok(m, Step(m, w, Access(t, lucky)))
  {
    forall u ensures LocalOk(m, Step(m, w, Access(t, lucky)), u) {
      assert LocalOk(m, w, u) && LocalOk(m, w, t);
      hide Ok;
      AccessLocalOk(m, w, t, lucky, u);
    }
  }

  lemma AccessLocalOk(m: Machine, w: World, t: Tid, lucky: bool, u: Tid)
    requires LocalOk(m, w, t) && LocalOk(m, w, u)
    ensures LocalOk(m, Step(m, w, Access(t, lucky)), u)
  {
    hide Wrap, Replacement;
  }

  // ----- Linearizability over whole runs -----

  /** The cell after the effects of a trace, taken one after the other; `None` if
      some result is not what its operation returns at that point. */
  function Replay(cell: int, trace: seq<Event>): Option<int> {
    if trace == [] then Some(cell)
    else
      var before, e := Replay(cell, trace[..|trace| - 1]), trace[|trace| - 1];
      if before.None? || !e.Effect? then before
      else if Result(before.value, e.op) == e.result then Some(NewCell(before.value, e.op))
      else None
  }

  /** A thread's own events must go round Invoke, Effect, Return, with one operation
      and one result each time round. */
  function Track(trace: seq<Event>, t: Tid): Phase {
    if trace == [] then Free
    else
      var before, e := Track(trace[..|trace| - 1], t), trace[|trace| - 1];
      if e.tid != t then before
      else match e
           case Invoke(_, op) => if before.Free? then Called(op) else Broken
           case Effect(_, op, r) => if before == Called(op) then Took(op, r) else Broken
           case Return(_, op, r) => if before == Took(op, r) then Free else Broken
  }

  /** The effects, in the order in which they happen, are a sequential execution of
      the indivisible operations that leaves the cell as it is; and every call has
      exactly one effect, between its invocation and its return, with its result. */
  ghost predicate Linearized(cell: int, w: World) {
    && Replay(cell, w.trace) == Some(w.cell)
    && forall t :: Track(w.trace, t) == PhaseOf(At(w, t))
  }

  lemma TraceGrows(cell: int, trace: seq<Event>, e: Event)
    ensures var before := Replay(cell, trace);
            Replay(cell, trace + [e]) ==
            if before.None? || !e.Effect? then before
            else if Result(before.value, e.op) == e.result then Some(NewCell(before.value, e.op))
            else None
    ensures forall t :: t != e.tid ==> Track(trace + [e], t) == Track(trace, t)
    ensures Track(trace + [e], e.tid) ==
            var before := Track(trace, e.tid);
            match e
            case Invoke(_, op) => if before.Free? then Called(op) else Broken
            case Effect(_, op, r) => if before == Called(op) then Took(op, r) else Broken
            case Return(_, op, r) => if before == Took(op, r) then Free else Broken
  {
    assert (trace + [e])[..|trace|] == trace;
  }

  lemma LinearizedStep(m: Machine, cell: int, w: World, move: Move)
    requires Ok(m, w) && Linearized(cell, w)
    ensures Ok(m, Step(m, w, move)) && Linearized(cell, Step(m, w, move))
  {
    hide Result, NewCell, Replay, Track;
    var w' := Step(m, w, move);
    var t := move.tid;
    if w'.trace != w.trace {
      assert |w'.trace| == |w.trace| + 1;
      TraceGrows(cell, w.trace, w'.trace[|w.trace|]);
    }
    match move
    case Access(_, lucky) =>
      AccessAtomic(m, w, t, lucky);
    case _ =>
      forall u ensures LocalOk(m, w', u) {
        assert LocalOk(m, w, u);
      }
  }

  /** For every implementation and every interleaving of calls and accesses. */
  lemma {:induction false} Linearizable(m: Machine, cell: int, moves: seq<Move>)
    ensures var w := Run(m, World(cell, map[], []), moves);
            Ok(m, w) && Linearized(cell, w)
  {
    var w0 := World(cell, map[], []);
    if moves == [] {
    } else {
      Linearizable(m, cell, moves[..|moves| - 1]);
      LinearizedStep(m, cell, Run(m, w0, moves[..|moves| - 1]), moves[|moves| - 1]);
    }
  }

  // ----- Lock-freedom -----

  /** An operation of another thread has taken effect between the two worlds. */
  ghost predicate Overtaken(t: Tid, before: World, after: World) {
    exists x :: |before.trace| <= x < |after.trace| && after.trace[x].Effect? && after.trace[x].tid != t
  }

  /** A move of another thread takes effect, or leaves the cell and this thread alone. */
  lemma OtherMove(m: Machine, w: World, t: Tid, move: Move)
    requires move.tid != t
    ensures var w' := Step(m, w, move);
            && w.trace <= w'.trace
            && (Overtaken(t, w, w') || (w'.cell == w.cell && At(w', t) == At(w, t)))
  {
    hide Wrap, Replacement;
    var w' := Step(m, w, move);
    if w'.cell != w.cell || At(w', t) != At(w, t) {
      assert w'.trace[|w.trace|].Effect?;
    }
  }

  lemma {:induction false} OtherMoves(m: Machine, w: World, t: Tid, moves: seq<Move>)
    requires forall i :: 0 <= i < |moves| ==> moves[i].tid != t
    ensures var w' := Run(m, w, moves);
            && w.trace <= w'.trace
            && (Overtaken(t, w, w') || (w'.cell == w.cell && At(w', t) == At(w, t)))
  {
    if moves == [] {
    } else {
      var n := |moves| - 1;
      var w', w'' := Run(m, w, moves[..n]), Run(m, w, moves);
      OtherMoves(m, w, t, moves[..n]);
      OtherMove(m, w', t, moves[n]);
      assert w'' == Step(m, w', moves[n]);
      hide Run, Step;
      if Overtaken(t, w, w') {
        var x :| |w.trace| <= x < |w'.trace| && w'.trace[x].Effect? && w'.trace[x].tid != t;
        assert w''.trace[x] == w'.trace[x];
      }
    }
  }

  /** A thread at the start of a round that is left alone needs two accesses, if the store
      does not fail for no reason of its own. */
  lemma RoundSettles(m: Machine, w: World, t: Tid, last: World)
    requires At(w, t).Ready?
    requires var first := Step(m, w, Access(t, true)); last.cell == first.cell && At(last, t) == At(first, t)
    ensures At(Step(m, last, Access(t, true)), t).Done?
  {
    hide Wrap, Replacement;
  }

  /** A thread at the start of a round makes an access, others move, and it makes a second
      one. Its operation has then taken effect, or another thread's has in the meantime: a
      round is repeated only because some other call made progress. */
  lemma {:induction false} LockFree(m: Machine, w: World, t: Tid, others: seq<Move>)
    requires At(w, t).Ready? && forall i :: 0 <= i < |others| ==> others[i].tid != t
    ensures var first := Step(m, w, Access(t, true));
            var last := Run(m, first, others);
            Overtaken(t, first, last) || At(Step(m, last, Access(t, true)), t).Done?
  {
    hide Run, Step, At, Overtaken;
    var first := Step(m, w, Access(t, true));
    var last := Run(m, first, others);
    OtherMoves(m, first, t, others);
    if last.cell == first.cell && At(last, t) == At(first, t) {
      RoundSettles(m, w, t, last);
    }
  }

  /** A thread that is left alone settles its operation in three accesses at most. */
  lemma SettlesAlone(m: Machine, w: World, t: Tid)
    requires PhaseOf(At(w, t)).Called?
    ensures var access := Access(t, true);
            PhaseOf(At(Step(m, Step(m, Step(m, w, access), access), access), t)).Took?
  {
    var access := Access(t, true);
    var w1 := Step(m, w, access);
    SecondSettles(m, w, t);
    hide Step, At;
    if At(w, t).Ready? {
      RoundSettles(m, w, t, w1);
      DoneStays(m, Step(m, w1, access), t);
    } else if At(w1, t).Ready? {
      RoundSettles(m, w1, t, Step(m, w1, access));
    } else {
      DoneStays(m, w1, t);
      DoneStays(m, Step(m, w1, access), t);
    }
  }

  lemma SecondSettles(m: Machine, w: World, t: Tid)
    ensures var w1 := Step(m, w, Access(t, true));
            && (At(w, t).Read? || At(w, t).Missed? ==> At(w1, t).Done? || At(w1, t).Ready?)
  {
    hide Wrap, Replacement;
  }

  lemma DoneStays(m: Machine, w: World, t: Tid)
    ensures At(w, t).Done? ==> At(Step(m, w, Access(t, true)), t) == At(w, t)
  {
  }
}
