/** What a caller of the atomic operations can conclude from linearizability. */
module AtomicClients {
  import opened Wrappers
  import opened Atomics

  // ----- Every return, explained by one instant inside the call -----

  /** Between positions i and k of the trace thread t is in one call of `op`, which
      takes effect at j. */
  ghost predicate CallAt(trace: seq<Event>, t: Tid, op: Op, r: int, i: nat, j: nat, k: nat) {
    && i < j < k <= |trace|
    && trace[i] == Invoke(t, op) && trace[j] == Effect(t, op, r)
    && forall x :: i < x < k && x != j ==> trace[x].tid != t
  }

  lemma {:induction false} InvokeOf(trace: seq<Event>, t: Tid, op: Op) returns (i: nat)
    requires Track(trace, t) == Called(op)
    ensures i < |trace| && trace[i] == Invoke(t, op) && forall x :: i < x < |trace| ==> trace[x].tid != t
  {
    var last := |trace| - 1;
    if trace[last].tid == t {
      i := last;
    } else {
      i := InvokeOf(trace[..last], t, op);
    }
  }

  lemma {:induction false} EffectOf(trace: seq<Event>, t: Tid, op: Op, r: int) returns (i: nat, j: nat)
    requires Track(trace, t) == Took(op, r)
    ensures CallAt(trace, t, op, r, i, j, |trace|)
  {
    var last := |trace| - 1;
    if trace[last].tid == t {
      j := last;
      i := InvokeOf(trace[..last], t, op);
    } else {
      i, j := EffectOf(trace[..last], t, op, r);
    }
  }

  lemma {:induction false} ReplayPrefix(cell: int, trace: seq<Event>, j: nat)
    requires j <= |trace| && Replay(cell, trace).Some?
    ensures Replay(cell, trace[..j]).Some?
  {
    if j < |trace| {
      ReplayPrefix(cell, trace[..|trace| - 1], j);
      assert trace[..|trace| - 1][..j] == trace[..j];
    } else {
      assert trace[..j] == trace;
    }
  }

  lemma {:induction false} TrackPrefix(trace: seq<Event>, t: Tid, k: nat)
    requires k <= |trace| && Track(trace, t) != Broken
    ensures Track(trace[..k], t) != Broken
  {
    if k < |trace| {
      TrackPrefix(trace[..|trace| - 1], t, k);
      assert trace[..|trace| - 1][..k] == trace[..k];
    } else {
      assert trace[..k] == trace;
    }
  }

  /** The value the cell held when the event at `j` took effect. */
  ghost predicate HeldAt(cell: int, trace: seq<Event>, j: nat, v: int, v': int)
    requires j < |trace|
  {
    Replay(cell, trace[..j]) == Some(v) && Replay(cell, trace[..j + 1]) == Some(v')
  }

  /** What linearizability says of a trace on its own. */
  ghost predicate Lawful(cell: int, trace: seq<Event>) {
    Replay(cell, trace).Some? && forall t :: Track(trace, t) != Broken
  }

  lemma RunLawful(m: Machine, cell: int, moves: seq<Move>)
    ensures Lawful(cell, Run(m, World(cell, map[], []), moves).trace)
  {
    hide Run, Ok, Replay, Track;
    var w := Run(m, World(cell, map[], []), moves);
    Linearizable(m, cell, moves);
    forall t ensures Track(w.trace, t) != Broken {
      assert PhaseOf(At(w, t)) != Broken;
    }
  }

  lemma CallOfReturn(trace: seq<Event>, k: nat) returns (i: nat, j: nat)
    requires k < |trace| && trace[k].Return? && Track(trace, trace[k].tid) != Broken
    ensures CallAt(trace, trace[k].tid, trace[k].op, trace[k].result, i, j, k)
  {
    var e := trace[k];
    TrackPrefix(trace, e.tid, k + 1);
    assert trace[..k + 1][..k] == trace[..k];
    i, j := EffectOf(trace[..k], e.tid, e.op, e.result);
  }

  lemma HeldAtEffect(cell: int, trace: seq<Event>, j: nat) returns (v: int)
    requires j < |trace| && trace[j].Effect? && Replay(cell, trace).Some?
    ensures HeldAt(cell, trace, j, v, NewCell(v, trace[j].op)) && trace[j].result == Result(v, trace[j].op)
  {
    hide NewCell, Result;
    ReplayPrefix(cell, trace, j + 1);
    assert trace[..j + 1][..j] == trace[..j];
    v := Replay(cell, trace[..j]).value;
  }

  /** A call that returns took effect once, at an instant between its invocation and
      its return, on a value the cell then held. */
  lemma ReturnExplained(m: Machine, cell: int, moves: seq<Move>, k: nat) returns (i: nat, j: nat, v: int)
    requires var trace := Run(m, World(cell, map[], []), moves).trace;
             k < |trace| && trace[k].Return?
    ensures var trace := Run(m, World(cell, map[], []), moves).trace;
            var e := trace[k];
            && CallAt(trace, e.tid, e.op, e.result, i, j, k)
            && HeldAt(cell, trace, j, v, NewCell(v, e.op))
            && e.result == Result(v, e.op)
  {
    RunLawful(m, cell, moves);
    hide Run, NewCell, Result, Track, Replay;
    var trace := Run(m, World(cell, map[], []), moves).trace;
    i, j := CallOfReturn(trace, k);
    v := HeldAtEffect(cell, trace, j);
  }

  /** A compare-and-swap that returns something else than the value it expected has
      returned a value that the cell held during the call, and has written nothing;
      one that returns the expected value has replaced it. */
  lemma CompareAndSwapExplained(m: Machine, cell: int, moves: seq<Move>, k: nat) returns (i: nat, j: nat)
    requires var trace := Run(m, World(cell, map[], []), moves).trace;
             k < |trace| && trace[k].Return? && trace[k].op.CompareAndSwap?
    ensures var trace := Run(m, World(cell, map[], []), moves).trace;
            var e := trace[k];
            && CallAt(trace, e.tid, e.op, e.result, i, j, k)
            && HeldAt(cell, trace, j, e.result, if e.result == e.op.expected then e.op.replacement else e.result)
  {
    var v;
    i, j, v := ReturnExplained(m, cell, moves, k);
    hide Run, Wrap, HeldAt, CallAt;
  }

  /** An exchange returns the value that it has replaced. */
  lemma ExchangeExplained(m: Machine, cell: int, moves: seq<Move>, k: nat) returns (i: nat, j: nat)
    requires var trace := Run(m, World(cell, map[], []), moves).trace;
             k < |trace| && trace[k].Return? && trace[k].op.Exchange?
    ensures var trace := Run(m, World(cell, map[], []), moves).trace;
            var e := trace[k];
            CallAt(trace, e.tid, e.op, e.result, i, j, k) && HeldAt(cell, trace, j, e.result, e.op.replacement)
  {
    var v;
    i, j, v := ReturnExplained(m, cell, moves, k);
    hide Run, Wrap, HeldAt, CallAt;
  }

  /** A load returns the value that the cell holds, and leaves it. */
  lemma LoadExplained(m: Machine, cell: int, moves: seq<Move>, k: nat) returns (i: nat, j: nat)
    requires var trace := Run(m, World(cell, map[], []), moves).trace;
             k < |trace| && trace[k].Return? && trace[k].op.Load?
    ensures var trace := Run(m, World(cell, map[], []), moves).trace;
            var e := trace[k];
            CallAt(trace, e.tid, e.op, e.result, i, j, k) && HeldAt(cell, trace, j, e.result, e.result)
  {
    var v;
    i, j, v := ReturnExplained(m, cell, moves, k);
    hide Run, Wrap, HeldAt, CallAt;
  }

  /** A store leaves its value in the cell. */
  lemma StoreExplained(m: Machine, cell: int, moves: seq<Move>, k: nat) returns (i: nat, j: nat, v: int)
    requires var trace := Run(m, World(cell, map[], []), moves).trace;
             k < |trace| && trace[k].Return? && trace[k].op.Store?
    ensures var trace := Run(m, World(cell, map[], []), moves).trace;
            var e := trace[k];
            CallAt(trace, e.tid, e.op, e.result, i, j, k) && HeldAt(cell, trace, j, v, e.op.replacement)
  {
    i, j, v := ReturnExplained(m, cell, moves, k);
    hide Run, Wrap, HeldAt, CallAt;
  }

  /** An increment returns what it leaves in the cell: the sum, as a 32-bit number. */
  lemma IncrementExplained(m: Machine, cell: int, moves: seq<Move>, k: nat) returns (i: nat, j: nat, v: int)
    requires var trace := Run(m, World(cell, map[], []), moves).trace;
             k < |trace| && trace[k].Return? && trace[k].op.Increment?
    ensures var trace := Run(m, World(cell, map[], []), moves).trace;
            var e := trace[k];
            && CallAt(trace, e.tid, e.op, e.result, i, j, k) && HeldAt(cell, trace, j, v, e.result)
            && -0x8000_0000 <= e.result < 0x8000_0000 && (v + e.op.delta - e.result) % 0x1_0000_0000 == 0
  {
    i, j, v := ReturnExplained(m, cell, moves, k);
    var e := Run(m, World(cell, map[], []), moves).trace[k];
    WrapIs32Bit(v + e.op.delta);
    hide Run, Wrap, HeldAt, CallAt;
  }

  /** Wrap gives the 32-bit number that is the same modulo 2^32. */
  lemma WrapIs32Bit(x: int)
    ensures -0x8000_0000 <= Wrap(x) < 0x8000_0000 && (x - Wrap(x)) % 0x1_0000_0000 == 0
    ensures -0x8000_0000 <= x < 0x8000_0000 ==> Wrap(x) == x
  {
  }

  // ----- Concurrent increments -----

  lemma WrapAdd(x: int, d: int)
    ensures Wrap(Wrap(x) + d) == Wrap(x + d)
  {
  }

  lemma WrapApart(x: int, y: int)
    requires x < y < x + WORD
    ensures Wrap(x) != Wrap(y)
  {
  }

  /** The sum of the increments that have taken effect. */
  function Total(trace: seq<Event>): int {
    if trace == [] then 0
    else
      var e := trace[|trace| - 1];
      Total(trace[..|trace| - 1]) + if e.Effect? && e.op.Increment? then e.op.delta else 0
  }

  ghost predicate OnlyCounts(trace: seq<Event>) {
    forall i :: 0 <= i < |trace| && trace[i].Effect? ==> trace[i].op.Increment? || trace[i].op.Load?
  }

  /** Increments add up, modulo 2^32, whatever the interleaving. */
  lemma {:induction false} IncrementsAddUp(cell: int, trace: seq<Event>)
    requires OnlyCounts(trace) && Replay(cell, trace).Some? && Wrap(cell) == cell
    ensures Replay(cell, trace) == Some(Wrap(cell + Total(trace)))
  {
    hide Wrap;
    if trace == [] {
    } else {
      var front := trace[..|trace| - 1];
      ReplayPrefix(cell, trace, |trace| - 1);
      IncrementsAddUp(cell, front);
      var e := trace[|trace| - 1];
      if e.Effect? && e.op.Increment? {
        WrapAdd(cell + Total(front), e.op.delta);
      }
    }
  }

  /** Each increment returns the sum just after its own addition. */
  lemma IncrementReturnsSum(cell: int, trace: seq<Event>, j: nat)
    requires OnlyCounts(trace) && Replay(cell, trace).Some? && Wrap(cell) == cell
    requires j < |trace| && trace[j].Effect? && trace[j].op.Increment?
    ensures trace[j].result == Wrap(cell + Total(trace[..j + 1]))
  {
    hide Wrap;
    ReplayPrefix(cell, trace, j + 1);
    IncrementsAddUp(cell, trace[..j + 1]);
    ReplayPrefix(cell, trace[..j + 1], j);
    assert trace[..j + 1][..j] == trace[..j];
  }

  /** After any run of increments and loads, on any machine, the cell holds the sum. */
  lemma {:induction false} RunAddsUp(m: Machine, cell: int, moves: seq<Move>)
    requires Wrap(cell) == cell && OnlyCounts(Run(m, World(cell, map[], []), moves).trace)
    ensures var w := Run(m, World(cell, map[], []), moves);
            w.cell == Wrap(cell + Total(w.trace))
  {
    Linearizable(m, cell, moves);
    hide Run, Ok, Track, Replay, Total, Wrap;
    IncrementsAddUp(cell, Run(m, World(cell, map[], []), moves).trace);
  }

  /** And an increment that returns has returned the sum just after its own addition, at
      one instant inside the call. */
  lemma {:induction false} ReturnedSum(m: Machine, cell: int, moves: seq<Move>, k: nat) returns (i: nat, j: nat)
    requires Wrap(cell) == cell
    requires var trace := Run(m, World(cell, map[], []), moves).trace;
             && OnlyCounts(trace)
             && k < |trace| && trace[k].Return? && trace[k].op.Increment?
    ensures var trace := Run(m, World(cell, map[], []), moves).trace;
            && CallAt(trace, trace[k].tid, trace[k].op, trace[k].result, i, j, k)
            && trace[k].result == Wrap(cell + Total(trace[..j + 1]))
  {
    RunLawful(m, cell, moves);
    hide Run, Replay, Track, Total, Wrap;
    var trace := Run(m, World(cell, map[], []), moves).trace;
    i, j := CallOfReturn(trace, k);
    IncrementReturnsSum(cell, trace, j);
  }

  // ----- Sequence numbers -----

  /** GetNext: the value before the increment by one. */
  function GetNext(incremented: int): int {
    Wrap(incremented - 1)
  }

  /** The number of calls that have taken effect. */
  function Effects(trace: seq<Event>): nat {
    if trace == [] then 0 else Effects(trace[..|trace| - 1]) + if trace[|trace| - 1].Effect? then 1 else 0
  }

  ghost predicate OnlyGetNext(trace: seq<Event>) {
    forall i :: 0 <= i < |trace| && trace[i].Effect? ==> trace[i].op == Increment(1)
  }

  lemma {:induction false} TotalCounts(trace: seq<Event>, i: nat, j: nat)
    requires OnlyGetNext(trace) && i <= j <= |trace|
    ensures 0 <= Total(trace[..i]) <= Total(trace[..j])
    ensures forall x :: i <= x < j && trace[x].Effect? ==> Total(trace[..i]) < Total(trace[..j])
  {
    if j == 0 {
    } else {
      assert trace[..j][..j - 1] == trace[..j - 1];
      if i < j {
        TotalCounts(trace, i, j - 1);
      } else {
        TotalCounts(trace, i - 1, j - 1);
      }
    }
  }

  lemma NumbersApart(cell: int, trace: seq<Event>, i: nat, j: nat)
    requires Wrap(cell) == cell && Replay(cell, trace).Some?
    requires OnlyGetNext(trace) && Total(trace) <= WORD
    requires i < j < |trace| && trace[i].Effect? && trace[j].Effect?
    ensures GetNext(trace[i].result) != GetNext(trace[j].result)
  {
    hide Replay, Wrap, Total;
    IncrementReturnsSum(cell, trace, i);
    IncrementReturnsSum(cell, trace, j);
    var a, b := Total(trace[..i + 1]), Total(trace[..j + 1]);
    TotalBetween(trace, i, j);
    WrapAdd(cell + a, -1);
    WrapAdd(cell + b, -1);
    WrapApart(cell + a - 1, cell + b - 1);
  }

  lemma TotalBetween(trace: seq<Event>, i: nat, j: nat)
    requires OnlyGetNext(trace) && i < j < |trace| && trace[i].Effect? && trace[j].Effect?
    ensures 0 < Total(trace[..i + 1]) < Total(trace[..j + 1]) <= Total(trace)
  {
    hide Total, OnlyGetNext;
    TotalCounts(trace, 0, i + 1);
    TotalCounts(trace, i + 1, j + 1);
    TotalCounts(trace, j + 1, |trace|);
    assert trace[..|trace|] == trace && trace[..0] == [];
  }

  /** Up to 2^32 calls, in any interleaving, no two calls of GetNext get the same number. */
  lemma GetNextDistinct(m: Machine, cell: int, moves: seq<Move>, i: nat, j: nat)
    requires Wrap(cell) == cell
    requires var trace := Run(m, World(cell, map[], []), moves).trace;
             && OnlyGetNext(trace) && Total(trace) <= WORD
             && i < j < |trace| && trace[i].Effect? && trace[j].Effect?
    ensures var trace := Run(m, World(cell, map[], []), moves).trace;
            GetNext(trace[i].result) != GetNext(trace[j].result)
  {
    RunLawful(m, cell, moves);
    hide Run, GetNext, OnlyGetNext, Total, Replay, Track;
    NumbersApart(cell, Run(m, World(cell, map[], []), moves).trace, i, j);
  }

  lemma {:induction false} TotalIsEffects(trace: seq<Event>)
    requires OnlyGetNext(trace)
    ensures Total(trace) == Effects(trace)
  {
    if trace == [] {
    } else {
      TotalIsEffects(trace[..|trace| - 1]);
    }
  }

  /** From the value 0 that the constructor stores, a call of GetNext gets the number of
      calls that have taken effect before it: 0, 1, 2, and so on, up to 2^31 calls. */
  lemma {:induction false} GetNextCounts(m: Machine, moves: seq<Move>, j: nat)
    requires var trace := Run(m, World(0, map[], []), moves).trace;
             OnlyGetNext(trace) && j < |trace| && trace[j].Effect? && Effects(trace[..j]) < 0x8000_0000
    ensures var trace := Run(m, World(0, map[], []), moves).trace;
            GetNext(trace[j].result) == Effects(trace[..j])
  {
    RunLawful(m, 0, moves);
    WrapIs32Bit(0);
    var trace := Run(m, World(0, map[], []), moves).trace;
    hide Run, Replay, Track;
    var before := trace[..j];
    IncrementReturnsSum(0, trace, j);
    assert trace[..j + 1][..j] == before;
    TotalIsEffects(before);
    WrapAdd(Total(trace[..j + 1]), -1);
    WrapIs32Bit(Effects(before));
    hide Wrap, Effects;
  }
}
