/** Focus rotation over the shell's widgets and, as one more slot, the browser windows. */
module FocusRotation {
  import opened Wrappers

  datatype Direction = Forward | Backward

  /** What RotateFocus finds: how many widgets there are, the first that is active, and
      whether some window can take the focus. */
  datatype Ring = Ring(direction: Direction, widgets: nat, active: Option<nat>, hasWindow: bool) {
    predicate Valid() { active.Some? ==> active.value < widgets }

    function Slots(): nat { widgets + if hasWindow then 1 else 0 }

    /** Without an active widget this is the windows' slot, or no slot at all. */
    function Start(): nat { if active.Some? then active.value else widgets }

    predicate IsBrowser(slot: nat) { hasWindow && slot == widgets }

    function Next(index: nat): (r: nat)
      requires Slots() > 0
      ensures r < Slots()
    {
      if direction.Forward? then (index + 1) % Slots() else ((index - 1) + Slots()) % Slots()
    }
  }

  /** The slot that is reached after k rounds from `index`. */
  function Walk(r: Ring, index: nat, k: nat): nat
    requires r.Slots() > 0
  {
    if k == 0 then index else r.Next(Walk(r, index, k - 1))
  }

  /** The loop ends in round k: the lap is over, the windows' turn has come, or the widget
      in the slot accepts the focus (`accepts(k)` is its answer in that round). */
  predicate Ends(r: Ring, accepts: nat -> bool, k: nat)
    requires r.Slots() > 0
  {
    var slot := Walk(r, r.Start(), k);
    k >= 1 && (slot == r.Start() || r.IsBrowser(slot) || accepts(k))
  }

  ghost predicate Terminates(r: Ring, accepts: nat -> bool)
    requires r.Slots() > 0
  {
    exists k :: Ends(r, accepts, k)
  }

  // ----- One lap -----

  lemma OnceAround(a: nat, n: nat)
    requires a < n
    ensures a % n == a && (a + n) % n == a
  {
    var q := (a + n) / n;
    assert a + n == q * n + (a + n) % n;
    assert q <= 0 ==> q * n <= 0;
    assert q >= 2 ==> q * n >= 2 * n;
  }

  lemma NextSlot(r: Ring, index: nat)
    requires index < r.Slots()
    ensures r.Next(index) == if r.direction.Forward? then (if index + 1 == r.Slots() then 0 else index + 1)
                             else if index == 0 then r.Slots() - 1 else index - 1
  {
    var n := r.Slots();
    OnceAround(0, n);
    if index > 0 {
      OnceAround(index - 1, n);
    } else {
      OnceAround(n - 1, n);
    }
    if index + 1 < n {
      OnceAround(index + 1, n);
    }
  }

  /** Where k rounds lead, up to a whole lap. */
  lemma {:induction false} LapAt(r: Ring, index: nat, k: nat)
    requires index < r.Slots() && k <= r.Slots()
    ensures Walk(r, index, k) ==
            if r.direction.Forward? then (if index + k < r.Slots() then index + k else index + k - r.Slots())
            else if k <= index then index - k else index - k + r.Slots()
  {
    if k == 0 {
    } else {
      LapAt(r, index, k - 1);
      NextSlot(r, Walk(r, index, k - 1));
    }
  }

  /** The round in which a slot's turn comes. */
  function Turn(r: Ring, index: nat, slot: nat): int {
    if r.direction.Forward? then (if slot > index then slot - index else slot - index + r.Slots())
    else if slot < index then index - slot else index - slot + r.Slots()
  }

  /** From a slot, every slot has its turn exactly once in the next lap, the slot itself
      last: in between, the loop visits the others, each once, in cyclic order. */
  lemma {:induction false} EachSlotOnce(r: Ring, index: nat, slot: nat, k: nat)
    requires index < r.Slots() && slot < r.Slots() && 1 <= k <= r.Slots()
    ensures 1 <= Turn(r, index, slot) <= r.Slots()
    ensures Walk(r, index, k) == slot <==> k == Turn(r, index, slot)
    ensures Walk(r, index, r.Slots()) == index
  {
    LapAt(r, index, k);
    LapAt(r, index, r.Slots());
  }

  lemma {:induction false} WalkOn(r: Ring, index: nat, j: nat, k: nat)
    requires r.Slots() > 0
    ensures Walk(r, index, j + k) == Walk(r, Walk(r, index, j), k)
  {
    if k == 0 {
    } else {
      WalkOn(r, index, j, k - 1);
    }
  }

  // ----- Termination -----

  /** With a window to focus or an active widget, the loop is over after one lap at the
      latest, and no slot but the starting one comes twice. */
  lemma EndsWithinALap(r: Ring, accepts: nat -> bool) returns (last: nat)
    requires r.Valid() && (r.hasWindow || r.active.Some?)
    ensures 1 <= last <= r.Slots() && Ends(r, accepts, last)
    ensures forall j :: 1 <= j < last ==> !Ends(r, accepts, j)
    ensures forall i, j :: 1 <= i < j <= last ==> Walk(r, r.Start(), i) != Walk(r, r.Start(), j)
    ensures forall j :: 1 <= j < last ==> Walk(r, r.Start(), j) < r.widgets && Some(Walk(r, r.Start(), j)) != r.active
  {
    EachSlotOnce(r, r.Start(), r.Start(), r.Slots());
    last := 1;
    while !Ends(r, accepts, last)
      invariant 1 <= last <= r.Slots()
      invariant forall j :: 1 <= j < last ==> !Ends(r, accepts, j)
      decreases r.Slots() - last
    {
      last := last + 1;
    }
    forall i, j | 1 <= i < j <= last ensures Walk(r, r.Start(), i) != Walk(r, r.Start(), j) {
      LapAt(r, r.Start(), i);
      LapAt(r, r.Start(), j);
    }
    forall j | 1 <= j < last ensures Walk(r, r.Start(), j) < r.widgets && Some(Walk(r, r.Start(), j)) != r.active {
      assert !Ends(r, accepts, j);
      LapAt(r, r.Start(), j);
    }
  }

  /** With neither, the starting index is no slot, and nothing but a widget that accepts
      ends the loop. */
  lemma EndsIffAccepted(r: Ring, accepts: nat -> bool)
    requires r.Valid() && !r.hasWindow && r.active.None? && r.widgets > 0
    ensures Terminates(r, accepts) <==> exists k :: k >= 1 && accepts(k)
  {
    if k :| k >= 1 && accepts(k) {
      assert Ends(r, accepts, k);
    }
  }

  /** So one widget that never accepts keeps the loop going for good. */
  lemma UnwillingWidgetLoops(direction: Direction)
    ensures !Terminates(Ring(direction, 1, None, false), (k: nat) => false)
  {
    var r, accepts := Ring(direction, 1, None, false), (k: nat) => false;
    EndsIffAccepted(r, accepts);
  }

  /** Every slot has its turn at some time. */
  lemma TurnComes(r: Ring, slot: nat) returns (k: nat)
    requires r.Slots() > 0 && slot < r.Slots()
    ensures k >= 1 && Walk(r, r.Start(), k) == slot
  {
    var first := Walk(r, r.Start(), 1);
    assert first == r.Next(Walk(r, r.Start(), 0));
    var t := Turn(r, first, slot);
    hide Walk, Turn;
    EachSlotOnce(r, first, slot, 1);
    EachSlotOnce(r, first, slot, t);
    WalkOn(r, r.Start(), 1, t);
    k := 1 + t;
  }

  /** If what a widget answers does not depend on when it is asked: exactly when some
      widget accepts. */
  lemma EndsIffSomeWidgetAccepts(r: Ring, accepts: nat -> bool, willing: set<nat>)
    requires r.Valid() && !r.hasWindow && r.active.None? && r.widgets > 0
    requires forall slot <- willing :: slot < r.widgets
    requires forall k :: k >= 1 ==> (accepts(k) <==> Walk(r, r.Start(), k) in willing)
    ensures Terminates(r, accepts) <==> exists slot :: slot in willing
  {
    EndsIffAccepted(r, accepts);
    hide Walk, Terminates;
    if slot :| slot in willing {
      var k := TurnComes(r, slot);
      assert accepts(k);
    }
  }

  /** Going forward from no slot, the first widget tried is the second one, if there are two. */
  lemma FirstSlotSkipped(r: Ring)
    requires !r.hasWindow && r.active.None? && r.widgets > 1
    ensures r.Next(r.Start()) == if r.direction.Forward? then 1 else r.widgets - 1
  {
    OnceAround(1, r.widgets);
    OnceAround(r.widgets - 1, r.widgets);
  }

  // ----- Which slot comes when -----

  /** With a window to focus and no active widget: all widgets in order, the first one
      first going forward and the last one first going backward; the loop ends when one
      accepts, or else in the next round, at the windows' slot, where it started. */
  lemma TurnsWithWindow(r: Ring, accepts: nat -> bool, k: nat)
    requires r.hasWindow && r.active.None? && 1 <= k <= r.widgets + 1
    ensures k <= r.widgets ==>
              && Walk(r, r.Start(), k) == (if r.direction == Forward then k - 1 else r.widgets - k)
              && (Ends(r, accepts, k) <==> accepts(k))
    ensures k == r.widgets + 1 ==> Walk(r, r.Start(), k) == r.widgets && Ends(r, accepts, k)
  {
    LapAt(r, r.widgets, k);
  }

  /** From an active widget i: the slots after it going forward, or before it going
      backward, around the ring, where the windows, if any, come after the last widget; the
      loop ends at the windows, at a widget that accepts, or where it started. */
  lemma TurnsFromActive(r: Ring, accepts: nat -> bool, i: nat, k: nat)
    requires r.active == Some(i) && i < r.widgets
    requires 1 <= k <= if r.hasWindow then r.widgets + 1 else r.widgets
    ensures var n := if r.hasWindow then r.widgets + 1 else r.widgets;
            var slot := if r.direction == Forward then (if i + k < n then i + k else i + k - n)
                        else if k <= i then i - k else i - k + n;
            && Walk(r, r.Start(), k) == slot
            && (Ends(r, accepts, k) <==> k == n || slot == r.widgets || accepts(k))
  {
    LapAt(r, i, k);
  }

  /** With neither: going forward the second widget is the first and the first the last of
      a lap; going backward they come from the last to the first; and so again and again,
      until one accepts. */
  lemma TurnsWithNeither(r: Ring, accepts: nat -> bool, laps: nat, k: nat)
    requires !r.hasWindow && r.active.None? && 1 <= k <= r.widgets
    ensures Walk(r, r.Start(), laps * r.widgets + k) ==
            if r.direction == Backward then r.widgets - k else if k < r.widgets then k else 0
    ensures Ends(r, accepts, laps * r.widgets + k) <==> accepts(laps * r.widgets + k)
  {
    FirstTurn(r);
    var first := Walk(r, r.Start(), 1);
    LapAt(r, first, k - 1);
    Laps(r, first, laps);
    WalkOn(r, r.Start(), 1, laps * r.widgets);
    WalkOn(r, r.Start(), 1 + laps * r.widgets, k - 1);
    assert 1 + laps * r.widgets + (k - 1) == laps * r.widgets + k;
    hide Walk;
  }

  lemma FirstTurn(r: Ring)
    requires !r.hasWindow && r.active.None? && r.widgets > 0
    ensures Walk(r, r.Start(), 1) ==
            if r.direction == Backward then r.widgets - 1 else if r.widgets > 1 then 1 else 0
  {
    assert Walk(r, r.Start(), 1) == r.Next(Walk(r, r.Start(), 0)) == r.Next(r.widgets);
    if r.widgets > 1 {
      FirstSlotSkipped(r);
    } else {
      OnceAround(0, 1);
    }
  }

  lemma {:induction false} Laps(r: Ring, index: nat, laps: nat)
    requires index < r.Slots()
    ensures Walk(r, index, laps * r.Slots()) == index
  {
    if laps == 0 {
    } else {
      Laps(r, index, laps - 1);
      WalkOn(r, index, (laps - 1) * r.Slots(), r.Slots());
      EachSlotOnce(r, index, index, r.Slots());
      assert (laps - 1) * r.Slots() + r.Slots() == laps * r.Slots();
      hide Walk;
    }
  }
}
