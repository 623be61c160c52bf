/** The focus cycler: the loop over the widgets, and the calls it makes on them. */
module FocusCycling {
  import opened Wrappers
  import opened FocusRotation

  type Widget = nat

  /** How a rotation ends, or that it has not ended. With no widget and no window the
      first round divides by zero. */
  datatype Rotation = WithinPane | LapOver | BrowserWindow | Accepted(slot: nat) | DividesByZero | StillRunning

  /** How the loop ends when its last round is round k. */
  function OutcomeAt(r: Ring, k: nat): Rotation
    requires r.Slots() > 0
  {
    var slot := Walk(r, r.Start(), k);
    if slot == r.Start() then LapOver else if r.IsBrowser(slot) then BrowserWindow else Accepted(slot)
  }

  /** The widgets whose turn comes in rounds 1 to k. */
  function Visited(r: Ring, widgets: seq<Widget>, k: nat): seq<Widget>
    requires r.Slots() > 0
  {
    if k == 0 then []
    else
      var slot := Walk(r, r.Start(), k);
      Visited(r, widgets, k - 1) + if slot < |widgets| then [widgets[slot]] else []
  }

  /** The widgets that are activated when the loop is in round k, or has ended in it. */
  function Tried(r: Ring, widgets: seq<Widget>, outcome: Rotation, k: nat): seq<Widget>
    requires r.Slots() > 0
  {
    if outcome.Accepted? || outcome.StillRunning? || k == 0 then Visited(r, widgets, k) else Visited(r, widgets, k - 1)
  }

  /** A widget that accepts has been activated, last of all; in the round in which the loop
      ends otherwise none is. */
  lemma TriedMeans(r: Ring, widgets: seq<Widget>, k: nat)
    requires r.Slots() > 0 && r.Valid() && r.widgets == |widgets| && k >= 1
    ensures var outcome := OutcomeAt(r, k);
            Tried(r, widgets, outcome, k) ==
            Visited(r, widgets, k - 1) + if outcome.Accepted? then [widgets[outcome.slot]] else []
  {
    assert Walk(r, r.Start(), k) == r.Next(Walk(r, r.Start(), k - 1));
    assert Walk(r, r.Start(), k) < r.Slots();
  }

  /** With a window to focus and no active widget, the widgets visited in k rounds are the
      first k, in order, or the last k, in reverse. */
  lemma {:induction false} VisitedWithWindow(r: Ring, widgets: seq<Widget>, k: nat)
    requires r.hasWindow && r.active.None? && r.widgets == |widgets| && k <= |widgets|
    ensures |Visited(r, widgets, k)| == k
    ensures forall i :: 0 <= i < k ==>
              Visited(r, widgets, k)[i] == widgets[if r.direction == Forward then i else |widgets| - 1 - i]
  {
    if k == 0 {
    } else {
      VisitedWithWindow(r, widgets, k - 1);
      TurnsWithWindow(r, _ => false, k);
      hide Walk;
    }
  }

  /** If no widget accepts, the lap is then over: the windows' slot is the starting one, and
      that is what is looked at first. */
  lemma LapOverAtWindow(r: Ring)
    requires r.hasWindow && r.active.None?
    ensures OutcomeAt(r, r.widgets + 1) == LapOver
    ensures forall k :: 1 <= k <= r.widgets ==>
              OutcomeAt(r, k) == Accepted(if r.direction == Forward then k - 1 else r.widgets - k)
  {
    TurnsWithWindow(r, _ => false, r.widgets + 1);
    forall k | 1 <= k <= r.widgets
      ensures OutcomeAt(r, k) == Accepted(if r.direction == Forward then k - 1 else r.widgets - k)
    {
      TurnsWithWindow(r, _ => false, k);
    }
  }

  /** From an active widget i: the lap is over in the last round; before that, the windows
      get their turn after the last widget, and any other slot is a widget's. */
  lemma OutcomeFromActive(r: Ring, i: nat, k: nat)
    requires r.active == Some(i) && i < r.widgets
    requires 1 <= k <= if r.hasWindow then r.widgets + 1 else r.widgets
    ensures var n := if r.hasWindow then r.widgets + 1 else r.widgets;
            var slot := if r.direction == Forward then (if i + k < n then i + k else i + k - n)
                        else if k <= i then i - k else i - k + n;
            OutcomeAt(r, k) == if k == n then LapOver else if slot == r.widgets then BrowserWindow else Accepted(slot)
  {
    TurnsFromActive(r, _ => false, i, k);
    hide Walk;
  }

  class FocusCycler {
    var widgets: seq<Widget>
    var widgetActivating: Option<Widget>

    /** Every call of Activate on a widget, in order. */
    var activated: seq<Widget>

    constructor ()
      ensures widgets == [] && widgetActivating == None && activated == []
    {
      widgets, widgetActivating, activated := [], None, [];
    }

    method AddWidget(widget: Widget)
      modifies this`widgets
      ensures widgets == old(widgets) + [widget]
    {
      widgets := widgets + [widget];
    }

    /** `accepts` says whether the widget is active afterwards. */
    method FocusWidget(widget: Widget, accepts: bool) returns (focused: bool)
      modifies this`widgetActivating, this`activated
      ensures focused == accepts && widgetActivating == None && activated == old(activated) + [widget]
    {
      widgetActivating := Some(widget);
      activated := activated + [widget];
      widgetActivating := None;
      return accepts;
    }

    method FirstActive(isActive: seq<bool>) returns (index: nat)
      requires |isActive| == |widgets|
      ensures index <= |widgets| && (index < |widgets| ==> isActive[index])
      ensures forall i :: 0 <= i < index ==> !isActive[i]
    {
      index := 0;
      while index < |widgets|
        invariant index <= |widgets| && forall i :: 0 <= i < index ==> !isActive[i]
      {
        if isActive[index] {
          break;
        }
        index := index + 1;
      }
    }

    /** `paneRotates`: the active window moved the focus within itself. `budget`: for how
        many rounds the loop is followed, since it need not end. The loop activates the
        widgets in the order of their turns, until one accepts, the windows' turn has come
        or the lap is over, and ends in the first such round. */
    method RotateFocus(direction: Direction, paneRotates: bool, isActive: seq<bool>, hasWindow: bool,
                       accepts: nat -> bool, budget: nat)
      returns (r: Ring, outcome: Rotation, rounds: nat)
      requires |isActive| == |widgets|
      modifies this`widgetActivating, this`activated
      ensures r.Valid() && r.direction == direction && r.widgets == |widgets| && r.hasWindow == hasWindow
      ensures r.active.Some? <==> exists i :: 0 <= i < |isActive| && isActive[i]
      ensures r.active.Some? ==> isActive[r.active.value] && forall i :: 0 <= i < r.active.value ==> !isActive[i]
      ensures paneRotates ==> outcome == WithinPane && activated == old(activated)
      ensures !paneRotates && r.Slots() == 0 ==> outcome == DividesByZero && activated == old(activated)
      ensures !paneRotates && r.Slots() > 0 ==>
                && (outcome == StillRunning <==> forall j :: 1 <= j <= budget ==> !Ends(r, accepts, j))
                && activated == old(activated) +
                                  Tried(r, widgets, outcome, if outcome == StillRunning then budget else rounds)
                && (outcome != StillRunning ==>
                      && rounds <= budget && Ends(r, accepts, rounds) && outcome == OutcomeAt(r, rounds)
                      && forall j :: 1 <= j < rounds ==> !Ends(r, accepts, j))
    {
      var index := FirstActive(isActive);
      r := Ring(direction, |widgets|, if index < |widgets| then Some(index) else None, hasWindow);
      outcome, rounds := WithinPane, 0;
      if paneRotates {
        return;
      }
      if r.Slots() == 0 {
        outcome := DividesByZero;
        return;
      }
      outcome, rounds := Cycle(r, accepts, budget);
    }

    method NextIndex(r: Ring, index: nat) returns (next: nat)
      requires r.Slots() > 0
      ensures next == r.Next(index) && next < r.Slots()
    {
      var count := r.Slots();
      if r.direction == Forward {
        next := (index + 1) % count;
      } else {
        next := ((index - 1) + count) % count;
      }
    }

    /** The loop itself. */
    method Cycle(r: Ring, accepts: nat -> bool, budget: nat) returns (outcome: Rotation, rounds: nat)
      requires r.Valid() && r.Slots() > 0 && r.widgets == |widgets|
      modifies this`widgetActivating, this`activated
      ensures outcome == StillRunning <==> forall j :: 1 <= j <= budget ==> !Ends(r, accepts, j)
      ensures activated == old(activated) +
                             Tried(r, widgets, outcome, if outcome == StillRunning then budget else rounds)
      ensures outcome != StillRunning ==>
                && rounds <= budget && Ends(r, accepts, rounds) && outcome == OutcomeAt(r, rounds)
                && forall j :: 1 <= j < rounds ==> !Ends(r, accepts, j)
    {
      hide Ring.Next;
      var index, startIndex := r.Start(), r.Start();
      var browserIndex := if r.hasWindow then r.widgets else -1;
      rounds := 0;
      while rounds < budget
        invariant rounds <= budget && index == Walk(r, r.Start(), rounds)
        invariant forall j :: 1 <= j <= rounds ==> !Ends(r, accepts, j)
        invariant activated == old(activated) + Visited(r, widgets, rounds)
      {
        rounds := rounds + 1;
        index := NextIndex(r, index);
        if index == startIndex {
          assert Ends(r, accepts, rounds);
          return LapOver, rounds;
        }
        if index == browserIndex {
          assert Ends(r, accepts, rounds);
          return BrowserWindow, rounds;
        }
        var focused := FocusWidget(widgets[index], accepts(rounds));
        if focused {
          assert Ends(r, accepts, rounds);
          return Accepted(index), rounds;
        }
      }
      outcome := StillRunning;
    }
  }
}
