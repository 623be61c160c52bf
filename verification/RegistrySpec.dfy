/** The registry of app windows and the app lifetime events drawn from it, over whole
    histories of calls. */
module RegistrySpec {
  import opened Wrappers

  type AppId = string

  datatype Window = Window(id: nat, app: AppId, isDefault: bool)

  datatype Op = Add(window: Window) | IconChanged(window: Window) | Activate(window: Window) | Remove(window: Window)

  datatype LifeEvent = Activated(app: AppId) | Deactivated(app: AppId)

  datatype State = State(windows: seq<Window>, log: seq<LifeEvent>)

  const EMPTY := State([], [])

  // ----- The steps -----

  /** Erases the first occurrence. */
  function Without(s: seq<Window>, w: Window): seq<Window> {
    if s == [] then [] else if s[0] == w then s[1..] else [s[0]] + Without(s[1..], w)
  }

  function ForApp(s: seq<Window>, app: AppId): seq<Window> {
    if s == [] then []
    else ForApp(s[..|s| - 1], app) + if s[|s| - 1].app == app then [s[|s| - 1]] else []
  }

  function BringToFront(s: seq<Window>, w: Window): seq<Window> {
    [w] + Without(s, w)
  }

  function AddToList(s: seq<Window>, w: Window): seq<Window> {
    if w in s then s else s + [w]
  }

  function OnAdded(s: seq<Window>, w: Window): seq<LifeEvent> {
    if w.isDefault && |ForApp(s, w.app)| == 1 then [Activated(w.app)] else []
  }

  function OnRemoved(s: seq<Window>, w: Window): seq<LifeEvent> {
    if ForApp(s, w.app) == [] then [Deactivated(w.app)] else []
  }

  function Step(s: State, op: Op): State {
    var w := op.window;
    match op
    case Add(_) => var ws := BringToFront(s.windows, w); State(ws, s.log + OnAdded(ws, w))
    case IconChanged(_) => s.(windows := AddToList(s.windows, w))
    case Activate(_) => s.(windows := BringToFront(s.windows, w))
    case Remove(_) => var ws := Without(s.windows, w); State(ws, s.log + OnRemoved(ws, w))
  }

  function Run(ops: seq<Op>): State {
    if ops == [] then EMPTY else Step(Run(ops[..|ops| - 1]), ops[|ops| - 1])
  }

  // ----- Most recent first -----

  /** The rank a window's own history gives it: the time of its last addition or
      activation or, if it only ever changed its icon, minus the time it was first seen. */
  function Rank(ops: seq<Op>, w: Window): Option<int> {
    if ops == [] then None
    else
      var before, op := Rank(ops[..|ops| - 1], w), ops[|ops| - 1];
      if op.window != w then before
      else match op
           case Add(_) => Some(|ops|)
           case Activate(_) => Some(|ops|)
           case IconChanged(_) => if before.Some? then before else Some(-|ops|)
           case Remove(_) => None
  }

  ghost predicate Ranked(ops: seq<Op>, s: seq<Window>) {
    && (forall w :: w in s <==> Rank(ops, w).Some?)
    && InOrder(ops, s)
  }

  /** Strictly falling rank. */
  ghost predicate InOrder(ops: seq<Op>, s: seq<Window>) {
    forall i, j :: 0 <= i < j < |s| ==> Above(ops, s[i], s[j])
  }

  predicate Above(ops: seq<Op>, v: Window, w: Window) {
    Rank(ops, v).Some? && Rank(ops, w).Some? && Rank(ops, v).value > Rank(ops, w).value
  }

  ghost predicate Distinct(s: seq<Window>) {
    forall i, j :: 0 <= i < j < |s| ==> s[i] != s[j]
  }

  lemma {:induction false} RankBound(ops: seq<Op>, w: Window)
    ensures Rank(ops, w).Some? ==> -|ops| <= Rank(ops, w).value <= |ops|
  {
    if ops == [] {
    } else {
      RankBound(ops[..|ops| - 1], w);
    }
  }

  lemma {:induction false} WithoutAbsent(s: seq<Window>, w: Window)
    requires w !in s
    ensures Without(s, w) == s
  {
    if s == [] {
    } else {
      WithoutAbsent(s[1..], w);
    }
  }

  lemma {:induction false} WithoutAt(s: seq<Window>, i: nat, r: seq<Window>)
    requires i < |s| && (forall j :: 0 <= j < i ==> s[j] != s[i]) && r == s[..i] + s[i + 1..]
    ensures Without(s, s[i]) == r
  {
    if i == 0 {
      assert r == s[1..];
    } else {
      assert s[0] != s[i] && s[1..][i - 1] == s[i];
      WithoutAt(s[1..], i - 1, r[1..]);
      assert r == [s[0]] + r[1..];
    }
  }

  /** Erasing cuts the window out, where it is. */
  lemma WithoutCuts(s: seq<Window>, w: Window) returns (i: nat)
    ensures if w in s then i < |s| && s[i] == w && Without(s, w) == s[..i] + s[i + 1..] else Without(s, w) == s
  {
    i := 0;
    while i < |s| && s[i] != w
      invariant i <= |s| && forall j :: 0 <= j < i ==> s[j] != w
    {
      i := i + 1;
    }
    hide Without;
    if i < |s| {
      WithoutAt(s, i, s[..i] + s[i + 1..]);
    } else {
      WithoutAbsent(s, w);
    }
  }

  lemma WithoutKeeps(s: seq<Window>, w: Window)
    requires Distinct(s)
    ensures Distinct(Without(s, w)) && forall v :: v in Without(s, w) <==> v in s && v != w
  {
    var i := WithoutCuts(s, w);
    hide Without;
    forall v ensures v in Without(s, w) <==> v in s && v != w {
      if w in s {
        assert s == s[..i] + [w] + s[i + 1..];
      }
    }
  }

  lemma RankedDistinct(ops: seq<Op>, s: seq<Window>)
    requires Ranked(ops, s)
    ensures Distinct(s)
  {
    hide Rank;
  }

  lemma InOrderSplice(ops: seq<Op>, s: seq<Window>, k: nat, r: seq<Window>)
    requires InOrder(ops, s) && k < |s| && r == s[..k] + s[k + 1..]
    ensures InOrder(ops, r)
  {
    hide Above;
    forall i, j | 0 <= i < j < |r| ensures Above(ops, r[i], r[j]) {
      var x, y := if i < k then i else i + 1, if j < k then j else j + 1;
      assert r[i] == s[x] && r[j] == s[y];
      assert Above(ops, s[x], s[y]);
    }
  }

  lemma RankedWithout(ops: seq<Op>, s: seq<Window>, w: Window)
    requires Ranked(ops, s)
    ensures forall v :: v in Without(s, w) <==> v != w && Rank(ops, v).Some?
    ensures InOrder(ops, Without(s, w))
  {
    RankedDistinct(ops, s);
    WithoutKeeps(s, w);
    hide Rank, InOrder, Distinct;
    var k := WithoutCuts(s, w);
    if w in s {
      InOrderSplice(ops, s, k, Without(s, w));
    }
  }

  lemma RankGrows(ops: seq<Op>, op: Op)
    ensures forall v :: v != op.window ==> Rank(ops + [op], v) == Rank(ops, v)
    ensures forall v :: Rank(ops, v).Some? ==> -|ops| - 1 < Rank(ops, v).value < |ops| + 1
    ensures Rank(ops + [op], op.window) ==
            match op
            case Add(_) => Some(|ops| + 1)
            case Activate(_) => Some(|ops| + 1)
            case IconChanged(_) => if Rank(ops, op.window).Some? then Rank(ops, op.window) else Some(-|ops| - 1)
            case Remove(_) => None
  {
    assert (ops + [op])[..|ops|] == ops;
    forall v ensures Rank(ops, v).Some? ==> -|ops| - 1 < Rank(ops, v).value < |ops| + 1 {
      RankBound(ops, v);
    }
  }

  /** A window comes to the front with the highest rank, or to the back with the lowest. */
  lemma RankedEnd(ops: seq<Op>, later: seq<Op>, s: seq<Window>, w: Window, front: bool)
    requires InOrder(ops, s) && forall v :: v in s <==> v != w && Rank(ops, v).Some?
    requires forall v :: v != w ==> Rank(later, v) == Rank(ops, v)
    requires Rank(later, w).Some?
    requires forall v :: Rank(ops, v).Some? ==>
               if front then Rank(ops, v).value < Rank(later, w).value else Rank(ops, v).value > Rank(later, w).value
    ensures Ranked(later, if front then [w] + s else s + [w])
  {
    hide Rank;
    forall j | 0 <= j < |s| ensures Rank(ops, s[j]).Some? && Rank(later, s[j]) == Rank(ops, s[j]) {
      assert s[j] in s;
    }
    var s' := if front then [w] + s else s + [w];
    assert forall v :: v in s' <==> v == w || v in s;
    assert InOrder(later, s);
    if front {
      FrontInOrder(later, s, w);
    } else {
      BackInOrder(later, s, w);
    }
  }

  lemma FrontInOrder(ops: seq<Op>, s: seq<Window>, w: Window)
    requires InOrder(ops, s) && Rank(ops, w).Some?
    requires forall j :: 0 <= j < |s| ==> Rank(ops, s[j]).Some? && Rank(ops, w).value > Rank(ops, s[j]).value
    ensures InOrder(ops, [w] + s)
  {
    hide Rank;
  }

  lemma BackInOrder(ops: seq<Op>, s: seq<Window>, w: Window)
    requires InOrder(ops, s) && Rank(ops, w).Some?
    requires forall j :: 0 <= j < |s| ==> Rank(ops, s[j]).Some? && Rank(ops, s[j]).value > Rank(ops, w).value
    ensures InOrder(ops, s + [w])
  {
    hide Rank;
  }

  lemma RankedSame(ops: seq<Op>, later: seq<Op>, s: seq<Window>)
    requires InOrder(ops, s)
    requires forall v :: v in s <==> Rank(later, v).Some?
    requires forall v :: v in s ==> Rank(later, v) == Rank(ops, v)
    ensures Ranked(later, s)
  {
    hide Rank;
    assert forall j :: 0 <= j < |s| ==> s[j] in s;
  }

  lemma RankedStep(ops: seq<Op>, s: seq<Window>, op: Op)
    requires Ranked(ops, s)
    ensures Ranked(ops + [op], Step(State(s, []), op).windows)
  {
    RankGrows(ops, op);
    RankedWithout(ops, s, op.window);
    var w, later, ws := op.window, ops + [op], Without(s, op.window);
    hide Rank, Without, OnAdded, OnRemoved;
    if op.Add? || op.Activate? {
      RankedEnd(ops, later, ws, w, true);
    } else if op.Remove? {
      RankedSame(ops, later, ws);
    } else if w in s {
      RankedSame(ops, later, s);
    } else {
      RankedEnd(ops, later, s, w, false);
    }
  }

  /** After every history the list holds each window once and is in order of rank: added
      and activated windows most recent first, then the others, in order of appearance. */
  lemma {:induction false} MostRecentFirst(ops: seq<Op>)
    ensures Ranked(ops, Run(ops).windows) && Distinct(Run(ops).windows)
  {
    if ops == [] {
    } else {
      var front, op := ops[..|ops| - 1], ops[|ops| - 1];
      MostRecentFirst(front);
      assert front + [op] == ops;
      RankedStep(front, Run(front).windows, op);
      RankedDistinct(ops, Run(ops).windows);
    }
  }

  // ----- Activated and Deactivated -----

  /** What an app's own events say: they must alternate, Activated first. */
  datatype Mode = Inactive | Active | Confused

  function ModeOf(log: seq<LifeEvent>, app: AppId): Mode {
    if log == [] then Inactive
    else
      var before, e := ModeOf(log[..|log| - 1], app), log[|log| - 1];
      if e.app != app then before
      else match e
           case Activated(_) => if before == Inactive then Active else Confused
           case Deactivated(_) => if before == Active then Inactive else Confused
  }

  /** The window has been added or activated, and not removed since. */
  predicate Shown(ops: seq<Op>, w: Window) {
    Rank(ops, w).Some? && Rank(ops, w).value > 0
  }

  ghost predicate HasShown(ops: seq<Op>, app: AppId) {
    exists w: Window :: w.app == app && Shown(ops, w)
  }

  /** The same of the app's windows other than `w`, and of those that are listed at all. */
  ghost predicate ShownBesides(ops: seq<Op>, w: Window) {
    exists v: Window :: v.app == w.app && v != w && Shown(ops, v)
  }

  ghost predicate ListedBesides(ops: seq<Op>, w: Window) {
    exists v: Window :: v.app == w.app && v != w && Rank(ops, v).Some?
  }

  /** The events so far alternate, and say of the app what is the case. */
  ghost predicate Agrees(ops: seq<Op>, app: AppId) {
    ModeOf(Run(ops).log, app) == if HasShown(ops, app) then Active else Inactive
  }

  /** What a call must meet for the events to stay right: an addition is the first of the
      app and of default type, with no window of the app listed for its icon only, or not
      the first; an activation is not the first sign of the app; and when a window leaves,
      the others are all shown, or at least listed if the app was not active. */
  ghost predicate Guard(ops: seq<Op>, op: Op) {
    var w := op.window;
    match op
    case Add(_) => HasShown(ops, w.app) <==> !(w.isDefault && !ListedBesides(ops, w))
    case IconChanged(_) => true
    case Activate(_) => HasShown(ops, w.app)
    case Remove(_) =>
      if HasShown(ops, w.app) then ShownBesides(ops, w) <==> ListedBesides(ops, w) else ListedBesides(ops, w)
  }

  lemma {:induction false} ForAppEmptyIff(s: seq<Window>, app: AppId)
    ensures ForApp(s, app) == [] <==> forall v :: v in s ==> v.app != app
  {
    if s == [] {
    } else {
      ForAppEmptyIff(s[..|s| - 1], app);
      assert s == s[..|s| - 1] + [s[|s| - 1]];
    }
  }

  lemma {:induction false} ForAppFront(w: Window, s: seq<Window>, app: AppId)
    ensures ForApp([w] + s, app) == (if w.app == app then [w] else []) + ForApp(s, app)
  {
    if s == [] {
      assert [w] + s == [w];
    } else {
      ForAppFront(w, s[..|s| - 1], app);
      assert ([w] + s)[..|s|] == [w] + s[..|s| - 1];
    }
  }

  lemma ModeGrows(log: seq<LifeEvent>, e: LifeEvent, app: AppId)
    ensures ModeOf(log + [e], app) ==
            var before := ModeOf(log, app);
            if e.app != app then before
            else match e
                 case Activated(_) => if before == Inactive then Active else Confused
                 case Deactivated(_) => if before == Active then Inactive else Confused
  {
    assert (log + [e])[..|log|] == log;
  }

  lemma OthersListed(ops: seq<Op>, w: Window)
    ensures ForApp(Without(Run(ops).windows, w), w.app) != [] <==> ListedBesides(ops, w)
  {
    MostRecentFirst(ops);
    RankedWithout(ops, Run(ops).windows, w);
    ForAppEmptyIff(Without(Run(ops).windows, w), w.app);
    hide Rank, Without, ForApp, Run, InOrder, Distinct;
  }

  lemma RunGrows(ops: seq<Op>, op: Op)
    ensures Run(ops + [op]) == Step(Run(ops), op)
  {
    assert (ops + [op])[..|ops|] == ops;
  }

  /** The events that one call adds to the log. */
  lemma EventsOf(ops: seq<Op>, op: Op)
    ensures var w := op.window;
            Run(ops + [op]).log == Run(ops).log +
            match op
            case Add(_) => if w.isDefault && !ListedBesides(ops, w) then [Activated(w.app)] else []
            case Remove(_) => if ListedBesides(ops, w) then [] else [Deactivated(w.app)]
            case _ => []
  {
    var w := op.window;
    RunGrows(ops, op);
    OthersListed(ops, w);
    ForAppFront(w, Without(Run(ops).windows, w), w.app);
    hide Run, Without, ForApp, ListedBesides;
  }

  /** Who is shown after one call. */
  lemma ShownAfter(ops: seq<Op>, op: Op, app: AppId)
    ensures HasShown(ops + [op], app) <==>
            if op.window.app != app then HasShown(ops, app)
            else match op
                 case Add(_) => true
                 case Activate(_) => true
                 case IconChanged(_) => HasShown(ops, app)
                 case Remove(_) => ShownBesides(ops, op.window)
  {
    RankGrows(ops, op);
    hide Rank;
    var w, later := op.window, ops + [op];
    assert op.Add? || op.Activate? ==> Shown(later, w);
    assert forall v: Window :: v != w ==> (Shown(later, v) <==> Shown(ops, v));
    assert op.IconChanged? ==> (Shown(later, w) <==> Shown(ops, w));
    assert op.Remove? ==> !Shown(later, w);
    hide Shown;
  }

  /** One call keeps the events right exactly if it meets its guard; calls of other apps'
      windows change nothing. */
  lemma AgreesIffGuard(ops: seq<Op>, op: Op, app: AppId)
    requires Agrees(ops, app)
    ensures Agrees(ops + [op], app) <==> (op.window.app == app ==> Guard(ops, op))
  {
    var log := Run(ops).log;
    EventsOf(ops, op);
    ShownAfter(ops, op, app);
    ModeGrows(log, Activated(op.window.app), app);
    ModeGrows(log, Deactivated(op.window.app), app);
    assert log + [] == log;
    assert ShownBesides(ops, op.window) ==> HasShown(ops, op.window.app);
    hide Run, ModeOf, HasShown, ShownBesides, ListedBesides;
  }

  ghost predicate AlwaysAgrees(ops: seq<Op>, app: AppId) {
    forall k :: 0 <= k <= |ops| ==> Agrees(ops[..k], app)
  }

  ghost predicate AllGuarded(ops: seq<Op>, app: AppId) {
    forall k :: 0 <= k < |ops| && ops[k].window.app == app ==> Guard(ops[..k], ops[k])
  }

  /** Throughout a history an app's events alternate, and say that it is active exactly
      while one of its windows is shown, if and only if every call of the app's windows
      meets its guard, whatever other apps do. */
  lemma {:induction false} AlwaysAgreesIff(ops: seq<Op>, app: AppId)
    ensures AlwaysAgrees(ops, app) <==> AllGuarded(ops, app)
  {
    hide Agrees, Guard;
    if ops == [] {
      NothingHappened(app);
    } else {
      var n := |ops| - 1;
      var front, op := ops[..n], ops[n];
      AlwaysAgreesIff(front, app);
      assert forall k :: 0 <= k <= n ==> front[..k] == ops[..k];
      assert front + [op] == ops && ops[..n + 1] == ops;
      assert AlwaysAgrees(ops, app) <==> AlwaysAgrees(front, app) && Agrees(ops, app);
      assert AllGuarded(ops, app) <==> AllGuarded(front, app) && (op.window.app == app ==> Guard(front, op));
      if AlwaysAgrees(front, app) {
        assert front[..n] == front;
        AgreesIffGuard(front, op, app);
      }
    }
  }

  lemma NothingHappened(app: AppId)
    ensures Agrees([], app)
  {
  }

  // ----- A conduct that is enough -----

  /** How the windows of an app are expected to call the registry. A window whose icon
      arrives before it is added is `pending`, and is added before anything else happens
      in its app. */
  datatype Conduct = Improper | Proper(pending: Option<Window>)

  function Next(c: Conduct, listed: bool, op: Op): Conduct {
    if c.Improper? || !op.window.isDefault then Improper
    else if c.pending.Some? then
      if op == Add(c.pending.value) then Proper(None) else Improper
    else match op
         case Add(w) => if listed then Improper else Proper(None)
         case IconChanged(w) => Proper(if listed then None else Some(w))
         case Activate(_) => if listed then Proper(None) else Improper
         case Remove(_) => if listed then Proper(None) else Improper
  }

  function ConductOf(ops: seq<Op>, app: AppId): Conduct {
    if ops == [] then Proper(None)
    else
      var front, op := ops[..|ops| - 1], ops[|ops| - 1];
      var before := ConductOf(front, app);
      if op.window.app != app then before else Next(before, op.window in Run(front).windows, op)
  }

  /** Among the app's listed windows exactly the pending one is not shown. */
  ghost predicate Tidy(ops: seq<Op>, app: AppId, pending: Option<Window>) {
    && (pending.Some? ==> pending.value.app == app && Rank(ops, pending.value).Some?)
    && forall w: Window :: w.app == app && Rank(ops, w).Some? ==> (Shown(ops, w) <==> Some(w) != pending)
  }

  lemma TidyStep(ops: seq<Op>, op: Op, c: Conduct)
    requires c.Proper? && Tidy(ops, op.window.app, c.pending)
    requires Next(c, Rank(ops, op.window).Some?, op).Proper?
    ensures Tidy(ops + [op], op.window.app, Next(c, Rank(ops, op.window).Some?, op).pending)
    ensures Guard(ops, op)
  {
    RankGrows(ops, op);
    hide Rank;
    var w := op.window;
    assert op.Remove? || op.Activate? ==> Shown(ops, w);
    assert forall v: Window :: v.app == w.app && v != w && Rank(ops, v).Some? ==> Shown(ops, v);
    assert op.Add? ==> !Shown(ops, w);
  }

  /** As long as the windows of an app behave, every call meets its guard. */
  lemma {:induction false} ProperGuarded(ops: seq<Op>, app: AppId)
    requires ConductOf(ops, app).Proper?
    ensures AllGuarded(ops, app) && Tidy(ops, app, ConductOf(ops, app).pending)
  {
    if ops == [] {
    } else {
      var n := |ops| - 1;
      var front, op := ops[..n], ops[n];
      ProperGuarded(front, app);
      assert forall k :: 0 <= k <= n ==> front[..k] == ops[..k];
      assert front + [op] == ops;
      MostRecentFirst(front);
      assert op.window in Run(front).windows <==> Rank(front, op.window).Some?;
      if op.window.app == app {
        TidyStep(front, op, ConductOf(front, app));
      } else {
        RankGrows(front, op);
      }
      hide Rank, Run, Guard, Next;
    }
  }

  /** The app has a window that is listed and not pending. */
  ghost predicate HasWindow(windows: seq<Window>, pending: Option<Window>, app: AppId) {
    exists w :: w in windows && w.app == app && Some(w) != pending
  }

  /** Then its events alternate, and it is active exactly while it has a window. */
  lemma {:induction false} ActiveIffHasWindow(ops: seq<Op>, app: AppId)
    requires ConductOf(ops, app).Proper?
    ensures ModeOf(Run(ops).log, app) ==
            if HasWindow(Run(ops).windows, ConductOf(ops, app).pending, app) then Active else Inactive
  {
    ProperGuarded(ops, app);
    AlwaysAgreesIff(ops, app);
    MostRecentFirst(ops);
    assert ops[..|ops|] == ops;
    assert Agrees(ops, app);
    hide Rank, Run, ModeOf, ConductOf, AllGuarded, InOrder;
    var c := ConductOf(ops, app);
    if w :| w in Run(ops).windows && w.app == app && Some(w) != c.pending {
      assert Shown(ops, w);
    }
    if w: Window :| w.app == app && Shown(ops, w) {
      assert w in Run(ops).windows;
    }
  }

  /** Not every history is guarded. The removal of a window of another type is reported as
      the end of an app that was never reported active. */
  lemma PanelMisreported(app: AppId)
    ensures var panel := Window(0, app, false);
            ModeOf(Run([Add(panel), Remove(panel)]).log, app) == Confused
  {
    var panel := Window(0, app, false);
    RunGrows([], Add(panel));
    RunGrows([Add(panel)], Remove(panel));
    assert [] + [Add(panel)] == [Add(panel)] && [Add(panel)] + [Remove(panel)] == [Add(panel), Remove(panel)];
    ModeGrows([], Deactivated(app), app);
    assert [] + [Deactivated(app)] == [Deactivated(app)];
    hide Run, ModeOf;
  }

  /** An app whose icon comes early is not reported active when another of its windows is
      added first. */
  lemma EarlyIconMisreported(app: AppId)
    ensures var a, b := Window(0, app, true), Window(1, app, true);
            var s := Run([IconChanged(a), Add(b)]);
            ModeOf(s.log, app) == Inactive && b in s.windows
  {
    var a, b := Window(0, app, true), Window(1, app, true);
    var icon := [IconChanged(a)];
    assert Run([]).log == [] && ModeOf([], app) == Inactive;
    hide Run, ModeOf, Rank;
    assert [] + icon == icon && icon + [Add(b)] == [IconChanged(a), Add(b)];
    EventsOf([], IconChanged(a));
    RankGrows([], IconChanged(a));
    assert ListedBesides(icon, b);
    EventsOf(icon, Add(b));
    RankGrows(icon, Add(b));
    MostRecentFirst(icon + [Add(b)]);
  }
}
