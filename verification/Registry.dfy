/** The registry object, and the lifetime monitor that observes it. */
module Registry {
  import opened RegistrySpec

  class AppLifetimeMonitor {
    var log: seq<LifeEvent>

    constructor ()
      ensures log == []
    {
      log := [];
    }

    method OnShellWindowAdded(registry: ShellWindowRegistry, w: Window)
      modifies this
      ensures log == old(log) + OnAdded(registry.shellWindows, w)
    {
      if !w.isDefault {
        return;
      }
      var windows := registry.GetShellWindowsForApp(w.app);
      if |windows| == 1 {
        log := log + [Activated(w.app)];
      }
    }

    method OnShellWindowRemoved(registry: ShellWindowRegistry, w: Window)
      modifies this
      ensures log == old(log) + OnRemoved(registry.shellWindows, w)
    {
      var windows := registry.GetShellWindowsForApp(w.app);
      if windows == [] {
        log := log + [Deactivated(w.app)];
      }
    }
  }

  class ShellWindowRegistry {
    var shellWindows: seq<Window>
    const monitor: AppLifetimeMonitor

    function Value(): State
      reads this, monitor
    {
      State(shellWindows, monitor.log)
    }

    constructor ()
      ensures Value() == EMPTY && fresh(monitor)
    {
      shellWindows := [];
      monitor := new AppLifetimeMonitor();
    }

    method GetShellWindowsForApp(app: AppId) returns (windows: seq<Window>)
      ensures windows == ForApp(shellWindows, app)
    {
      windows := [];
      for i := 0 to |shellWindows|
        invariant windows == ForApp(shellWindows[..i], app)
      {
        assert shellWindows[..i + 1][..i] == shellWindows[..i];
        if shellWindows[i].app == app {
          windows := windows + [shellWindows[i]];
        }
      }
      assert shellWindows[..|shellWindows|] == shellWindows;
    }

    /** std::find and erase. */
    method Erase(w: Window)
      modifies this
      ensures shellWindows == Without(old(shellWindows), w)
    {
      var i := 0;
      while i < |shellWindows| && shellWindows[i] != w
        invariant i <= |shellWindows| && shellWindows == old(shellWindows)
        invariant Without(shellWindows, w) == shellWindows[..i] + Without(shellWindows[i..], w)
      {
        assert shellWindows[i..][1..] == shellWindows[i + 1..];
        i := i + 1;
      }
      if i < |shellWindows| {
        assert shellWindows[i..][1..] == shellWindows[i + 1..];
        shellWindows := shellWindows[..i] + shellWindows[i + 1..];
      }
    }

    method BringToFront(w: Window)
      modifies this
      ensures shellWindows == RegistrySpec.BringToFront(old(shellWindows), w)
    {
      Erase(w);
      shellWindows := [w] + shellWindows;
    }

    method AddShellWindowToList(w: Window)
      modifies this
      ensures shellWindows == AddToList(old(shellWindows), w)
    {
      if w in shellWindows {
        return;
      }
      shellWindows := shellWindows + [w];
    }

    method AddShellWindow(w: Window)
      modifies this, monitor
      ensures Value() == Step(old(Value()), Add(w))
    {
      BringToFront(w);
      monitor.OnShellWindowAdded(this, w);
    }

    method ShellWindowIconChanged(w: Window)
      modifies this
      ensures Value() == Step(old(Value()), IconChanged(w))
    {
      AddShellWindowToList(w);
    }

    method ShellWindowActivated(w: Window)
      modifies this
      ensures Value() == Step(old(Value()), Activate(w))
    {
      BringToFront(w);
    }

    method RemoveShellWindow(w: Window)
      modifies this, monitor
      ensures Value() == Step(old(Value()), Remove(w))
    {
      Erase(w);
      monitor.OnShellWindowRemoved(this, w);
    }
  }

  /** A registry that has just been made, after any history of calls. */
  method Replay(ops: seq<Op>) returns (registry: ShellWindowRegistry)
    ensures registry.Value() == Run(ops)
    ensures Distinct(registry.shellWindows) && Ranked(ops, registry.shellWindows)
  {
    registry := new ShellWindowRegistry();
    for i := 0 to |ops|
      invariant registry.Value() == Run(ops[..i])
      invariant fresh(registry) && fresh(registry.monitor)
    {
      assert ops[..i + 1][..i] == ops[..i];
      var w := ops[i].window;
      match ops[i]
      case Add(_) => registry.AddShellWindow(w);
      case IconChanged(_) => registry.ShellWindowIconChanged(w);
      case Activate(_) => registry.ShellWindowActivated(w);
      case Remove(_) => registry.RemoveShellWindow(w);
    }
    assert ops[..|ops|] == ops;
    MostRecentFirst(ops);
  }
}
