/** The injector as the program runs it: fields updated in place, keys told to the backend one by one. */
module InjectorObject {
  import opened Prelude
  import Control
  import opened Caps
  import Rates
  import KeyState
  import opened Injection

  class Injector {
    const config: Config
    const keys: KeyState.Keys
    var calls: seq<Call>
    var displays: seq<Display>
    var pointer: Rates.Window
    var key: Rates.Window
    var local: bool
    var stats: Counters

    ghost function View(): State
      reads this, keys
    {
      State(calls, displays, pointer, key, keys.held, local, stats)
    }

    constructor (config: Config, displays: seq<Display>)
      ensures View() == Start(displays) && this.config == config && fresh(keys)
    {
      this.config := config;
      this.displays := displays;
      keys := new KeyState.Keys();
      calls, local, stats := [], false, Counters(0, 0, 0);
      pointer, key := Rates.Window(0, 0, 0), Rates.Window(0, 0, 0);
    }

    method Tell(actions: seq<KeyState.Action>)
      modifies this`calls
      ensures calls == old(calls) + KeyCalls(actions)
    {
      for i := 0 to |actions|
        invariant calls == old(calls) + KeyCalls(actions[..i])
      {
        assert KeyCalls(actions[..i + 1]) == KeyCalls(actions[..i]) + [Key(actions[i].usage, actions[i].Press?)];
        calls := calls + [Key(actions[i].usage, actions[i].Press?)];
      }
      assert actions[..|actions|] == actions;
    }

    method Sync(m: nat)
      modifies this`calls, this`stats, keys
      ensures View() == SyncModifiers(old(View()), m)
    {
      var actions := keys.ReconcileModifiers(m);
      stats := stats.(reconciled := stats.reconciled + |actions|);
      Tell(actions);
    }

    method AdmitEvent(grant: SessionCaps, kind: EventClass, now: nat) returns (refusal: Option<GuardError>)
      modifies this`pointer, this`key, this`stats
      ensures (View(), refusal) == Admit(config, old(View()), grant, kind, now)
    {
      if !grant.input {
        stats := stats.(refused := stats.refused + 1);
        return Some(InputNotGranted);
      }
      var ok;
      if kind.PointerClass? {
        var r := Rates.Allow(pointer, config.pointerPerS, now);
        pointer, ok := r.0, r.1;
      } else {
        var r := Rates.Allow(key, config.keyPerS, now);
        key, ok := r.0, r.1;
      }
      if !ok {
        stats := stats.(refused := stats.refused + 1);
        return Some(RateLimited);
      }
      return None;
    }

    method Inject(more: seq<Call>)
      modifies this`calls, this`stats
      ensures View() == Issue(old(View()), more)
    {
      calls := calls + more;
      stats := stats.(injected := stats.injected + 1);
    }

    method KeyEvent(p: Control.Payload) returns (r: Outcome)
      requires p.KeyEvent?
      modifies this`calls, this`stats, keys
      ensures (View(), r) == Perform(config, old(View()), p)
    {
      var refusal := KeyCheck(config, p);
      if refusal.Some? {
        if refusal.value.BlockedCombination? {
          stats := stats.(refused := stats.refused + 1);
        }
        return Err(refusal.value);
      }
      Sync(p.modifiers);
      var down := !p.action.Up?;
      if down {
        var _ := keys.PressKey(p.usageId);
      } else {
        var _ := keys.ReleaseKey(p.usageId);
      }
      Inject([Key(p.usageId, down)]);
      return Ok(());
    }

    method Snapshot(pressed: seq<U16>)
      modifies this`calls, this`stats, keys
      ensures var s, target := old(View()), KeyState.Target(pressed);
              View() == Issue(Reconciled(s, target, KeyState.ReconcileActions(s.held, target)), [])
    {
      var actions := keys.Reconcile(pressed);
      stats := stats.(reconciled := stats.reconciled + |actions|);
      Tell(actions);
      Inject([]);
    }

    method PerformEvent(p: Control.Payload) returns (r: Outcome)
      modifies this`calls, this`stats, keys
      ensures (View(), r) == Perform(config, old(View()), p)
    {
      match p
      case MouseMove(display, _, x, y, mods) =>
        var d := FindDisplay(displays, display);
        if d.None? {
          return Err(UnknownDisplay);
        }
        Sync(mods);
        Inject([PointerTo(Axis(d.value.x, d.value.width, x), Axis(d.value.y, d.value.height, y))]);
        return Ok(());
      case MouseMoveRelative(dx, dy, mods, _) =>
        Sync(mods);
        Inject([PointerBy(dx, dy)]);
        return Ok(());
      case MouseButton(button, action, x, y, mods, display, _) =>
        var d := FindDisplay(displays, display);
        if d.None? {
          return Err(UnknownDisplay);
        }
        Sync(mods);
        Inject([PointerTo(Axis(d.value.x, d.value.width, x), Axis(d.value.y, d.value.height, y)),
                Button(button, action.Down?)]);
        return Ok(());
      case MouseWheel(v, h, mods, _, _) =>
        Sync(mods);
        Inject([Scroll(v, h)]);
        return Ok(());
      case KeyEvent(_, _, _, _, _) =>
        r := KeyEvent(p);
      case KeyStateSync(_, _, pressed) =>
        Snapshot(pressed);
        return Ok(());
      case TextInput(commit, _, text) =>
        Inject(if commit then [Text(text)] else []);
        return Ok(());
      case _ =>
        return Ok(());
    }

    method ApplyEvent(grant: SessionCaps, p: Control.Payload, now: nat) returns (r: Outcome)
      modifies this, keys
      ensures (View(), r) == Apply(config, old(View()), grant, p, now)
    {
      if local {
        stats := stats.(refused := stats.refused + 1);
        return Err(LocalUserActive);
      }
      var kind := ClassOf(p);
      if kind.None? {
        return Ok(());
      }
      var refusal := AdmitEvent(grant, kind.value, now);
      if refusal.Some? {
        return Err(refusal.value);
      }
      r := PerformEvent(p);
    }

    /** `set_displays`. */
    method SetDisplays(to: seq<Display>)
      modifies this`displays
      ensures View() == old(View()).(displays := to)
    {
      displays := to;
    }

    method ReleaseHeld()
      modifies this`calls, keys
      ensures View() == ReleaseAll(old(View()))
    {
      var actions := keys.ReleaseAll();
      Tell(actions);
    }

    method SetLocalControl(to: bool)
      modifies this, keys
      ensures View() == SetLocal(old(View()), to)
    {
      if to && keys.held != {} {
        ReleaseHeld();
      }
      local := to;
    }
  }
}
