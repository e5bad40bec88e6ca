/**
 What an injector run can do at most: how many events a second it admits, and exactly which keys it
 presses and releases.
 */
module InjectionLimits {
  import opened Prelude
  import Caps
  import Control
  import Rates
  import KeyState
  import opened Injection

  // ----- Rates -----

  function LimitOf(c: Config, kind: EventClass): nat {
    if kind.PointerClass? then c.pointerPerS else c.keyPerS
  }

  function WindowOf(s: State, kind: EventClass): Rates.Window {
    if kind.PointerClass? then s.pointer else s.key
  }

  /** The operation draws on the budget of this class. */
  predicate Draws(s: State, op: Op, kind: EventClass) {
    op.Event? && !s.local && ClassOf(op.payload) == Some(kind) && op.grant.input
  }

  /** The operation passes permission and rate limit, as an event of this class. */
  predicate Admits(c: Config, s: State, op: Op, kind: EventClass) {
    && op.Event? && !s.local && ClassOf(op.payload) == Some(kind)
    && Admit(c, s, op.grant, kind, op.at).1.None?
  }

  /** How many operations of a run are admitted as events of this class. */
  function AdmittedIn(c: Config, s: State, ops: seq<Op>, kind: EventClass): nat
    decreases |ops|
  {
    if ops == [] then 0
    else (if Admits(c, s, ops[0], kind) then 1 else 0) + AdmittedIn(c, Step(c, s, ops[0]), ops[1..], kind)
  }

  /** The clock readings at which a run draws on this class. */
  function DrawTimes(c: Config, s: State, ops: seq<Op>, kind: EventClass): seq<nat>
    decreases |ops|
  {
    if ops == [] then []
    else (if Draws(s, ops[0], kind) then [ops[0].at] else []) + DrawTimes(c, Step(c, s, ops[0]), ops[1..], kind)
  }

  lemma PerformKeepsWindows(c: Config, s: State, p: Control.Payload)
    ensures Perform(c, s, p).0.pointer == s.pointer && Perform(c, s, p).0.key == s.key
  {
  }

  /** One operation moves the window of a class exactly when it draws on it. */
  lemma StepWindow(c: Config, s: State, op: Op, kind: EventClass)
    ensures var drawn := Rates.Allow(WindowOf(s, kind), LimitOf(c, kind), if op.Event? then op.at else 0);
            && WindowOf(Step(c, s, op), kind) == (if Draws(s, op, kind) then drawn.0 else WindowOf(s, kind))
            && (Admits(c, s, op, kind) <==> Draws(s, op, kind) && drawn.1)
  {
    if op.Event? && !s.local && ClassOf(op.payload).Some? {
      PerformKeepsWindows(c, Admit(c, s, op.grant, ClassOf(op.payload).value, op.at).0, op.payload);
    }
  }

  /** The injector admits what the window of the class admits at those times. */
  lemma {:induction false} AdmittedAsWindow(c: Config, s: State, ops: seq<Op>, kind: EventClass)
    ensures AdmittedIn(c, s, ops, kind) == Rates.Admitted(WindowOf(s, kind), LimitOf(c, kind), DrawTimes(c, s, ops, kind))
    decreases |ops|
  {
    if ops != [] {
      var next := Step(c, s, ops[0]);
      StepWindow(c, s, ops[0], kind);
      AdmittedAsWindow(c, next, ops[1..], kind);
      var times, rest := DrawTimes(c, s, ops, kind), DrawTimes(c, next, ops[1..], kind);
      if Draws(s, ops[0], kind) {
        assert times == [ops[0].at] + rest && times[1..] == rest;
      } else {
        assert times == rest;
      }
    }
  }

  ghost predicate NoneAfter(ops: seq<Op>, t: nat) {
    forall i :: 0 <= i < |ops| && ops[i].Event? ==> ops[i].at <= t
  }

  /** No event is more than a second later than one before it. */
  ghost predicate WithinSecond(ops: seq<Op>) {
    forall i, j :: 0 <= i < j < |ops| && ops[i].Event? && ops[j].Event? ==> ops[j].at <= ops[i].at + Rates.WINDOW_MS
  }

  lemma {:induction false} DrawTimesBounded(c: Config, s: State, ops: seq<Op>, kind: EventClass, t: nat)
    requires NoneAfter(ops, t)
    ensures forall i :: 0 <= i < |DrawTimes(c, s, ops, kind)| ==> DrawTimes(c, s, ops, kind)[i] <= t
    decreases |ops|
  {
    if ops != [] {
      DrawTimesBounded(c, Step(c, s, ops[0]), ops[1..], kind, t);
    }
  }

  lemma {:induction false} DrawTimesWithin(c: Config, s: State, ops: seq<Op>, kind: EventClass)
    requires WithinSecond(ops)
    ensures var times := DrawTimes(c, s, ops, kind);
            forall i :: 0 <= i < |times| ==> times[i] <= times[0] + Rates.WINDOW_MS
    decreases |ops|
  {
    if ops != [] {
      var next, tail := Step(c, s, ops[0]), ops[1..];
      assert forall i :: 0 <= i < |tail| ==> tail[i] == ops[i + 1];
      DrawTimesWithin(c, next, tail, kind);
      if Draws(s, ops[0], kind) {
        assert NoneAfter(tail, ops[0].at + Rates.WINDOW_MS);
        DrawTimesBounded(c, next, tail, kind, ops[0].at + Rates.WINDOW_MS);
      } else {
        assert DrawTimes(c, s, ops, kind) == DrawTimes(c, next, tail, kind);
      }
    }
  }

  /**
   In any one-second stretch of any injector run, whatever permissions, takeovers and refusals it contains, at
   most twice the limit of each class is admitted.
   */
  lemma AnySecondInjectsAtMostTwice(c: Config, displays: seq<Display>, ops: seq<Op>, lo: nat, hi: nat, kind: EventClass)
    requires lo <= hi <= |ops| && WithinSecond(ops[lo..hi])
    ensures AdmittedIn(c, Run(c, Start(displays), ops[..lo]), ops[lo..hi], kind) <= 2 * LimitOf(c, kind)
  {
    var s, slice := Run(c, Start(displays), ops[..lo]), ops[lo..hi];
    AdmittedAsWindow(c, s, slice, kind);
    DrawTimesWithin(c, s, slice, kind);
    Rates.AtMostTwice(WindowOf(s, kind), LimitOf(c, kind), DrawTimes(c, s, slice, kind));
  }

  // ----- Which keys -----

  /** The keys these calls press, or release. */
  function KeySet(calls: seq<Call>, down: bool): set<U16> {
    set i | 0 <= i < |calls| && calls[i].Key? && calls[i].down == down :: calls[i].usage
  }

  lemma KeySetConcat(a: seq<Call>, b: seq<Call>, down: bool)
    ensures KeySet(a + b, down) == KeySet(a, down) + KeySet(b, down)
  {
    var t := a + b;
    assert forall i :: 0 <= i < |a| ==> t[i] == a[i];
    assert forall i :: 0 <= i < |b| ==> t[|a| + i] == b[i];
  }

  lemma KeySetOfOne(u: U16, down: bool)
    ensures KeySet([Key(u, down)], down) == {u} && KeySet([Key(u, down)], !down) == {}
  {
    var one := [Key(u, down)];
    assert one[0] == Key(u, down);
  }

  lemma KeySetOfReleases(us: seq<U16>)
    ensures KeySet(KeyCalls(KeyState.Releases(us)), false) == KeyState.Elements(us)
    ensures KeySet(KeyCalls(KeyState.Releases(us)), true) == {}
  {
    var calls := KeyCalls(KeyState.Releases(us));
    assert forall i :: 0 <= i < |us| ==> calls[i] == Key(us[i], false);
  }

  lemma KeySetOfPresses(us: seq<U16>)
    ensures KeySet(KeyCalls(KeyState.Presses(us)), true) == KeyState.Elements(us)
    ensures KeySet(KeyCalls(KeyState.Presses(us)), false) == {}
  {
    var calls := KeyCalls(KeyState.Presses(us));
    assert forall i :: 0 <= i < |us| ==> calls[i] == Key(us[i], true);
  }

  lemma KeySetOfSync(held: set<U16>, m: nat)
    ensures KeySet(KeyCalls(KeyState.ModifierActions(held, m)), false) == KeyState.Unclaimed(held, m)
    ensures KeySet(KeyCalls(KeyState.ModifierActions(held, m)), true) == {}
  {
    KeySetOfReleases(KeyState.Ascending(KeyState.Unclaimed(held, m)));
    KeyState.AscendingFacts(KeyState.Unclaimed(held, m));
  }

  lemma KeyCallsConcat(a: seq<KeyState.Action>, b: seq<KeyState.Action>)
    ensures KeyCalls(a + b) == KeyCalls(a) + KeyCalls(b)
  {
  }

  lemma KeySetOfSnapshot(held: set<U16>, target: set<U16>)
    ensures KeySet(KeyCalls(KeyState.ReconcileActions(held, target)), false) == held - target
    ensures KeySet(KeyCalls(KeyState.ReconcileActions(held, target)), true) == target - held
  {
    var up, down := KeyState.Ascending(held - target), KeyState.Ascending(target - held);
    var a, b := KeyCalls(KeyState.Releases(up)), KeyCalls(KeyState.Presses(down));
    KeyCallsConcat(KeyState.Releases(up), KeyState.Presses(down));
    KeySetConcat(a, b, true);
    KeySetConcat(a, b, false);
    KeySetOfReleases(up);
    KeySetOfPresses(down);
    KeyState.AscendingFacts(held - target);
    KeyState.AscendingFacts(target - held);
  }

  lemma KeySetOfReleaseAll(held: set<U16>)
    ensures KeySet(KeyCalls(KeyState.ReleaseAllActions(held)), false) == held
    ensures KeySet(KeyCalls(KeyState.ReleaseAllActions(held)), true) == {}
  {
    var mods := KeyState.Modifiers(held);
    var a, b := KeyState.Ascending(held - mods), KeyState.Ascending(mods);
    KeySetOfReleases(a + b);
    KeyState.ElementsConcat(a, b);
    KeyState.AscendingFacts(held - mods);
    KeyState.AscendingFacts(mods);
    assert held == (held - mods) + mods;
  }

  /** The operation is an event that gets as far as the work of its kind. */
  predicate Works(c: Config, s: State, op: Op) {
    op.Event? && ClassOf(op.payload).Some? && Admits(c, s, op, ClassOf(op.payload).value)
  }

  /** A key event that passed the key table and the combination policy. */
  predicate KeyPasses(c: Config, p: Control.Payload) {
    p.KeyEvent? && KeyCheck(c, p).None?
  }

  /** The keys an operation presses: a key event's own, or what a snapshot adds to the keys held. */
  function Pressing(c: Config, s: State, op: Op): set<U16> {
    if !Works(c, s, op) then {}
    else if KeyPasses(c, op.payload) && !op.payload.action.Up? then {op.payload.usageId}
    else if op.payload.KeyStateSync? then KeyState.Target(op.payload.pressed) - s.held
    else {}
  }

  /** The event reaches the modifier sync. */
  predicate Syncs(c: Config, s: State, p: Control.Payload) {
    match p
    case MouseMove(display, _, _, _, _) => FindDisplay(s.displays, display).Some?
    case MouseButton(_, _, _, _, _, display, _) => FindDisplay(s.displays, display).Some?
    case MouseMoveRelative(_, _, _, _) => true
    case MouseWheel(_, _, _, _, _) => true
    case KeyEvent(_, _, _, _, _) => KeyCheck(c, p).None?
    case _ => false
  }

  function Modifiers(p: Control.Payload): nat {
    match p
    case MouseMove(_, _, _, _, mods) => mods
    case MouseButton(_, _, _, _, mods, _, _) => mods
    case MouseMoveRelative(_, _, mods, _) => mods
    case MouseWheel(_, _, mods, _, _) => mods
    case KeyEvent(_, _, _, _, mods) => mods
    case _ => 0
  }

  /** The keys an event releases. */
  function LiftedBy(c: Config, s: State, p: Control.Payload): set<U16> {
    (if Syncs(c, s, p) then KeyState.Unclaimed(s.held, Modifiers(p)) else {})
    + (if KeyPasses(c, p) && p.action.Up? then {p.usageId} else {})
    + (if p.KeyStateSync? then s.held - KeyState.Target(p.pressed) else {})
  }

  /** The keys an operation releases. */
  function Lifting(c: Config, s: State, op: Op): set<U16> {
    match op
    case Event(_, p, _) => if Works(c, s, op) then LiftedBy(c, s, p) else {}
    case Takeover(local) => if local then s.held else {}
    case Teardown => s.held
    case Rearrange(_) => {}
  }

  /** `r` is `s` after calls that press and release exactly these keys. */
  ghost predicate Adds(s: State, r: State, down: set<U16>, up: set<U16>) {
    && |s.calls| <= |r.calls| && s.calls == r.calls[..|s.calls|]
    && KeySet(r.calls[|s.calls|..], true) == down && KeySet(r.calls[|s.calls|..], false) == up
  }

  lemma AddsMore(s: State, r: State, more: seq<Call>)
    requires r.calls == s.calls + more
    ensures Adds(s, r, KeySet(more, true), KeySet(more, false))
  {
    assert r.calls[|s.calls|..] == more;
  }

  /** A modifier sync, then calls of its own. */
  lemma SyncAdds(s: State, m: nat, own: seq<Call>, held: set<U16>)
    ensures Adds(s, Issue(SyncModifiers(s, m).(held := held), own),
                 KeySet(own, true), KeyState.Unclaimed(s.held, m) + KeySet(own, false))
  {
    var first := KeyCalls(KeyState.ModifierActions(s.held, m));
    KeySetOfSync(s.held, m);
    KeySetConcat(first, own, true);
    KeySetConcat(first, own, false);
    assert s.calls + first + own == s.calls + (first + own);
    AddsMore(s, Issue(SyncModifiers(s, m).(held := held), own), first + own);
  }

  lemma KeyAdds(c: Config, s: State, p: Control.Payload)
    requires p.KeyEvent?
    ensures Adds(s, Perform(c, s, p).0, if KeyPasses(c, p) && !p.action.Up? then {p.usageId} else {}, LiftedBy(c, s, p))
  {
    if KeyPasses(c, p) {
      var own := [Key(p.usageId, !p.action.Up?)];
      KeySetOfOne(p.usageId, !p.action.Up?);
      assert LiftedBy(c, s, p) == KeyState.Unclaimed(s.held, p.modifiers) + KeySet(own, false);
      SyncAdds(s, p.modifiers, own, PressOrRelease(s, p).held);
    } else {
      AddsMore(s, Perform(c, s, p).0, []);
    }
  }

  lemma PointerAdds(c: Config, s: State, p: Control.Payload)
    requires p.MouseMove? || p.MouseMoveRelative? || p.MouseButton? || p.MouseWheel?
    ensures Adds(s, Perform(c, s, p).0, {}, LiftedBy(c, s, p))
  {
    var r := Perform(c, s, p).0;
    if Syncs(c, s, p) {
      var first := KeyCalls(KeyState.ModifierActions(s.held, Modifiers(p)));
      var own := r.calls[|s.calls + first|..];
      assert KeySet(own, true) == {} && KeySet(own, false) == {};
      SyncAdds(s, Modifiers(p), own, r.held);
    } else {
      AddsMore(s, r, []);
    }
  }

  lemma SnapshotAdds(c: Config, s: State, p: Control.Payload)
    requires p.KeyStateSync?
    ensures Adds(s, Perform(c, s, p).0, KeyState.Target(p.pressed) - s.held, LiftedBy(c, s, p))
  {
    var target := KeyState.Target(p.pressed);
    KeySetOfSnapshot(s.held, target);
    AddsMore(s, Perform(c, s, p).0, KeyCalls(KeyState.ReconcileActions(s.held, target)));
  }

  lemma WorkAdds(c: Config, s: State, p: Control.Payload)
    ensures Adds(s, Perform(c, s, p).0,
                 if KeyPasses(c, p) && !p.action.Up? then {p.usageId}
                 else if p.KeyStateSync? then KeyState.Target(p.pressed) - s.held else {},
                 LiftedBy(c, s, p))
  {
    if p.KeyEvent? {
      KeyAdds(c, s, p);
    } else if p.KeyStateSync? {
      SnapshotAdds(c, s, p);
    } else if p.MouseMove? || p.MouseMoveRelative? || p.MouseButton? || p.MouseWheel? {
      PointerAdds(c, s, p);
    } else {
      AddsMore(s, Perform(c, s, p).0, if p.TextInput? && p.commit then [Text(p.text)] else []);
    }
  }

  lemma ReleaseAdds(s: State, r: State)
    requires r.calls == ReleaseAll(s).calls
    ensures Adds(s, r, {}, s.held)
  {
    KeySetOfReleaseAll(s.held);
    AddsMore(s, r, KeyCalls(KeyState.ReleaseAllActions(s.held)));
  }

  /**
   Exactly which keys one operation presses and releases. A press comes from a key event that the table
   and the policy let through, or from a snapshot, which neither of them sees.
   */
  lemma StepKeysExactly(c: Config, s: State, op: Op)
    ensures Adds(s, Step(c, s, op), Pressing(c, s, op), Lifting(c, s, op))
  {
    match op
    case Event(grant, p, now) =>
      if Works(c, s, op) {
        AdmitKeepsKeys(c, s, grant, ClassOf(p).value, now);
        WorkAdds(c, Admit(c, s, grant, ClassOf(p).value, now).0, p);
      } else {
        AddsMore(s, Step(c, s, op), []);
      }
    case Takeover(local) =>
      if local && s.held != {} {
        ReleaseAdds(s, Step(c, s, op));
      } else {
        AddsMore(s, Step(c, s, op), []);
      }
    case Teardown => ReleaseAdds(s, Step(c, s, op));
    case Rearrange(_) => AddsMore(s, Step(c, s, op), []);
  }

  // ----- Over runs -----

  /** The keys operation `k` of a run presses, or releases. */
  function Doing(c: Config, s: State, ops: seq<Op>, k: nat, down: bool): set<U16>
    requires k < |ops|
  {
    var before := Run(c, s, ops[..k]);
    if down then Pressing(c, before, ops[k]) else Lifting(c, before, ops[k])
  }

  ghost predicate DoneBy(c: Config, s: State, ops: seq<Op>, u: U16, down: bool) {
    exists k: nat :: k < |ops| && u in Doing(c, s, ops, k, down)
  }

  lemma DoingPrefix(c: Config, s: State, ops: seq<Op>, n: nat, k: nat, down: bool)
    requires k < n <= |ops|
    ensures Doing(c, s, ops[..n], k, down) == Doing(c, s, ops, k, down)
  {
    assert ops[..n][..k] == ops[..k];
  }

  lemma DoneSnoc(c: Config, s: State, ops: seq<Op>, u: U16, down: bool)
    requires ops != []
    ensures var n := |ops| - 1;
            DoneBy(c, s, ops, u, down) <==> DoneBy(c, s, ops[..n], u, down) || u in Doing(c, s, ops, n, down)
  {
    var n := |ops| - 1;
    if k: nat :| k < |ops| && u in Doing(c, s, ops, k, down) {
      if k < n {
        DoingPrefix(c, s, ops, n, k, down);
      }
    }
    if k: nat :| k < n && u in Doing(c, s, ops[..n], k, down) {
      DoingPrefix(c, s, ops, n, k, down);
    }
  }

  lemma AddsUp(s: State, r: State, pressed: set<U16>, lifted: set<U16>, down: bool)
    requires Adds(s, r, pressed, lifted)
    ensures KeySet(r.calls, down) == KeySet(s.calls, down) + if down then pressed else lifted
  {
    var more := r.calls[|s.calls|..];
    assert r.calls == s.calls + more;
    KeySetConcat(s.calls, more, down);
  }

  /**
   Exactly which key calls a run makes: a key is pressed, or released, if and only if some operation of the
   run presses, or releases, it.
   */
  lemma {:induction false} KeyCallsExactly(c: Config, displays: seq<Display>, ops: seq<Op>, u: U16, down: bool)
    ensures u in KeySet(Run(c, Start(displays), ops).calls, down) <==> DoneBy(c, Start(displays), ops, u, down)
    decreases |ops|
  {
    if ops != [] {
      var n := |ops| - 1;
      var s := Run(c, Start(displays), ops[..n]);
      KeyCallsExactly(c, displays, ops[..n], u, down);
      StepKeysExactly(c, s, ops[n]);
      AddsUp(s, Step(c, s, ops[n]), Pressing(c, s, ops[n]), Lifting(c, s, ops[n]), down);
      DoneSnoc(c, Start(displays), ops, u, down);
    }
  }

  ghost predicate AllValid(us: set<U16>) {
    forall u <- us :: KeyState.IsValidUsage(u)
  }

  lemma {:induction false} ValidOnesAreValid(keys: seq<U16>)
    ensures forall i :: 0 <= i < |KeyState.ValidOnes(keys)| ==>
              KeyState.IsValidUsage(KeyState.ValidOnes(keys)[i]) && KeyState.ValidOnes(keys)[i] in keys
  {
    if keys != [] {
      ValidOnesAreValid(keys[1..]);
    }
  }

  lemma TargetIsValid(keys: seq<U16>)
    ensures forall u <- KeyState.Target(keys) :: KeyState.IsValidUsage(u) && u in keys
  {
    ValidOnesAreValid(keys);
  }

  lemma StepValid(c: Config, s: State, op: Op)
    requires AllValid(s.held)
    ensures AllValid(Pressing(c, s, op)) && AllValid(Lifting(c, s, op)) && AllValid(Step(c, s, op).held)
  {
    if op.Event? && op.payload.KeyStateSync? {
      TargetIsValid(op.payload.pressed);
    }
    if Works(c, s, op) {
      HeldValid(c, Admit(c, s, op.grant, ClassOf(op.payload).value, op.at).0, op.payload);
    }
  }

  lemma HeldValid(c: Config, s: State, p: Control.Payload)
    requires AllValid(s.held)
    ensures AllValid(Perform(c, s, p).0.held)
  {
    if p.KeyStateSync? {
      TargetIsValid(p.pressed);
    } else if p.MouseMove? || p.MouseMoveRelative? || p.MouseButton? || p.MouseWheel? {
      PointerHolds(c, s, p);
    }
  }

  lemma {:induction false} RunValid(c: Config, displays: seq<Display>, ops: seq<Op>)
    ensures AllValid(Run(c, Start(displays), ops).held)
    decreases |ops|
  {
    if ops != [] {
      var pre := ops[..|ops| - 1];
      RunValid(c, displays, pre);
      StepValid(c, Run(c, Start(displays), pre), ops[|ops| - 1]);
    }
  }

  /** Some admitted snapshot of the run listed the key. */
  ghost predicate InSnapshot(c: Config, s: State, ops: seq<Op>, u: U16) {
    exists k: nat :: k < |ops| && Works(c, Run(c, s, ops[..k]), ops[k])
                     && ops[k].payload.KeyStateSync? && u in ops[k].payload.pressed
  }

  /** Some admitted key-down of the run was for the key, mapped and in a permitted combination. */
  ghost predicate ByKeyEvent(c: Config, s: State, ops: seq<Op>, u: U16) {
    exists k: nat :: k < |ops| && Works(c, Run(c, s, ops[..k]), ops[k])
                     && ops[k].payload.KeyEvent? && ops[k].payload.usageId == u && !ops[k].payload.action.Up?
                     && u in c.mapped && Permits(c.blocked, ops[k].payload.modifiers, u)
  }

  /**
   Every key call of every run is for a valid usage, and every press is of a mapped key in a permitted
   combination, or of a key that some admitted snapshot lists: reconciliation consults neither the table
   nor the policy.
   */
  lemma PressesAreChecked(c: Config, displays: seq<Display>, ops: seq<Op>, u: U16, down: bool)
    requires u in KeySet(Run(c, Start(displays), ops).calls, down)
    ensures KeyState.IsValidUsage(u)
    ensures down ==> ByKeyEvent(c, Start(displays), ops, u) || InSnapshot(c, Start(displays), ops, u)
  {
    KeyCallsExactly(c, displays, ops, u, down);
    var k: nat :| k < |ops| && u in Doing(c, Start(displays), ops, k, down);
    var s := Run(c, Start(displays), ops[..k]);
    RunValid(c, displays, ops[..k]);
    StepValid(c, s, ops[k]);
    if down && ops[k].payload.KeyStateSync? {
      TargetIsValid(ops[k].payload.pressed);
    }
  }

  /** It happens: with nothing mapped at all, a snapshot still presses its keys. */
  lemma SnapshotSkipsTable(c: Config, displays: seq<Display>, grant: Caps.SessionCaps, n: nat)
    requires n <= KeyState.MAX_HELD_KEYS && grant.input && c.keyPerS >= 1 && c.mapped == {}
    ensures KeySet(Step(c, Start(displays), Snapshot(grant, n)).calls, true) == KeyState.Elements(ManyKeys(n))
  {
    var s, op := Start(displays), Snapshot(grant, n);
    StepKeysExactly(c, s, op);
    AddsUp(s, Step(c, s, op), Pressing(c, s, op), Lifting(c, s, op), true);
    KeyState.TargetOfValid(ManyKeys(n));
  }
}
