/**
 The injection facade. Every remote event passes the same pipeline: permission, local takeover,
 rate limit, validation, policy, state tracking, backend.

 The operating system is modelled as the list of calls it received, and is infallible; which usages
 the key table maps is a parameter.
 */
module Injection {
  import opened Prelude
  import Control
  import opened Caps
  import Rates
  import KeyState

  datatype Display = Display(id: U8, x: int, y: int, width: U32, height: U32)

  /** A call that reached the operating system. Relative motion is in eighths of a pixel. */
  datatype Call =
    | PointerTo(x: int, y: int)
    | PointerBy(dx: int, dy: int)
    | Button(button: Control.MouseButtonId, down: bool)
    | Scroll(vertical: int, horizontal: int)
    | Key(usage: U16, down: bool)
    | Text(text: string)

  datatype GuardError =
    | InputNotGranted | RateLimited | UnknownDisplay | DisallowedUsage | BlockedCombination | LocalUserActive

  datatype EventClass = PointerClass | KeyClass

  datatype Config = Config(pointerPerS: nat, keyPerS: nat, blocked: seq<(U16, U16)>, mapped: set<U16>)

  datatype Counters = Counters(injected: nat, refused: nat, reconciled: nat)

  datatype State = State(
    calls: seq<Call>, displays: seq<Display>, pointer: Rates.Window, key: Rates.Window,
    held: set<U16>, local: bool, stats: Counters)

  // ----- Pure pieces -----

  const I32_MAX := 0x7FFF_FFFF

  /** A `u64` narrowed to `i32`. */
  function ToI32(n: nat): int {
    var low := n % 0x1_0000_0000;
    if low <= I32_MAX then low else low - 0x1_0000_0000
  }

  function SaturatingAdd(a: int, b: int): int {
    Max(-0x8000_0000, Min(I32_MAX, a + b))
  }

  /** One axis of `denormalise`. */
  function Axis(origin: int, size: U32, norm: U16): int {
    SaturatingAdd(origin, ToI32(norm * SatSub(size, 1) / 65535))
  }

  lemma ScaleBounds(a: nat, w: nat)
    requires a <= 65535
    ensures 0 <= a * w / 65535 <= w
  {
    assert a * w <= 65535 * w;
  }

  /** Every position of the axis lands on the display, and the two extremes are its two edges. */
  ghost predicate Lands(origin: int, size: U32) {
    && (forall norm: U16 :: origin <= Axis(origin, size, norm) <= origin + size - 1)
    && Axis(origin, size, 0) == origin && Axis(origin, size, 65535) == origin + size - 1
  }

  lemma FarEdge(origin: int, size: U32)
    requires 1 <= size
    ensures Axis(origin, size, 65535) == SaturatingAdd(origin, ToI32(size - 1))
  {
    assert 65535 * (size - 1) / 65535 == size - 1;
  }

  lemma AxisInside(origin: int, size: U32, norm: U16)
    requires 1 <= size && -0x8000_0000 <= origin && origin + size - 1 <= I32_MAX && size - 1 <= I32_MAX
    ensures origin <= Axis(origin, size, norm) <= origin + size - 1
  {
    ScaleBounds(norm, size - 1);
  }

  /**
   Clamping to the display is exact just when the far edge is representable: the display is at most
   2^31 wide and ends inside the 32-bit desktop. Otherwise the far edge is missed.
   */
  lemma DenormaliseLandsExactly(origin: int, size: U32)
    requires 1 <= size && -0x8000_0000 <= origin <= I32_MAX
    ensures Lands(origin, size) <==> size - 1 <= I32_MAX && origin + size - 1 <= I32_MAX
  {
    FarEdge(origin, size);
    if size - 1 <= I32_MAX && origin + size - 1 <= I32_MAX {
      forall norm: U16
        ensures origin <= Axis(origin, size, norm) <= origin + size - 1
      {
        AxisInside(origin, size, norm);
      }
    }
  }

  function FindDisplay(displays: seq<Display>, id: U8): Option<Display> {
    if displays == [] then None
    else if displays[0].id == id then Some(displays[0])
    else FindDisplay(displays[1..], id)
  }

  /** `CombinationPolicy::permits`. */
  predicate Permits(blocked: seq<(U16, U16)>, modifiers: U16, usage: U16) {
    forall i :: 0 <= i < |blocked| ==>
      !(blocked[i].1 == usage && KeyState.And(modifiers, blocked[i].0) == blocked[i].0)
  }

  function KeyCalls(actions: seq<KeyState.Action>): (r: seq<Call>)
    ensures |r| == |actions|
  {
    seq(|actions|, i requires 0 <= i < |actions| => Key(actions[i].usage, actions[i].Press?))
  }

  /** The keys that are down after one more call. */
  function Told(down: set<U16>, x: Call): set<U16> {
    if !x.Key? then down else if x.down then down + {x.usage} else down - {x.usage}
  }

  /** The keys the operating system has down after these calls. */
  function Down(calls: seq<Call>): set<U16> {
    if calls == [] then {} else Told(Down(calls[..|calls| - 1]), calls[|calls| - 1])
  }

  // ----- The pipeline -----

  function Refused(s: State): State {
    s.(stats := s.stats.(refused := s.stats.refused + 1))
  }

  /** Permission, then the rate limit of the event's class. */
  function Admit(c: Config, s: State, grant: SessionCaps, kind: EventClass, now: nat): (State, Option<GuardError>) {
    if !grant.input then (Refused(s), Some(InputNotGranted))
    else
      var limit := if kind.PointerClass? then c.pointerPerS else c.keyPerS;
      var (w, ok) := Rates.Allow(if kind.PointerClass? then s.pointer else s.key, limit, now);
      var s' := if kind.PointerClass? then s.(pointer := w) else s.(key := w);
      if ok then (s', None) else (Refused(s'), Some(RateLimited))
  }

  /** Tells the operating system to perform tracked key actions, counting them as reconciled. */
  function Reconciled(s: State, held: set<U16>, actions: seq<KeyState.Action>): State {
    s.(held := held, calls := s.calls + KeyCalls(actions),
       stats := s.stats.(reconciled := s.stats.reconciled + |actions|))
  }

  function SyncModifiers(s: State, m: nat): State {
    Reconciled(s, s.held - KeyState.Unclaimed(s.held, m), KeyState.ModifierActions(s.held, m))
  }

  function Issue(s: State, calls: seq<Call>): State {
    s.(calls := s.calls + calls, stats := s.stats.(injected := s.stats.injected + 1))
  }

  type Outcome = Result<(), GuardError>

  /** Whether a key event passes every check after the rate limit. */
  function KeyCheck(c: Config, p: Control.Payload): Option<GuardError>
    requires p.KeyEvent?
  {
    if p.usagePage != Control.USAGE_PAGE_KEYBOARD then Some(DisallowedUsage)
    else if !KeyState.IsValidUsage(p.usageId) || p.usageId !in c.mapped then Some(DisallowedUsage)
    else if !Permits(c.blocked, p.modifiers, p.usageId) then Some(BlockedCombination)
    else None
  }

  /** A key event that passed the checks: the tracked set and the operating system are both told. */
  function PressOrRelease(s: State, p: Control.Payload): State
    requires p.KeyEvent?
  {
    var synced := SyncModifiers(s, p.modifiers);
    var down := !p.action.Up?;
    var held := if down then KeyState.Pressed(synced.held, p.usageId) else synced.held - {p.usageId};
    Issue(synced.(held := held), [Key(p.usageId, down)])
  }

  /** The work of an admitted event. */
  function Perform(c: Config, s: State, p: Control.Payload): (State, Outcome) {
    match p
    case MouseMove(display, _, x, y, mods) =>
      (match FindDisplay(s.displays, display)
       case None => (s, Err(UnknownDisplay))
       case Some(d) =>
         (Issue(SyncModifiers(s, mods), [PointerTo(Axis(d.x, d.width, x), Axis(d.y, d.height, y))]), Ok(())))
    case MouseMoveRelative(dx, dy, mods, _) => (Issue(SyncModifiers(s, mods), [PointerBy(dx, dy)]), Ok(()))
    case MouseButton(button, action, x, y, mods, display, _) =>
      (match FindDisplay(s.displays, display)
       case None => (s, Err(UnknownDisplay))
       case Some(d) =>
         (Issue(SyncModifiers(s, mods),
                [PointerTo(Axis(d.x, d.width, x), Axis(d.y, d.height, y)), Button(button, action.Down?)]), Ok(())))
    case MouseWheel(v, h, mods, _, _) => (Issue(SyncModifiers(s, mods), [Scroll(v, h)]), Ok(()))
    case KeyEvent(_, _, _, _, _) =>
      (match KeyCheck(c, p)
       case Some(BlockedCombination) => (Refused(s), Err(BlockedCombination))
       case Some(e) => (s, Err(e))
       case None => (PressOrRelease(s, p), Ok(())))
    case KeyStateSync(_, _, pressed) =>
      var target := KeyState.Target(pressed);
      (Issue(Reconciled(s, target, KeyState.ReconcileActions(s.held, target)), []), Ok(()))
    case TextInput(commit, _, text) => (Issue(s, if commit then [Text(text)] else []), Ok(()))
    case _ => (s, Ok(()))
  }

  /** The budget an event draws from, or `None` for payloads that are not input. */
  function ClassOf(p: Control.Payload): Option<EventClass> {
    match p
    case MouseMove(_, _, _, _, _) => Some(PointerClass)
    case MouseMoveRelative(_, _, _, _) => Some(PointerClass)
    case MouseButton(_, _, _, _, _, _, _) => Some(KeyClass)
    case MouseWheel(_, _, _, _, _) => Some(KeyClass)
    case KeyEvent(_, _, _, _, _) => Some(KeyClass)
    case KeyStateSync(_, _, _) => Some(KeyClass)
    case TextInput(_, _, _) => Some(KeyClass)
    case _ => None
  }

  /** `Injector::apply`. */
  function Apply(c: Config, s: State, grant: SessionCaps, p: Control.Payload, now: nat): (State, Outcome) {
    if s.local then (Refused(s), Err(LocalUserActive))
    else
      match ClassOf(p)
      case None => (s, Ok(()))
      case Some(kind) =>
        var (s1, refusal) := Admit(c, s, grant, kind, now);
        match refusal
        case Some(e) => (s1, Err(e))
        case None => Perform(c, s1, p)
  }

  function ReleaseAll(s: State): State {
    s.(held := {}, calls := s.calls + KeyCalls(KeyState.ReleaseAllActions(s.held)))
  }

  /** `set_local_control`: taking control releases whatever is held. */
  function SetLocal(s: State, local: bool): State {
    (if local && s.held != {} then ReleaseAll(s) else s).(local := local)
  }

  // ----- Runs -----

  datatype Op =
    | Event(grant: SessionCaps, payload: Control.Payload, at: nat)
    | Takeover(local: bool)
    | Teardown
    | Rearrange(displays: seq<Display>)   // `set_displays`

  function Step(c: Config, s: State, op: Op): State {
    match op
    case Event(grant, p, now) => Apply(c, s, grant, p, now).0
    case Takeover(local) => SetLocal(s, local)
    case Teardown => ReleaseAll(s)
    case Rearrange(displays) => s.(displays := displays)
  }

  function Run(c: Config, s: State, ops: seq<Op>): State {
    if ops == [] then s else Step(c, Run(c, s, ops[..|ops| - 1]), ops[|ops| - 1])
  }

  function Start(displays: seq<Display>): State {
    State([], displays, Rates.Window(0, 0, 0), Rates.Window(0, 0, 0), {}, false, Counters(0, 0, 0))
  }

  /** The tracked set is what the operating system has down. */
  predicate Agrees(s: State) {
    Down(s.calls) == s.held
  }

  // ----- Effect of calls on the keys that are down -----

  lemma {:induction false} DownOfKeyCalls(calls: seq<Call>, actions: seq<KeyState.Action>)
    ensures Down(calls + KeyCalls(actions)) == KeyState.Effects(Down(calls), actions)
    decreases |actions|
  {
    if actions == [] {
      assert calls + KeyCalls(actions) == calls;
    } else {
      var n := |actions| - 1;
      DownOfKeyCalls(calls, actions[..n]);
      var all := calls + KeyCalls(actions);
      assert all[..|all| - 1] == calls + KeyCalls(actions[..n]);
    }
  }

  lemma DownOfOne(calls: seq<Call>, x: Call)
    ensures Down(calls + [x]) == Told(Down(calls), x)
  {
    assert (calls + [x])[..|calls|] == calls;
  }

  lemma {:induction false} DownOfOthers(calls: seq<Call>, more: seq<Call>)
    requires forall i :: 0 <= i < |more| ==> !more[i].Key?
    ensures Down(calls + more) == Down(calls)
    decreases |more|
  {
    if more == [] {
      assert calls + more == calls;
    } else {
      var n := |more| - 1;
      DownOfOthers(calls, more[..n]);
      DownOfOne(calls + more[..n], more[n]);
      assert calls + more[..n] + [more[n]] == calls + more;
    }
  }

  lemma SyncAgrees(s: State, m: nat)
    requires Agrees(s)
    ensures Agrees(SyncModifiers(s, m))
  {
    DownOfKeyCalls(s.calls, KeyState.ModifierActions(s.held, m));
    KeyState.MaskLeavesConjunction(s.held, m);
  }

  lemma IssueAgrees(s: State, calls: seq<Call>)
    requires Agrees(s) && forall i :: 0 <= i < |calls| ==> !calls[i].Key?
    ensures Agrees(Issue(s, calls))
  {
    DownOfOthers(s.calls, calls);
  }

  /**
   The one way tracking and the operating system part: a key-down that gets through while 32 other
   keys are still held after the modifier sync. It is sent to the operating system but not tracked.
   */
  predicate Overflows(c: Config, s: State, op: Op) {
    && op.Event? && !s.local && op.payload.KeyEvent? && !op.payload.action.Up?
    && Admit(c, s, op.grant, KeyClass, op.at).1.None?
    && KeyCheck(c, op.payload).None?
    && var synced := s.held - KeyState.Unclaimed(s.held, op.payload.modifiers);
       |synced| >= KeyState.MAX_HELD_KEYS && op.payload.usageId !in synced
  }

  lemma AdmitKeepsKeys(c: Config, s: State, grant: SessionCaps, kind: EventClass, now: nat)
    ensures var s' := Admit(c, s, grant, kind, now).0;
            s'.calls == s.calls && s'.held == s.held && s'.local == s.local
  {
  }

  lemma PressAgrees(s: State, p: Control.Payload)
    requires Agrees(s) && p.KeyEvent?
    ensures var synced := s.held - KeyState.Unclaimed(s.held, p.modifiers);
            Agrees(PressOrRelease(s, p)) <==>
            !(!p.action.Up? && |synced| >= KeyState.MAX_HELD_KEYS && p.usageId !in synced)
  {
    SyncAgrees(s, p.modifiers);
    DownOfOne(SyncModifiers(s, p.modifiers).calls, Key(p.usageId, !p.action.Up?));
  }

  lemma SnapshotAgrees(s: State, target: set<U16>)
    requires Agrees(s)
    ensures Agrees(Issue(Reconciled(s, target, KeyState.ReconcileActions(s.held, target)), []))
  {
    DownOfKeyCalls(s.calls, KeyState.ReconcileActions(s.held, target));
    KeyState.ReconcileReachesTarget(s.held, target);
    IssueAgrees(Reconciled(s, target, KeyState.ReconcileActions(s.held, target)), []);
  }

  lemma PerformAgrees(c: Config, s: State, p: Control.Payload)
    requires Agrees(s) && !p.KeyEvent?
    ensures Agrees(Perform(c, s, p).0)
  {
    match p
    case MouseMove(display, _, x, y, mods) =>
      SyncAgrees(s, mods);
      if d: Display :| FindDisplay(s.displays, display) == Some(d) {
        IssueAgrees(SyncModifiers(s, mods), [PointerTo(Axis(d.x, d.width, x), Axis(d.y, d.height, y))]);
      }
    case MouseMoveRelative(dx, dy, mods, _) =>
      SyncAgrees(s, mods);
      IssueAgrees(SyncModifiers(s, mods), [PointerBy(dx, dy)]);
    case MouseButton(button, action, x, y, mods, display, _) =>
      SyncAgrees(s, mods);
      if d: Display :| FindDisplay(s.displays, display) == Some(d) {
        IssueAgrees(SyncModifiers(s, mods),
                    [PointerTo(Axis(d.x, d.width, x), Axis(d.y, d.height, y)), Button(button, action.Down?)]);
      }
    case MouseWheel(v, h, mods, _, _) =>
      SyncAgrees(s, mods);
      IssueAgrees(SyncModifiers(s, mods), [Scroll(v, h)]);
    case KeyStateSync(_, _, pressed) => SnapshotAgrees(s, KeyState.Target(pressed));
    case TextInput(commit, _, text) => IssueAgrees(s, if commit then [Text(text)] else []);
    case _ =>
  }

  lemma ReleaseAllAgrees(s: State)
    requires Agrees(s)
    ensures Agrees(ReleaseAll(s))
  {
    DownOfKeyCalls(s.calls, KeyState.ReleaseAllActions(s.held));
    KeyState.ReleaseAllClears(s.held);
  }

  /** From agreement, one operation keeps it exactly when it is not an overflowing key-down. */
  lemma StepAgreesExactly(c: Config, s: State, op: Op)
    requires Agrees(s)
    ensures Agrees(Step(c, s, op)) <==> !Overflows(c, s, op)
  {
    match op
    case Event(grant, p, now) =>
      if !s.local && ClassOf(p).Some? {
        var s1 := Admit(c, s, grant, ClassOf(p).value, now).0;
        AdmitKeepsKeys(c, s, grant, ClassOf(p).value, now);
        if p.KeyEvent? {
          PressAgrees(s1, p);
        } else {
          PerformAgrees(c, s1, p);
        }
      }
    case Takeover(local) => ReleaseAllAgrees(s);
    case Teardown => ReleaseAllAgrees(s);
    case Rearrange(_) =>
  }

  /** No operation of the run overflows. */
  ghost predicate Fits(c: Config, s: State, ops: seq<Op>) {
    forall i :: 0 <= i < |ops| ==> FitsAt(c, s, ops, i)
  }

  ghost predicate FitsAt(c: Config, s: State, ops: seq<Op>, i: nat)
    requires i < |ops|
  {
    !Overflows(c, Run(c, s, ops[..i]), ops[i])
  }

  lemma FitsAtPrefix(c: Config, s: State, ops: seq<Op>, n: nat, i: nat)
    requires i < n <= |ops|
    ensures FitsAt(c, s, ops[..n], i) == FitsAt(c, s, ops, i)
  {
    assert ops[..n][..i] == ops[..i];
  }

  /** Tracking and the operating system agree before, between and after the operations. */
  ghost predicate AgreesThroughout(c: Config, s: State, ops: seq<Op>) {
    forall n :: 0 <= n <= |ops| ==> Agrees(Run(c, s, ops[..n]))
  }

  lemma FitsSnoc(c: Config, s: State, ops: seq<Op>)
    requires ops != []
    ensures Fits(c, s, ops) <==> Fits(c, s, ops[..|ops| - 1]) && FitsAt(c, s, ops, |ops| - 1)
  {
    var n := |ops| - 1;
    forall i | 0 <= i < n
      ensures FitsAt(c, s, ops[..n], i) == FitsAt(c, s, ops, i)
    {
      FitsAtPrefix(c, s, ops, n, i);
    }
  }

  lemma AgreesSnoc(c: Config, s: State, ops: seq<Op>)
    requires ops != []
    ensures AgreesThroughout(c, s, ops) <==> AgreesThroughout(c, s, ops[..|ops| - 1]) && Agrees(Run(c, s, ops))
  {
    var pre := ops[..|ops| - 1];
    assert ops[..|ops|] == ops;
    forall n | 0 <= n <= |pre|
      ensures Run(c, s, pre[..n]) == Run(c, s, ops[..n])
    {
      assert pre[..n] == ops[..n];
    }
    if AgreesThroughout(c, s, pre) && Agrees(Run(c, s, ops)) {
      forall n | 0 <= n <= |ops|
        ensures Agrees(Run(c, s, ops[..n]))
      {
        if n <= |pre| {
          assert Agrees(Run(c, s, pre[..n]));
        } else {
          assert n == |ops|;
        }
      }
    }
  }

  /**
   Key agreement over whole runs: the tracked keys are what the operating system has down at every
   point of a run if and only if no key-down of the run overflows the 32-key table.
   */
  lemma {:induction false} AgreementExactly(c: Config, s: State, ops: seq<Op>)
    requires Agrees(s)
    ensures AgreesThroughout(c, s, ops) <==> Fits(c, s, ops)
    decreases |ops|
  {
    if ops == [] {
      assert ops[..0] == ops;
    } else {
      var pre := ops[..|ops| - 1];
      AgreementExactly(c, s, pre);
      FitsSnoc(c, s, ops);
      AgreesSnoc(c, s, ops);
      if AgreesThroughout(c, s, pre) {
        assert pre[..|pre|] == pre;
        StepAgreesExactly(c, Run(c, s, pre), ops[|ops| - 1]);
      }
    }
  }

  /** An overflowing key-down needs 32 other keys already held, which a caller can see beforehand. */
  lemma OverflowNeedsFullTable(c: Config, s: State, op: Op)
    requires Overflows(c, s, op)
    ensures |s.held - {op.payload.usageId}| >= KeyState.MAX_HELD_KEYS
  {
    var synced := s.held - KeyState.Unclaimed(s.held, op.payload.modifiers);
    KeyState.SubsetSize(synced, s.held - {op.payload.usageId});
  }

  /**
   The cost of an overflow: the key it pressed stays down through the release that ends the session
   or hands control to the local user.
   */
  lemma OverflowStrandsKey(c: Config, s: State, op: Op)
    requires Agrees(s) && Overflows(c, s, op)
    ensures op.payload.usageId in Down(ReleaseAll(Step(c, s, op)).calls)
  {
    var s1 := Admit(c, s, op.grant, KeyClass, op.at).0;
    AdmitKeepsKeys(c, s, op.grant, KeyClass, op.at);
    var p := op.payload;
    SyncAgrees(s1, p.modifiers);
    var synced := SyncModifiers(s1, p.modifiers);
    DownOfOne(synced.calls, Key(p.usageId, true));
    var s2 := Step(c, s, op);
    assert s2.held == synced.held && Down(s2.calls) == synced.held + {p.usageId};
    var held := s2.held;
    DownOfKeyCalls(s2.calls, KeyState.ReleaseAllActions(held));
    ReleaseLeaves(held, p.usageId);
  }

  lemma ReleaseLeaves(held: set<U16>, u: U16)
    requires u !in held
    ensures u in KeyState.Effects(held + {u}, KeyState.ReleaseAllActions(held))
  {
    var mods := KeyState.Modifiers(held);
    var a, b := KeyState.Ascending(held - mods), KeyState.Ascending(mods);
    KeyState.AscendingFacts(held - mods);
    KeyState.AscendingFacts(mods);
    KeyState.ElementsConcat(a, b);
    KeyState.EffectsOfReleases(held + {u}, a + b);
  }

  /** Thirty-two ordinary keys, from usage 4 up, and the one after them. */
  function ManyKeys(n: nat): (r: seq<U16>)
    requires n <= KeyState.MAX_HELD_KEYS
    ensures |r| == n && forall i :: 0 <= i < n ==> r[i] == 4 + i
  {
    seq(n, i requires 0 <= i < n => (4 + i) as U16)
  }

  const OneMore: U16 := 36

  function Snapshot(grant: SessionCaps, n: nat): Op
    requires n <= KeyState.MAX_HELD_KEYS
  {
    Event(grant, Control.KeyStateSync(0, true, ManyKeys(n)), 0)
  }

  function KeyDown(grant: SessionCaps): Op {
    Event(grant, Control.KeyEvent(Control.USAGE_PAGE_KEYBOARD, OneMore, Control.Down, 0, 0), 0)
  }

  /** After the snapshot exactly those keys are held. */
  lemma SnapshotHolds(c: Config, displays: seq<Display>, grant: SessionCaps, n: nat)
    requires n <= KeyState.MAX_HELD_KEYS && grant.input && c.keyPerS >= 1
    ensures var s := Step(c, Start(displays), Snapshot(grant, n));
            && s.held == KeyState.Elements(ManyKeys(n)) && |s.held| == n && !s.local && s.key == Rates.Window(0, 1, 0)
  {
    KeyState.TargetOfValid(ManyKeys(n));
  }

  lemma NoModifiersAmong(n: nat, m: nat)
    requires n <= KeyState.MAX_HELD_KEYS
    ensures KeyState.Unclaimed(KeyState.Elements(ManyKeys(n)), m) == {} && OneMore !in KeyState.Elements(ManyKeys(n))
  {
  }

  /**
   An overflow is reachable: from the start, a snapshot of 32 keys and then the key-down of any further
   mapped key. After it the operating system has a key down that is not tracked.
   */
  lemma OverflowHappens(c: Config, displays: seq<Display>, grant: SessionCaps, n: nat)
    requires n == KeyState.MAX_HELD_KEYS && grant.input && c.keyPerS >= 2
    requires OneMore in c.mapped && c.blocked == []
    ensures var s := Step(c, Start(displays), Snapshot(grant, n));
            && Overflows(c, s, KeyDown(grant))
            && !Agrees(Step(c, s, KeyDown(grant)))
  {
    var s := Step(c, Start(displays), Snapshot(grant, n));
    SnapshotHolds(c, displays, grant, n);
    NoModifiersAmong(n, 0);
    assert s.held - {} == s.held;
    StepAgreesExactly(c, Start(displays), Snapshot(grant, n));
    StepAgreesExactly(c, s, KeyDown(grant));
  }

  // ----- What holds whatever the keys do -----

  /** Never more than 32 keys are tracked, and none while the local user has control. */
  ghost predicate Contained(s: State) {
    |s.held| <= KeyState.MAX_HELD_KEYS && (s.local ==> s.held == {})
  }

  lemma SyncContained(s: State, m: nat)
    requires Contained(s)
    ensures Contained(SyncModifiers(s, m))
  {
    KeyState.SubsetSize(SyncModifiers(s, m).held, s.held);
  }

  lemma PressContained(s: State, p: Control.Payload)
    requires Contained(s) && !s.local && p.KeyEvent?
    ensures Contained(PressOrRelease(s, p))
  {
    SyncContained(s, p.modifiers);
    var held := SyncModifiers(s, p.modifiers).held;
    KeyState.SubsetSize(held - {p.usageId}, held);
  }

  /** Pointer events change no key but the modifiers they sync. */
  lemma PointerHolds(c: Config, s: State, p: Control.Payload)
    requires p.MouseMove? || p.MouseMoveRelative? || p.MouseButton? || p.MouseWheel?
    ensures var r := Perform(c, s, p).0;
            r.local == s.local && (r.held == s.held || r.held == SyncModifiers(s, p.modifiers).held)
  {
    match p
    case MouseMove(_, _, _, _, _) =>
    case MouseMoveRelative(_, _, _, _) =>
    case MouseButton(_, _, _, _, _, _, _) =>
    case MouseWheel(_, _, _, _, _) =>
  }

  lemma KeyContained(c: Config, s: State, p: Control.Payload)
    requires Contained(s) && !s.local && p.KeyEvent?
    ensures Contained(Perform(c, s, p).0)
  {
    PressContained(s, p);
  }

  lemma SnapshotContained(c: Config, s: State, p: Control.Payload)
    requires !s.local && p.KeyStateSync?
    ensures Contained(Perform(c, s, p).0)
  {
    KeyState.TargetIsBounded(p.pressed);
  }

  lemma PerformContained(c: Config, s: State, p: Control.Payload)
    requires Contained(s) && !s.local
    ensures Contained(Perform(c, s, p).0)
  {
    if p.MouseMove? || p.MouseMoveRelative? || p.MouseButton? || p.MouseWheel? {
      PointerHolds(c, s, p);
      SyncContained(s, p.modifiers);
    } else if p.KeyEvent? {
      KeyContained(c, s, p);
    } else if p.KeyStateSync? {
      SnapshotContained(c, s, p);
    }
  }

  lemma StepContained(c: Config, s: State, op: Op)
    requires Contained(s)
    ensures Contained(Step(c, s, op))
  {
    if op.Event? && !s.local && ClassOf(op.payload).Some? {
      AdmitKeepsKeys(c, s, op.grant, ClassOf(op.payload).value, op.at);
      PerformContained(c, Admit(c, s, op.grant, ClassOf(op.payload).value, op.at).0, op.payload);
    }
  }

  lemma {:induction false} RunContained(c: Config, s: State, ops: seq<Op>)
    requires Contained(s)
    ensures Contained(Run(c, s, ops))
    decreases |ops|
  {
    if ops != [] {
      RunContained(c, s, ops[..|ops| - 1]);
      StepContained(c, Run(c, s, ops[..|ops| - 1]), ops[|ops| - 1]);
    }
  }

  /**
   Over every run that never overflows, the operating system holds no remote key while the local
   user has control.
   */
  lemma TakeoverLeavesNothingDown(c: Config, displays: seq<Display>, ops: seq<Op>)
    requires Fits(c, Start(displays), ops)
    ensures Run(c, Start(displays), ops).local ==> Down(Run(c, Start(displays), ops).calls) == {}
  {
    AgreementExactly(c, Start(displays), ops);
    RunContained(c, Start(displays), ops);
    assert ops[..|ops|] == ops;
  }

  /** Nothing reaches the operating system without the input permission or during local control. */
  lemma NothingWithoutPermission(c: Config, s: State, grant: SessionCaps, p: Control.Payload, now: nat)
    requires s.local || !grant.input
    ensures Apply(c, s, grant, p, now).0.calls == s.calls
    ensures ClassOf(p).Some? ==> Apply(c, s, grant, p, now).1.Err?
  {
  }
}
