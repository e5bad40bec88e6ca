/** Exactly what an injector answers, counts and tells the operating system, call by call and in order. */
module InjectionExact {
  import opened Prelude
  import opened Caps
  import Control
  import Rates
  import KeyState
  import opened Injection
  import opened InjectionLimits

  // ----- Where a position lands -----

  /** Entry `i` is the first display with this id. */
  predicate FirstDisplay(displays: seq<Display>, id: U8, i: nat) {
    && i < |displays| && displays[i].id == id
    && forall j :: 0 <= j < i ==> displays[j].id != id
  }

  lemma {:induction false} FoundExactly(displays: seq<Display>, id: U8)
    ensures FindDisplay(displays, id).None? <==> forall i :: 0 <= i < |displays| ==> displays[i].id != id
    ensures FindDisplay(displays, id).Some? ==>
              exists i: nat :: FirstDisplay(displays, id, i) && displays[i] == FindDisplay(displays, id).value
  {
    if displays != [] {
      if displays[0].id == id {
        assert FirstDisplay(displays, id, 0);
      } else {
        var rest := displays[1..];
        FoundExactly(rest, id);
        assert forall i :: 0 < i < |displays| ==> displays[i] == rest[i - 1];
        if FindDisplay(rest, id).Some? {
          var i: nat :| FirstDisplay(rest, id, i) && rest[i] == FindDisplay(rest, id).value;
          assert FirstDisplay(displays, id, i + 1);
        }
      }
    }
  }

  /** The share `norm` of 65535 of the way along `size` pixels reaches pixel `k`. */
  predicate Reaches(norm: U16, size: U32, k: nat) {
    65535 * k <= norm * SatSub(size, 1) < 65535 * (k + 1)
  }

  /** The coordinate for `norm`: pixel `k`, as a 32-bit integer, from `origin`, kept within 32 bits. */
  ghost predicate OnAxis(x: int, origin: int, size: U32, norm: U16) {
    forall k: nat :: Reaches(norm, size, k) ==>
      var offset := if k < 0x8000_0000 then k else k - 0x1_0000_0000;
      x == Max(-0x8000_0000, Min(0x7FFF_FFFF, origin + offset))
  }

  lemma PixelIs(product: nat, k: nat)
    requires 65535 * k <= product < 65535 * (k + 1)
    ensures product / 65535 == k
  {
  }

  lemma AxisExactly(origin: int, size: U32, norm: U16)
    ensures OnAxis(Axis(origin, size, norm), origin, size, norm)
  {
    forall k: nat | Reaches(norm, size, k)
      ensures norm * SatSub(size, 1) / 65535 == k && k < 0x1_0000_0000
    {
      PixelIs(norm * SatSub(size, 1), k);
      ScaleBounds(norm, SatSub(size, 1));
    }
  }

  /** `call` moves the pointer to these shares of the width and the height of the first display with this id. */
  ghost predicate PointsAt(displays: seq<Display>, id: U8, xNorm: U16, yNorm: U16, call: Call) {
    && call.PointerTo?
    && exists i: nat :: FirstDisplay(displays, id, i) && OnAxis(call.x, displays[i].x, displays[i].width, xNorm)
                        && OnAxis(call.y, displays[i].y, displays[i].height, yNorm)
  }

  lemma AxesPoint(displays: seq<Display>, id: U8, xNorm: U16, yNorm: U16)
    requires FindDisplay(displays, id).Some?
    ensures var d := FindDisplay(displays, id).value;
            PointsAt(displays, id, xNorm, yNorm, PointerTo(Axis(d.x, d.width, xNorm), Axis(d.y, d.height, yNorm)))
  {
    var d := FindDisplay(displays, id).value;
    FoundExactly(displays, id);
    AxisExactly(d.x, d.width, xNorm);
    AxisExactly(d.y, d.height, yNorm);
  }

  // ----- What an accepted event does -----

  /** The calls an accepted event makes on its own account. */
  ghost predicate Own(displays: seq<Display>, p: Control.Payload, own: seq<Call>) {
    match p
    case MouseMove(display, _, x, y, _) => |own| == 1 && PointsAt(displays, display, x, y, own[0])
    case MouseButton(button, action, x, y, _, display, _) =>
      |own| == 2 && PointsAt(displays, display, x, y, own[0]) && own[1] == Button(button, action == Control.Down)
    case MouseMoveRelative(dx, dy, _, _) => own == [PointerBy(dx, dy)]
    case MouseWheel(v, h, _, _, _) => own == [Scroll(v, h)]
    case KeyEvent(_, usage, action, _, _) => own == [Key(usage, action != Control.Up)]
    case TextInput(commit, _, text) => own == if commit then [Text(text)] else []
    case _ => own == []
  }

  predicate AllReleases(calls: seq<Call>) {
    forall i :: 0 <= i < |calls| ==> calls[i].Key? && !calls[i].down
  }

  /** What goes before: the releases of the modifier sync, or the whole reconciliation of a snapshot, releases first. */
  ghost predicate Leads(p: Control.Payload, first: seq<Call>) {
    if p.KeyStateSync? then
      exists n: nat :: n <= |first| && AllReleases(first[..n])
                       && forall i :: n <= i < |first| ==> first[i].Key? && first[i].down
    else if p.TextInput? then first == []
    else AllReleases(first)
  }

  /** `made` is what an accepted event tells the operating system, `led` of it before its own calls. */
  ghost predicate Tells(displays: seq<Display>, p: Control.Payload, made: seq<Call>, led: nat) {
    led <= |made| && Leads(p, made[..led]) && Own(displays, p, made[led..])
  }

  predicate PointerMotion(p: Control.Payload) {
    p.MouseMove? || p.MouseMoveRelative?
  }

  predicate OtherInput(p: Control.Payload) {
    p.MouseButton? || p.MouseWheel? || p.KeyEvent? || p.KeyStateSync? || p.TextInput?
  }

  lemma ClassesExactly(p: Control.Payload)
    ensures ClassOf(p) == if PointerMotion(p) then Some(PointerClass) else if OtherInput(p) then Some(KeyClass) else None
  {
  }

  /** The event names a display that does not exist. */
  ghost predicate NoDisplay(displays: seq<Display>, p: Control.Payload) {
    && (p.MouseMove? || p.MouseButton?)
    && forall i :: 0 <= i < |displays| ==> displays[i].id != p.displayId
  }

  /** The key event is for another page, an invalid usage or an unmapped one. */
  predicate Disallowed(c: Config, p: Control.Payload) {
    p.KeyEvent? && !(p.usagePage == 0x07 && 0x01 <= p.usageId <= 0xE7 && p.usageId in c.mapped)
  }

  /** The key event completes a blocked combination: its key, with all its modifiers down. */
  ghost predicate Blocked(c: Config, p: Control.Payload) {
    && p.KeyEvent?
    && exists i :: 0 <= i < |c.blocked| && c.blocked[i].1 == p.usageId
                   && KeyState.And(p.modifiers, c.blocked[i].0) == c.blocked[i].0
  }

  lemma KeyCheckExactly(c: Config, p: Control.Payload)
    requires p.KeyEvent?
    ensures KeyCheck(c, p) == if Disallowed(c, p) then Some(DisallowedUsage)
                              else if Blocked(c, p) then Some(BlockedCombination) else None
  {
  }

  /** The answer to an admitted event, from the payload and the displays alone. */
  ghost function Verdict(c: Config, displays: seq<Display>, p: Control.Payload): Outcome {
    if NoDisplay(displays, p) then Err(UnknownDisplay)
    else if Disallowed(c, p) then Err(DisallowedUsage)
    else if Blocked(c, p) then Err(BlockedCombination)
    else Ok(())
  }

  /** What an admitted event answers, tells and counts. */
  ghost predicate Performed(c: Config, s: State, p: Control.Payload, r: State, answer: Outcome) {
    && answer == Verdict(c, s.displays, p)
    && |s.calls| <= |r.calls| && s.calls == r.calls[..|s.calls|]
    && var made := r.calls[|s.calls|..];
       if answer.Ok?
       then exists led: nat :: Tells(s.displays, p, made, led)
              && r.stats == s.stats.(injected := s.stats.injected + 1, reconciled := s.stats.reconciled + led)
       else made == [] && r.stats == s.stats.(refused := s.stats.refused + if answer.error.BlockedCombination? then 1 else 0)
  }

  lemma PerformedWith(c: Config, s: State, p: Control.Payload, r: State, first: seq<Call>, own: seq<Call>)
    requires Verdict(c, s.displays, p) == Ok(()) && r.calls == s.calls + first + own
    requires Leads(p, first) && Own(s.displays, p, own)
    requires r.stats == s.stats.(injected := s.stats.injected + 1, reconciled := s.stats.reconciled + |first|)
    ensures Performed(c, s, p, r, Ok(()))
  {
    var made := r.calls[|s.calls|..];
    assert s.calls + first + own == s.calls + (first + own);
    assert made == first + own && made[..|first|] == first && made[|first|..] == own;
    assert Tells(s.displays, p, made, |first|);
  }

  lemma SyncReleases(held: set<U16>, m: nat)
    ensures AllReleases(KeyCalls(KeyState.ModifierActions(held, m)))
  {
  }

  lemma PointerPerformed(c: Config, s: State, p: Control.Payload)
    requires p.MouseMove? || p.MouseButton?
    ensures Performed(c, s, p, Perform(c, s, p).0, Perform(c, s, p).1)
  {
    FoundExactly(s.displays, p.displayId);
    if FindDisplay(s.displays, p.displayId).Some? {
      var first := KeyCalls(KeyState.ModifierActions(s.held, p.modifiers));
      SyncReleases(s.held, p.modifiers);
      AxesPoint(s.displays, p.displayId, p.xNorm, p.yNorm);
      var d := FindDisplay(s.displays, p.displayId).value;
      var to := PointerTo(Axis(d.x, d.width, p.xNorm), Axis(d.y, d.height, p.yNorm));
      PerformedWith(c, s, p, Perform(c, s, p).0, first,
                    if p.MouseMove? then [to] else [to, Button(p.button, p.action.Down?)]);
    }
  }

  lemma MotionPerformed(c: Config, s: State, p: Control.Payload)
    requires p.MouseMoveRelative? || p.MouseWheel?
    ensures Performed(c, s, p, Perform(c, s, p).0, Perform(c, s, p).1)
  {
    SyncReleases(s.held, p.modifiers);
    PerformedWith(c, s, p, Perform(c, s, p).0, KeyCalls(KeyState.ModifierActions(s.held, p.modifiers)),
                  if p.MouseWheel? then [Scroll(p.deltaV, p.deltaH)] else [PointerBy(p.dx, p.dy)]);
  }

  lemma KeyPerformed(c: Config, s: State, p: Control.Payload)
    requires p.KeyEvent?
    ensures Performed(c, s, p, Perform(c, s, p).0, Perform(c, s, p).1)
  {
    KeyCheckExactly(c, p);
    if KeyCheck(c, p).None? {
      SyncReleases(s.held, p.modifiers);
      PerformedWith(c, s, p, Perform(c, s, p).0, KeyCalls(KeyState.ModifierActions(s.held, p.modifiers)),
                    [Key(p.usageId, !p.action.Up?)]);
    }
  }

  lemma SnapshotPerformed(c: Config, s: State, p: Control.Payload)
    requires p.KeyStateSync?
    ensures Performed(c, s, p, Perform(c, s, p).0, Perform(c, s, p).1)
  {
    var target := KeyState.Target(p.pressed);
    var first := KeyCalls(KeyState.ReconcileActions(s.held, target));
    var n := |KeyState.Ascending(s.held - target)|;
    assert AllReleases(first[..n]);
    PerformedWith(c, s, p, Perform(c, s, p).0, first, []);
  }

  lemma TextPerformed(c: Config, s: State, p: Control.Payload)
    requires p.TextInput?
    ensures Performed(c, s, p, Perform(c, s, p).0, Perform(c, s, p).1)
  {
    PerformedWith(c, s, p, Perform(c, s, p).0, [], if p.commit then [Text(p.text)] else []);
  }

  lemma PerformedExactly(c: Config, s: State, p: Control.Payload)
    requires PointerMotion(p) || OtherInput(p)
    ensures Performed(c, s, p, Perform(c, s, p).0, Perform(c, s, p).1)
  {
    if p.MouseMove? || p.MouseButton? {
      PointerPerformed(c, s, p);
    } else if p.MouseMoveRelative? || p.MouseWheel? {
      MotionPerformed(c, s, p);
    } else if p.KeyEvent? {
      KeyPerformed(c, s, p);
    } else if p.KeyStateSync? {
      SnapshotPerformed(c, s, p);
    } else {
      TextPerformed(c, s, p);
    }
  }

  // ----- What an event does, admitted or not -----

  /** Whether the budget of the event's class admits it now. */
  predicate WithinRate(c: Config, s: State, p: Control.Payload, now: nat) {
    if PointerMotion(p) then Rates.Allow(s.pointer, c.pointerPerS, now).1 else Rates.Allow(s.key, c.keyPerS, now).1
  }

  /** The first reason not to look at an event's content, if any. */
  function TurnedAway(c: Config, s: State, grant: SessionCaps, p: Control.Payload, now: nat): Option<GuardError> {
    if s.local then Some(LocalUserActive)
    else if !PointerMotion(p) && !OtherInput(p) then None
    else if !grant.input then Some(InputNotGranted)
    else if !WithinRate(c, s, p, now) then Some(RateLimited)
    else None
  }

  /**
   Exactly what one event does. Turned away, it is answered with the reason, counted as refused and tells the
   operating system nothing. A payload that is not input is answered Ok and changes nothing. Otherwise the
   answer follows from its content, and on Ok the calls are the modifier releases or reconciliation, then
   the event's own: pointer positions scaled to the named display, buttons, motion, scrolling, keys and text.
   */
  lemma EventExactly(c: Config, s: State, grant: SessionCaps, p: Control.Payload, now: nat)
    ensures var (r, answer) := Apply(c, s, grant, p, now);
            var reason := TurnedAway(c, s, grant, p, now);
            if reason.Some? then
              answer == Err(reason.value) && r.calls == s.calls && r.held == s.held
              && r.stats == s.stats.(refused := s.stats.refused + 1)
            else if PointerMotion(p) || OtherInput(p) then Performed(c, s, p, r, answer)
            else answer == Ok(()) && r == s
  {
    ClassesExactly(p);
    if TurnedAway(c, s, grant, p, now).None? && (PointerMotion(p) || OtherInput(p)) {
      AdmittedExactly(c, s, grant, p, now);
    }
  }

  /** An event that is not turned away is performed, in a state that differs only in its rate window. */
  lemma ApplyPerforms(c: Config, s: State, grant: SessionCaps, p: Control.Payload, now: nat) returns (t: State)
    requires TurnedAway(c, s, grant, p, now).None? && (PointerMotion(p) || OtherInput(p))
    ensures Apply(c, s, grant, p, now) == Perform(c, t, p)
    ensures t.calls == s.calls && t.stats == s.stats && t.displays == s.displays
  {
    ClassesExactly(p);
    t := Admit(c, s, grant, ClassOf(p).value, now).0;
  }

  lemma SamePerformed(c: Config, s: State, t: State, p: Control.Payload, r: State, answer: Outcome)
    requires t.calls == s.calls && t.stats == s.stats && t.displays == s.displays && Performed(c, t, p, r, answer)
    ensures Performed(c, s, p, r, answer)
  {
  }

  lemma AdmittedExactly(c: Config, s: State, grant: SessionCaps, p: Control.Payload, now: nat)
    requires TurnedAway(c, s, grant, p, now).None? && (PointerMotion(p) || OtherInput(p))
    ensures Performed(c, s, p, Apply(c, s, grant, p, now).0, Apply(c, s, grant, p, now).1)
  {
    var t := ApplyPerforms(c, s, grant, p, now);
    var (r, answer) := Apply(c, s, grant, p, now);
    PerformedExactly(c, t, p);
    SamePerformed(c, s, t, p, r, answer);
  }

  // ----- Over runs -----

  /** The calls operation `op` makes in state `s`. */
  ghost predicate Makes(c: Config, s: State, op: Op, made: seq<Call>) {
    match op
    case Event(grant, p, now) =>
      if TurnedAway(c, s, grant, p, now).None? && (PointerMotion(p) || OtherInput(p)) && Verdict(c, s.displays, p).Ok?
      then exists led: nat :: Tells(s.displays, p, made, led)
      else made == []
    case Takeover(local) => AllReleases(made) && (!local ==> made == [])
    case Teardown => AllReleases(made)
    case Rearrange(_) => made == []
  }

  lemma StepMakes(c: Config, s: State, op: Op)
    ensures |s.calls| <= |Step(c, s, op).calls| && s.calls == Step(c, s, op).calls[..|s.calls|]
    ensures Makes(c, s, op, Step(c, s, op).calls[|s.calls|..])
  {
    match op
    case Event(grant, p, now) => EventExactly(c, s, grant, p, now);
    case Takeover(_) =>
    case Teardown =>
    case Rearrange(_) =>
  }

  function Flat(parts: seq<seq<Call>>): seq<Call> {
    if parts == [] then [] else Flat(parts[..|parts| - 1]) + parts[|parts| - 1]
  }

  /** Part `i` is what operation `i` of the run makes. */
  ghost predicate PartsOf(c: Config, s: State, ops: seq<Op>, parts: seq<seq<Call>>) {
    |parts| == |ops| && forall i :: 0 <= i < |ops| ==> Makes(c, Run(c, s, ops[..i]), ops[i], parts[i])
  }

  ghost predicate AreCalls(c: Config, s: State, ops: seq<Op>, parts: seq<seq<Call>>) {
    PartsOf(c, s, ops, parts) && Run(c, s, ops).calls == s.calls + Flat(parts)
  }

  lemma PartsGrow(c: Config, s: State, ops: seq<Op>, parts: seq<seq<Call>>, made: seq<Call>)
    requires ops != [] && PartsOf(c, s, ops[..|ops| - 1], parts)
    requires Makes(c, Run(c, s, ops[..|ops| - 1]), ops[|ops| - 1], made)
    ensures PartsOf(c, s, ops, parts + [made])
  {
    var n := |ops| - 1;
    forall i | 0 <= i <= n
      ensures Makes(c, Run(c, s, ops[..i]), ops[i], (parts + [made])[i])
    {
      assert i < n ==> ops[..n][..i] == ops[..i];
    }
  }

  lemma CallsGrow(c: Config, s: State, ops: seq<Op>, parts: seq<seq<Call>>)
    requires ops != [] && AreCalls(c, s, ops[..|ops| - 1], parts)
    ensures exists all :: AreCalls(c, s, ops, all)
  {
    var n := |ops| - 1;
    var before := Run(c, s, ops[..n]);
    StepMakes(c, before, ops[n]);
    var made := Run(c, s, ops).calls[|before.calls|..];
    PartsGrow(c, s, ops, parts, made);
    FlatSnoc(s.calls, parts, made);
    assert Run(c, s, ops).calls == before.calls + made;
    assert AreCalls(c, s, ops, parts + [made]);
  }

  lemma FlatSnoc(calls: seq<Call>, parts: seq<seq<Call>>, made: seq<Call>)
    ensures calls + Flat(parts + [made]) == calls + Flat(parts) + made
  {
    assert (parts + [made])[..|parts|] == parts;
  }

  /** Everything a run tells the operating system is what its operations make, one after the other. */
  lemma {:induction false} RunCallsExactly(c: Config, s: State, ops: seq<Op>)
    ensures exists parts :: AreCalls(c, s, ops, parts)
    decreases |ops|
  {
    if ops == [] {
      assert s.calls + Flat([]) == s.calls;
      assert AreCalls(c, s, ops, []);
    } else {
      RunCallsExactly(c, s, ops[..|ops| - 1]);
      var parts :| AreCalls(c, s, ops[..|ops| - 1], parts);
      CallsGrow(c, s, ops, parts);
    }
  }

  /** The last takeover of a run says who has control; the last rearrangement says which displays there are. */
  function LastTakeover(ops: seq<Op>, start: bool): bool {
    if ops == [] then start
    else if ops[|ops| - 1].Takeover? then ops[|ops| - 1].local
    else LastTakeover(ops[..|ops| - 1], start)
  }

  function LastRearranged(ops: seq<Op>, start: seq<Display>): seq<Display> {
    if ops == [] then start
    else if ops[|ops| - 1].Rearrange? then ops[|ops| - 1].displays
    else LastRearranged(ops[..|ops| - 1], start)
  }

  lemma {:induction false} ControlFollowsTakeovers(c: Config, s: State, ops: seq<Op>)
    ensures Run(c, s, ops).local == LastTakeover(ops, s.local)
    ensures Run(c, s, ops).displays == LastRearranged(ops, s.displays)
    decreases |ops|
  {
    if ops != [] {
      ControlFollowsTakeovers(c, s, ops[..|ops| - 1]);
      StepControl(c, Run(c, s, ops[..|ops| - 1]), ops[|ops| - 1]);
    }
  }

  lemma StepControl(c: Config, s: State, op: Op)
    ensures Step(c, s, op).local == if op.Takeover? then op.local else s.local
    ensures Step(c, s, op).displays == if op.Rearrange? then op.displays else s.displays
    ensures !op.Event? ==> Step(c, s, op).stats == s.stats
  {
  }
}
