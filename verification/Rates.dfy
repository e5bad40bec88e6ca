/** Rate limiting of injected input, and pacing of keyframe requests. */
module Rates {
  import opened Prelude

  const WINDOW_MS := 1000

  // ----- The per-class window -----

  datatype Window = Window(startMs: nat, count: nat, dropped: nat)

  /** `Window::allow`. */
  function Allow(w: Window, limit: nat, now: nat): (Window, bool) {
    var w1 := if SatSub(now, w.startMs) >= WINDOW_MS then w.(startMs := now, count := 0) else w;
    var w2 := w1.(count := w1.count + 1);
    if w2.count > limit then (w2.(dropped := w2.dropped + 1), false) else (w2, true)
  }

  class RateWindow {
    var startMs: nat
    var count: nat
    var dropped: nat

    ghost function View(): Window
      reads this
    {
      Window(startMs, count, dropped)
    }

    constructor ()
      ensures View() == Window(0, 0, 0)
    {
      startMs, count, dropped := 0, 0, 0;
    }

    method AllowEvent(limit: nat, now: nat) returns (ok: bool)
      modifies this
      ensures (View(), ok) == Allow(old(View()), limit, now)
    {
      if SatSub(now, startMs) >= WINDOW_MS {
        startMs := now;
        count := 0;
      }
      count := count + 1;
      if count > limit {
        dropped := dropped + 1;
        ok := false;
      } else {
        ok := true;
      }
    }
  }

  /** The state after events at the given times. */
  function After(w: Window, limit: nat, times: seq<nat>): Window
    decreases |times|
  {
    if times == [] then w else After(Allow(w, limit, times[0]).0, limit, times[1..])
  }

  function Admitted(w: Window, limit: nat, times: seq<nat>): nat
    decreases |times|
  {
    if times == [] then 0
    else
      var (w', ok) := Allow(w, limit, times[0]);
      (if ok then 1 else 0) + Admitted(w', limit, times[1..])
  }

  predicate Resets(w: Window, now: nat) {
    SatSub(now, w.startMs) >= WINDOW_MS
  }

  /** Without a new window, no more than what is left of the budget gets through. */
  lemma {:induction false} WithinOneWindow(w: Window, limit: nat, times: seq<nat>)
    requires forall i :: 0 <= i < |times| ==> !Resets(w, times[i])
    ensures Admitted(w, limit, times) <= SatSub(limit, w.count)
    decreases |times|
  {
    if times != [] {
      WithinOneWindow(Allow(w, limit, times[0]).0, limit, times[1..]);
    }
  }

  /** Less than two windows after a start, there is room for only one restart. */
  lemma {:induction false} AcrossOneReset(w: Window, limit: nat, times: seq<nat>)
    requires forall i :: 0 <= i < |times| ==> times[i] < w.startMs + 2 * WINDOW_MS
    ensures Admitted(w, limit, times) <= SatSub(limit, w.count) + limit
    decreases |times|
  {
    if times != [] {
      var w' := Allow(w, limit, times[0]).0;
      if Resets(w, times[0]) {
        assert forall i :: 0 <= i < |times[1..]| ==> !Resets(w', times[1..][i]);
        WithinOneWindow(w', limit, times[1..]);
      } else {
        AcrossOneReset(w', limit, times[1..]);
      }
    }
  }

  /**
   From any state, a stretch of events none of which is more than a second after its first admits
   at most twice the limit.
   */
  lemma AtMostTwice(w: Window, limit: nat, times: seq<nat>)
    requires forall i :: 0 <= i < |times| ==> times[i] <= times[0] + WINDOW_MS
    ensures Admitted(w, limit, times) <= 2 * limit
  {
    if times != [] {
      var w' := Allow(w, limit, times[0]).0;
      AcrossOneReset(w', limit, times[1..]);
      if !Resets(w, times[0]) {
        AcrossOneReset(w, limit, times);
      }
    }
  }

  ghost predicate Nondecreasing(times: seq<nat>) {
    forall i, j :: 0 <= i < j < |times| ==> times[i] <= times[j]
  }

  /** In every run on a clock that does not run backwards, any one-second interval admits at most twice the limit. */
  lemma AnySecondAdmitsAtMostTwice(limit: nat, times: seq<nat>, lo: nat, hi: nat)
    requires Nondecreasing(times) && lo < hi <= |times| && times[hi - 1] <= times[lo] + WINDOW_MS
    ensures Admitted(After(Window(0, 0, 0), limit, times[..lo]), limit, times[lo..hi]) <= 2 * limit
  {
    var slice := times[lo..hi];
    assert forall i :: 0 <= i < |slice| ==> slice[i] == times[lo + i];
    AtMostTwice(After(Window(0, 0, 0), limit, times[..lo]), limit, slice);
  }

  lemma {:induction false} AllAdmitted(w: Window, limit: nat, t: nat, n: nat, more: seq<nat>)
    requires !Resets(w, t) && w.count + n <= limit
    ensures Admitted(w, limit, seq(n, _ => t) + more)
         == n + Admitted(w.(count := w.count + n), limit, more)
    decreases n
  {
    var times := seq(n, _ => t) + more;
    if n == 0 {
      assert times == more;
    } else {
      assert times[0] == t && times[1..] == seq(n - 1, _ => t) + more;
      AllAdmitted(w.(count := w.count + 1), limit, t, n - 1, more);
    }
  }

  /** The factor two is reached: a full budget just before a window ends, and another just after. */
  lemma TwiceIsReached(limit: nat)
    requires limit > 0
    ensures var times := seq(limit, _ => WINDOW_MS - 1) + seq(limit, _ => WINDOW_MS);
            Admitted(Window(0, 0, 0), limit, times) == 2 * limit
  {
    var late: seq<nat> := seq(limit, _ => WINDOW_MS);
    AllAdmitted(Window(0, 0, 0), limit, WINDOW_MS - 1, limit, late);
    var w := Window(0, limit, 0);
    var w' := Allow(w, limit, late[0]).0;
    assert late[1..] == seq(limit - 1, _ => WINDOW_MS) + [];
    AllAdmitted(w', limit, WINDOW_MS, limit - 1, []);
  }

  // ----- Keyframe pacing -----

  const IDR_MIN_INTERVAL_MS := 1000
  const IDR_BUDGET_MS := 200

  datatype Decision = RecoverFrom(index: U8) | Idr | Suppressed

  datatype Pacer = Pacer(
    lastIdrMs: Option<nat>, budgetUntilMs: nat, ackedLtr: Option<U8>,
    idrs: nat, recoveries: nat, suppressed: nat)

  /** `on_recovery_request`. */
  function Request(p: Pacer, receiverLtr: Option<U8>, now: nat): (Pacer, Decision) {
    if receiverLtr.Some? && receiverLtr == p.ackedLtr then
      (p.(recoveries := p.recoveries + 1), RecoverFrom(receiverLtr.value))
    else if p.lastIdrMs.Some? && SatSub(now, p.lastIdrMs.value) < IDR_MIN_INTERVAL_MS then
      (p.(suppressed := p.suppressed + 1), Suppressed)
    else
      (p.(lastIdrMs := Some(now), budgetUntilMs := now + IDR_BUDGET_MS, idrs := p.idrs + 1), Idr)
  }

  class KeyframePacer {
    var lastIdrMs: Option<nat>
    var budgetUntilMs: nat
    var ackedLtr: Option<U8>
    var idrs: nat
    var recoveries: nat
    var suppressed: nat

    ghost function View(): Pacer
      reads this
    {
      Pacer(lastIdrMs, budgetUntilMs, ackedLtr, idrs, recoveries, suppressed)
    }

    constructor ()
      ensures View() == NewPacer
    {
      lastIdrMs, ackedLtr := None, None;
      budgetUntilMs, idrs, recoveries, suppressed := 0, 0, 0, 0;
    }

    method OnLtrAcked(index: U8)
      modifies this
      ensures View() == old(View()).(ackedLtr := Some(index))
    {
      ackedLtr := Some(index);
    }

    method OnRecoveryRequest(receiverLtr: Option<U8>, now: nat) returns (d: Decision)
      modifies this
      ensures (View(), d) == Request(old(View()), receiverLtr, now)
    {
      if receiverLtr.Some? && ackedLtr.Some? && receiverLtr.value == ackedLtr.value {
        recoveries := recoveries + 1;
        return RecoverFrom(receiverLtr.value);
      }
      if lastIdrMs.Some? && SatSub(now, lastIdrMs.value) < IDR_MIN_INTERVAL_MS {
        suppressed := suppressed + 1;
        return Suppressed;
      }
      lastIdrMs := Some(now);
      budgetUntilMs := now + IDR_BUDGET_MS;
      idrs := idrs + 1;
      return Idr;
    }
  }

  datatype PacerOp = Ack(index: U8) | Ask(ltr: Option<U8>, at: nat)

  function PacerStep(p: Pacer, op: PacerOp): Pacer {
    match op
    case Ack(index) => p.(ackedLtr := Some(index))
    case Ask(ltr, now) => Request(p, ltr, now).0
  }

  function PacerRun(p: Pacer, ops: seq<PacerOp>): Pacer {
    if ops == [] then p else PacerStep(PacerRun(p, ops[..|ops| - 1]), ops[|ops| - 1])
  }

  const NewPacer := Pacer(None, 0, None, 0, 0, 0)

  /** The instants at which a full keyframe was granted, in order. */
  function IdrTimes(ops: seq<PacerOp>): seq<nat> {
    if ops == [] then []
    else
      var pre, last := ops[..|ops| - 1], ops[|ops| - 1];
      IdrTimes(pre) +
      if last.Ask? && Request(PacerRun(NewPacer, pre), last.ltr, last.at).1.Idr? then [last.at] else []
  }

  function Asks(ops: seq<PacerOp>): nat {
    if ops == [] then 0 else Asks(ops[..|ops| - 1]) + if ops[|ops| - 1].Ask? then 1 else 0
  }

  /** The most recent acknowledgement of a run. */
  function LastAck(ops: seq<PacerOp>): Option<U8> {
    if ops == [] then None
    else if ops[|ops| - 1].Ack? then Some(ops[|ops| - 1].index)
    else LastAck(ops[..|ops| - 1])
  }

  /**
   Over every run, on any clock: granted keyframes are at least a second apart, every request is
   answered by exactly one of the three counted outcomes, and the reference relied on is the last
   one the receiver acknowledged.
   */
  lemma {:induction false} KeyframesArePaced(ops: seq<PacerOp>)
    ensures var p, times := PacerRun(NewPacer, ops), IdrTimes(ops);
            && (forall i, j :: 0 <= i < j < |times| ==> times[i] + IDR_MIN_INTERVAL_MS <= times[j])
            && p.lastIdrMs == (if times == [] then None else Some(times[|times| - 1]))
            && p.idrs == |times|
            && Asks(ops) == p.idrs + p.recoveries + p.suppressed
            && p.ackedLtr == LastAck(ops)
    decreases |ops|
  {
    if ops != [] {
      KeyframesArePaced(ops[..|ops| - 1]);
    }
  }
}
