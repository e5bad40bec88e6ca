/** Exactly which events a rate window admits, and exactly how each recovery request is answered. */
module RatesExact {
  import opened Prelude
  import opened Rates

  // ----- The window -----

  /** Event `j` starts a new window, and no later event up to `i` does. */
  ghost predicate WindowFrom(limit: nat, times: seq<nat>, j: nat, i: nat) {
    && j <= i < |times|
    && (j == 0 || Begins(limit, times, j))
    && forall k :: j < k <= i ==> !Begins(limit, times, k)
  }

  /** Event `k` comes a full window or more after the start of the window it finds. */
  predicate Begins(limit: nat, times: seq<nat>, k: nat)
    requires k < |times|
  {
    times[k] >= After(Window(0, 0, 0), limit, times[..k]).startMs + WINDOW_MS
  }

  lemma {:induction false} AfterSnoc(w: Window, limit: nat, times: seq<nat>, t: nat)
    ensures After(w, limit, times + [t]) == Allow(After(w, limit, times), limit, t).0
    decreases |times|
  {
    if times == [] {
      assert times + [t] == [t];
    } else {
      assert (times + [t])[1..] == times[1..] + [t];
      AfterSnoc(Allow(w, limit, times[0]).0, limit, times[1..], t);
    }
  }

  lemma AfterOneMore(limit: nat, times: seq<nat>, k: nat)
    requires k < |times|
    ensures var w := After(Window(0, 0, 0), limit, times[..k]);
            After(Window(0, 0, 0), limit, times[..k + 1]) == Allow(w, limit, times[k]).0
  {
    assert times[..k + 1] == times[..k] + [times[k]];
    AfterSnoc(Window(0, 0, 0), limit, times[..k], times[k]);
  }

  lemma {:induction false} WindowCounts(limit: nat, times: seq<nat>, j: nat, i: nat)
    requires WindowFrom(limit, times, j, i)
    ensures After(Window(0, 0, 0), limit, times[..i + 1]).count == i - j + 1
    ensures Begins(limit, times, j) ==> After(Window(0, 0, 0), limit, times[..i + 1]).startMs == times[j]
    decreases i - j
  {
    AfterOneMore(limit, times, i);
    if j < i {
      assert !Begins(limit, times, i);
      WindowCounts(limit, times, j, i - 1);
    } else if j == 0 {
      assert times[..0] == [];
    }
  }

  /**
   Over every run an event is admitted if and only if fewer than the limit have arrived in its window before it, a
   window beginning with the first event at least a second after the last one began.
   */
  lemma AdmittedExactly(limit: nat, times: seq<nat>, j: nat, i: nat)
    requires WindowFrom(limit, times, j, i)
    ensures Allow(After(Window(0, 0, 0), limit, times[..i]), limit, times[i]).1 <==> i - j < limit
  {
    WindowCounts(limit, times, j, i);
    AfterOneMore(limit, times, i);
  }

  /** Every event has such a window. */
  lemma {:induction false} WindowExists(limit: nat, times: seq<nat>, i: nat)
    requires i < |times|
    ensures exists j: nat :: WindowFrom(limit, times, j, i)
  {
    if i == 0 || Begins(limit, times, i) {
      assert WindowFrom(limit, times, i, i);
    } else {
      WindowExists(limit, times, i - 1);
      var j: nat :| WindowFrom(limit, times, j, i - 1);
      assert WindowFrom(limit, times, j, i);
    }
  }

  lemma {:induction false} RefusalsCounted(w: Window, limit: nat, times: seq<nat>)
    ensures After(w, limit, times).dropped == w.dropped + |times| - Admitted(w, limit, times)
    decreases |times|
  {
    if times != [] {
      RefusalsCounted(Allow(w, limit, times[0]).0, limit, times[1..]);
    }
  }

  // ----- Recovery requests -----

  /** The requests of a run that were answered with a recovery. */
  function Recovered(ops: seq<PacerOp>): nat {
    if ops == [] then 0
    else
      var pre, last := ops[..|ops| - 1], ops[|ops| - 1];
      Recovered(pre) + if last.Ask? && last.ltr.Some? && last.ltr == LastAck(pre) then 1 else 0
  }

  /** No keyframe was granted within the last second. */
  predicate Rested(ops: seq<PacerOp>, now: nat) {
    forall i :: 0 <= i < |IdrTimes(ops)| ==> IdrTimes(ops)[i] + 1000 <= now
  }

  lemma RestedByLast(ops: seq<PacerOp>, now: nat)
    ensures var last := PacerRun(NewPacer, ops).lastIdrMs;
            Rested(ops, now) <==> last.None? || last.value + 1000 <= now
  {
    KeyframesArePaced(ops);
    var times := IdrTimes(ops);
    if times != [] {
      assert forall i :: 0 <= i < |times| ==> times[i] <= times[|times| - 1];
    }
  }

  /**
   How a request is answered, from the run so far: with a recovery from the reference the receiver names if that is the
   last one acknowledged; otherwise with a keyframe if none was granted within a second; otherwise not at all.
   */
  lemma RequestExactly(ops: seq<PacerOp>, ltr: Option<U8>, now: nat)
    ensures var (p, d) := Request(PacerRun(NewPacer, ops), ltr, now);
            && (if ltr.Some? && ltr == LastAck(ops) then d == RecoverFrom(ltr.value)
                else if Rested(ops, now) then d == Idr else d == Suppressed)
            && p.budgetUntilMs == (if d.Idr? then now + 200 else PacerRun(NewPacer, ops).budgetUntilMs)
  {
    KeyframesArePaced(ops);
    RestedByLast(ops, now);
  }

  /** The budget cut of every run ends 200 ms after the last keyframe granted, and every answer is counted by its kind. */
  lemma {:induction false} PacerCountsExactly(ops: seq<PacerOp>)
    ensures var p, times := PacerRun(NewPacer, ops), IdrTimes(ops);
            && p.budgetUntilMs == (if times == [] then 0 else times[|times| - 1] + 200)
            && p.idrs == |times| && p.recoveries == Recovered(ops)
            && p.suppressed == Asks(ops) - |times| - Recovered(ops)
    decreases |ops|
  {
    KeyframesArePaced(ops);
    if ops != [] {
      var pre := ops[..|ops| - 1];
      PacerCountsExactly(pre);
      KeyframesArePaced(pre);
    }
  }
}
