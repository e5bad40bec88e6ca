/**
 The de-jitter buffer: frames wait in timestamp order until their deadline.

 The telemetry estimator is outside the model: the jitter percentile it reports is an argument of
 `Push`, and may be any value.
 */
module Jitter {
  import opened Prelude
  import opened Reassembly

  const MIN_TARGET_MS := 15
  const MAX_TARGET_MS := 200
  const DECAY_MS_PER_S := 5
  const MAX_QUEUED_FRAMES := 120
  const CATCHUP_SLACK_MS := 100
  const STALE_AFTER_MS := 500
  const STARVED_AFTER_MS := 500

  datatype Queued = Queued(frame: EncodedFrame, arrivedMs: nat, dueMs: nat)

  datatype Decision = Play(frame: EncodedFrame) | Wait | Starved

  datatype Counters = Counters(
    accepted: nat, played: nat, droppedLate: nat, droppedOverflow: nat, droppedReordered: nat, starvations: nat)

  datatype Buffer = Buffer(
    queue: seq<Queued>, targetMs: nat, lastArrivalMs: Option<nat>, lastPtsUs: Option<nat>,
    lastPlayedPtsUs: Option<nat>, lastDecayMs: nat, emptySinceMs: Option<nat>, stats: Counters)

  /** `EncodedFrame::is_discardable`. */
  predicate IsDiscardable(f: EncodedFrame) {
    f.temporalLayer > 0 && f.ltrIndex.None? && f.kind.Delta?
  }

  function New(): Buffer {
    Buffer([], MIN_TARGET_MS, None, None, None, 0, None, Counters(0, 0, 0, 0, 0, 0))
  }

  // ----- Push -----

  /** `adapt_target`: grow at once to the observed jitter, otherwise decay per whole second. */
  function Adapt(b: Buffer, observed: nat, now: nat): Buffer {
    var grown :=
      if observed > b.targetMs then b.(targetMs := Min(observed, MAX_TARGET_MS), lastDecayMs := now)
      else if SatSub(now, b.lastDecayMs) >= 1000 then
        var decay := Min(DECAY_MS_PER_S * ((now - b.lastDecayMs) / 1000), 0xFFFF_FFFF);
        b.(targetMs := Max(SatSub(b.targetMs, decay), MIN_TARGET_MS), lastDecayMs := now)
      else b;
    grown.(targetMs := Min(Max(grown.targetMs, MIN_TARGET_MS), MAX_TARGET_MS))
  }

  /** The first position whose timestamp is later. */
  function Position(q: seq<Queued>, pts: nat): (i: nat)
    ensures i <= |q|
  {
    if q == [] || q[0].frame.ptsUs > pts then 0 else 1 + Position(q[1..], pts)
  }

  /** The deadline repair: no frame is due before the one it follows. */
  function Raise(q: seq<Queued>, floor: nat): (r: seq<Queued>)
    ensures |r| == |q|
  {
    if q == [] then []
    else
      var due := Max(q[0].dueMs, floor);
      [q[0].(dueMs := due)] + Raise(q[1..], due)
  }

  function DueAt(q: seq<Queued>, pos: nat, ready: nat): nat
    requires pos <= |q|
  {
    if pos > 0 then Max(ready, q[pos - 1].dueMs) else ready
  }

  function Inserted(q: seq<Queued>, frame: EncodedFrame, now: nat, target: nat): seq<Queued> {
    var pos := Position(q, frame.ptsUs);
    var due := DueAt(q, pos, now + target);
    q[..pos] + [Queued(frame, now, due)] + Raise(q[pos..], due)
  }

  function FirstDiscardable(q: seq<Queued>): (i: nat)
    ensures i <= |q|
  {
    if q == [] || IsDiscardable(q[0].frame) then 0 else 1 + FirstDiscardable(q[1..])
  }

  /** The frame an over-full buffer gives up: the first discardable one, else the oldest. */
  function Victim(q: seq<Queued>): (i: nat)
    requires q != []
    ensures i < |q|
  {
    if FirstDiscardable(q) < |q| then FirstDiscardable(q) else 0
  }

  function Capped(q: seq<Queued>): seq<Queued>
    decreases |q|
  {
    if |q| <= MAX_QUEUED_FRAMES then q
    else Capped(q[..Victim(q)] + q[Victim(q) + 1..])
  }

  /** `push`. The flag says whether the frame was taken in. */
  function Push(b: Buffer, frame: EncodedFrame, observed: nat, now: nat): (Buffer, bool) {
    var seen := b.(lastArrivalMs := Some(now), lastPtsUs := Some(frame.ptsUs),
                   stats := b.stats.(accepted := b.stats.accepted + 1));
    if b.lastPlayedPtsUs.Some? && frame.ptsUs <= b.lastPlayedPtsUs.value then
      (seen.(stats := seen.stats.(droppedReordered := seen.stats.droppedReordered + 1)), false)
    else
      var a := Adapt(seen, observed, now);
      var full := Inserted(a.queue, frame, now, a.targetMs);
      var kept := Capped(full);
      (a.(queue := kept, emptySinceMs := None,
          stats := a.stats.(droppedOverflow := a.stats.droppedOverflow + SatSub(|full|, |kept|))), true)
  }

  // ----- Poll -----

  predicate Behind(q: seq<Queued>, now: nat) {
    |q| > 1 && now > q[0].dueMs + CATCHUP_SLACK_MS && q[1].dueMs <= now
  }

  function CatchUp(q: seq<Queued>, now: nat): seq<Queued> {
    if Behind(q, now) then CatchUp(q[1..], now) else q
  }

  function DropStale(q: seq<Queued>, now: nat): seq<Queued> {
    if q != [] && now > q[0].dueMs + STALE_AFTER_MS then q[1..] else q
  }

  /** The queue `poll` decides on, after catching up and dropping a stale front. */
  function Settled(q: seq<Queued>, now: nat): seq<Queued> {
    DropStale(CatchUp(q, now), now)
  }

  function Poll(b: Buffer, now: nat): (Buffer, Decision) {
    var q := Settled(b.queue, now);
    var c := b.(queue := q, stats := b.stats.(droppedLate := b.stats.droppedLate + SatSub(|b.queue|, |q|)));
    if q == [] then
      match b.emptySinceMs
      case None => (c.(emptySinceMs := Some(now)), Wait)
      case Some(since) =>
        if SatSub(now, since) > STARVED_AFTER_MS
        then (c.(emptySinceMs := Some(now), stats := c.stats.(starvations := c.stats.starvations + 1)), Starved)
        else (c, Wait)
    else if now < q[0].dueMs then (c, Wait)
    else
      (c.(queue := q[1..], lastPlayedPtsUs := Some(q[0].frame.ptsUs),
          stats := c.stats.(played := c.stats.played + 1)),
       Play(q[0].frame))
  }

  function Reset(b: Buffer): Buffer {
    b.(queue := [], lastPlayedPtsUs := None, lastArrivalMs := None, lastPtsUs := None, emptySinceMs := None)
  }

  // ----- Shape of the helpers -----

  lemma {:induction false} PositionSplits(q: seq<Queued>, pts: nat)
    ensures forall i :: 0 <= i < Position(q, pts) ==> q[i].frame.ptsUs <= pts
    ensures Position(q, pts) < |q| ==> q[Position(q, pts)].frame.ptsUs > pts
  {
    if q != [] && q[0].frame.ptsUs <= pts {
      PositionSplits(q[1..], pts);
      assert forall i :: 1 <= i < |q| ==> q[i] == q[1..][i - 1];
    }
  }

  lemma {:induction false} PositionUnique(q: seq<Queued>, pts: nat, pos: nat)
    requires pos <= |q|
    requires forall i :: 0 <= i < pos ==> q[i].frame.ptsUs <= pts
    requires pos < |q| ==> q[pos].frame.ptsUs > pts
    ensures pos == Position(q, pts)
  {
    if pos > 0 {
      PositionUnique(q[1..], pts, pos - 1);
    }
  }

  lemma {:induction false} VictimUnique(q: seq<Queued>, i: nat)
    requires i <= |q|
    requires forall j :: 0 <= j < i ==> !IsDiscardable(q[j].frame)
    requires i < |q| ==> IsDiscardable(q[i].frame)
    ensures i == FirstDiscardable(q)
  {
    if i > 0 {
      VictimUnique(q[1..], i - 1);
    }
  }

  lemma {:induction false} CappedShrinks(q: seq<Queued>)
    ensures |Capped(q)| == Min(|q|, MAX_QUEUED_FRAMES)
    decreases |q|
  {
    if |q| > MAX_QUEUED_FRAMES {
      CappedShrinks(q[..Victim(q)] + q[Victim(q) + 1..]);
    }
  }

  lemma {:induction false} CatchUpIsSuffix(q: seq<Queued>, now: nat)
    ensures |CatchUp(q, now)| <= |q|
    ensures CatchUp(q, now) == q[|q| - |CatchUp(q, now)|..]
    ensures q != [] ==> CatchUp(q, now) != []
    ensures !Behind(CatchUp(q, now), now)
  {
    if Behind(q, now) {
      CatchUpIsSuffix(q[1..], now);
    }
  }

  lemma SettledIsSuffix(q: seq<Queued>, now: nat)
    ensures |Settled(q, now)| <= |q|
    ensures Settled(q, now) == q[|q| - |Settled(q, now)|..]
  {
    CatchUpIsSuffix(q, now);
  }

  lemma InsertedParts(q: seq<Queued>, pos: nat, x: Queued)
    requires pos <= |q|
    ensures var r := q[..pos] + [x] + q[pos..];
            |r| == |q| + 1 && r[..pos + 1] == q[..pos] + [x] && r[pos + 1..] == q[pos..] && r[pos] == x
  {
  }

  /** One step of the deadline repair: the front of the untouched part joins the repaired part. */
  lemma RaiseOne(q: seq<Queued>, q1: seq<Queued>, i: nat)
    requires 0 < i < |q| == |q1| && q[i..] == q1[i..]
    ensures var r := q[i := q[i].(dueMs := Max(q[i].dueMs, q[i - 1].dueMs))];
            && r[i + 1..] == q1[i + 1..]
            && r[..i + 1] + Raise(q1[i + 1..], r[i].dueMs) == q[..i] + Raise(q1[i..], q[i - 1].dueMs)
  {
    var raised := q[i].(dueMs := Max(q[i].dueMs, q[i - 1].dueMs));
    var r, rest := q[i := raised], q1[i..];
    assert rest[0] == q[i] && rest[1..] == q1[i + 1..];
    assert r[i + 1..] == q[i..][1..];
    assert r[..i + 1] == q[..i] + [raised];
    assert q[..i] + ([raised] + Raise(q1[i + 1..], raised.dueMs)) == q[..i] + [raised] + Raise(q1[i + 1..], raised.dueMs);
  }

  /** The buffer as the program runs it, updated in place. */
  class JitterBuffer {
    var queue: seq<Queued>
    var targetMs: nat
    var lastArrivalMs: Option<nat>
    var lastPtsUs: Option<nat>
    var lastPlayedPtsUs: Option<nat>
    var lastDecayMs: nat
    var emptySinceMs: Option<nat>
    var stats: Counters

    ghost function View(): Buffer
      reads this
    {
      Buffer(queue, targetMs, lastArrivalMs, lastPtsUs, lastPlayedPtsUs, lastDecayMs, emptySinceMs, stats)
    }

    constructor ()
      ensures View() == New()
    {
      queue, targetMs, lastDecayMs := [], MIN_TARGET_MS, 0;
      lastArrivalMs, lastPtsUs, lastPlayedPtsUs, emptySinceMs := None, None, None, None;
      stats := Counters(0, 0, 0, 0, 0, 0);
    }

    method AdaptTarget(observed: nat, now: nat)
      modifies this
      ensures View() == Adapt(old(View()), observed, now)
    {
      if observed > targetMs {
        targetMs := Min(observed, MAX_TARGET_MS);
        lastDecayMs := now;
      } else if SatSub(now, lastDecayMs) >= 1000 {
        var seconds := (now - lastDecayMs) / 1000;
        var decay := Min(DECAY_MS_PER_S * seconds, 0xFFFF_FFFF);
        targetMs := Max(SatSub(targetMs, decay), MIN_TARGET_MS);
        lastDecayMs := now;
      }
      targetMs := Min(Max(targetMs, MIN_TARGET_MS), MAX_TARGET_MS);
    }

    /** The search of `push`: the first queued frame with a later timestamp. */
    method FindPosition(pts: nat) returns (pos: nat)
      ensures pos == Position(queue, pts)
    {
      pos := 0;
      while pos < |queue| && queue[pos].frame.ptsUs <= pts
        invariant pos <= |queue|
        invariant forall i :: 0 <= i < pos ==> queue[i].frame.ptsUs <= pts
      {
        pos := pos + 1;
      }
      PositionUnique(queue, pts, pos);
    }

    /** The deadline-repair loop of `push`: from `start` on no frame is due before the one it follows. */
    method RepairDeadlines(start: nat)
      requires 0 < start <= |queue|
      modifies this`queue
      ensures queue == old(queue)[..start] + Raise(old(queue)[start..], old(queue)[start - 1].dueMs)
    {
      ghost var q1 := queue;
      ghost var goal := q1[..start] + Raise(q1[start..], q1[start - 1].dueMs);
      var i := start;
      while i < |queue|
        invariant start <= i <= |queue| == |q1|
        invariant queue[i..] == q1[i..]
        invariant queue[..i] + Raise(q1[i..], queue[i - 1].dueMs) == goal
      {
        RaiseOne(queue, q1, i);
        queue := queue[i := queue[i].(dueMs := Max(queue[i].dueMs, queue[i - 1].dueMs))];
        i := i + 1;
      }
      assert queue[..i] == queue && queue + [] == queue;
    }

    /** The insertion of `push`. */
    method InsertFrame(frame: EncodedFrame, now: nat)
      modifies this`queue
      ensures queue == Inserted(old(queue), frame, now, targetMs)
    {
      ghost var q0 := queue;
      var pos := FindPosition(frame.ptsUs);
      var due := now + targetMs;
      if pos > 0 {
        due := Max(due, queue[pos - 1].dueMs);
      }
      var queued := Queued(frame, now, due);
      queue := queue[..pos] + [queued] + queue[pos..];
      InsertedParts(q0, pos, queued);
      RepairDeadlines(pos + 1);
    }

    /** `enforce_capacity`. */
    method EnforceCapacity()
      modifies this`queue, this`stats
      ensures queue == Capped(old(queue))
      ensures stats == old(stats).(droppedOverflow := old(stats).droppedOverflow + SatSub(|old(queue)|, |queue|))
    {
      CappedShrinks(queue);
      while |queue| > MAX_QUEUED_FRAMES
        invariant Capped(queue) == Capped(old(queue))
        invariant Min(|old(queue)|, MAX_QUEUED_FRAMES) <= |queue| <= |old(queue)|
        invariant stats == old(stats).(droppedOverflow := old(stats).droppedOverflow + |old(queue)| - |queue|)
        decreases |queue|
      {
        var victim := 0;
        while victim < |queue| && !IsDiscardable(queue[victim].frame)
          invariant victim <= |queue|
          invariant forall j :: 0 <= j < victim ==> !IsDiscardable(queue[j].frame)
        {
          victim := victim + 1;
        }
        VictimUnique(queue, victim);
        if victim == |queue| {
          victim := 0;
        }
        queue := queue[..victim] + queue[victim + 1..];
        stats := stats.(droppedOverflow := stats.droppedOverflow + 1);
      }
    }

    method PushFrame(frame: EncodedFrame, observed: nat, now: nat) returns (taken: bool)
      modifies this
      ensures (View(), taken) == Push(old(View()), frame, observed, now)
    {
      stats := stats.(accepted := stats.accepted + 1);
      lastArrivalMs := Some(now);
      lastPtsUs := Some(frame.ptsUs);
      if lastPlayedPtsUs.Some? && frame.ptsUs <= lastPlayedPtsUs.value {
        stats := stats.(droppedReordered := stats.droppedReordered + 1);
        return false;
      }
      AdaptTarget(observed, now);
      InsertFrame(frame, now);
      emptySinceMs := None;
      EnforceCapacity();
      return true;
    }

    method PollNext(now: nat) returns (d: Decision)
      modifies this
      ensures (View(), d) == Poll(old(View()), now)
    {
      while |queue| > 1
        invariant CatchUp(queue, now) == CatchUp(old(queue), now) && |queue| <= |old(queue)|
        invariant View() == old(View()).(queue := queue, stats := stats)
        invariant stats == old(stats).(droppedLate := old(stats).droppedLate + |old(queue)| - |queue|)
        decreases |queue|
      {
        var frontOverdue := now > queue[0].dueMs + CATCHUP_SLACK_MS;
        var nextReady := queue[1].dueMs <= now;
        if !(frontOverdue && nextReady) {
          break;
        }
        queue := queue[1..];
        stats := stats.(droppedLate := stats.droppedLate + 1);
      }
      assert queue == CatchUp(old(queue), now);
      if queue != [] && now > queue[0].dueMs + STALE_AFTER_MS {
        queue := queue[1..];
        stats := stats.(droppedLate := stats.droppedLate + 1);
      }
      if queue == [] {
        match emptySinceMs {
          case None =>
            emptySinceMs := Some(now);
            return Wait;
          case Some(since) =>
            if SatSub(now, since) > STARVED_AFTER_MS {
              stats := stats.(starvations := stats.starvations + 1);
              emptySinceMs := Some(now);
              return Starved;
            }
            return Wait;
        }
      }
      if now < queue[0].dueMs {
        return Wait;
      }
      var front := queue[0];
      queue := queue[1..];
      lastPlayedPtsUs := Some(front.frame.ptsUs);
      stats := stats.(played := stats.played + 1);
      return Play(front.frame);
    }

    method ResetBuffer()
      modifies this
      ensures View() == Reset(old(View()))
    {
      queue := [];
      lastPlayedPtsUs, lastArrivalMs, lastPtsUs, emptySinceMs := None, None, None, None;
    }
  }
}
