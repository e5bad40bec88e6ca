/** Exactly what each call of the jitter buffer does: the delay target, the queue, the answer and the counters. */
module JitterExact {
  import opened Prelude
  import opened Reassembly
  import opened Jitter
  import opened JitterProofs

  // ----- The delay target -----

  /** `n` whole seconds lie between `since` and `now`. */
  predicate WholeSeconds(since: nat, now: nat, n: nat) {
    since + 1000 * n <= now < since + 1000 * (n + 1)
  }

  lemma SecondsAre(since: nat, now: nat, n: nat)
    requires WholeSeconds(since, now, n)
    ensures (now - since) / 1000 == n
  {
  }

  /**
   The target a push leaves, and the time from which it decays next. More jitter than the target is adopted at
   once, up to 200 ms. Otherwise the target gives back 5 ms for each whole second since the mark, down to 15 ms.
   A late frame changes neither.
   */
  lemma TargetExactly(b: Buffer, frame: EncodedFrame, observed: nat, now: nat, seconds: nat)
    requires Inv(b) && (now >= b.lastDecayMs ==> WholeSeconds(b.lastDecayMs, now, seconds))
    ensures var r := Push(b, frame, observed, now).0;
            if Rejected(b, frame) then r.targetMs == b.targetMs && r.lastDecayMs == b.lastDecayMs
            else if observed > b.targetMs then r.targetMs == Min(observed, 200) && r.lastDecayMs == now
            else if now >= b.lastDecayMs && seconds >= 1
            then r.targetMs == Max(15, b.targetMs - 5 * seconds) && r.lastDecayMs == now
            else r.targetMs == b.targetMs && r.lastDecayMs == b.lastDecayMs
  {
    if now >= b.lastDecayMs {
      SecondsAre(b.lastDecayMs, now, seconds);
    }
  }

  // ----- Where a pushed frame goes -----

  /** `full` is the queue with the new frame after every frame up to its timestamp; later frames are due no earlier. */
  ghost predicate Placed(q: seq<Queued>, full: seq<Queued>, pos: nat, x: Queued, ready: nat) {
    && pos <= |q| && |full| == |q| + 1
    && (forall i :: 0 <= i < pos ==> full[i] == q[i] && q[i].frame.ptsUs <= x.frame.ptsUs)
    && full[pos] == x
    && (forall i :: pos <= i < |q| ==>
          full[i + 1] == q[i].(dueMs := Max(q[i].dueMs, ready)) && q[i].frame.ptsUs > x.frame.ptsUs)
  }

  /** The frame an over-full queue gives up: the first discardable one, or the front when there is none. */
  ghost predicate GivenUp(full: seq<Queued>, v: nat) {
    && v < |full|
    && (if IsDiscardable(full[v].frame) then forall i :: 0 <= i < v ==> !IsDiscardable(full[i].frame)
        else v == 0 && forall i :: 0 <= i < |full| ==> !IsDiscardable(full[i].frame))
  }

  /** `q` is `full` unless that is over-full; then it is `full` without the frame given up. */
  ghost predicate Trimmed(full: seq<Queued>, q: seq<Queued>) {
    if |full| <= 120 then q == full else exists v: nat :: GivenUp(full, v) && q == full[..v] + full[v + 1..]
  }

  /** `after` is `before` with `x` put in its place, and one frame given up if that makes too many. */
  ghost predicate Admitted(before: seq<Queued>, after: seq<Queued>, x: Queued, ready: nat) {
    exists full, pos: nat :: Placed(before, full, pos, x, ready) && Trimmed(full, after)
  }

  lemma InsertedIsPlaced(q: seq<Queued>, frame: EncodedFrame, now: nat, target: nat)
    requires ByPts(q) && ByDue(q)
    ensures var pos := Position(q, frame.ptsUs);
            Placed(q, Inserted(q, frame, now, target), pos, Queued(frame, now, DueAt(q, pos, now + target)), now + target)
  {
    var full, pos := Inserted(q, frame, now, target), Position(q, frame.ptsUs);
    InsertedAt(q, frame, now, target, pos);
    SplitByPts(q, frame.ptsUs);
    forall i | 0 <= i < pos
      ensures full[i] == q[i]
    {
      InsertedAt(q, frame, now, target, i);
    }
    forall i | pos <= i < |q|
      ensures full[i + 1] == q[i].(dueMs := Max(q[i].dueMs, now + target))
    {
      SlotAfter(q, frame, now, target, i);
    }
  }

  lemma CappedIsTrimmed(full: seq<Queued>)
    requires |full| <= 121
    ensures Trimmed(full, Capped(full))
  {
    if |full| == 121 {
      VictimAt(full, Victim(full));
      assert GivenUp(full, Victim(full));
      RemoveAt(full, Victim(full));
    }
  }

  /** The deadline of a pushed frame: its delay from now, or the latest deadline of a frame before it. */
  predicate DueAfter(q: seq<Queued>, pts: nat, ready: nat, due: nat) {
    && due >= ready
    && (forall i :: 0 <= i < |q| && q[i].frame.ptsUs <= pts ==> due >= q[i].dueMs)
    && (due > ready ==> exists i :: 0 <= i < |q| && q[i].frame.ptsUs <= pts && due == q[i].dueMs)
  }

  lemma DueIsAfter(q: seq<Queued>, pts: nat, ready: nat)
    requires ByPts(q) && ByDue(q)
    ensures DueAfter(q, pts, ready, DueAt(q, Position(q, pts), ready))
  {
    SplitByPts(q, pts);
  }

  /** A frame arriving at `now` with this delay is admitted with some deadline it may have. */
  ghost predicate Accommodated(before: seq<Queued>, after: seq<Queued>, frame: EncodedFrame, now: nat, ready: nat) {
    exists due: nat :: DueAfter(before, frame.ptsUs, ready, due) && Admitted(before, after, Queued(frame, now, due), ready)
  }

  lemma InsertAccommodates(q: seq<Queued>, frame: EncodedFrame, now: nat, target: nat)
    requires ByPts(q) && ByDue(q) && |q| <= 120
    ensures Accommodated(q, Capped(Inserted(q, frame, now, target)), frame, now, now + target)
  {
    var pos := Position(q, frame.ptsUs);
    var due := DueAt(q, pos, now + target);
    InsertedIsPlaced(q, frame, now, target);
    CappedIsTrimmed(Inserted(q, frame, now, target));
    DueIsAfter(q, frame.ptsUs, now + target);
    assert Admitted(q, Capped(Inserted(q, frame, now, target)), Queued(frame, now, due), now + target);
  }

  /**
   The whole queue after a push that is not rejected: the new frame stands in timestamp order, due no earlier than
   its delay from now and than any frame before it; later frames are due no earlier than that delay; and if
   that makes 121 frames, the first discardable one goes, or the front when none is.
   */
  lemma QueueExactly(b: Buffer, frame: EncodedFrame, observed: nat, now: nat)
    requires Inv(b) && !Rejected(b, frame)
    ensures var r := Push(b, frame, observed, now).0;
            Accommodated(b.queue, r.queue, frame, now, now + r.targetMs)
  {
    PushShape(b, frame, observed, now);
    InsertAccommodates(b.queue, frame, now, NewTarget(b, observed, now));
  }

  /** A push clears the starvation mark, a rejected one does not; the arrival marks follow either. */
  lemma MarksExactly(b: Buffer, frame: EncodedFrame, observed: nat, now: nat)
    ensures var (r, taken) := Push(b, frame, observed, now);
            && taken == !Rejected(b, frame)
            && r.lastArrivalMs == Some(now) && r.lastPtsUs == Some(frame.ptsUs) && r.lastPlayedPtsUs == b.lastPlayedPtsUs
            && r.emptySinceMs == (if taken then None else b.emptySinceMs)
            && (!taken ==> r.queue == b.queue)
  {
  }

  /** A reset starts over, except that the delay target and the counters are kept. */
  lemma ResetExactly(b: Buffer)
    ensures Reset(b) == New().(targetMs := b.targetMs, lastDecayMs := b.lastDecayMs, stats := b.stats)
  {
  }

  // ----- Which frames a poll drops, plays or leaves -----

  /** Entry `i` is too late and the one behind it is due already. */
  predicate Superseded(q: seq<Queued>, now: nat, i: nat) {
    i + 1 < |q| && now > q[i].dueMs + 100 && q[i + 1].dueMs <= now
  }

  /** `f` is the first entry that is not superseded. */
  predicate IsFront(q: seq<Queued>, now: nat, f: nat) {
    && f < |q| && !Superseded(q, now, f)
    && forall i :: 0 <= i < f ==> Superseded(q, now, i)
  }

  lemma {:induction false} CatchUpStops(q: seq<Queued>, now: nat)
    requires q != []
    ensures |CatchUp(q, now)| <= |q| && IsFront(q, now, |q| - |CatchUp(q, now)|)
    decreases |q|
  {
    CatchUpIsSuffix(q, now);
    if Behind(q, now) {
      var rest := q[1..];
      CatchUpStops(rest, now);
      assert forall i :: 0 < i < |q| ==> q[i] == rest[i - 1];
      assert forall i :: 0 < i < |q| ==> (Superseded(q, now, i) <==> Superseded(rest, now, i - 1));
    }
  }

  lemma FrontIsUnique(q: seq<Queued>, now: nat, f: nat, g: nat)
    requires IsFront(q, now, f) && IsFront(q, now, g)
    ensures f == g
  {
  }

  /** How many entries of a nonempty queue a poll takes off, and whether it plays the last of them. */
  predicate Takes(q: seq<Queued>, now: nat, f: nat, n: nat, plays: bool) {
    && IsFront(q, now, f)
    && (if now > q[f].dueMs + 500 then n == f + 1 && !plays
        else if now >= q[f].dueMs then n == f + 1 && plays
        else n == f && !plays)
  }

  lemma SettledFrom(q: seq<Queued>, now: nat, f: nat)
    requires IsFront(q, now, f)
    ensures Settled(q, now) == if now > q[f].dueMs + 500 then q[f + 1..] else q[f..]
  {
    CatchUpStops(q, now);
    FrontIsUnique(q, now, f, |q| - |CatchUp(q, now)|);
    CatchUpIsSuffix(q, now);
    assert q[f..][0] == q[f] && q[f..][1..] == q[f + 1..];
  }

  /** What a poll answers and leaves when the front entry is known. */
  lemma PollFrom(b: Buffer, now: nat, f: nat)
    requires IsFront(b.queue, now, f)
    ensures var (r, d) := Poll(b, now);
            var n := |b.queue| - |r.queue|;
            && 0 <= n && r.queue == b.queue[n..]
            && (if now > b.queue[f].dueMs + 500 then n == f + 1 && !d.Play?
                else if now >= b.queue[f].dueMs then n == f + 1 && d == Play(b.queue[f].frame)
                else n == f && !d.Play?)
  {
    var q := b.queue;
    SettledFrom(q, now, f);
    PollQueue(b, now);
    if now > q[f].dueMs + 500 {
      assert f + 1 < |q| ==> Settled(q, now)[0] == q[f + 1];
      assert f + 1 < |q| ==> now < q[f + 1].dueMs;
    } else {
      assert q[f..][0] == q[f] && q[f..][1..] == q[f + 1..];
    }
  }

  /**
   What a poll does to a queue that is not empty: it skips every frame more than 100 ms late whose successor is
   due, then drops the frame it has reached if that is more than 500 ms late, plays it if it is due, and
   otherwise waits. Nothing else leaves the queue.
   */
  lemma PollExactly(b: Buffer, now: nat)
    requires b.queue != []
    ensures exists f: nat, n: nat :: Takes(b.queue, now, f, n, Poll(b, now).1.Play?)
                           && n <= |b.queue| && Poll(b, now).0.queue == b.queue[n..]
                           && (Poll(b, now).1.Play? ==> Poll(b, now).1.frame == b.queue[f].frame)
  {
    CatchUpStops(b.queue, now);
    var f := |b.queue| - |CatchUp(b.queue, now)|;
    PollFrom(b, now, f);
    assert Takes(b.queue, now, f, |b.queue| - |Poll(b, now).0.queue|, Poll(b, now).1.Play?);
  }

  /**
   When a poll reports starvation, and what it remembers: with nothing queued once the stale frames are gone,
   it notes the time if none is noted, reports more than 500 ms after that, and then starts over.
   */
  lemma StarvedExactly(b: Buffer, now: nat)
    ensures var (r, d) := Poll(b, now);
            var dry := r.queue == [] && !d.Play?;
            && (d.Starved? <==> dry && b.emptySinceMs.Some? && now > b.emptySinceMs.value + 500)
            && r.emptySinceMs == (if dry && (b.emptySinceMs.None? || d.Starved?) then Some(now) else b.emptySinceMs)
  {
  }

  // ----- Counters -----

  /** What each call adds to the counters: every frame that leaves or never enters the queue is counted once, by its cause. */
  lemma CountedExactly(b: Buffer, op: Op)
    requires |b.queue| <= 120
    ensures var r := Step(b, op);
            r.stats == match op
              case PushOp(frame, _, _) =>
                if Rejected(b, frame)
                then b.stats.(accepted := b.stats.accepted + 1, droppedReordered := b.stats.droppedReordered + 1)
                else b.stats.(accepted := b.stats.accepted + 1,
                              droppedOverflow := b.stats.droppedOverflow + if |b.queue| == 120 then 1 else 0)
              case PollOp(now) =>
                var d, left := Poll(b, now).1, |r.queue| + if Poll(b, now).1.Play? then 1 else 0;
                b.stats.(played := b.stats.played + if d.Play? then 1 else 0,
                         starvations := b.stats.starvations + if d.Starved? then 1 else 0,
                         droppedLate := b.stats.droppedLate + SatSub(|b.queue|, left))
              case ResetOp => b.stats
  {
    match op
    case PushOp(frame, observed, now) =>
      if !Rejected(b, frame) {
        PushCounted(b, frame, observed, now);
      }
    case PollOp(now) => SettledIsSuffix(b.queue, now);
    case ResetOp =>
  }

  lemma PushCounted(b: Buffer, frame: EncodedFrame, observed: nat, now: nat)
    requires |b.queue| <= 120 && !Rejected(b, frame)
    ensures Push(b, frame, observed, now).0.stats ==
            b.stats.(accepted := b.stats.accepted + 1,
                     droppedOverflow := b.stats.droppedOverflow + if |b.queue| == 120 then 1 else 0)
  {
    PushShape(b, frame, observed, now);
    CappedShrinks(Inserted(b.queue, frame, now, NewTarget(b, observed, now)));
    InsertedAt(b.queue, frame, now, NewTarget(b, observed, now), 0);
  }
}
