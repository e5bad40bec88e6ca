/** Order, timing, accounting and progress of the jitter buffer, over every run. */
module JitterProofs {
  import opened Prelude
  import opened Reassembly
  import opened Jitter

  // ----- Runs -----

  datatype Op =
    | PushOp(frame: EncodedFrame, observed: nat, at: nat)
    | PollOp(at: nat)
    | ResetOp

  function Step(b: Buffer, op: Op): Buffer {
    match op
    case PushOp(frame, observed, now) => Push(b, frame, observed, now).0
    case PollOp(now) => Poll(b, now).0
    case ResetOp => Reset(b)
  }

  function Run(b: Buffer, ops: seq<Op>): Buffer {
    if ops == [] then b else Step(Run(b, ops[..|ops| - 1]), ops[|ops| - 1])
  }

  /** The timestamps handed out by one operation: at most one. */
  function PlayedBy(b: Buffer, op: Op): seq<nat> {
    if op.PollOp? && Poll(b, op.at).1.Play? then [Poll(b, op.at).1.frame.ptsUs] else []
  }

  function Played(b: Buffer, ops: seq<Op>): seq<nat> {
    if ops == [] then []
    else
      var pre, last := ops[..|ops| - 1], ops[|ops| - 1];
      Played(b, pre) + PlayedBy(Run(b, pre), last)
  }

  // ----- The invariant spanning push and poll -----

  ghost predicate ByPts(q: seq<Queued>) {
    forall i, j :: 0 <= i < j < |q| ==> q[i].frame.ptsUs <= q[j].frame.ptsUs
  }

  ghost predicate ByDue(q: seq<Queued>) {
    forall i, j :: 0 <= i < j < |q| ==> q[i].dueMs <= q[j].dueMs
  }

  /** Every queued frame is due at least the minimum delay after it arrived. */
  ghost predicate Seasoned(q: seq<Queued>) {
    forall i :: 0 <= i < |q| ==> q[i].arrivedMs + MIN_TARGET_MS <= q[i].dueMs
  }

  ghost predicate NoneBelow(q: seq<Queued>, watermark: Option<nat>) {
    watermark.Some? ==> forall i :: 0 <= i < |q| ==> watermark.value <= q[i].frame.ptsUs
  }

  ghost predicate Ordered(q: seq<Queued>) {
    ByPts(q) && ByDue(q) && Seasoned(q)
  }

  ghost predicate Inv(b: Buffer) {
    && Ordered(b.queue)
    && NoneBelow(b.queue, b.lastPlayedPtsUs)
    && MIN_TARGET_MS <= b.targetMs <= MAX_TARGET_MS
    && |b.queue| <= MAX_QUEUED_FRAMES
  }

  lemma {:induction false} RaiseFacts(q: seq<Queued>, floor: nat)
    ensures forall i :: 0 <= i < |q| ==>
              && Raise(q, floor)[i] == q[i].(dueMs := Raise(q, floor)[i].dueMs)
              && Raise(q, floor)[i].dueMs >= q[i].dueMs
              && Raise(q, floor)[i].dueMs >= floor
    ensures ByDue(Raise(q, floor))
  {
    if q != [] {
      var due := Max(q[0].dueMs, floor);
      RaiseFacts(q[1..], due);
      var r := Raise(q, floor);
      assert forall i :: 1 <= i < |q| ==> q[i] == q[1..][i - 1] && r[i] == Raise(q[1..], due)[i - 1];
    }
  }

  /** Deadlines after repair stay under any bound on the old ones and the floor. */
  lemma {:induction false} RaiseBounded(q: seq<Queued>, floor: nat, bound: nat)
    requires floor <= bound && forall i :: 0 <= i < |q| ==> q[i].dueMs <= bound
    ensures forall i :: 0 <= i < |q| ==> Raise(q, floor)[i].dueMs <= bound
  {
    if q != [] {
      var due := Max(q[0].dueMs, floor);
      RaiseBounded(q[1..], due, bound);
      assert forall i :: 1 <= i < |q| ==> Raise(q, floor)[i] == Raise(q[1..], due)[i - 1];
    }
  }

  /** Each slot of the queue after an insertion, in terms of the queue before. */
  lemma InsertedAt(q: seq<Queued>, frame: EncodedFrame, now: nat, target: nat, i: nat)
    requires i <= |q|
    ensures var r, pos := Inserted(q, frame, now, target), Position(q, frame.ptsUs);
            var due := DueAt(q, pos, now + target);
            && |r| == |q| + 1
            && (i < pos ==> r[i] == q[i])
            && (i == pos ==> r[i] == Queued(frame, now, due))
            && (i > pos ==> r[i] == Raise(q[pos..], due)[i - pos - 1])
  {
  }

  lemma InsertedPts(q: seq<Queued>, frame: EncodedFrame, now: nat, target: nat, i: nat)
    requires i <= |q|
    ensures var r, pos := Inserted(q, frame, now, target), Position(q, frame.ptsUs);
            r[i].frame == if i < pos then q[i].frame else if i == pos then frame else q[i - 1].frame
  {
    InsertedAt(q, frame, now, target, i);
    if i > Position(q, frame.ptsUs) {
      InsertedLater(q, frame, now, target, i);
    }
  }

  lemma InsertedLater(q: seq<Queued>, frame: EncodedFrame, now: nat, target: nat, i: nat)
    requires Position(q, frame.ptsUs) < i <= |q|
    ensures Inserted(q, frame, now, target)[i].frame == q[i - 1].frame
  {
    var pos := Position(q, frame.ptsUs);
    var tail, due, k := q[pos..], DueAt(q, pos, now + target), i - pos - 1;
    InsertedAt(q, frame, now, target, i);
    RaisedFrame(tail, due, k);
    assert tail[k] == q[i - 1];
  }

  lemma RaisedFrame(q: seq<Queued>, floor: nat, i: nat)
    requires i < |q|
    ensures Raise(q, floor)[i].frame == q[i].frame
  {
    RaiseFacts(q, floor);
  }

  lemma InsertedByPts(q: seq<Queued>, frame: EncodedFrame, now: nat, target: nat)
    requires ByPts(q)
    ensures ByPts(Inserted(q, frame, now, target))
  {
    var r := Inserted(q, frame, now, target);
    PositionSplits(q, frame.ptsUs);
    forall i, j | 0 <= i < j < |r|
      ensures r[i].frame.ptsUs <= r[j].frame.ptsUs
    {
      InsertedPts(q, frame, now, target, i);
      InsertedPts(q, frame, now, target, j);
    }
  }

  lemma InsertedByDue(q: seq<Queued>, frame: EncodedFrame, now: nat, target: nat)
    requires ByDue(q)
    ensures ByDue(Inserted(q, frame, now, target))
  {
    var r, pos := Inserted(q, frame, now, target), Position(q, frame.ptsUs);
    var due := DueAt(q, pos, now + target);
    RaiseFacts(q[pos..], due);
    assert forall i :: 0 <= i < pos ==> q[i].dueMs <= due;
    forall i, j | 0 <= i < j < |r|
      ensures r[i].dueMs <= r[j].dueMs
    {
      InsertedAt(q, frame, now, target, i);
      InsertedAt(q, frame, now, target, j);
    }
  }

  lemma InsertedSeasoned(q: seq<Queued>, frame: EncodedFrame, now: nat, target: nat)
    requires Seasoned(q) && target >= MIN_TARGET_MS
    ensures Seasoned(Inserted(q, frame, now, target))
  {
    var r, pos := Inserted(q, frame, now, target), Position(q, frame.ptsUs);
    RaiseFacts(q[pos..], DueAt(q, pos, now + target));
    forall i | 0 <= i < |r|
      ensures r[i].arrivedMs + MIN_TARGET_MS <= r[i].dueMs
    {
      InsertedAt(q, frame, now, target, i);
    }
  }

  lemma InsertedNoneBelow(q: seq<Queued>, frame: EncodedFrame, now: nat, target: nat, watermark: Option<nat>)
    requires NoneBelow(q, watermark) && (watermark.Some? ==> watermark.value <= frame.ptsUs)
    ensures NoneBelow(Inserted(q, frame, now, target), watermark)
  {
    var r, pos := Inserted(q, frame, now, target), Position(q, frame.ptsUs);
    RaiseFacts(q[pos..], DueAt(q, pos, now + target));
    forall i | 0 <= i < |r|
      ensures watermark.Some? ==> watermark.value <= r[i].frame.ptsUs
    {
      InsertedAt(q, frame, now, target, i);
    }
  }

  lemma RemoveAt(q: seq<Queued>, v: nat)
    requires v < |q|
    ensures var r := q[..v] + q[v + 1..];
            |r| == |q| - 1 && forall i :: 0 <= i < |r| ==> r[i] == q[if i < v then i else i + 1]
  {
  }

  /** Eviction keeps the survivors in order. */
  lemma {:induction false} CappedOrdered(q: seq<Queued>)
    requires Ordered(q)
    ensures Ordered(Capped(q))
    decreases |q|
  {
    if |q| > MAX_QUEUED_FRAMES {
      RemoveAt(q, Victim(q));
      CappedOrdered(q[..Victim(q)] + q[Victim(q) + 1..]);
    }
  }

  lemma {:induction false} CappedStrict(q: seq<Queued>)
    requires StrictPts(q)
    ensures StrictPts(Capped(q))
    decreases |q|
  {
    if |q| > MAX_QUEUED_FRAMES {
      RemoveAt(q, Victim(q));
      CappedStrict(q[..Victim(q)] + q[Victim(q) + 1..]);
    }
  }

  /** Eviction only removes. */
  lemma {:induction false} CappedFrom(q: seq<Queued>)
    ensures forall i :: 0 <= i < |Capped(q)| ==> Capped(q)[i] in q
    decreases |q|
  {
    if |q| > MAX_QUEUED_FRAMES {
      var r := q[..Victim(q)] + q[Victim(q) + 1..];
      RemoveAt(q, Victim(q));
      CappedFrom(r);
      assert forall i :: 0 <= i < |r| ==> r[i] in q;
    }
  }

  lemma AdaptInRange(b: Buffer, observed: nat, now: nat)
    ensures MIN_TARGET_MS <= Adapt(b, observed, now).targetMs <= MAX_TARGET_MS
    ensures Adapt(b, observed, now) ==
            b.(targetMs := Adapt(b, observed, now).targetMs, lastDecayMs := Adapt(b, observed, now).lastDecayMs)
  {
  }

  predicate Rejected(b: Buffer, frame: EncodedFrame) {
    b.lastPlayedPtsUs.Some? && frame.ptsUs <= b.lastPlayedPtsUs.value
  }

  /** The delay target a push leaves behind. */
  function NewTarget(b: Buffer, observed: nat, now: nat): nat {
    Adapt(b, observed, now).targetMs
  }

  /** The parts of the state that order and timing depend on, after a push that is not rejected. */
  lemma PushShape(b: Buffer, frame: EncodedFrame, observed: nat, now: nat)
    requires !Rejected(b, frame)
    ensures var r, t := Push(b, frame, observed, now).0, NewTarget(b, observed, now);
            && r.queue == Capped(Inserted(b.queue, frame, now, t))
            && r.targetMs == t && MIN_TARGET_MS <= t <= MAX_TARGET_MS
            && r.lastPlayedPtsUs == b.lastPlayedPtsUs && r.lastArrivalMs == Some(now)
            && r.stats.accepted == b.stats.accepted + 1 && r.stats.played == b.stats.played
            && r.stats.droppedLate == b.stats.droppedLate && r.stats.droppedReordered == b.stats.droppedReordered
            && r.stats.droppedOverflow == b.stats.droppedOverflow + |b.queue| + 1 - |r.queue|
  {
    var seen := b.(lastArrivalMs := Some(now), lastPtsUs := Some(frame.ptsUs),
                   stats := b.stats.(accepted := b.stats.accepted + 1));
    AdaptInRange(seen, observed, now);
    CappedShrinks(Inserted(b.queue, frame, now, NewTarget(b, observed, now)));
  }

  lemma PushKeepsInv(b: Buffer, frame: EncodedFrame, observed: nat, now: nat)
    requires Inv(b)
    ensures Inv(Push(b, frame, observed, now).0)
  {
    if !Rejected(b, frame) {
      PushShape(b, frame, observed, now);
      var target := NewTarget(b, observed, now);
      var full := Inserted(b.queue, frame, now, target);
      InsertedByPts(b.queue, frame, now, target);
      InsertedByDue(b.queue, frame, now, target);
      InsertedSeasoned(b.queue, frame, now, target);
      InsertedNoneBelow(b.queue, frame, now, target, b.lastPlayedPtsUs);
      CappedOrdered(full);
      CappedShrinks(full);
      CappedFrom(full);
    }
  }

  lemma SuffixOrdered(q: seq<Queued>, n: nat, watermark: Option<nat>)
    requires Ordered(q) && NoneBelow(q, watermark) && n <= |q|
    ensures Ordered(q[n..]) && NoneBelow(q[n..], watermark)
  {
  }

  /** What a poll leaves of the queue: the settled queue, less the frame it plays. */
  lemma PollQueue(b: Buffer, now: nat)
    ensures var q, r := Settled(b.queue, now), Poll(b, now);
            if r.1.Play? then q != [] && r.0.queue == q[1..] && r.1.frame == q[0].frame else r.0.queue == q
  {
  }

  lemma PollFields(b: Buffer, now: nat)
    ensures var q, r := Settled(b.queue, now), Poll(b, now);
            && r.0.targetMs == b.targetMs && r.0.lastArrivalMs == b.lastArrivalMs
            && r.0.lastPlayedPtsUs == if r.1.Play? then Some(r.1.frame.ptsUs) else b.lastPlayedPtsUs
  {
  }

  lemma SuffixHead(q: seq<Queued>, r: seq<Queued>)
    requires |r| <= |q| && r == q[|q| - |r|..] && r != []
    ensures r[0] == q[|q| - |r|] && r[1..] == q[|q| - |r| + 1..]
  {
  }

  /** What a poll leaves: a suffix of the queue, and the watermark at the frame it played. */
  lemma PollShape(b: Buffer, now: nat)
    ensures var r := Poll(b, now).0;
            && |r.queue| <= |b.queue| && r.queue == b.queue[|b.queue| - |r.queue|..]
            && (if Poll(b, now).1.Play?
                then var n := |b.queue| - |r.queue| - 1;
                     0 <= n < |b.queue| && b.queue[n].frame == Poll(b, now).1.frame
                     && r.lastPlayedPtsUs == Some(b.queue[n].frame.ptsUs)
                else r.lastPlayedPtsUs == b.lastPlayedPtsUs)
            && r.targetMs == b.targetMs && r.lastArrivalMs == b.lastArrivalMs
  {
    SettledIsSuffix(b.queue, now);
    PollQueue(b, now);
    PollFields(b, now);
    if Poll(b, now).1.Play? {
      SuffixHead(b.queue, Settled(b.queue, now));
    }
  }

  lemma PollKeepsInv(b: Buffer, now: nat)
    requires Inv(b)
    ensures Inv(Poll(b, now).0)
  {
    PollShape(b, now);
    var n := |b.queue| - |Poll(b, now).0.queue|;
    SuffixOrdered(b.queue, n, b.lastPlayedPtsUs);
    assert forall i :: 0 <= i < |b.queue| - n ==> b.queue[n..][i] == b.queue[n + i];
  }

  lemma StepKeepsInv(b: Buffer, op: Op)
    requires Inv(b)
    ensures Inv(Step(b, op))
  {
    match op
    case PushOp(frame, observed, now) => PushKeepsInv(b, frame, observed, now);
    case PollOp(now) => PollKeepsInv(b, now);
    case ResetOp =>
  }

  /** In every reachable state the queue is sorted by timestamp and deadline, bounded, and above the watermark. */
  lemma {:induction false} RunKeepsInv(b: Buffer, ops: seq<Op>)
    requires Inv(b)
    ensures Inv(Run(b, ops))
    decreases |ops|
  {
    if ops != [] {
      RunKeepsInv(b, ops[..|ops| - 1]);
      StepKeepsInv(Run(b, ops[..|ops| - 1]), ops[|ops| - 1]);
    }
  }

  // ----- Playout order -----

  ghost predicate NoReset(ops: seq<Op>) {
    forall i :: 0 <= i < |ops| ==> !ops[i].ResetOp?
  }

  ghost predicate Nondecreasing(xs: seq<nat>) {
    forall i, j :: 0 <= i < j < |xs| ==> xs[i] <= xs[j]
  }

  /** The watermark is the last timestamp played, or what it was before the run. */
  ghost predicate Watermark(b: Buffer, xs: seq<nat>, after: Option<nat>) {
    && Nondecreasing(xs)
    && (if xs == [] then after == b.lastPlayedPtsUs else after == Some(xs[|xs| - 1]))
    && (b.lastPlayedPtsUs.Some? ==> forall i :: 0 <= i < |xs| ==> b.lastPlayedPtsUs.value <= xs[i])
  }

  lemma StepWatermark(b: Buffer, op: Op)
    requires Inv(b) && !op.ResetOp?
    ensures var xs := PlayedBy(b, op);
            if xs == [] then Step(b, op).lastPlayedPtsUs == b.lastPlayedPtsUs
            else Step(b, op).lastPlayedPtsUs == Some(xs[0])
                 && (b.lastPlayedPtsUs.Some? ==> b.lastPlayedPtsUs.value <= xs[0])
  {
    if op.PollOp? {
      SettledIsSuffix(b.queue, op.at);
    }
  }

  /** Between resets the played timestamps never go backwards, whatever order frames arrive in. */
  lemma {:induction false} PlayedInOrder(b: Buffer, ops: seq<Op>)
    requires Inv(b) && NoReset(ops)
    ensures Watermark(b, Played(b, ops), Run(b, ops).lastPlayedPtsUs)
    decreases |ops|
  {
    if ops != [] {
      var pre, last := ops[..|ops| - 1], ops[|ops| - 1];
      PlayedInOrder(b, pre);
      RunKeepsInv(b, pre);
      StepWatermark(Run(b, pre), last);
    }
  }

  // ----- Strict order for distinct timestamps -----

  ghost predicate StrictPts(q: seq<Queued>) {
    forall i, j :: 0 <= i < j < |q| ==> q[i].frame.ptsUs < q[j].frame.ptsUs
  }

  ghost predicate Strict(b: Buffer) {
    && StrictPts(b.queue)
    && (b.lastPlayedPtsUs.Some? ==>
          forall i :: 0 <= i < |b.queue| ==> b.lastPlayedPtsUs.value < b.queue[i].frame.ptsUs)
  }

  ghost predicate QueuedFrom(b: Buffer, pushed: set<nat>) {
    forall i :: 0 <= i < |b.queue| ==> b.queue[i].frame.ptsUs in pushed
  }

  ghost function Pushed(ops: seq<Op>): set<nat> {
    set i | 0 <= i < |ops| && ops[i].PushOp? :: ops[i].frame.ptsUs
  }

  ghost predicate DistinctPushes(ops: seq<Op>) {
    forall i, j :: 0 <= i < j < |ops| && ops[i].PushOp? && ops[j].PushOp?
                   ==> ops[i].frame.ptsUs != ops[j].frame.ptsUs
  }

  lemma PushStrict(b: Buffer, frame: EncodedFrame, observed: nat, now: nat, pushed: set<nat>)
    requires Strict(b) && QueuedFrom(b, pushed) && frame.ptsUs !in pushed
    ensures Strict(Push(b, frame, observed, now).0)
    ensures QueuedFrom(Push(b, frame, observed, now).0, pushed + {frame.ptsUs as nat})
  {
    if !Rejected(b, frame) {
      PushShape(b, frame, observed, now);
      var target := NewTarget(b, observed, now);
      var full := Inserted(b.queue, frame, now, target);
      InsertStrict(b, frame, now, target, pushed);
      CappedStrict(full);
      CappedFrom(full);
    }
  }

  lemma InsertStrict(b: Buffer, frame: EncodedFrame, now: nat, target: nat, pushed: set<nat>)
    requires Strict(b) && QueuedFrom(b, pushed) && frame.ptsUs !in pushed
    requires b.lastPlayedPtsUs.Some? ==> b.lastPlayedPtsUs.value < frame.ptsUs
    ensures var b' := b.(queue := Inserted(b.queue, frame, now, target));
            Strict(b') && QueuedFrom(b', pushed + {frame.ptsUs as nat})
  {
    var q := b.queue;
    var r := Inserted(q, frame, now, target);
    PositionSplits(q, frame.ptsUs);
    forall i, j | 0 <= i < j < |r|
      ensures r[i].frame.ptsUs < r[j].frame.ptsUs
    {
      InsertedPts(q, frame, now, target, i);
      InsertedPts(q, frame, now, target, j);
    }
    forall i | 0 <= i < |r|
      ensures r[i].frame.ptsUs in pushed + {frame.ptsUs as nat}
      ensures b.lastPlayedPtsUs.Some? ==> b.lastPlayedPtsUs.value < r[i].frame.ptsUs
    {
      InsertedPts(q, frame, now, target, i);
    }
  }

  lemma PollStrict(b: Buffer, now: nat, pushed: set<nat>)
    requires Strict(b) && QueuedFrom(b, pushed)
    ensures Strict(Poll(b, now).0) && QueuedFrom(Poll(b, now).0, pushed)
    ensures Poll(b, now).1.Play? && b.lastPlayedPtsUs.Some? ==>
              b.lastPlayedPtsUs.value < Poll(b, now).1.frame.ptsUs
  {
    PollShape(b, now);
    var n := |b.queue| - |Poll(b, now).0.queue|;
    assert forall i :: 0 <= i < |b.queue| - n ==> b.queue[n..][i] == b.queue[n + i];
  }

  lemma PushedGrows(ops: seq<Op>)
    requires ops != []
    ensures var pre, last := ops[..|ops| - 1], ops[|ops| - 1];
            Pushed(ops) == Pushed(pre) + if last.PushOp? then {last.frame.ptsUs as nat} else {}
    ensures DistinctPushes(ops) && ops[|ops| - 1].PushOp? ==>
              ops[|ops| - 1].frame.ptsUs as nat !in Pushed(ops[..|ops| - 1])
  {
    var pre := ops[..|ops| - 1];
    assert forall i :: 0 <= i < |pre| ==> ops[i] == pre[i];
  }

  /** Distinct timestamps, pushed in any order into a new or just-reset buffer, come out strictly increasing. */
  lemma {:induction false} PlayedStrictly(b: Buffer, ops: seq<Op>)
    requires Inv(b) && b.queue == [] && b.lastPlayedPtsUs == None
    requires NoReset(ops) && DistinctPushes(ops)
    ensures Strict(Run(b, ops)) && QueuedFrom(Run(b, ops), Pushed(ops))
    ensures forall i, j :: 0 <= i < j < |Played(b, ops)| ==> Played(b, ops)[i] < Played(b, ops)[j]
    decreases |ops|
  {
    if ops != [] {
      var pre, last := ops[..|ops| - 1], ops[|ops| - 1];
      PlayedStrictly(b, pre);
      PushedGrows(ops);
      var c := Run(b, pre);
      match last {
        case PushOp(frame, observed, now) => PushStrict(c, frame, observed, now, Pushed(pre));
        case PollOp(now) =>
          PollStrict(c, now, Pushed(pre));
          PlayedInOrder(b, pre);
        case ResetOp =>
      }
    }
  }

  // ----- Playout timing -----

  /** Past the stale limit a poll never plays: the frame behind would have been caught up to. */
  lemma StaleNotPlayed(q: seq<Queued>, now: nat)
    requires q != [] && !Behind(q, now) && now > q[0].dueMs + STALE_AFTER_MS
    ensures |q| == 1 || now < q[1].dueMs
  {
  }

  lemma PlayedIsFront(b: Buffer, now: nat)
    requires Poll(b, now).1.Play?
    ensures var q := CatchUp(b.queue, now);
            && q != [] && Poll(b, now).1.frame == q[0].frame && Poll(b, now).0.queue == q[1..]
            && q[0].dueMs <= now <= q[0].dueMs + STALE_AFTER_MS && !Behind(q, now)
  {
    var q := CatchUp(b.queue, now);
    CatchUpIsSuffix(b.queue, now);
    if q != [] && now > q[0].dueMs + STALE_AFTER_MS {
      StaleNotPlayed(q, now);
    }
  }

  /**
   What playing `x` at `now` and leaving `left` must satisfy: `x` had waited at least the minimum
   delay, was at most half a second past its deadline, and if it was past the catch-up slack then
   nothing left in the queue is due.
   */
  ghost predicate OnTime(x: Queued, left: seq<Queued>, now: nat) {
    && x.arrivedMs + MIN_TARGET_MS <= x.dueMs <= now <= x.dueMs + STALE_AFTER_MS
    && (now > x.dueMs + CATCHUP_SLACK_MS ==> forall i :: 0 <= i < |left| ==> now < left[i].dueMs)
  }

  lemma FrontIsOnTime(q: seq<Queued>, now: nat)
    requires q != [] && Ordered(q) && !Behind(q, now)
    requires q[0].dueMs <= now <= q[0].dueMs + STALE_AFTER_MS
    ensures OnTime(q[0], q[1..], now)
  {
    var left := q[1..];
    assert forall i :: 0 <= i < |left| ==> left[i] == q[i + 1];
  }

  /** The entry at position `i` is the one a poll plays: everything up to it goes, the rest stays. */
  ghost predicate PlaysEntry(b: Buffer, now: nat, i: nat) {
    && i < |b.queue| && Poll(b, now).1 == Play(b.queue[i].frame)
    && Poll(b, now).0.queue == b.queue[i + 1..]
  }

  lemma PlayedEntry(b: Buffer, now: nat)
    requires Poll(b, now).1.Play?
    ensures var q := CatchUp(b.queue, now);
            |q| <= |b.queue| && q == b.queue[|b.queue| - |q|..] && PlaysEntry(b, now, |b.queue| - |q|)
  {
    PlayedIsFront(b, now);
    CatchUpIsSuffix(b.queue, now);
    SuffixHead(b.queue, CatchUp(b.queue, now));
  }

  /** A frame played is one of the queued frames, played on time. */
  lemma PollOnTime(b: Buffer, now: nat) returns (i: nat)
    requires Inv(b) && Poll(b, now).1.Play?
    ensures PlaysEntry(b, now, i) && OnTime(b.queue[i], Poll(b, now).0.queue, now)
  {
    var q := CatchUp(b.queue, now);
    PlayedEntry(b, now);
    i := |b.queue| - |q|;
    assert b.queue[i] == q[0];
    OrderedSuffix(b.queue, i);
    PlayedIsFront(b, now);
    FrontIsOnTime(q, now);
  }

  lemma OrderedSuffix(q: seq<Queued>, n: nat)
    requires Ordered(q) && n <= |q|
    ensures Ordered(q[n..])
  {
    SuffixOrdered(q, n, None);
  }

  /** Operation `k` pushed the queued frame `x`, and no reset came after it. */
  ghost predicate PushedAt(ops: seq<Op>, k: nat, x: Queued) {
    && k < |ops| && ops[k].PushOp? && ops[k].frame == x.frame && ops[k].at == x.arrivedMs
    && NoReset(ops[k..])
  }

  ghost predicate WasPushed(ops: seq<Op>, x: Queued) {
    exists k: nat :: PushedAt(ops, k, x)
  }

  ghost predicate AllPushed(ops: seq<Op>, q: seq<Queued>) {
    forall x <- q :: WasPushed(ops, x)
  }

  /** A later deadline does not change when a frame arrived. */
  lemma WasPushedGrows(ops: seq<Op>, op: Op, x: Queued, y: Queued)
    requires WasPushed(ops, x) && !op.ResetOp? && y.frame == x.frame && y.arrivedMs == x.arrivedMs
    ensures WasPushed(ops + [op], y)
  {
    var k: nat :| PushedAt(ops, k, x);
    assert (ops + [op])[k..] == ops[k..] + [op];
    assert PushedAt(ops + [op], k, y);
  }

  lemma JustPushed(ops: seq<Op>, op: Op, x: Queued)
    requires op.PushOp? && op.frame == x.frame && op.at == x.arrivedMs
    ensures WasPushed(ops + [op], x)
  {
    assert (ops + [op])[|ops|..] == [op];
    assert PushedAt(ops + [op], |ops|, x);
  }

  /** Each frame in the queue after an insertion is the new one or an old one, perhaps with a later deadline. */
  lemma InsertedOrigin(q: seq<Queued>, frame: EncodedFrame, now: nat, target: nat, i: nat)
    requires i <= |q|
    ensures var x := Inserted(q, frame, now, target)[i];
            || (x.frame == frame && x.arrivedMs == now)
            || exists y :: y in q && x.frame == y.frame && x.arrivedMs == y.arrivedMs
  {
    var pos := Position(q, frame.ptsUs);
    InsertedAt(q, frame, now, target, i);
    if i < pos {
      assert q[i] in q;
    } else if i > pos {
      RaiseFacts(q[pos..], DueAt(q, pos, now + target));
      assert q[pos..][i - pos - 1] == q[i - 1] && q[i - 1] in q;
    }
  }

  lemma InsertedPushed(ops: seq<Op>, op: Op, q: seq<Queued>, target: nat)
    requires AllPushed(ops, q) && op.PushOp?
    ensures AllPushed(ops + [op], Inserted(q, op.frame, op.at, target))
  {
    var r := Inserted(q, op.frame, op.at, target);
    forall x | x in r
      ensures WasPushed(ops + [op], x)
    {
      var i :| 0 <= i < |r| && r[i] == x;
      InsertedOrigin(q, op.frame, op.at, target, i);
      if x.frame == op.frame && x.arrivedMs == op.at {
        JustPushed(ops, op, x);
      } else {
        var y :| y in q && x.frame == y.frame && x.arrivedMs == y.arrivedMs;
        WasPushedGrows(ops, op, y, x);
      }
    }
  }

  lemma StillPushed(ops: seq<Op>, op: Op, q: seq<Queued>, r: seq<Queued>)
    requires AllPushed(ops, q) && !op.ResetOp? && forall x <- r :: x in q
    ensures AllPushed(ops + [op], r)
  {
    forall x | x in r
      ensures WasPushed(ops + [op], x)
    {
      WasPushedGrows(ops, op, x, x);
    }
  }

  lemma StepPushed(ops: seq<Op>, b: Buffer, op: Op)
    requires AllPushed(ops, b.queue)
    ensures AllPushed(ops + [op], Step(b, op).queue)
  {
    match op
    case PushOp(frame, observed, now) =>
      if Rejected(b, frame) {
        StillPushed(ops, op, b.queue, b.queue);
      } else {
        var full := Inserted(b.queue, frame, now, NewTarget(b, observed, now));
        PushShape(b, frame, observed, now);
        InsertedPushed(ops, op, b.queue, NewTarget(b, observed, now));
        CappedFrom(full);
      }
    case PollOp(now) =>
      PollShape(b, now);
      StillPushed(ops, op, b.queue, Step(b, op).queue);
    case ResetOp =>
  }

  /** Whatever is queued was pushed since the last reset, at the time noted with it. */
  lemma {:induction false} RunPushed(ops: seq<Op>)
    ensures AllPushed(ops, Run(New(), ops).queue)
    decreases |ops|
  {
    if ops != [] {
      var pre, last := ops[..|ops| - 1], ops[|ops| - 1];
      RunPushed(pre);
      StepPushed(pre, Run(New(), pre), last);
      assert pre + [last] == ops;
    }
  }

  /**
   Every frame a run plays is a queued entry that was pushed by an earlier operation of the run, with no
   reset in between, at least 15 ms before; the entry is at most half a second past its deadline, and past
   the catch-up slack only if nothing left in the queue is due.
   */
  lemma PlayedOnTime(ops: seq<Op>, now: nat)
    requires Poll(Run(New(), ops), now).1.Play?
    ensures exists i: nat, k: nat ::
              && PlaysEntry(Run(New(), ops), now, i) && PushedAt(ops, k, Run(New(), ops).queue[i])
              && ops[k].at + MIN_TARGET_MS <= now
              && OnTime(Run(New(), ops).queue[i], Poll(Run(New(), ops), now).0.queue, now)
  {
    RunKeepsInv(New(), ops);
    RunPushed(ops);
    var b := Run(New(), ops);
    var i := PollOnTime(b, now);
    assert b.queue[i] in b.queue;
    var k: nat :| PushedAt(ops, k, b.queue[i]);
    assert ops[k].at + MIN_TARGET_MS <= now;
  }

  // ----- Overflow -----

  /** The frame a push evicts from an over-full queue is the very frame pushed. */
  predicate GivesUpPushed(b: Buffer, frame: EncodedFrame, observed: nat, now: nat) {
    var full := Inserted(b.queue, frame, now, NewTarget(b, observed, now));
    |full| > MAX_QUEUED_FRAMES && Victim(full) == Position(b.queue, frame.ptsUs)
  }

  /**
   The buffer is full, and the new frame is discardable with no discardable frame queued up to its
   timestamp, or nothing at all is discardable and every queued frame is later.
   */
  predicate Unwelcome(b: Buffer, frame: EncodedFrame) {
    && |b.queue| == MAX_QUEUED_FRAMES
    && if IsDiscardable(frame)
       then forall i :: 0 <= i < |b.queue| && b.queue[i].frame.ptsUs <= frame.ptsUs ==> !IsDiscardable(b.queue[i].frame)
       else forall i :: 0 <= i < |b.queue| ==> !IsDiscardable(b.queue[i].frame) && frame.ptsUs < b.queue[i].frame.ptsUs
  }

  lemma {:induction false} FirstDiscardableFacts(q: seq<Queued>)
    ensures forall i :: 0 <= i < FirstDiscardable(q) ==> !IsDiscardable(q[i].frame)
    ensures FirstDiscardable(q) < |q| ==> IsDiscardable(q[FirstDiscardable(q)].frame)
  {
    if q != [] && !IsDiscardable(q[0].frame) {
      FirstDiscardableFacts(q[1..]);
      assert forall i :: 0 < i < |q| ==> q[i] == q[1..][i - 1];
    }
  }

  lemma VictimAt(q: seq<Queued>, pos: nat)
    requires pos < |q|
    ensures Victim(q) == pos <==>
            if IsDiscardable(q[pos].frame) then forall i :: 0 <= i < pos ==> !IsDiscardable(q[i].frame)
            else pos == 0 && forall i :: 0 <= i < |q| ==> !IsDiscardable(q[i].frame)
  {
    FirstDiscardableFacts(q);
    if IsDiscardable(q[pos].frame) {
      assert FirstDiscardable(q) <= pos;
    }
  }

  /** The queue after an insertion, frame by frame. */
  lemma InsertedFrames(q: seq<Queued>, frame: EncodedFrame, now: nat, target: nat)
    ensures var full, pos := Inserted(q, frame, now, target), Position(q, frame.ptsUs);
            && |full| == |q| + 1 && full[pos].frame == frame
            && (forall i :: 0 <= i < pos ==> full[i].frame == q[i].frame)
            && (forall i :: pos <= i < |q| ==> full[i + 1].frame == q[i].frame)
  {
    var pos := Position(q, frame.ptsUs);
    InsertedAt(q, frame, now, target, pos);
    forall i | 0 <= i < pos
      ensures Inserted(q, frame, now, target)[i].frame == q[i].frame
    {
      InsertedPts(q, frame, now, target, i);
    }
    forall i | pos <= i < |q|
      ensures Inserted(q, frame, now, target)[i + 1].frame == q[i].frame
    {
      InsertedPts(q, frame, now, target, i + 1);
    }
  }

  lemma SplitByPts(q: seq<Queued>, pts: nat)
    requires ByPts(q)
    ensures forall i :: 0 <= i < |q| ==> (q[i].frame.ptsUs <= pts <==> i < Position(q, pts))
  {
    PositionSplits(q, pts);
  }

  lemma NoneDiscardable(q: seq<Queued>, full: seq<Queued>, pos: nat)
    requires pos <= |q| && |full| == |q| + 1
    requires forall i :: 0 <= i < pos ==> full[i].frame == q[i].frame
    requires forall i :: pos <= i < |q| ==> full[i + 1].frame == q[i].frame
    ensures (forall i :: 0 <= i < |full| ==> !IsDiscardable(full[i].frame)) <==>
            !IsDiscardable(full[pos].frame) && forall i :: 0 <= i < |q| ==> !IsDiscardable(q[i].frame)
  {
    if !IsDiscardable(full[pos].frame) && forall i :: 0 <= i < |q| ==> !IsDiscardable(q[i].frame) {
      forall i | 0 <= i < |full|
        ensures !IsDiscardable(full[i].frame)
      {
        if i > pos {
          assert full[i - 1 + 1].frame == q[i - 1].frame;
        }
      }
    }
    if forall i :: 0 <= i < |full| ==> !IsDiscardable(full[i].frame) {
      forall i | 0 <= i < |q|
        ensures !IsDiscardable(q[i].frame)
      {
        assert q[i].frame == full[if i < pos then i else i + 1].frame;
      }
    }
  }

  lemma VictimIsNew(q: seq<Queued>, frame: EncodedFrame, now: nat, target: nat)
    requires ByPts(q)
    ensures var full, pos := Inserted(q, frame, now, target), Position(q, frame.ptsUs);
            && |full| == |q| + 1
            && (Victim(full) == pos <==>
                if IsDiscardable(frame)
                then forall i :: 0 <= i < |q| && q[i].frame.ptsUs <= frame.ptsUs ==> !IsDiscardable(q[i].frame)
                else forall i :: 0 <= i < |q| ==> !IsDiscardable(q[i].frame) && frame.ptsUs < q[i].frame.ptsUs)
  {
    var full, pos := Inserted(q, frame, now, target), Position(q, frame.ptsUs);
    InsertedFrames(q, frame, now, target);
    VictimAt(full, pos);
    SplitByPts(q, frame.ptsUs);
    NoneDiscardable(q, full, pos);
  }

  /** Repairing deadlines that are already in order is a matter of each frame alone. */
  lemma {:induction false} RaiseSorted(q: seq<Queued>, floor: nat, i: nat)
    requires ByDue(q) && i < |q|
    ensures Raise(q, floor)[i] == q[i].(dueMs := Max(q[i].dueMs, floor))
  {
    if i > 0 {
      var due := Max(q[0].dueMs, floor);
      RaiseSorted(q[1..], due, i - 1);
      assert Raise(q, floor)[i] == Raise(q[1..], due)[i - 1];
    }
  }

  /** The queued frame, due at the earliest at `ready` if it is later than `pts`. */
  function Delayed(x: Queued, pts: nat, ready: nat): Queued {
    if x.frame.ptsUs <= pts then x else x.(dueMs := Max(x.dueMs, ready))
  }

  lemma DueLater(q: seq<Queued>, pos: nat, ready: nat, i: nat)
    requires ByDue(q) && pos <= i < |q|
    ensures Raise(q[pos..], DueAt(q, pos, ready))[i - pos] == q[i].(dueMs := Max(q[i].dueMs, ready))
  {
    RaiseSorted(q[pos..], DueAt(q, pos, ready), i - pos);
  }

  /** Slot `i` of the queue once the new frame is taken out again. */
  lemma CappedAt(q: seq<Queued>, frame: EncodedFrame, now: nat, target: nat, i: nat)
    requires |q| == MAX_QUEUED_FRAMES && Victim(Inserted(q, frame, now, target)) == Position(q, frame.ptsUs)
    requires i < |q|
    ensures var full, pos := Inserted(q, frame, now, target), Position(q, frame.ptsUs);
            |full| == |Capped(full)| + 1 == |q| + 1 && Capped(full)[i] == full[if i < pos then i else i + 1]
  {
    var full, pos := Inserted(q, frame, now, target), Position(q, frame.ptsUs);
    InsertedAt(q, frame, now, target, 0);
    RemoveAt(full, pos);
    assert Capped(full) == full[..pos] + full[pos + 1..];
  }

  lemma SlotBefore(q: seq<Queued>, frame: EncodedFrame, now: nat, target: nat, i: nat)
    requires ByPts(q) && i < Position(q, frame.ptsUs)
    ensures Inserted(q, frame, now, target)[i] == Delayed(q[i], frame.ptsUs, now + target)
  {
    SplitByPts(q, frame.ptsUs);
    InsertedAt(q, frame, now, target, i);
  }

  lemma SlotAfter(q: seq<Queued>, frame: EncodedFrame, now: nat, target: nat, i: nat)
    requires ByPts(q) && ByDue(q) && Position(q, frame.ptsUs) <= i < |q|
    ensures Inserted(q, frame, now, target)[i + 1] == Delayed(q[i], frame.ptsUs, now + target)
  {
    var pos := Position(q, frame.ptsUs);
    assert q[i].frame.ptsUs > frame.ptsUs by {
      SplitByPts(q, frame.ptsUs);
    }
    DueLater(q, pos, now + target, i);
    InsertedAt(q, frame, now, target, i + 1);
    assert i + 1 - pos - 1 == i - pos;
  }

  lemma QueueWithoutNew(q: seq<Queued>, frame: EncodedFrame, now: nat, target: nat)
    requires |q| == MAX_QUEUED_FRAMES && Victim(Inserted(q, frame, now, target)) == Position(q, frame.ptsUs)
    requires ByPts(q) && ByDue(q)
    ensures var kept := Capped(Inserted(q, frame, now, target));
            |kept| == |q| && forall i :: 0 <= i < |q| ==> kept[i] == Delayed(q[i], frame.ptsUs, now + target)
  {
    CappedShrinks(Inserted(q, frame, now, target));
    forall i | 0 <= i < |q|
      ensures Capped(Inserted(q, frame, now, target))[i] == Delayed(q[i], frame.ptsUs, now + target)
    {
      CappedAt(q, frame, now, target, i);
      if i < Position(q, frame.ptsUs) {
        SlotBefore(q, frame, now, target, i);
      } else {
        SlotAfter(q, frame, now, target, i);
      }
    }
  }

  lemma GivenUpExactly(b: Buffer, frame: EncodedFrame, observed: nat, now: nat)
    requires ByPts(b.queue) && |b.queue| <= MAX_QUEUED_FRAMES
    ensures GivesUpPushed(b, frame, observed, now) <==> Unwelcome(b, frame)
  {
    VictimIsNew(b.queue, frame, now, NewTarget(b, observed, now));
  }

  /**
   A push that is not rejected always reports that the frame was taken in. It is nonetheless the frame
   given up if and only if the frame is unwelcome. The queued frames then stay, but those later than the
   frame given up are not due before it would have been.
   */
  lemma PushedIsEvictedExactly(b: Buffer, frame: EncodedFrame, observed: nat, now: nat)
    requires Inv(b) && !Rejected(b, frame)
    ensures Push(b, frame, observed, now).1
    ensures GivesUpPushed(b, frame, observed, now) <==> Unwelcome(b, frame)
    ensures Unwelcome(b, frame) ==>
              var r, ready := Push(b, frame, observed, now).0, now + NewTarget(b, observed, now);
              && |r.queue| == |b.queue|
              && forall i :: 0 <= i < |b.queue| ==> r.queue[i] == Delayed(b.queue[i], frame.ptsUs, ready)
  {
    var target := NewTarget(b, observed, now);
    PushShape(b, frame, observed, now);
    GivenUpExactly(b, frame, observed, now);
    if Unwelcome(b, frame) {
      QueueWithoutNew(b.queue, frame, now, target);
    }
  }

  /**
   A frame given up at once leaves the queue as it was if and only if nothing queued is later, or the
   first later frame is not due before the one given up would have been.
   */
  lemma EvictedLeavesNoTraceExactly(b: Buffer, frame: EncodedFrame, observed: nat, now: nat)
    requires Inv(b) && !Rejected(b, frame) && Unwelcome(b, frame)
    ensures var pos, ready := Position(b.queue, frame.ptsUs), now + NewTarget(b, observed, now);
            Push(b, frame, observed, now).0.queue == b.queue <==> pos == |b.queue| || ready <= b.queue[pos].dueMs
  {
    var q, r := b.queue, Push(b, frame, observed, now).0.queue;
    var pos, ready := Position(q, frame.ptsUs), now + NewTarget(b, observed, now);
    PushedIsEvictedExactly(b, frame, observed, now);
    SplitByPts(q, frame.ptsUs);
    if pos == |q| || ready <= q[pos].dueMs {
      assert forall i :: pos <= i < |q| ==> q[pos].dueMs <= q[i].dueMs;
      assert forall i :: 0 <= i < |q| ==> r[i] == q[i];
    } else {
      assert r[pos] == Delayed(q[pos], frame.ptsUs, ready);
    }
  }

  /** A base-layer frame, an upper-layer frame with the same timestamp, and an earlier upper-layer frame. */
  const Base := EncodedFrame([], Delta, 1, 0, 0, None, None)
  const Upper := EncodedFrame([], Delta, 1, 0, 1, None, None)
  const Early := EncodedFrame([], Delta, 0, 0, 1, None, None)

  function Pushes(n: nat): seq<Op> {
    if n == 0 then [] else Pushes(n - 1) + [PushOp(Base, 0, 0)]
  }

  /** Exactly `n` base-layer frames queued, all due after the minimum delay, nothing played yet. */
  ghost predicate AllBase(b: Buffer, n: nat) {
    && |b.queue| == n && b.lastPlayedPtsUs == None && b.targetMs == MIN_TARGET_MS
    && forall i :: 0 <= i < n ==> b.queue[i].frame == Base && b.queue[i].dueMs == MIN_TARGET_MS
  }

  /** Pushing one more base-layer frame into a buffer of them with room left. */
  lemma PushBase(b: Buffer, n: nat)
    requires AllBase(b, n) && n < MAX_QUEUED_FRAMES
    ensures AllBase(Push(b, Base, 0, 0).0, n + 1)
  {
    var target := NewTarget(b, 0, 0);
    PushShape(b, Base, 0, 0);
    PositionSplits(b.queue, Base.ptsUs);
    forall i | 0 <= i <= n
      ensures var x := Inserted(b.queue, Base, 0, target)[i];
              x.frame == Base && x.dueMs == MIN_TARGET_MS
    {
      InsertedAt(b.queue, Base, 0, target, i);
    }
  }

  lemma RunPush(ops: seq<Op>, frame: EncodedFrame)
    ensures Run(New(), ops + [PushOp(frame, 0, 0)]) == Push(Run(New(), ops), frame, 0, 0).0
  {
    var all := ops + [PushOp(frame, 0, 0)];
    assert all[..|all| - 1] == ops;
  }

  lemma {:induction false} PushesFill(n: nat)
    requires n <= MAX_QUEUED_FRAMES
    ensures AllBase(Run(New(), Pushes(n)), n)
  {
    if n > 0 {
      PushesFill(n - 1);
      PushBase(Run(New(), Pushes(n - 1)), n - 1);
      RunPush(Pushes(n - 1), Base);
    }
  }

  lemma UpperIsUnwelcome(b: Buffer, n: nat)
    requires AllBase(b, n) && n == MAX_QUEUED_FRAMES
    ensures Unwelcome(b, Upper) && !Rejected(b, Upper)
  {
  }

  /** It happens: after 120 base-layer frames an upper-layer frame is reported as taken in and is gone. */
  lemma PushedCanBeEvicted(n: nat)
    requires n == MAX_QUEUED_FRAMES
    ensures Push(Run(New(), Pushes(n)), Upper, 0, 0).1 && GivesUpPushed(Run(New(), Pushes(n)), Upper, 0, 0)
  {
    PushesFill(n);
    RunKeepsInv(New(), Pushes(n));
    UpperIsUnwelcome(Run(New(), Pushes(n)), n);
    PushedIsEvictedExactly(Run(New(), Pushes(n)), Upper, 0, 0);
  }

  /**
   A frame that is given up can delay the others: 120 frames due at 15 ms are all due at 1015 ms after an
   earlier upper-layer frame is pushed at 1000 ms and given up.
   */
  lemma EvictedPushDelays(n: nat)
    requires n == MAX_QUEUED_FRAMES
    ensures var b := Run(New(), Pushes(n));
            var r := Push(b, Early, 0, 1000).0;
            && GivesUpPushed(b, Early, 0, 1000) && |r.queue| == |b.queue| == n
            && forall i :: 0 <= i < n ==> b.queue[i].dueMs == 15 && r.queue[i].dueMs == 1015
  {
    var b := Run(New(), Pushes(n));
    PushesFill(n);
    RunKeepsInv(New(), Pushes(n));
    assert Unwelcome(b, Early) && !Rejected(b, Early);
    assert NewTarget(b, 0, 1000) == MIN_TARGET_MS;
    PushedIsEvictedExactly(b, Early, 0, 1000);
  }

  // ----- Accounting -----

  function Spent(b: Buffer): nat {
    b.stats.played + b.stats.droppedLate + b.stats.droppedOverflow + b.stats.droppedReordered + |b.queue|
  }

  /** Frames thrown away by the resets of a run. */
  function Cleared(b: Buffer, ops: seq<Op>): nat {
    if ops == [] then 0
    else
      var pre, last := ops[..|ops| - 1], ops[|ops| - 1];
      Cleared(b, pre) + if last.ResetOp? then |Run(b, pre).queue| else 0
  }

  lemma StepAccounts(b: Buffer, op: Op)
    ensures Step(b, op).stats.accepted - Spent(Step(b, op))
         == b.stats.accepted - Spent(b) + if op.ResetOp? then |b.queue| else 0
  {
    match op
    case PushOp(frame, observed, now) =>
      if !Rejected(b, frame) {
        PushShape(b, frame, observed, now);
      }
    case PollOp(now) => SettledIsSuffix(b.queue, now);
    case ResetOp =>
  }

  /** Every frame offered is played, dropped for a counted reason, still queued, or was cleared by a reset. */
  lemma {:induction false} EveryFrameAccounted(ops: seq<Op>)
    ensures Run(New(), ops).stats.accepted == Spent(Run(New(), ops)) + Cleared(New(), ops)
    decreases |ops|
  {
    if ops != [] {
      var pre := ops[..|ops| - 1];
      EveryFrameAccounted(pre);
      StepAccounts(Run(New(), pre), ops[|ops| - 1]);
    }
  }

  // ----- The delay target -----

  /** Clock readings of a run, resets having none, never run backwards. */
  ghost predicate ClockOk(ops: seq<Op>) {
    forall i, j :: 0 <= i < j < |ops| && !ops[i].ResetOp? && !ops[j].ResetOp? ==> ops[i].at <= ops[j].at
  }

  /** Whether a push, arriving in state `b`, raises the target. */
  predicate Grows(b: Buffer, op: Op) {
    op.PushOp? && op.observed > b.targetMs
  }

  lemma StepDecay(b: Buffer, op: Op)
    requires Inv(b)
    ensures 1000 * (b.targetMs - Step(b, op).targetMs) <= DECAY_MS_PER_S * Max(0, Step(b, op).lastDecayMs - b.lastDecayMs)
    ensures !Grows(b, op) ==> Step(b, op).targetMs <= b.targetMs
    ensures Step(b, op).lastDecayMs == b.lastDecayMs || (op.PushOp? && Step(b, op).lastDecayMs == op.at)
  {
  }

  /**
   Over any run whose pushes do not precede the last decay mark, the target gives back at most
   five milliseconds per second of elapsed time.
   */
  lemma {:induction false} DecaysSlowly(b: Buffer, ops: seq<Op>)
    requires Inv(b) && ClockOk(ops)
    requires forall i :: 0 <= i < |ops| && ops[i].PushOp? ==> b.lastDecayMs <= ops[i].at
    ensures b.lastDecayMs <= Run(b, ops).lastDecayMs
    ensures 1000 * (b.targetMs - Run(b, ops).targetMs) <= DECAY_MS_PER_S * (Run(b, ops).lastDecayMs - b.lastDecayMs)
    ensures Run(b, ops).lastDecayMs == b.lastDecayMs
         || exists i :: 0 <= i < |ops| && ops[i].PushOp? && Run(b, ops).lastDecayMs == ops[i].at
    decreases |ops|
  {
    if ops != [] {
      var n := |ops| - 1;
      var pre, last := ops[..n], ops[n];
      assert forall i :: 0 <= i < n ==> ops[i] == pre[i];
      DecaysSlowly(b, pre);
      RunKeepsInv(b, pre);
      StepDecay(Run(b, pre), last);
      assert last.PushOp? ==> Run(b, pre).lastDecayMs <= last.at;
    }
  }

  // ----- Progress -----

  /** Every deadline is within the maximum delay of the last arrival. */
  ghost predicate DueSoon(b: Buffer) {
    b.queue != [] ==> b.lastArrivalMs.Some? && forall i :: 0 <= i < |b.queue| ==>
      b.queue[i].dueMs <= b.lastArrivalMs.value + MAX_TARGET_MS
  }

  lemma InsertedDue(q: seq<Queued>, frame: EncodedFrame, now: nat, target: nat, bound: nat)
    requires forall i :: 0 <= i < |q| ==> q[i].dueMs <= bound
    requires now + target <= bound
    ensures forall i :: 0 <= i < |Inserted(q, frame, now, target)| ==> Inserted(q, frame, now, target)[i].dueMs <= bound
  {
    var pos := Position(q, frame.ptsUs);
    RaiseBounded(q[pos..], DueAt(q, pos, now + target), bound);
    forall i | 0 <= i < |Inserted(q, frame, now, target)|
      ensures Inserted(q, frame, now, target)[i].dueMs <= bound
    {
      InsertedAt(q, frame, now, target, i);
    }
  }

  lemma PushDueSoon(b: Buffer, frame: EncodedFrame, observed: nat, now: nat)
    requires Inv(b) && DueSoon(b)
    requires b.lastArrivalMs.Some? ==> b.lastArrivalMs.value <= now
    ensures DueSoon(Push(b, frame, observed, now).0)
  {
    if !Rejected(b, frame) {
      PushShape(b, frame, observed, now);
      var full := Inserted(b.queue, frame, now, NewTarget(b, observed, now));
      InsertedDue(b.queue, frame, now, NewTarget(b, observed, now), now + MAX_TARGET_MS);
      CappedFrom(full);
    }
  }

  lemma PollDueSoon(b: Buffer, now: nat)
    requires DueSoon(b)
    ensures DueSoon(Poll(b, now).0) && Poll(b, now).0.lastArrivalMs == b.lastArrivalMs
  {
    PollShape(b, now);
    var n := |b.queue| - |Poll(b, now).0.queue|;
    assert forall i :: 0 <= i < |b.queue| - n ==> b.queue[n..][i] == b.queue[n + i];
  }

  /** The last arrival recorded is the clock of some push of the run. */
  ghost predicate ArrivalFrom(b: Buffer, ops: seq<Op>) {
    b.lastArrivalMs.Some? ==> exists i :: 0 <= i < |ops| && ops[i].PushOp? && ops[i].at == b.lastArrivalMs.value
  }

  lemma ArrivalExtends(b: Buffer, pre: seq<Op>, op: Op)
    requires ArrivalFrom(b, pre)
    ensures ArrivalFrom(b, pre + [op])
  {
    if b.lastArrivalMs.Some? {
      var i :| 0 <= i < |pre| && pre[i].PushOp? && pre[i].at == b.lastArrivalMs.value;
      assert (pre + [op])[i] == pre[i];
    }
  }

  lemma StepArrival(b: Buffer, op: Op)
    ensures Step(b, op).lastArrivalMs == b.lastArrivalMs || Step(b, op).lastArrivalMs == None
         || (op.PushOp? && Step(b, op).lastArrivalMs == Some(op.at))
  {
  }

  lemma {:induction false} RunArrival(ops: seq<Op>)
    ensures ArrivalFrom(Run(New(), ops), ops)
    decreases |ops|
  {
    if ops != [] {
      var n := |ops| - 1;
      var pre, last := ops[..n], ops[n];
      RunArrival(pre);
      ArrivalExtends(Run(New(), pre), pre, last);
      assert pre + [last] == ops;
      StepArrival(Run(New(), pre), last);
      assert last.PushOp? ==> ops[n].at == last.at;
    }
  }

  lemma StepDueSoon(b: Buffer, op: Op)
    requires Inv(b) && DueSoon(b)
    requires op.PushOp? && b.lastArrivalMs.Some? ==> b.lastArrivalMs.value <= op.at
    ensures DueSoon(Step(b, op))
  {
    match op
    case PushOp(frame, observed, now) => PushDueSoon(b, frame, observed, now);
    case PollOp(now) => PollDueSoon(b, now);
    case ResetOp =>
  }

  lemma {:induction false} RunDueSoon(ops: seq<Op>)
    requires ClockOk(ops)
    ensures DueSoon(Run(New(), ops))
    decreases |ops|
  {
    if ops != [] {
      var n := |ops| - 1;
      var pre, last := ops[..n], ops[n];
      assert forall i :: 0 <= i < n ==> ops[i] == pre[i];
      RunDueSoon(pre);
      RunArrival(pre);
      RunKeepsInv(New(), pre);
      StepDueSoon(Run(New(), pre), last);
    }
  }

  /**
   Progress: with a clock that never runs backwards, a poll at least 200 ms after the last push
   takes at least one frame off a nonempty buffer.
   */
  lemma PollMakesProgress(ops: seq<Op>, now: nat)
    requires ClockOk(ops) && Run(New(), ops).queue != []
    requires forall i :: 0 <= i < |ops| && ops[i].PushOp? ==> ops[i].at + MAX_TARGET_MS <= now
    ensures |Poll(Run(New(), ops), now).0.queue| < |Run(New(), ops).queue|
  {
    var b := Run(New(), ops);
    RunDueSoon(ops);
    RunArrival(ops);
    SettledIsSuffix(b.queue, now);
    var r := Settled(b.queue, now);
    if |r| == |b.queue| {
      assert r[0].dueMs <= now;
    }
  }
}
