/** Exactly when a packet arrives, how fast the simulated bottleneck is, and what its counters say. */
module LinkExact {
  import opened Prelude
  import opened LinkSim

  // ----- One packet -----

  /** `ms` whole milliseconds are what it takes to clock out `bytes` at this rate. */
  predicate ClocksOutIn(p: Profile, bytes: nat, ms: nat) {
    ms * Max(p.bandwidthBps, 1) <= 8000 * bytes < (ms + 1) * Max(p.bandwidthBps, 1)
  }

  lemma QuotientIs(n: nat, w: nat, q: nat)
    requires w >= 1 && q * w <= n < (q + 1) * w
    ensures n / w == q
  {
    DivLower(n, q, w);
    var r := n / w;
    if r > q {
      assert r * w >= (q + 1) * w;
      FloorBelow(n, w);
    }
  }

  lemma SerialiseExactly(p: Profile, bytes: nat, ms: nat)
    requires ClocksOutIn(p, bytes, ms)
    ensures Serialise(bytes, p.bandwidthBps) == ms
  {
    assert bytes * 8 * 1000 == 8000 * bytes;
    QuotientIs(8000 * bytes, Max(p.bandwidthBps, 1), ms);
  }

  predicate IsEarliest(q: seq<Packet>, t: nat) {
    && (exists i :: 0 <= i < |q| && q[i].deliverMs == t)
    && (forall i :: 0 <= i < |q| ==> t <= q[i].deliverMs)
  }

  lemma {:induction false} EarliestIs(q: seq<Packet>)
    requires q != []
    ensures IsEarliest(q, Earliest(q))
  {
    if |q| > 1 {
      EarliestIs(q[1..]);
      var i :| 0 <= i < |q[1..]| && q[1..][i].deliverMs == Earliest(q[1..]);
      assert q[i + 1].deliverMs == Earliest(q[1..]);
      assert forall k :: 0 < k < |q| ==> q[k] == q[1..][k - 1];
    }
  }

  /** The bytes still waiting when a packet is offered: none once the bottleneck has caught up. */
  function Waiting(s: Link, now: nat): nat {
    if now >= s.drainsAtMs then 0 else s.queueBytes
  }

  /** When the packet is through the bottleneck, and when it lands. */
  ghost predicate Lands(s: Link, now: nat, d: Draw, ms: nat, r: Link, t: nat) {
    && r.drainsAtMs == Max(now, s.drainsAtMs) + ms
    && if d.reorder && s.inFlight != []
       then forall e: nat :: IsEarliest(s.inFlight, e) ==> t == Max(if e == 0 then 0 else e - 1, now + 1)
       else t == r.drainsAtMs + d.delayMs
  }

  /**
   What `send` does with a packet: it overflows exactly when it does not fit behind the bytes still waiting, is lost
   exactly when the loss model says so, and otherwise starts when those are through, takes the time its size needs
   at the link's rate, and then its drawn delay, unless it is drawn to overtake what is in flight.
   */
  lemma SendExactly(p: Profile, s: Link, payload: Bytes, now: nat, d: Draw, ms: nat)
    requires ClocksOutIn(p, |payload|, ms)
    ensures var (r, answer) := Send(p, s, payload, now, d);
            && (answer.QueueOverflow? <==> Waiting(s, now) + |payload| > p.queueBytes)
            && (answer.Lost? <==> Waiting(s, now) + |payload| <= p.queueBytes && d.lost)
            && r.queueBytes == Waiting(s, now) + (if answer.QueuedFor? then |payload| else 0)
            && r.sequence == s.sequence + 1
            && (if answer.QueuedFor?
                then Lands(s, now, d, ms, r, answer.deliverMs)
                     && r.inFlight == s.inFlight + [Packet(payload, now, answer.deliverMs, s.sequence)]
                else r.drainsAtMs == Max(now, s.drainsAtMs) && r.inFlight == s.inFlight)
  {
    SerialiseExactly(p, |payload|, ms);
    if s.inFlight != [] {
      EarliestIs(s.inFlight);
    }
  }

  // ----- The rate of the bottleneck -----

  lemma DrainsGrow(p: Profile, s: Link, op: Op)
    ensures s.drainsAtMs <= Step(p, s, op).drainsAtMs
  {
  }

  lemma {:induction false} RunDrainsGrow(p: Profile, ops: seq<Op>, n: nat)
    requires n <= |ops|
    ensures Run(p, ops[..n]).drainsAtMs <= Run(p, ops).drainsAtMs
    decreases |ops|
  {
    if n == |ops| {
      assert ops[..n] == ops;
    } else {
      var pre := ops[..|ops| - 1];
      RunDrainsGrow(p, pre, n);
      assert pre[..n] == ops[..n];
      DrainsGrow(p, Run(p, pre), ops[|ops| - 1]);
    }
  }

  /** Operation `i` sent a packet that was accepted, not drawn to overtake, and lands at `t`. */
  predicate SentAt(p: Profile, ops: seq<Op>, i: nat, t: nat) {
    && i < |ops| && ops[i].SendOp? && !ops[i].draw.reorder
    && Send(p, Run(p, ops[..i]), ops[i].payload, ops[i].at, ops[i].draw).1 == QueuedFor(t)
  }

  lemma SentThrough(p: Profile, ops: seq<Op>, i: nat, t: nat, ms: nat)
    requires SentAt(p, ops, i, t) && ClocksOutIn(p, |ops[i].payload|, ms)
    ensures t == Run(p, ops[..i + 1]).drainsAtMs + ops[i].draw.delayMs
    ensures Run(p, ops[..i + 1]).drainsAtMs == Max(ops[i].at, Run(p, ops[..i]).drainsAtMs) + ms
  {
    var s := Run(p, ops[..i]);
    assert ops[..i + 1][..i] == ops[..i];
    assert Run(p, ops[..i + 1]) == Step(p, s, ops[i]);
    SendExactly(p, s, ops[i].payload, ops[i].at, ops[i].draw, ms);
  }

  /**
   The link is no faster than its rate, over every run: a packet needs the time its size takes after it was sent, and
   after every packet sent before it was through.
   */
  lemma LinkIsNoFaster(p: Profile, ops: seq<Op>, i: nat, j: nat, ti: nat, tj: nat, ms: nat)
    requires i < j && SentAt(p, ops, i, ti) && SentAt(p, ops, j, tj) && ClocksOutIn(p, |ops[j].payload|, ms)
    ensures tj >= ops[j].at + ms + ops[j].draw.delayMs
    ensures tj - ops[j].draw.delayMs >= ti - ops[i].draw.delayMs + ms
  {
    SentThrough(p, ops, j, tj, ms);
    var mine := Serialise(|ops[i].payload|, p.bandwidthBps);
    ClockOut(p, |ops[i].payload|);
    SentThrough(p, ops, i, ti, mine);
    RunDrainsGrow(p, ops[..j], i + 1);
    assert ops[..j][..i + 1] == ops[..i + 1];
  }

  lemma ClockOut(p: Profile, bytes: nat)
    ensures ClocksOutIn(p, bytes, Serialise(bytes, p.bandwidthBps))
  {
    var w := Max(p.bandwidthBps, 1);
    assert bytes * 8 * 1000 == 8000 * bytes;
    FloorBelow(8000 * bytes, w);
    FloorAbove(8000 * bytes, w);
  }

  lemma FloorAbove(n: nat, w: nat)
    requires w >= 1
    ensures n < (n / w + 1) * w
  {
  }

  // ----- Counters -----

  predicate AnswersAs(p: Profile, s: Link, op: Op, overflow: bool) {
    && op.SendOp?
    && var r := Send(p, s, op.payload, op.at, op.draw).1; if overflow then r.QueueOverflow? else r.Lost?
  }

  /** How many sends of a run were answered with an overflow, or with a loss. */
  function Answered(p: Profile, ops: seq<Op>, overflow: bool): nat {
    if ops == [] then 0
    else
      var pre := ops[..|ops| - 1];
      Answered(p, pre, overflow) + if AnswersAs(p, Run(p, pre), ops[|ops| - 1], overflow) then 1 else 0
  }

  function Offers(ops: seq<Op>): nat {
    if ops == [] then 0 else Offers(ops[..|ops| - 1]) + if ops[|ops| - 1].SendOp? then 1 else 0
  }

  function OfferedBytes(ops: seq<Op>): nat {
    if ops == [] then 0
    else OfferedBytes(ops[..|ops| - 1]) + if ops[|ops| - 1].SendOp? then |ops[|ops| - 1].payload| else 0
  }

  function Latency(x: Packet): nat {
    if x.deliverMs < x.sentMs then 0 else x.deliverMs - x.sentMs
  }

  function TotalLatency(q: seq<Packet>): nat {
    if q == [] then 0 else TotalLatency(q[..|q| - 1]) + Latency(q[|q| - 1])
  }

  function LargestLatency(q: seq<Packet>): nat {
    if q == [] then 0 else Max(LargestLatency(q[..|q| - 1]), Latency(q[|q| - 1]))
  }

  lemma LatencySnoc(q: seq<Packet>, x: Packet)
    ensures TotalLatency(q + [x]) == TotalLatency(q) + Latency(x)
    ensures LargestLatency(q + [x]) == Max(LargestLatency(q), Latency(x))
  {
    assert (q + [x])[..|q|] == q;
  }

  lemma StepStats(p: Profile, s: Link, op: Op)
    ensures var r, taken := Step(p, s, op).stats, TakenBy(p, s, op);
            && r.sent == s.stats.sent + (if op.SendOp? then 1 else 0)
            && r.bytesSent == s.stats.bytesSent + (if op.SendOp? then |op.payload| else 0)
            && r.overflowed == s.stats.overflowed + (if AnswersAs(p, s, op, true) then 1 else 0)
            && r.lost == s.stats.lost + (if AnswersAs(p, s, op, false) then 1 else 0)
            && (if taken == [] then r.latencySumMs == s.stats.latencySumMs && r.maxLatencyMs == s.stats.maxLatencyMs
                else |taken| == 1 && r.latencySumMs == s.stats.latencySumMs + Latency(taken[0])
                     && r.maxLatencyMs == Max(s.stats.maxLatencyMs, Latency(taken[0])))
  {
  }

  /** The counters of every run: packets and bytes offered, losses, overflows, and the latencies of what was accepted. */
  lemma {:induction false} CountersExactly(p: Profile, ops: seq<Op>)
    ensures var stats := Run(p, ops).stats;
            && stats.sent == Offers(ops) && stats.bytesSent == OfferedBytes(ops)
            && stats.overflowed == Answered(p, ops, true) && stats.lost == Answered(p, ops, false)
            && stats.latencySumMs == TotalLatency(Taken(p, ops)) && stats.maxLatencyMs == LargestLatency(Taken(p, ops))
    decreases |ops|
  {
    if ops != [] {
      var pre, last := ops[..|ops| - 1], ops[|ops| - 1];
      CountersExactly(p, pre);
      StepStats(p, Run(p, pre), last);
      var taken := TakenBy(p, Run(p, pre), last);
      if taken == [] {
        assert Taken(p, pre) + [] == Taken(p, pre);
      } else {
        LatencySnoc(Taken(p, pre), taken[0]);
        assert taken == [taken[0]];
      }
    }
  }

  // ----- Reordering -----

  /** Packet `i` comes out after one that was sent later. */
  predicate Overtaken(q: seq<Packet>, i: nat)
    requires i < |q|
  {
    exists j :: 0 <= j < i && q[j].sequence > q[i].sequence
  }

  function OvertakenCount(q: seq<Packet>): nat {
    if q == [] then 0 else OvertakenCount(q[..|q| - 1]) + if Overtaken(q, |q| - 1) then 1 else 0
  }

  lemma {:induction false} WatermarkIsMax(q: seq<Packet>)
    ensures Watermark(None, q).None? <==> q == []
    ensures q != [] ==> (forall j :: 0 <= j < |q| ==> q[j].sequence <= Watermark(None, q).value)
                        && exists j :: 0 <= j < |q| && q[j].sequence == Watermark(None, q).value
    decreases |q|
  {
    if q != [] {
      WatermarkIsMax(q[..|q| - 1]);
      if |q| > 1 && Watermark(None, q[..|q| - 1]).value > q[|q| - 1].sequence {
        var j :| 0 <= j < |q| - 1 && q[..|q| - 1][j].sequence == Watermark(None, q[..|q| - 1]).value;
        assert q[j].sequence == Watermark(None, q).value;
      } else {
        assert q[|q| - 1].sequence == Watermark(None, q).value;
      }
    }
  }

  lemma {:induction false} BehindIsOvertaken(q: seq<Packet>)
    ensures Behind(None, q) == OvertakenCount(q)
    decreases |q|
  {
    if q != [] {
      var pre := q[..|q| - 1];
      BehindIsOvertaken(pre);
      WatermarkIsMax(pre);
      if pre != [] {
        var top :| 0 <= top < |pre| && pre[top].sequence == Watermark(None, pre).value;
        assert q[top] == pre[top];
      }
      assert forall j :: 0 <= j < |pre| ==> q[j] == pre[j];
    }
  }

  lemma {:induction false} BookkeepingAdds(last: Option<nat>, a: seq<Packet>, b: seq<Packet>)
    ensures Watermark(last, a + b) == Watermark(Watermark(last, a), b)
    ensures Behind(last, a + b) == Behind(last, a) + Behind(Watermark(last, a), b)
    decreases |b|
  {
    if b == [] {
      assert a + b == a;
    } else {
      var n := |b| - 1;
      BookkeepingAdds(last, a, b[..n]);
      assert (a + b)[..|a + b| - 1] == a + b[..n];
    }
  }

  lemma StepReorders(p: Profile, s: Link, op: Op)
    ensures Step(p, s, op).lastDelivered == Watermark(s.lastDelivered, OutOf(s, op))
    ensures Step(p, s, op).stats.reordered == s.stats.reordered + Behind(s.lastDelivered, OutOf(s, op))
  {
  }

  /** Over every run the link counts as reordered exactly the packets handed out after one that was sent later. */
  lemma {:induction false} ReorderedExactly(p: Profile, ops: seq<Op>)
    ensures Run(p, ops).stats.reordered == OvertakenCount(Handed(p, ops))
    ensures Run(p, ops).lastDelivered == Watermark(None, Handed(p, ops))
    decreases |ops|
  {
    BehindIsOvertaken(Handed(p, ops));
    if ops != [] {
      var pre := ops[..|ops| - 1];
      var s := Run(p, pre);
      ReorderedExactly(p, pre);
      BehindIsOvertaken(Handed(p, pre));
      StepReorders(p, s, ops[|ops| - 1]);
      BookkeepingAdds(None, Handed(p, pre), OutOf(s, ops[|ops| - 1]));
    }
  }
}
