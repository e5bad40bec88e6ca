/**
 The simulated link: a bottleneck queue, then a flight time, on a caller-supplied clock.

 Every random choice is an argument: whether the loss model drops the packet, its propagation
 delay after jitter and clamping (at least 1 ms), and whether the reorder roll succeeds.
 */
module LinkSim {
  import opened Prelude

  datatype Packet = Packet(payload: Bytes, sentMs: nat, deliverMs: nat, sequence: nat)

  datatype Delivery = QueuedFor(deliverMs: nat) | Lost | QueueOverflow

  datatype Profile = Profile(queueBytes: nat, bandwidthBps: nat)

  datatype Draw = Draw(lost: bool, delayMs: nat, reorder: bool)

  datatype Stats = Stats(
    sent: nat, delivered: nat, lost: nat, overflowed: nat, reordered: nat,
    bytesSent: nat, latencySumMs: nat, maxLatencyMs: nat)

  datatype Link = Link(
    inFlight: seq<Packet>, queueBytes: nat, drainsAtMs: nat, sequence: nat,
    lastDelivered: Option<nat>, stats: Stats)

  function New(): Link {
    Link([], 0, 0, 0, None, Stats(0, 0, 0, 0, 0, 0, 0, 0))
  }

  /** How long the bottleneck takes to clock out `bytes`. */
  function Serialise(bytes: nat, bandwidthBps: nat): nat {
    bytes * 8 * 1000 / Max(bandwidthBps, 1)
  }

  // ----- Sending -----

  function Drain(s: Link, now: nat): Link {
    if now >= s.drainsAtMs then s.(queueBytes := 0, drainsAtMs := now) else s
  }

  /** The earliest delivery among the packets in flight. */
  function Earliest(q: seq<Packet>): nat
    requires q != []
  {
    if |q| == 1 then q[0].deliverMs else Min(q[0].deliverMs, Earliest(q[1..]))
  }

  function DeliverAt(q: seq<Packet>, drains: nat, now: nat, d: Draw): nat {
    if d.reorder && q != [] then Max(SatSub(Earliest(q), 1), now + 1) else drains + d.delayMs
  }

  /** The packet enters the queue and takes off. */
  function Launch(p: Profile, s: Link, payload: Bytes, now: nat, sequence: nat, d: Draw): (Link, Delivery) {
    var drains := Max(now, s.drainsAtMs) + Serialise(|payload|, p.bandwidthBps);
    var at := DeliverAt(s.inFlight, drains, now, d);
    var latency := SatSub(at, now);
    (s.(inFlight := s.inFlight + [Packet(payload, now, at, sequence)],
        queueBytes := s.queueBytes + |payload|, drainsAtMs := drains,
        stats := s.stats.(delivered := s.stats.delivered + 1,
                          latencySumMs := s.stats.latencySumMs + latency,
                          maxLatencyMs := Max(s.stats.maxLatencyMs, latency))),
     QueuedFor(at))
  }

  function Offered(s: Link, payload: Bytes, now: nat): Link {
    Drain(s.(sequence := s.sequence + 1,
             stats := s.stats.(sent := s.stats.sent + 1, bytesSent := s.stats.bytesSent + |payload|)), now)
  }

  /** `send`: drain, then overflow, then loss, then launch. */
  function Send(p: Profile, s: Link, payload: Bytes, now: nat, d: Draw): (Link, Delivery) {
    var o := Offered(s, payload, now);
    if o.queueBytes + |payload| > p.queueBytes then
      (o.(stats := o.stats.(overflowed := o.stats.overflowed + 1)), QueueOverflow)
    else if d.lost then (o.(stats := o.stats.(lost := o.stats.lost + 1)), Lost)
    else Launch(p, o, payload, now, s.sequence, d)
  }

  // ----- Polling -----

  function Due(q: seq<Packet>, now: nat): seq<Packet> {
    if q == [] then []
    else (if q[0].deliverMs <= now then [q[0]] else []) + Due(q[1..], now)
  }

  function Flying(q: seq<Packet>, now: nat): seq<Packet> {
    if q == [] then []
    else (if q[0].deliverMs <= now then [] else [q[0]]) + Flying(q[1..], now)
  }

  /** Delivery order: by time, then by send order. */
  predicate NotAfter(a: Packet, b: Packet) {
    a.deliverMs < b.deliverMs || (a.deliverMs == b.deliverMs && a.sequence <= b.sequence)
  }

  function Insert(x: Packet, q: seq<Packet>): seq<Packet> {
    if q == [] || NotAfter(x, q[0]) then [x] + q else [q[0]] + Insert(x, q[1..])
  }

  /** `sort_by_key` on (delivery time, sequence). */
  function Sorted(q: seq<Packet>): seq<Packet> {
    if q == [] then [] else Insert(q[0], Sorted(q[1..]))
  }

  function Later(last: Option<nat>, sequence: nat): Option<nat> {
    Some(if last.Some? then Max(last.value, sequence) else sequence)
  }

  /** The delivery bookkeeping of `poll`: the highest sequence handed out, and how many fell behind it. */
  function Watermark(last: Option<nat>, q: seq<Packet>): Option<nat> {
    if q == [] then last else Later(Watermark(last, q[..|q| - 1]), q[|q| - 1].sequence)
  }

  function Behind(last: Option<nat>, q: seq<Packet>): nat {
    if q == [] then 0
    else
      var before := Watermark(last, q[..|q| - 1]);
      Behind(last, q[..|q| - 1]) + if before.Some? && q[|q| - 1].sequence < before.value then 1 else 0
  }

  function Poll(s: Link, now: nat): (Link, seq<Packet>) {
    var out := Sorted(Due(s.inFlight, now));
    (s.(inFlight := Flying(s.inFlight, now), lastDelivered := Watermark(s.lastDelivered, out),
        stats := s.stats.(reordered := s.stats.reordered + Behind(s.lastDelivered, out))),
     out)
  }

  /** The link as the program runs it. */
  class Simulator {
    const profile: Profile
    var inFlight: seq<Packet>
    var queueBytes: nat
    var drainsAtMs: nat
    var sequence: nat
    var lastDelivered: Option<nat>
    var stats: Stats

    ghost function View(): Link
      reads this
    {
      Link(inFlight, queueBytes, drainsAtMs, sequence, lastDelivered, stats)
    }

    constructor (profile: Profile)
      ensures View() == New() && this.profile == profile
    {
      this.profile := profile;
      inFlight, queueBytes, drainsAtMs, sequence, lastDelivered := [], 0, 0, 0, None;
      stats := Stats(0, 0, 0, 0, 0, 0, 0, 0);
    }

    method DrainQueue(now: nat)
      modifies this`queueBytes, this`drainsAtMs
      ensures View() == Drain(old(View()), now)
    {
      if now >= drainsAtMs {
        queueBytes := 0;
        drainsAtMs := now;
      }
    }

    method SendPacket(payload: Bytes, now: nat, d: Draw) returns (r: Delivery)
      modifies this
      ensures (View(), r) == Send(profile, old(View()), payload, now, d)
    {
      stats := stats.(sent := stats.sent + 1, bytesSent := stats.bytesSent + |payload|);
      var number := sequence;
      sequence := sequence + 1;
      DrainQueue(now);
      if queueBytes + |payload| > profile.queueBytes {
        stats := stats.(overflowed := stats.overflowed + 1);
        return QueueOverflow;
      }
      if d.lost {
        stats := stats.(lost := stats.lost + 1);
        return Lost;
      }
      var start := Max(now, drainsAtMs);
      drainsAtMs := start + Serialise(|payload|, profile.bandwidthBps);
      queueBytes := queueBytes + |payload|;
      var at := drainsAtMs + d.delayMs;
      if d.reorder && inFlight != [] {
        at := Max(SatSub(Earliest(inFlight), 1), now + 1);
      }
      var latency := SatSub(at, now);
      stats := stats.(delivered := stats.delivered + 1, latencySumMs := stats.latencySumMs + latency,
                      maxLatencyMs := Max(stats.maxLatencyMs, latency));
      inFlight := inFlight + [Packet(payload, now, at, number)];
      return QueuedFor(at);
    }

    /** The first loop of `poll`: what is due, leaving what is not. */
    method TakeDue(now: nat) returns (due: seq<Packet>)
      modifies this`inFlight
      ensures due == Due(old(inFlight), now) && inFlight == Flying(old(inFlight), now)
    {
      due := [];
      var flying: seq<Packet> := [];
      while inFlight != []
        invariant due + Due(inFlight, now) == Due(old(inFlight), now)
        invariant flying + Flying(inFlight, now) == Flying(old(inFlight), now)
        decreases |inFlight|
      {
        var packet := inFlight[0];
        inFlight := inFlight[1..];
        if packet.deliverMs <= now {
          assert due + ([packet] + Due(inFlight, now)) == due + [packet] + Due(inFlight, now);
          assert [] + Flying(inFlight, now) == Flying(inFlight, now);
          due := due + [packet];
        } else {
          assert flying + ([packet] + Flying(inFlight, now)) == flying + [packet] + Flying(inFlight, now);
          assert [] + Due(inFlight, now) == Due(inFlight, now);
          flying := flying + [packet];
        }
      }
      assert due + [] == due && flying + [] == flying;
      inFlight := flying;
    }

    method PollDue(now: nat) returns (out: seq<Packet>)
      modifies this
      ensures (View(), out) == Poll(old(View()), now)
    {
      var due := TakeDue(now);
      out := Sorted(due);
      CountReordered(out);
    }

    method CountReordered(out: seq<Packet>)
      modifies this`lastDelivered, this`stats
      ensures lastDelivered == Watermark(old(lastDelivered), out)
      ensures stats == old(stats).(reordered := old(stats).reordered + Behind(old(lastDelivered), out))
    {
      for i := 0 to |out|
        invariant lastDelivered == Watermark(old(lastDelivered), out[..i])
        invariant stats == old(stats).(reordered := old(stats).reordered + Behind(old(lastDelivered), out[..i]))
      {
        assert out[..i + 1][..i] == out[..i];
        if lastDelivered.Some? && out[i].sequence < lastDelivered.value {
          stats := stats.(reordered := stats.reordered + 1);
        }
        lastDelivered := Later(lastDelivered, out[i].sequence);
      }
      assert out[..|out|] == out;
    }
  }

  // ----- Runs -----

  datatype Op = SendOp(payload: Bytes, at: nat, draw: Draw) | PollOp(at: nat)

  function Step(p: Profile, s: Link, op: Op): Link {
    match op
    case SendOp(payload, now, d) => Send(p, s, payload, now, d).0
    case PollOp(now) => Poll(s, now).0
  }

  function Run(p: Profile, ops: seq<Op>): Link {
    if ops == [] then New() else Step(p, Run(p, ops[..|ops| - 1]), ops[|ops| - 1])
  }

  function OutOf(s: Link, op: Op): seq<Packet> {
    if op.PollOp? then Poll(s, op.at).1 else []
  }

  /** Everything handed out during a run, in order. */
  function Handed(p: Profile, ops: seq<Op>): seq<Packet> {
    if ops == [] then []
    else Handed(p, ops[..|ops| - 1]) + OutOf(Run(p, ops[..|ops| - 1]), ops[|ops| - 1])
  }

  function TakenBy(p: Profile, s: Link, op: Op): seq<Packet> {
    if op.SendOp? && Send(p, s, op.payload, op.at, op.draw).1.QueuedFor?
    then [Packet(op.payload, op.at, Send(p, s, op.payload, op.at, op.draw).1.deliverMs, s.sequence)]
    else []
  }

  /** Every packet the link accepted during a run, as the caller was told about it. */
  function Taken(p: Profile, ops: seq<Op>): seq<Packet> {
    if ops == [] then []
    else Taken(p, ops[..|ops| - 1]) + TakenBy(p, Run(p, ops[..|ops| - 1]), ops[|ops| - 1])
  }

  // ----- Conservation -----

  lemma {:induction false} SplitKeepsAll(q: seq<Packet>, now: nat)
    ensures multiset(Due(q, now)) + multiset(Flying(q, now)) == multiset(q)
  {
    if q != [] {
      SplitKeepsAll(q[1..], now);
      assert q == [q[0]] + q[1..];
    }
  }

  lemma {:induction false} InsertKeepsAll(x: Packet, q: seq<Packet>)
    ensures multiset(Insert(x, q)) == multiset{x} + multiset(q)
  {
    if q != [] && !NotAfter(x, q[0]) {
      InsertKeepsAll(x, q[1..]);
      assert q == [q[0]] + q[1..];
    }
  }

  lemma {:induction false} SortKeepsAll(q: seq<Packet>)
    ensures multiset(Sorted(q)) == multiset(q)
  {
    if q != [] {
      SortKeepsAll(q[1..]);
      InsertKeepsAll(q[0], Sorted(q[1..]));
      assert q == [q[0]] + q[1..];
    }
  }

  lemma PollKeepsAll(s: Link, now: nat)
    ensures multiset(Poll(s, now).1) + multiset(Poll(s, now).0.inFlight) == multiset(s.inFlight)
  {
    SplitKeepsAll(s.inFlight, now);
    SortKeepsAll(Due(s.inFlight, now));
  }

  lemma StepKeepsAll(p: Profile, s: Link, op: Op)
    ensures multiset(s.inFlight) + multiset(TakenBy(p, s, op))
         == multiset(OutOf(s, op)) + multiset(Step(p, s, op).inFlight)
  {
    if op.PollOp? {
      PollKeepsAll(s, op.at);
    }
  }

  function Fates(s: Link): nat {
    s.stats.delivered + s.stats.lost + s.stats.overflowed
  }

  lemma StepCounts(p: Profile, s: Link, op: Op)
    ensures var s' := Step(p, s, op);
            && s'.stats.sent - Fates(s') == s.stats.sent - Fates(s)
            && s'.stats.delivered == s.stats.delivered + |TakenBy(p, s, op)|
  {
  }

  lemma {:induction false} RunCounts(p: Profile, ops: seq<Op>)
    ensures Run(p, ops).stats.sent == Fates(Run(p, ops))
    ensures Run(p, ops).stats.delivered == |Taken(p, ops)|
    decreases |ops|
  {
    if ops != [] {
      RunCounts(p, ops[..|ops| - 1]);
      StepCounts(p, Run(p, ops[..|ops| - 1]), ops[|ops| - 1]);
    }
  }

  lemma Regroup(taken: multiset<Packet>, more: multiset<Packet>, handed: multiset<Packet>, flying: multiset<Packet>,
                out: multiset<Packet>, left: multiset<Packet>)
    requires taken == handed + flying && flying + more == out + left
    ensures taken + more == handed + out + left
  {
    assert taken + more == handed + (flying + more);
  }

  /**
   Conservation over every run: each packet offered was delivered, lost or overflowed, and each
   accepted packet is in flight or has been handed out exactly once, unchanged.
   */
  lemma {:induction false} EveryPacketAccounted(p: Profile, ops: seq<Op>)
    ensures Run(p, ops).stats.sent == Fates(Run(p, ops))
    ensures Run(p, ops).stats.delivered == |Taken(p, ops)|
    ensures multiset(Taken(p, ops)) == multiset(Handed(p, ops)) + multiset(Run(p, ops).inFlight)
    decreases |ops|
  {
    RunCounts(p, ops);
    if ops != [] {
      var pre, last := ops[..|ops| - 1], ops[|ops| - 1];
      EveryPacketAccounted(p, pre);
      var s := Run(p, pre);
      StepKeepsAll(p, s, last);
      Regroup(multiset(Taken(p, pre)), multiset(TakenBy(p, s, last)), multiset(Handed(p, pre)),
              multiset(s.inFlight), multiset(OutOf(s, last)), multiset(Step(p, s, last).inFlight));
    }
  }

  // ----- Timing -----

  lemma {:induction false} DueAreDue(q: seq<Packet>, now: nat, x: Packet)
    ensures x in multiset(Due(q, now)) ==> x in q && x.deliverMs <= now
    ensures x in multiset(Flying(q, now)) ==> x in q && x.deliverMs > now
  {
    if q != [] {
      DueAreDue(q[1..], now, x);
    }
  }

  /** Whatever a poll hands out was due, and whatever it leaves was not. */
  lemma PollIsPunctual(s: Link, now: nat, x: Packet)
    ensures x in Poll(s, now).1 ==> x in s.inFlight && x.deliverMs <= now
    ensures x in Poll(s, now).0.inFlight ==> x in s.inFlight && x.deliverMs > now
  {
    SortKeepsAll(Due(s.inFlight, now));
    assert x in Poll(s, now).1 ==> x in multiset(Poll(s, now).1);
    assert x in Poll(s, now).0.inFlight ==> x in multiset(Poll(s, now).0.inFlight);
    DueAreDue(s.inFlight, now, x);
  }

  ghost predicate InDeliveryOrder(q: seq<Packet>) {
    forall i, j :: 0 <= i < j < |q| ==> NotAfter(q[i], q[j])
  }

  lemma {:induction false} InsertInOrder(x: Packet, q: seq<Packet>)
    requires InDeliveryOrder(q)
    ensures InDeliveryOrder(Insert(x, q))
  {
    if q != [] && !NotAfter(x, q[0]) {
      InsertInOrder(x, q[1..]);
      InsertKeepsAll(x, q[1..]);
      var rest := Insert(x, q[1..]);
      forall j | 0 <= j < |rest|
        ensures NotAfter(q[0], rest[j])
      {
        assert rest[j] in multiset(rest);
      }
    }
  }

  lemma {:induction false} SortIsInOrder(q: seq<Packet>)
    ensures InDeliveryOrder(Sorted(q))
  {
    if q != [] {
      SortIsInOrder(q[1..]);
      InsertInOrder(q[0], Sorted(q[1..]));
    }
  }

  /** The drawn delay is clamped to at least one millisecond. */
  ghost predicate Clamped(ops: seq<Op>) {
    forall i :: 0 <= i < |ops| && ops[i].SendOp? ==> ops[i].draw.delayMs >= 1
  }

  ghost predicate AllTakeTime(q: seq<Packet>) {
    forall i :: 0 <= i < |q| ==> q[i].sentMs < q[i].deliverMs
  }

  lemma StepTakesTime(p: Profile, s: Link, op: Op)
    requires AllTakeTime(s.inFlight) && (op.SendOp? ==> op.draw.delayMs >= 1)
    ensures AllTakeTime(Step(p, s, op).inFlight)
  {
    if op.PollOp? {
      var q := Poll(s, op.at).0.inFlight;
      forall i | 0 <= i < |q|
        ensures q[i] in s.inFlight
      {
        PollIsPunctual(s, op.at, q[i]);
      }
    }
  }

  lemma {:induction false} FlightsTakeTime(p: Profile, ops: seq<Op>)
    requires Clamped(ops)
    ensures AllTakeTime(Run(p, ops).inFlight)
    decreases |ops|
  {
    if ops != [] {
      FlightsTakeTime(p, ops[..|ops| - 1]);
      StepTakesTime(p, Run(p, ops[..|ops| - 1]), ops[|ops| - 1]);
    }
  }

  /**
   On any clock, a poll hands out packets the link accepted, each after the time it was sent and not
   before the time it was promised for, in delivery order.
   */
  lemma PollDelivers(p: Profile, ops: seq<Op>, now: nat, x: Packet)
    requires Clamped(ops) && x in Poll(Run(p, ops), now).1
    ensures x in Taken(p, ops) && x.sentMs < x.deliverMs <= now
    ensures InDeliveryOrder(Poll(Run(p, ops), now).1)
  {
    PollIsPunctual(Run(p, ops), now, x);
    FlightsTakeTime(p, ops);
    EveryPacketAccounted(p, ops);
    assert x in multiset(Run(p, ops).inFlight);
    assert x in multiset(Taken(p, ops));
    SortIsInOrder(Due(Run(p, ops).inFlight, now));
  }

  lemma {:induction false} EarliestBound(q: seq<Packet>)
    requires q != []
    ensures forall i :: 0 <= i < |q| ==> Earliest(q) <= q[i].deliverMs
  {
    if |q| > 1 {
      EarliestBound(q[1..]);
      assert forall i :: 1 <= i < |q| ==> q[i] == q[1..][i - 1];
    }
  }

  /** The time to clock out a full queue. */
  function QueueDelay(p: Profile): nat {
    Serialise(p.queueBytes, p.bandwidthBps)
  }

  lemma SerialiseAdds(a: nat, b: nat, bw: nat)
    ensures Serialise(a, bw) + Serialise(b, bw) <= Serialise(a + b, bw)
  {
    var w := Max(bw, 1);
    FloorsAdd(a * 8000, b * 8000, w);
    assert a * 8 * 1000 == a * 8000 && b * 8 * 1000 == b * 8000 && (a + b) * 8 * 1000 == a * 8000 + b * 8000;
  }

  lemma FloorsAdd(x: nat, y: nat, w: nat)
    requires w >= 1
    ensures x / w + y / w <= (x + y) / w
  {
    FloorBelow(x, w);
    FloorBelow(y, w);
    PartsFit(x, y, w, x / w, y / w);
    DivLower(x + y, x / w + y / w, w);
  }

  lemma FloorBelow(x: nat, w: nat)
    requires w >= 1
    ensures x / w * w <= x
  {
  }

  lemma PartsFit(x: nat, y: nat, w: nat, p: nat, q: nat)
    requires p * w <= x && q * w <= y
    ensures (p + q) * w <= x + y
  {
    assert (p + q) * w == p * w + q * w;
  }

  lemma DivLower(n: nat, q: nat, w: nat)
    requires w >= 1 && q * w <= n
    ensures q <= n / w
  {
    var k := n / w;
    assert n < (k + 1) * w;
    assert q >= k + 1 ==> q * w >= (k + 1) * w;
  }

  lemma SerialiseMonotone(a: nat, b: nat, bw: nat)
    requires a <= b
    ensures Serialise(a, bw) <= Serialise(b, bw)
  {
    SerialiseAdds(a, b - a, bw);
  }

  /** The bottleneck never holds more work than its queue, and flights never exceed the bound. */
  ghost predicate OnTime(p: Profile, s: Link, clock: nat, bound: nat) {
    && s.queueBytes <= p.queueBytes
    && s.drainsAtMs <= clock + Serialise(s.queueBytes, p.bandwidthBps)
    && forall i :: 0 <= i < |s.inFlight| ==>
         && s.inFlight[i].sentMs <= clock && s.inFlight[i].sentMs < s.inFlight[i].deliverMs
         && s.inFlight[i].deliverMs <= s.inFlight[i].sentMs + bound
  }

  lemma OfferedOnTime(p: Profile, s: Link, payload: Bytes, clock: nat, now: nat, bound: nat)
    requires OnTime(p, s, clock, bound) && clock <= now
    ensures OnTime(p, Offered(s, payload, now), now, bound)
    ensures now <= Offered(s, payload, now).drainsAtMs
  {
    assert Serialise(0, p.bandwidthBps) == 0;
  }

  lemma LaunchOnTime(p: Profile, s: Link, payload: Bytes, now: nat, sequence: nat, d: Draw, maxDelay: nat)
    requires OnTime(p, s, now, QueueDelay(p) + maxDelay) && now <= s.drainsAtMs && 1 <= d.delayMs <= maxDelay
    requires s.queueBytes + |payload| <= p.queueBytes
    ensures OnTime(p, Launch(p, s, payload, now, sequence, d).0, now, QueueDelay(p) + maxDelay)
    ensures now < Launch(p, s, payload, now, sequence, d).1.deliverMs <= now + QueueDelay(p) + maxDelay
  {
    SerialiseAdds(s.queueBytes, |payload|, p.bandwidthBps);
    SerialiseMonotone(s.queueBytes + |payload|, p.queueBytes, p.bandwidthBps);
    if s.inFlight != [] {
      EarliestBound(s.inFlight);
      assert Earliest(s.inFlight) <= s.inFlight[0].deliverMs;
    }
  }

  lemma SendOnTime(p: Profile, s: Link, payload: Bytes, clock: nat, now: nat, d: Draw, maxDelay: nat)
    requires OnTime(p, s, clock, QueueDelay(p) + maxDelay) && clock <= now && 1 <= d.delayMs <= maxDelay
    ensures OnTime(p, Send(p, s, payload, now, d).0, now, QueueDelay(p) + maxDelay)
    ensures var r := Send(p, s, payload, now, d).1;
            r.QueuedFor? ==> now < r.deliverMs <= now + QueueDelay(p) + maxDelay
  {
    OfferedOnTime(p, s, payload, clock, now, QueueDelay(p) + maxDelay);
    var o := Offered(s, payload, now);
    if o.queueBytes + |payload| <= p.queueBytes {
      LaunchOnTime(p, o, payload, now, s.sequence, d, maxDelay);
    }
  }

  lemma PollOnTime(p: Profile, s: Link, clock: nat, now: nat, bound: nat)
    requires OnTime(p, s, clock, bound)
    ensures OnTime(p, Poll(s, now).0, clock, bound)
  {
    var q := Poll(s, now).0.inFlight;
    forall i | 0 <= i < |q|
      ensures q[i] in s.inFlight
    {
      PollIsPunctual(s, now, q[i]);
    }
  }

  /** Send times never run backwards, and no drawn delay exceeds `maxDelay`. */
  ghost predicate Steady(ops: seq<Op>, maxDelay: nat) {
    && (forall i, j :: 0 <= i < j < |ops| && ops[i].SendOp? && ops[j].SendOp? ==> ops[i].at <= ops[j].at)
    && (forall i :: 0 <= i < |ops| && ops[i].SendOp? ==> 1 <= ops[i].draw.delayMs <= maxDelay)
  }

  function LastSend(ops: seq<Op>): nat {
    if ops == [] then 0
    else if ops[|ops| - 1].SendOp? then ops[|ops| - 1].at
    else LastSend(ops[..|ops| - 1])
  }

  lemma {:induction false} LastSendIsOne(ops: seq<Op>)
    ensures LastSend(ops) == 0 || exists i :: 0 <= i < |ops| && ops[i].SendOp? && ops[i].at == LastSend(ops)
    decreases |ops|
  {
    if ops != [] {
      var pre := ops[..|ops| - 1];
      LastSendIsOne(pre);
      if i :| 0 <= i < |pre| && pre[i].SendOp? && pre[i].at == LastSend(pre) {
        assert ops[i] == pre[i];
      }
    }
  }

  lemma SteadyPrefix(ops: seq<Op>, maxDelay: nat)
    requires ops != [] && Steady(ops, maxDelay)
    ensures Steady(ops[..|ops| - 1], maxDelay)
    ensures ops[|ops| - 1].SendOp? ==> LastSend(ops[..|ops| - 1]) <= ops[|ops| - 1].at
  {
    var pre := ops[..|ops| - 1];
    assert forall i :: 0 <= i < |pre| ==> pre[i] == ops[i];
    LastSendIsOne(pre);
  }

  lemma {:induction false} RunOnTime(p: Profile, ops: seq<Op>, maxDelay: nat)
    requires Steady(ops, maxDelay)
    ensures OnTime(p, Run(p, ops), LastSend(ops), QueueDelay(p) + maxDelay)
    decreases |ops|
  {
    if ops != [] {
      var pre, last := ops[..|ops| - 1], ops[|ops| - 1];
      SteadyPrefix(ops, maxDelay);
      RunOnTime(p, pre, maxDelay);
      match last
      case SendOp(payload, now, d) => SendOnTime(p, Run(p, pre), payload, LastSend(pre), now, d, maxDelay);
      case PollOp(now) => PollOnTime(p, Run(p, pre), LastSend(pre), now, QueueDelay(p) + maxDelay);
    }
  }

  /**
   The queueing bound: with a clock that does not run backwards, every accepted packet arrives after
   it was sent and no later than the time to drain a full queue plus the largest drawn delay.
   */
  lemma DelayIsBounded(p: Profile, ops: seq<Op>, maxDelay: nat, i: nat)
    requires Steady(ops, maxDelay) && i < |ops| && ops[i].SendOp?
    ensures var r := Send(p, Run(p, ops[..i]), ops[i].payload, ops[i].at, ops[i].draw).1;
            r.QueuedFor? ==>
              ops[i].at < r.deliverMs <= ops[i].at + 8000 * p.queueBytes / Max(p.bandwidthBps, 1) + maxDelay
  {
    var upto := ops[..i + 1];
    assert forall k :: 0 <= k <= i ==> upto[k] == ops[k];
    SteadyPrefix(upto, maxDelay);
    assert upto[..|upto| - 1] == ops[..i];
    RunOnTime(p, ops[..i], maxDelay);
    SendOnTime(p, Run(p, ops[..i]), ops[i].payload, LastSend(ops[..i]), ops[i].at, ops[i].draw, maxDelay);
    assert p.queueBytes * 8 * 1000 == 8000 * p.queueBytes;
  }

  // ----- First in, first out -----

  /** Packets in flight are in send order and will land in that order. */
  ghost predicate InOrder(q: seq<Packet>) {
    forall i, j :: 0 <= i < j < |q| ==> q[i].sequence < q[j].sequence && q[i].deliverMs <= q[j].deliverMs
  }

  ghost predicate Fifo(s: Link, delay: nat) {
    && InOrder(s.inFlight)
    && (forall i :: 0 <= i < |s.inFlight| ==>
          && s.inFlight[i].sequence < s.sequence && s.inFlight[i].deliverMs <= s.drainsAtMs + delay
          && (s.lastDelivered.Some? ==> s.lastDelivered.value < s.inFlight[i].sequence))
    && (s.lastDelivered.Some? ==> s.lastDelivered.value < s.sequence)
    && s.stats.reordered == 0
  }

  lemma {:induction false} OrderedSplit(q: seq<Packet>, now: nat)
    requires InOrder(q)
    ensures Due(q, now) + Flying(q, now) == q
  {
    if q != [] {
      var rest := q[1..];
      assert q == [q[0]] + rest;
      if q[0].deliverMs > now {
        NothingDue(rest, now);
        OrderedSplit(rest, now);
      } else {
        OrderedSplit(rest, now);
        assert Due(q, now) + Flying(q, now) == [q[0]] + (Due(rest, now) + Flying(rest, now));
      }
    }
  }

  lemma {:induction false} NothingDue(q: seq<Packet>, now: nat)
    requires forall i :: 0 <= i < |q| ==> q[i].deliverMs > now
    ensures Due(q, now) == []
  {
    if q != [] {
      NothingDue(q[1..], now);
    }
  }

  lemma {:induction false} SortedAlready(q: seq<Packet>)
    requires InOrder(q)
    ensures Sorted(q) == q
  {
    if q != [] {
      SortedAlready(q[1..]);
    }
  }

  lemma {:induction false} NoneBehind(last: Option<nat>, q: seq<Packet>)
    requires InOrder(q) && (last.Some? ==> forall i :: 0 <= i < |q| ==> last.value < q[i].sequence)
    ensures Behind(last, q) == 0
    ensures Watermark(last, q) == if q == [] then last else Some(q[|q| - 1].sequence)
    decreases |q|
  {
    if q != [] {
      NoneBehind(last, q[..|q| - 1]);
    }
  }

  /** On an ordered queue a poll hands out a prefix, counts nothing as overtaken and moves the watermark to its end. */
  lemma PollTakesPrefix(s: Link, now: nat)
    requires InOrder(s.inFlight)
    requires s.lastDelivered.Some? ==> forall i :: 0 <= i < |s.inFlight| ==> s.lastDelivered.value < s.inFlight[i].sequence
    ensures var (t, out) := Poll(s, now);
            && s.inFlight == out + t.inFlight
            && t.stats.reordered == s.stats.reordered && t.sequence == s.sequence && t.drainsAtMs == s.drainsAtMs
            && t.lastDelivered == if out == [] then s.lastDelivered else Some(out[|out| - 1].sequence)
  {
    var q := s.inFlight;
    var due := Due(q, now);
    OrderedSplit(q, now);
    assert due == q[..|due|];
    SortedAlready(due);
    NoneBehind(s.lastDelivered, due);
  }

  /** What is left of an ordered queue after a prefix has gone is ordered and lies beyond that prefix. */
  lemma SuffixInOrder(q: seq<Packet>, out: seq<Packet>, left: seq<Packet>)
    requires InOrder(q) && q == out + left
    ensures InOrder(left)
    ensures forall i :: 0 <= i < |left| ==> left[i] == q[|out| + i]
    ensures out != [] ==> forall i :: 0 <= i < |left| ==> out[|out| - 1].sequence < left[i].sequence
  {
    assert forall i :: 0 <= i < |left| ==> left[i] == q[|out| + i];
    assert out != [] ==> out[|out| - 1] == q[|out| - 1];
  }

  /** A link that lost a prefix of its queue and moved its watermark to the end of it is still first in, first out. */
  lemma PrefixGone(s: Link, t: Link, out: seq<Packet>, delay: nat)
    requires Fifo(s, delay) && s.inFlight == out + t.inFlight
    requires t.stats.reordered == s.stats.reordered && t.sequence == s.sequence && t.drainsAtMs == s.drainsAtMs
    requires t.lastDelivered == if out == [] then s.lastDelivered else Some(out[|out| - 1].sequence)
    ensures Fifo(t, delay)
  {
    SuffixInOrder(s.inFlight, out, t.inFlight);
    if out != [] {
      assert out[|out| - 1] == s.inFlight[|out| - 1];
    }
  }

  lemma PollFifo(s: Link, now: nat, delay: nat)
    requires Fifo(s, delay)
    ensures Fifo(Poll(s, now).0, delay)
    ensures s.inFlight == Poll(s, now).1 + Poll(s, now).0.inFlight
  {
    PollTakesPrefix(s, now);
    PrefixGone(s, Poll(s, now).0, Poll(s, now).1, delay);
  }

  lemma SendFifo(p: Profile, s: Link, payload: Bytes, now: nat, d: Draw)
    requires Fifo(s, d.delayMs) && !d.reorder
    ensures Fifo(Send(p, s, payload, now, d).0, d.delayMs)
  {
  }

  /** Zero jitter and no reordering: every packet draws the same delay and none jumps the queue. */
  ghost predicate Plain(ops: seq<Op>, delay: nat) {
    forall i :: 0 <= i < |ops| && ops[i].SendOp? ==> ops[i].draw.delayMs == delay && !ops[i].draw.reorder
  }

  ghost predicate Ascending(q: seq<Packet>, below: nat) {
    && (forall i, j :: 0 <= i < j < |q| ==> q[i].sequence < q[j].sequence)
    && (forall i :: 0 <= i < |q| ==> q[i].sequence < below)
  }

  lemma SequenceGrows(p: Profile, s: Link, op: Op)
    ensures Step(p, s, op).sequence == s.sequence + if op.SendOp? then 1 else 0
    ensures forall i :: 0 <= i < |TakenBy(p, s, op)| ==> TakenBy(p, s, op)[i].sequence == s.sequence
  {
  }

  /** Accepted packets are numbered in send order. */
  lemma {:induction false} TakenAscending(p: Profile, ops: seq<Op>)
    ensures Ascending(Taken(p, ops), Run(p, ops).sequence)
    decreases |ops|
  {
    if ops != [] {
      var pre, last := ops[..|ops| - 1], ops[|ops| - 1];
      TakenAscending(p, pre);
      SequenceGrows(p, Run(p, pre), last);
    }
  }

  lemma StepFifo(p: Profile, s: Link, op: Op, delay: nat)
    requires Fifo(s, delay) && (op.SendOp? ==> op.draw.delayMs == delay && !op.draw.reorder)
    ensures Fifo(Step(p, s, op), delay)
    ensures s.inFlight + TakenBy(p, s, op) == OutOf(s, op) + Step(p, s, op).inFlight
  {
    match op
    case SendOp(payload, now, d) => SendFifo(p, s, payload, now, d);
    case PollOp(now) => PollFifo(s, now, delay);
  }

  lemma Reassociate(handed: seq<Packet>, out: seq<Packet>, left: seq<Packet>, flying: seq<Packet>, more: seq<Packet>)
    requires flying + more == out + left
    ensures handed + flying + more == handed + out + left
  {
    assert handed + flying + more == handed + (flying + more);
    assert handed + out + left == handed + (out + left);
  }

  lemma {:induction false} PlainRun(p: Profile, ops: seq<Op>, delay: nat)
    requires Plain(ops, delay)
    ensures Handed(p, ops) + Run(p, ops).inFlight == Taken(p, ops)
    ensures Fifo(Run(p, ops), delay)
    decreases |ops|
  {
    if ops != [] {
      var n := |ops| - 1;
      var pre, last := ops[..n], ops[n];
      assert forall i :: 0 <= i < n ==> pre[i] == ops[i];
      PlainRun(p, pre, delay);
      var s := Run(p, pre);
      StepFifo(p, s, last, delay);
      Reassociate(Handed(p, pre), OutOf(s, last), Step(p, s, last).inFlight, s.inFlight, TakenBy(p, s, last));
    }
  }

  /**
   Without jitter or reordering the link is first in, first out on any clock: what has come out,
   followed by what is in flight, is exactly what was accepted, in send order, and nothing is ever
   counted as reordered.
   */
  lemma PlainLinkIsFifo(p: Profile, ops: seq<Op>, delay: nat)
    requires Plain(ops, delay)
    ensures Handed(p, ops) + Run(p, ops).inFlight == Taken(p, ops)
    ensures Ascending(Taken(p, ops), Run(p, ops).sequence)
    ensures Run(p, ops).stats.reordered == 0
  {
    PlainRun(p, ops, delay);
    TakenAscending(p, ops);
  }
}
