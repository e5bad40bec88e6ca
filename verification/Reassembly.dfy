/**
 Putting fragmented video frames back together on an unordered, lossy, duplicating channel.

 `Accept` is the effect of one fragment on the reassembler's state; `Reassembler` is the object that
 carries it out in place.
 */
module Reassembly {
  import opened Prelude
  import opened Control

  const FRAGMENT_TIMEOUT_MS := 400
  const MAX_PARTIAL_FRAMES := 16

  datatype EncodedFrame = EncodedFrame(
    data: Bytes, kind: FrameKind, ptsUs: U64, sequence: nat, temporalLayer: U8,
    ltrIndex: Option<U8>, qp: Option<U8>)

  /** One frame under construction; a slot is `None` until its fragment arrives. */
  datatype Partial = Partial(
    kind: U8, temporalLayer: U8, ptsUs: U64, slots: seq<Option<Bytes>>, filled: nat, firstSeenMs: nat)

  datatype Stats = Stats(fragments: nat, completed: nat, incomplete: nat, stale: nat, inconsistent: nat)

  datatype State = State(partials: map<U32, Partial>, stats: Stats)

  /** The kind a received code stands for. */
  function KindOf(k: U8): FrameKind {
    match k case 1 => Keyframe case 2 => LtrRecovery case _ => Delta
  }

  /** The filled slots, concatenated in index order. */
  function Flatten(slots: seq<Option<Bytes>>): Bytes {
    if slots == [] then []
    else (match slots[0] case None => [] case Some(d) => d) + Flatten(slots[1..])
  }

  /** `Partial::assemble`. */
  function Assemble(p: Partial): EncodedFrame {
    EncodedFrame(Flatten(p.slots), KindOf(p.kind), p.ptsUs, 0, p.temporalLayer, None, None)
  }

  function Empty(): State {
    State(map[], Stats(0, 0, 0, 0, 0))
  }

  predicate IsExpired(p: Partial, now: nat) {
    SatSub(now, p.firstSeenMs) > FRAGMENT_TIMEOUT_MS
  }

  function ExpiredIds(m: map<U32, Partial>, now: nat): set<U32> {
    set id | id in m && IsExpired(m[id], now)
  }

  function Expire(s: State, now: nat): State {
    var gone := ExpiredIds(s.partials, now);
    State(s.partials - gone, s.stats.(incomplete := s.stats.incomplete + |gone|))
  }

  /** First seen earliest; among equals, the smallest id, which is the map's iteration order. */
  predicate IsOldest(m: map<U32, Partial>, id: U32) {
    id in m && forall j <- m ::
      m[id].firstSeenMs < m[j].firstSeenMs || (m[id].firstSeenMs == m[j].firstSeenMs && id <= j)
  }

  lemma RemoveOne(m: map<U32, Partial>, id: U32)
    requires id in m
    ensures |m - {id}| == |m| - 1 && (m - {id}).Keys == m.Keys - {id}
  {
    assert (m - {id}).Keys == m.Keys - {id};
  }

  lemma {:induction false} OldestExists(m: map<U32, Partial>)
    requires m != map[]
    ensures exists id :: IsOldest(m, id)
    decreases |m|
  {
    var k :| k in m;
    var rest := m - {k};
    assert rest.Keys == m.Keys - {k};
    if rest == map[] {
      assert forall j <- m :: j == k || j in rest.Keys;
      assert IsOldest(m, k);
    } else {
      OldestExists(rest);
      var o :| IsOldest(rest, o);
      assert forall j <- m :: j == k || j in rest;
      if m[k].firstSeenMs < m[o].firstSeenMs || (m[k].firstSeenMs == m[o].firstSeenMs && k <= o) {
        assert IsOldest(m, k);
      } else {
        assert IsOldest(m, o);
      }
    }
  }

  ghost function Oldest(m: map<U32, Partial>): (id: U32)
    requires m != map[]
    ensures id in m
  {
    OldestExists(m);
    var id :| IsOldest(m, id);
    id
  }

  /** Removes the oldest partial frames until at most the cap remain. */
  ghost function Evict(s: State): State
    decreases |s.partials|
  {
    if |s.partials| <= MAX_PARTIAL_FRAMES then s
    else
      var rest := s.partials - {Oldest(s.partials)};
      RemoveOne(s.partials, Oldest(s.partials));
      Evict(State(rest, s.stats.(incomplete := s.stats.incomplete + 1)))
  }

  /** The partial a fragment belongs to: the one under construction, or a fresh one. */
  function Entry(s: State, p: Payload, now: nat): Partial
    requires p.VideoFrame?
  {
    if p.frameId in s.partials then s.partials[p.frameId]
    else Partial(p.kind, p.temporalLayer, p.ptsUs, seq(p.fragmentCount, _ => None), 0, now)
  }

  /** Whether a payload is safe to index with: what the decoder guarantees of every fragment. */
  predicate Indexable(p: Payload) {
    p.VideoFrame? ==> p.fragmentIndex < p.fragmentCount
  }

  function Filled(entry: Partial, p: Payload): Partial
    requires p.VideoFrame? && p.fragmentIndex < |entry.slots|
  {
    entry.(slots := entry.slots[p.fragmentIndex := Some(p.data)], filled := entry.filled + 1)
  }

  /** Fills an empty slot of `entry`: completes the frame, or keeps it and enforces the cap. */
  ghost function Store(s: State, p: Payload, entry: Partial): (State, Option<EncodedFrame>)
    requires p.VideoFrame? && p.fragmentIndex < |entry.slots|
  {
    var entry' := Filled(entry, p);
    if entry'.filled == |entry'.slots| then
      (State(s.partials - {p.frameId}, s.stats.(completed := s.stats.completed + 1)), Some(Assemble(entry')))
    else
      (Evict(s.(partials := s.partials[p.frameId := entry'])), None)
  }

  /** Places a fragment after expiry. */
  ghost function Place(s: State, p: Payload, now: nat): (State, Option<EncodedFrame>)
    requires p.VideoFrame? && Indexable(p)
  {
    var stats := s.stats;
    if p.fragmentCount == 1 && p.frameId !in s.partials then
      (s.(stats := stats.(completed := stats.completed + 1)),
       Some(Assemble(Partial(p.kind, p.temporalLayer, p.ptsUs, [Some(p.data)], 1, now))))
    else
      var entry := Entry(s, p, now);
      var m := s.partials[p.frameId := entry];
      if |entry.slots| != p.fragmentCount || entry.ptsUs != p.ptsUs then
        (State(m, stats.(inconsistent := stats.inconsistent + 1)), None)
      else if entry.slots[p.fragmentIndex].Some? then
        (State(m, stats.(stale := stats.stale + 1)), None)
      else
        Store(State(m, stats), p, entry)
  }

  /** The state a fragment meets: expired frames gone, the fragment counted. */
  function Prepared(s: State, now: nat): State {
    var e := Expire(s, now);
    e.(stats := e.stats.(fragments := e.stats.fragments + 1))
  }

  /** `Reassembler::accept`: expiry first, then the fragment. Other payloads change nothing. */
  ghost function Accept(s: State, p: Payload, now: nat): (State, Option<EncodedFrame>)
    requires Indexable(p)
  {
    if !p.VideoFrame? then (s, None) else Place(Prepared(s, now), p, now)
  }

  lemma OldestUnique(m: map<U32, Partial>, id: U32)
    requires IsOldest(m, id)
    ensures id == Oldest(m)
  {
    OldestExists(m);
  }

  /** Removing the oldest entry of an over-full map is one step of the eviction. */
  lemma EvictOldest(s: State, id: U32)
    requires |s.partials| > MAX_PARTIAL_FRAMES && IsOldest(s.partials, id)
    ensures Evict(State(s.partials - {id}, s.stats.(incomplete := s.stats.incomplete + 1))) == Evict(s)
    ensures |s.partials - {id}| == |s.partials| - 1
  {
    OldestUnique(s.partials, id);
    RemoveOne(s.partials, id);
  }

  lemma RemoveUpdated(m: map<U32, Partial>, id: U32, p: Partial)
    ensures m[id := p] - {id} == m - {id}
  {
  }

  class Reassembler {
    var partials: map<U32, Partial>
    var stats: Stats

    ghost function View(): State
      reads this
    {
      State(partials, stats)
    }

    constructor ()
      ensures View() == Empty()
    {
      partials := map[];
      stats := Stats(0, 0, 0, 0, 0);
    }

    /** `expire`: collect the expired ids, then remove them one by one. */
    method ExpireOld(now: nat)
      modifies this
      ensures View() == Expire(old(View()), now)
    {
      var expired := ExpiredIds(partials, now);
      ghost var all := expired;
      while expired != {}
        invariant expired <= all
        invariant partials == old(partials) - (all - expired)
        invariant stats == old(stats).(incomplete := old(stats).incomplete + |all| - |expired|)
        decreases |expired|
      {
        var id :| id in expired;
        partials := partials - {id};
        stats := stats.(incomplete := stats.incomplete + 1);
        expired := expired - {id};
      }
    }

    /** The key with the smallest first-seen time, found by scanning the map. */
    method OldestId() returns (id: U32)
      requires partials != map[]
      ensures IsOldest(partials, id)
    {
      var todo := partials.Keys;
      id :| id in todo;
      todo := todo - {id};
      while todo != {}
        invariant id in partials && todo <= partials.Keys
        invariant forall j <- partials.Keys - todo ::
          partials[id].firstSeenMs < partials[j].firstSeenMs ||
          (partials[id].firstSeenMs == partials[j].firstSeenMs && id <= j)
        decreases |todo|
      {
        var j :| j in todo;
        var a, b := partials[id].firstSeenMs, partials[j].firstSeenMs;
        if b < a || (b == a && j < id) {
          id := j;
        }
        todo := todo - {j};
      }
    }

    /** The cap loop of `accept`. */
    method EnforceCap()
      modifies this
      ensures View() == Evict(old(View()))
    {
      while |partials| > MAX_PARTIAL_FRAMES
        invariant Evict(View()) == Evict(old(View()))
        decreases |partials|
      {
        var oldest := OldestId();
        EvictOldest(View(), oldest);
        partials := partials - {oldest};
        stats := stats.(incomplete := stats.incomplete + 1);
      }
    }

    method AcceptFragment(p: Payload, now: nat) returns (r: Option<EncodedFrame>)
      requires Indexable(p)
      modifies this
      ensures (View(), r) == Accept(old(View()), p, now)
    {
      if !p.VideoFrame? {
        return None;
      }
      ExpireOld(now);
      stats := stats.(fragments := stats.fragments + 1);
      assert View() == Prepared(old(View()), now);
      r := PlaceFragment(p, now);
    }

    /** The part of `accept` after expiry. */
    method PlaceFragment(p: Payload, now: nat) returns (r: Option<EncodedFrame>)
      requires p.VideoFrame? && Indexable(p)
      modifies this
      ensures (View(), r) == Place(old(View()), p, now)
    {
      if p.fragmentCount == 1 && p.frameId !in partials {
        stats := stats.(completed := stats.completed + 1);
        return Some(Assemble(Partial(p.kind, p.temporalLayer, p.ptsUs, [Some(p.data)], 1, now)));
      }
      var entry := Entry(State(partials, stats), p, now);
      partials := partials[p.frameId := entry];
      if |entry.slots| != p.fragmentCount || entry.ptsUs != p.ptsUs {
        stats := stats.(inconsistent := stats.inconsistent + 1);
        return None;
      }
      if entry.slots[p.fragmentIndex].Some? {
        stats := stats.(stale := stats.stale + 1);
        return None;
      }
      r := StoreFragment(p, entry);
    }

    method StoreFragment(p: Payload, entry: Partial) returns (r: Option<EncodedFrame>)
      requires p.VideoFrame? && p.fragmentIndex < |entry.slots|
      modifies this
      ensures (View(), r) == Store(old(View()), p, entry)
    {
      var entry' := Filled(entry, p);
      partials := partials[p.frameId := entry'];
      if entry'.filled == |entry'.slots| {
        RemoveUpdated(old(partials), p.frameId, entry');
        var done := Complete(p.frameId);
        return Some(done);
      }
      EnforceCap();
      return None;
    }

    /** The completing branch: the entry leaves the map and becomes a frame. */
    method Complete(id: U32) returns (r: EncodedFrame)
      requires id in partials
      modifies this
      ensures View() == State(old(partials) - {id}, old(stats).(completed := old(stats).completed + 1))
      ensures r == Assemble(old(partials)[id])
    {
      r := Assemble(partials[id]);
      partials := partials - {id};
      stats := stats.(completed := stats.completed + 1);
    }
  }
}
