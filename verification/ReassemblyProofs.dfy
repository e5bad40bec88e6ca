/** Bounded state and conservation of reassembly, over every run. */
module ReassemblyProofs {
  import opened Prelude
  import opened Control
  import opened Fragments
  import opened Reassembly

  // ----- Runs -----

  /** A payload handed to the reassembler and the clock reading passed with it. */
  datatype Event = Event(payload: Payload, now: nat)

  /** Every event is one the decoder lets through. */
  ghost predicate Admissible(evs: seq<Event>) {
    forall i :: 0 <= i < |evs| ==> Indexable(evs[i].payload)
  }

  ghost function Run(s: State, evs: seq<Event>): State
    requires Admissible(evs)
  {
    if evs == [] then s
    else
      var last := evs[|evs| - 1];
      Accept(Run(s, evs[..|evs| - 1]), last.payload, last.now).0
  }

  /** What the reassembler returned for the event at position `i`. */
  ghost function Output(s: State, evs: seq<Event>, i: nat): Option<EncodedFrame>
    requires Admissible(evs) && i < |evs|
  {
    Accept(Run(s, evs[..i]), evs[i].payload, evs[i].now).1
  }

  /** One more event, accepted in the state the others lead to. */
  lemma RunSnoc(s: State, evs: seq<Event>, e: Event)
    requires Admissible(evs) && Indexable(e.payload)
    ensures Admissible(evs + [e])
    ensures Run(s, evs + [e]) == Accept(Run(s, evs), e.payload, e.now).0
    ensures Output(s, evs + [e], |evs|) == Accept(Run(s, evs), e.payload, e.now).1
  {
    assert (evs + [e])[..|evs|] == evs;
  }

  // ----- Slots -----

  function Occupied(slots: seq<Option<Bytes>>): nat {
    if slots == [] then 0 else (if slots[0].Some? then 1 else 0) + Occupied(slots[1..])
  }

  lemma {:induction false} OccupiedBound(slots: seq<Option<Bytes>>)
    ensures Occupied(slots) <= |slots|
    ensures Occupied(slots) == |slots| <==> forall k :: 0 <= k < |slots| ==> slots[k].Some?
  {
    if slots != [] {
      OccupiedBound(slots[1..]);
      assert forall k :: 1 <= k < |slots| ==> slots[k] == slots[1..][k - 1];
    }
  }

  lemma {:induction false} OccupiedFill(slots: seq<Option<Bytes>>, i: nat, d: Bytes)
    requires i < |slots| && slots[i].None?
    ensures Occupied(slots[i := Some(d)]) == Occupied(slots) + 1
  {
    if i > 0 {
      OccupiedFill(slots[1..], i - 1, d);
      assert slots[i := Some(d)][1..] == slots[1..][i - 1 := Some(d)];
    } else {
      assert slots[i := Some(d)][1..] == slots[1..];
    }
  }

  lemma {:induction false} OccupiedNone(slots: seq<Option<Bytes>>)
    requires forall k :: 0 <= k < |slots| ==> slots[k].None?
    ensures Occupied(slots) == 0
  {
    if slots != [] {
      OccupiedNone(slots[1..]);
    }
  }

  lemma {:induction false} FlattenComplete(slots: seq<Option<Bytes>>, pieces: seq<Bytes>)
    requires |slots| == |pieces|
    requires forall k :: 0 <= k < |slots| ==> slots[k] == Some(pieces[k])
    ensures Flatten(slots) == Concat(pieces)
  {
    if slots != [] {
      FlattenComplete(slots[1..], pieces[1..]);
    }
  }

  // ----- The state invariant -----

  ghost predicate PartialOk(p: Partial) {
    1 <= p.filled < |p.slots| && p.filled == Occupied(p.slots)
  }

  ghost predicate AllOk(m: map<U32, Partial>) {
    forall id <- m :: PartialOk(m[id])
  }

  ghost predicate Inv(s: State) {
    |s.partials| <= MAX_PARTIAL_FRAMES && AllOk(s.partials)
  }

  ghost predicate NoneExpired(m: map<U32, Partial>, now: nat) {
    forall id <- m :: !IsExpired(m[id], now)
  }

  ghost predicate Submap(a: map<U32, Partial>, b: map<U32, Partial>) {
    forall id <- a :: id in b && a[id] == b[id]
  }

  /** Frames finished, abandoned or still held. */
  function Accounted(s: State): nat {
    s.stats.completed + s.stats.incomplete + |s.partials|
  }

  lemma PreparedFacts(s: State, now: nat)
    ensures Submap(Prepared(s, now).partials, s.partials)
    ensures NoneExpired(Prepared(s, now).partials, now)
    ensures forall id <- s.partials :: !IsExpired(s.partials[id], now) ==> id in Prepared(s, now).partials
    ensures |Prepared(s, now).partials| <= |s.partials|
    ensures Accounted(Prepared(s, now)) == Accounted(s)
  {
    var gone := ExpiredIds(s.partials, now);
    var e := Prepared(s, now);
    assert e.partials.Keys == s.partials.Keys - gone;
    assert |e.partials.Keys| == |s.partials.Keys| - |gone|;
  }

  lemma {:induction false} EvictFacts(s: State)
    ensures Submap(Evict(s).partials, s.partials)
    ensures |Evict(s).partials| == Min(|s.partials|, MAX_PARTIAL_FRAMES)
    ensures Accounted(Evict(s)) == Accounted(s)
    decreases |s.partials|
  {
    if |s.partials| > MAX_PARTIAL_FRAMES {
      var o := Oldest(s.partials);
      RemoveOne(s.partials, o);
      EvictFacts(State(s.partials - {o}, s.stats.(incomplete := s.stats.incomplete + 1)));
    }
  }

  /** Filling one more slot of a fresh or sound entry. */
  lemma FilledOk(entry: Partial, p: Payload)
    requires p.VideoFrame? && p.fragmentIndex < |entry.slots| && entry.slots[p.fragmentIndex].None?
    requires entry.filled == Occupied(entry.slots)
    ensures var f := Filled(entry, p);
            f.filled == Occupied(f.slots) && 1 <= f.filled <= |f.slots|
  {
    OccupiedFill(entry.slots, p.fragmentIndex, p.data);
    OccupiedBound(Filled(entry, p).slots);
  }

  lemma EntryOk(s: State, p: Payload, now: nat)
    requires AllOk(s.partials) && p.VideoFrame?
    ensures var e := Entry(s, p, now);
            e.filled == Occupied(e.slots) && (p.frameId in s.partials ==> PartialOk(e))
  {
    OccupiedNone(seq(p.fragmentCount, _ => None));
  }

  lemma ReplaceOne(m: map<U32, Partial>, id: U32, p: Partial)
    requires AllOk(m - {id}) && PartialOk(p)
    ensures AllOk(m[id := p])
    ensures id in m ==> |m[id := p]| == |m|
  {
    var m' := m[id := p];
    forall j | j in m'
      ensures PartialOk(m'[j])
    {
      assert j == id || j in m - {id};
    }
    if id in m {
      assert m[id := p].Keys == m.Keys;
      assert |m[id := p]| == |m[id := p].Keys|;
    }
  }

  lemma StoreOk(s: State, p: Payload, entry: Partial)
    requires p.VideoFrame? && p.fragmentIndex < |entry.slots| && entry.slots[p.fragmentIndex].None?
    requires entry.filled == Occupied(entry.slots)
    requires p.frameId in s.partials && AllOk(s.partials - {p.frameId})
    requires |s.partials| <= MAX_PARTIAL_FRAMES + 1
    ensures Inv(Store(s, p, entry).0)
    ensures Accounted(Store(s, p, entry).0) == Accounted(s)
  {
    FilledOk(entry, p);
    var f := Filled(entry, p);
    if f.filled == |f.slots| {
      RemoveOne(s.partials, p.frameId);
    } else {
      ReplaceOne(s.partials, p.frameId, f);
      EvictFacts(s.(partials := s.partials[p.frameId := f]));
    }
  }

  /** Whether a fragment starts a frame the reassembler was not holding. */
  predicate Opens(s: State, p: Payload, now: nat) {
    p.VideoFrame? && p.frameId !in Prepared(s, now).partials
  }

  /** The state with the fragment's entry in the map, as the source leaves it before checking it. */
  function Inserted(s: State, p: Payload, now: nat): State
    requires p.VideoFrame?
  {
    s.(partials := s.partials[p.frameId := Entry(s, p, now)])
  }

  lemma InsertedSize(s: State, p: Payload, now: nat)
    requires p.VideoFrame?
    ensures |Inserted(s, p, now).partials| == |s.partials| + if p.frameId in s.partials then 0 else 1
    ensures Inserted(s, p, now).partials - {p.frameId} == s.partials - {p.frameId}
    ensures p.frameId in s.partials ==> Inserted(s, p, now) == s
  {
    var m := Inserted(s, p, now).partials;
    assert m.Keys == s.partials.Keys + {p.frameId};
    assert |m| == |m.Keys|;
    if p.frameId in s.partials {
      assert m == s.partials;
    }
  }

  /** The fragment reaches an empty slot of a consistent entry. */
  predicate Stores(s: State, p: Payload, now: nat)
    requires p.VideoFrame? && Indexable(p)
  {
    && !(p.fragmentCount == 1 && p.frameId !in s.partials)
    && var entry := Entry(s, p, now);
       |entry.slots| == p.fragmentCount && entry.ptsUs == p.ptsUs && entry.slots[p.fragmentIndex].None?
  }

  lemma PlaceOk(s: State, p: Payload, now: nat)
    requires Inv(s) && p.VideoFrame? && Indexable(p)
    ensures Inv(Place(s, p, now).0)
    ensures Accounted(Place(s, p, now).0) == Accounted(s) + if p.frameId in s.partials then 0 else 1
  {
    EntryOk(s, p, now);
    InsertedSize(s, p, now);
    if Stores(s, p, now) {
      StoreOk(Inserted(s, p, now), p, Entry(s, p, now));
    }
  }

  /**
   One fragment keeps the state bounded and sound; afterwards nothing held is past the timeout, and
   every frame ever opened is completed, written off or still held.
   */
  lemma AcceptKeepsInv(s: State, p: Payload, now: nat)
    requires Inv(s) && Indexable(p)
    ensures Inv(Accept(s, p, now).0)
    ensures Accounted(Accept(s, p, now).0) == Accounted(s) + if Opens(s, p, now) then 1 else 0
  {
    if p.VideoFrame? {
      PreparedFacts(s, now);
      PlaceOk(Prepared(s, now), p, now);
    }
  }

  lemma StoreNoneExpired(s: State, p: Payload, entry: Partial, now: nat)
    requires p.VideoFrame? && p.fragmentIndex < |entry.slots|
    requires NoneExpired(s.partials, now) && !IsExpired(entry, now)
    ensures NoneExpired(Store(s, p, entry).0.partials, now)
  {
    var m := s.partials[p.frameId := Filled(entry, p)];
    EvictFacts(s.(partials := m));
  }

  lemma PlaceNoneExpired(s: State, p: Payload, now: nat)
    requires p.VideoFrame? && Indexable(p) && NoneExpired(s.partials, now)
    ensures NoneExpired(Place(s, p, now).0.partials, now)
  {
    var entry := Entry(s, p, now);
    if p.fragmentIndex < |entry.slots| {
      StoreNoneExpired(State(s.partials[p.frameId := entry], s.stats), p, entry, now);
    }
  }

  lemma AcceptLeavesNoneExpired(s: State, p: Payload, now: nat)
    requires p.VideoFrame? && Indexable(p)
    ensures NoneExpired(Accept(s, p, now).0.partials, now)
  {
    PreparedFacts(s, now);
    PlaceNoneExpired(Prepared(s, now), p, now);
  }

  /** The fragment duplicates one already held: its frame is held, not expired, agrees about count and timestamp, and has the slot. */
  predicate Duplicates(s: State, p: Payload, now: nat) {
    && p.VideoFrame? && p.frameId in s.partials && !IsExpired(s.partials[p.frameId], now)
    && var held := s.partials[p.frameId];
       |held.slots| == p.fragmentCount && held.ptsUs == p.ptsUs
       && p.fragmentIndex < |held.slots| && held.slots[p.fragmentIndex].Some?
  }

  lemma {:induction false} EvictKeepsCounts(s: State)
    ensures Evict(s).stats == s.stats.(incomplete := Evict(s).stats.incomplete)
    decreases |s.partials|
  {
    if |s.partials| > MAX_PARTIAL_FRAMES {
      RemoveOne(s.partials, Oldest(s.partials));
      var rest := s.partials - {Oldest(s.partials)};
      EvictKeepsCounts(State(rest, s.stats.(incomplete := s.stats.incomplete + 1)));
    }
  }

  lemma PlaceStale(s: State, p: Payload, now: nat)
    requires p.VideoFrame? && Indexable(p) && NoneExpired(s.partials, now)
    ensures Place(s, p, now).0.stats.stale == s.stats.stale + if Duplicates(s, p, now) then 1 else 0
  {
    if Stores(s, p, now) {
      var entry := Entry(s, p, now);
      EvictKeepsCounts(Inserted(s, p, now).(partials := Inserted(s, p, now).partials[p.frameId := Filled(entry, p)]));
    }
  }

  /** The `stale` counter goes up for duplicates of held fragments and for nothing else, late fragments included. */
  lemma StaleCountsDuplicates(s: State, p: Payload, now: nat)
    requires Indexable(p)
    ensures Accept(s, p, now).0.stats.stale == s.stats.stale + if Duplicates(s, p, now) then 1 else 0
  {
    if p.VideoFrame? {
      PreparedFacts(s, now);
      PlaceStale(Prepared(s, now), p, now);
    }
  }

  /** The fragment disagrees with the frame held under its id: another count or another timestamp. */
  predicate Contradicts(s: State, p: Payload, now: nat) {
    && p.VideoFrame? && p.frameId in s.partials && !IsExpired(s.partials[p.frameId], now)
    && var held := s.partials[p.frameId];
       |held.slots| != p.fragmentCount || held.ptsUs != p.ptsUs
  }

  /** The fragment is all that was missing: a whole frame of one, or the last empty slot of a frame it agrees with. */
  ghost predicate Completes(s: State, p: Payload, now: nat) {
    && p.VideoFrame?
    && if p.frameId in s.partials && !IsExpired(s.partials[p.frameId], now)
       then var held := s.partials[p.frameId];
            && |held.slots| == p.fragmentCount && held.ptsUs == p.ptsUs && p.fragmentIndex < |held.slots|
            && held.slots[p.fragmentIndex].None?
            && forall k :: 0 <= k < |held.slots| && k != p.fragmentIndex ==> held.slots[k].Some?
       else p.fragmentCount == 1
  }

  lemma FillsUp(entry: Partial, p: Payload)
    requires p.VideoFrame? && p.fragmentIndex < |entry.slots| && entry.slots[p.fragmentIndex].None?
    requires entry.filled == Occupied(entry.slots)
    ensures Filled(entry, p).filled == |Filled(entry, p).slots| <==>
            forall k :: 0 <= k < |entry.slots| && k != p.fragmentIndex ==> entry.slots[k].Some?
  {
    OccupiedFill(entry.slots, p.fragmentIndex, p.data);
    var f := Filled(entry, p);
    OccupiedBound(f.slots);
    if forall k :: 0 <= k < |entry.slots| && k != p.fragmentIndex ==> entry.slots[k].Some? {
      assert forall k :: 0 <= k < |f.slots| ==> f.slots[k].Some?;
    }
    if f.filled == |f.slots| {
      forall k | 0 <= k < |entry.slots| && k != p.fragmentIndex
        ensures entry.slots[k].Some?
      {
        assert f.slots[k].Some?;
      }
    }
  }

  lemma PlaceCounts(s: State, p: Payload, now: nat)
    requires p.VideoFrame? && Indexable(p) && AllOk(s.partials) && NoneExpired(s.partials, now)
    ensures var (r, out) := Place(s, p, now);
            && (out.Some? <==> Completes(s, p, now))
            && r.stats.fragments == s.stats.fragments
            && r.stats.completed == s.stats.completed + (if out.Some? then 1 else 0)
            && r.stats.inconsistent == s.stats.inconsistent + (if Contradicts(s, p, now) then 1 else 0)
  {
    if Stores(s, p, now) {
      var entry := Entry(s, p, now);
      EntryOk(s, p, now);
      FillsUp(entry, p);
      var m := Inserted(s, p, now).partials[p.frameId := Filled(entry, p)];
      EvictKeepsCounts(Inserted(s, p, now).(partials := m));
      if p.frameId !in s.partials {
        assert p.fragmentCount > 1 && entry.slots[if p.fragmentIndex == 0 then 1 else 0].None?;
      }
    }
  }

  /**
   What one accept answers and counts: a frame comes out exactly when the fragment is all that was missing;
   every video fragment is counted once, every frame that comes out once, and every disagreement once.
   */
  lemma AnsweredAndCountedExactly(s: State, p: Payload, now: nat)
    requires Inv(s) && Indexable(p)
    ensures var (r, out) := Accept(s, p, now);
            && (out.Some? <==> Completes(s, p, now))
            && r.stats.fragments == s.stats.fragments + (if p.VideoFrame? then 1 else 0)
            && r.stats.completed == s.stats.completed + (if out.Some? then 1 else 0)
            && r.stats.inconsistent == s.stats.inconsistent + (if Contradicts(s, p, now) then 1 else 0)
  {
    if p.VideoFrame? {
      PreparedFacts(s, now);
      PlaceCounts(Prepared(s, now), p, now);
    }
  }

  /** Frame `a` was first seen before frame `b`, or at the same time and has the smaller id. */
  predicate Older(m: map<U32, Partial>, a: U32, b: U32)
    requires a in m && b in m
  {
    m[a].firstSeenMs < m[b].firstSeenMs || (m[a].firstSeenMs == m[b].firstSeenMs && a <= b)
  }

  /** What is gone is older than what is left. */
  ghost predicate OldestGone(before: map<U32, Partial>, after: map<U32, Partial>) {
    && Submap(after, before)
    && forall id <- before, j <- after :: id !in after ==> Older(before, id, j)
  }

  lemma OldestIsFirst(m: map<U32, Partial>)
    requires m != map[]
    ensures forall j <- m :: Older(m, Oldest(m), j)
  {
    OldestExists(m);
    var o :| IsOldest(m, o);
    OldestUnique(m, o);
    assert forall j <- m :: Older(m, o, j);
  }

  lemma {:induction false} EvictsOldest(s: State)
    ensures OldestGone(s.partials, Evict(s).partials)
    decreases |s.partials|
  {
    if |s.partials| > MAX_PARTIAL_FRAMES {
      var o := Oldest(s.partials);
      RemoveOne(s.partials, o);
      var rest := State(s.partials - {o}, s.stats.(incomplete := s.stats.incomplete + 1));
      EvictsOldest(rest);
      OldestIsFirst(s.partials);
      forall id, j | id in s.partials && j in Evict(rest).partials && id !in Evict(rest).partials
        ensures Older(s.partials, id, j)
      {
        if id != o {
          assert Older(rest.partials, id, j);
        }
      }
    }
  }

  /**
   Which other frames an accepted fragment costs: those past the timeout, and beyond them only the oldest,
   which goes when sixteen others are left; every other frame is untouched.
   */
  ghost predicate Spares(before: map<U32, Partial>, after: map<U32, Partial>, id: U32, now: nat) {
    id in before ==>
      if IsExpired(before[id], now) then id !in after
      else if id in after then after[id] == before[id]
      else |after| == MAX_PARTIAL_FRAMES
           && forall j :: j in before && j in after && !IsExpired(before[j], now) ==> Older(before, id, j)
  }

  lemma StoreSpares(s: State, p: Payload, entry: Partial, now: nat, id: U32)
    requires p.VideoFrame? && p.fragmentIndex < |entry.slots| && id != p.frameId
    requires p.frameId in s.partials && entry == s.partials[p.frameId]
    requires id in s.partials && !IsExpired(s.partials[id], now)
    ensures Spares(s.partials, Store(s, p, entry).0.partials, id, now)
  {
    var m := s.partials[p.frameId := Filled(entry, p)];
    EvictsOldest(s.(partials := m));
    EvictFacts(s.(partials := m));
    var after := Store(s, p, entry).0.partials;
    if id !in after {
      forall j | j in s.partials && j in after
        ensures Older(s.partials, id, j)
      {
        assert Older(m, id, j);
      }
    }
  }

  lemma PlaceSpares(s: State, p: Payload, now: nat, id: U32)
    requires p.VideoFrame? && Indexable(p) && id != p.frameId && id in s.partials && !IsExpired(s.partials[id], now)
    ensures Spares(s.partials, Place(s, p, now).0.partials, id, now)
  {
    if Stores(s, p, now) {
      var t := Inserted(s, p, now);
      StoreSpares(t, p, Entry(s, p, now), now, id);
      var after := Place(s, p, now).0.partials;
      if id !in after {
        forall j | j in s.partials && j in after && !IsExpired(s.partials[j], now)
          ensures Older(s.partials, id, j)
        {
          assert t.partials[j] == s.partials[j] && Older(t.partials, id, j);
        }
      }
    }
  }

  lemma PreparedSpares(s: State, p: Payload, now: nat, id: U32)
    requires p.VideoFrame? && Indexable(p) && id != p.frameId && id in s.partials && !IsExpired(s.partials[id], now)
    ensures Spares(s.partials, Accept(s, p, now).0.partials, id, now)
  {
    PreparedFacts(s, now);
    var e := Prepared(s, now);
    PlaceSpares(e, p, now, id);
    var after := Accept(s, p, now).0.partials;
    if id !in after {
      forall j | j in s.partials && j in after && !IsExpired(s.partials[j], now)
        ensures Older(s.partials, id, j)
      {
        assert j in e.partials && e.partials[j] == s.partials[j] && Older(e.partials, id, j);
      }
    }
  }

  lemma OthersSparedExactly(s: State, p: Payload, now: nat, id: U32)
    requires p.VideoFrame? && Indexable(p) && id != p.frameId
    ensures Spares(s.partials, Accept(s, p, now).0.partials, id, now)
  {
    if id in s.partials {
      PreparedFacts(s, now);
      PlaceAdds(Prepared(s, now), p, now);
      if !IsExpired(s.partials[id], now) {
        PreparedSpares(s, p, now, id);
      }
    }
  }

  /** Placing a fragment never brings another frame into the map. */
  lemma PlaceAdds(s: State, p: Payload, now: nat)
    requires p.VideoFrame? && Indexable(p)
    ensures forall id <- Place(s, p, now).0.partials :: id == p.frameId || id in s.partials
  {
    if Stores(s, p, now) {
      var m := Inserted(s, p, now).partials[p.frameId := Filled(Entry(s, p, now), p)];
      EvictFacts(Inserted(s, p, now).(partials := m));
    }
  }

  ghost function OpenedCount(s: State, evs: seq<Event>): nat
    requires Admissible(evs)
  {
    if evs == [] then 0
    else
      var pre, last := evs[..|evs| - 1], evs[|evs| - 1];
      OpenedCount(s, pre) + if Opens(Run(s, pre), last.payload, last.now) then 1 else 0
  }

  lemma {:induction false} RunKeepsInv(s: State, evs: seq<Event>)
    requires Inv(s) && Admissible(evs)
    ensures Inv(Run(s, evs))
    ensures Accounted(Run(s, evs)) == Accounted(s) + OpenedCount(s, evs)
    decreases |evs|
  {
    if evs != [] {
      var pre, last := evs[..|evs| - 1], evs[|evs| - 1];
      RunKeepsInv(s, pre);
      AcceptKeepsInv(Run(s, pre), last.payload, last.now);
    }
  }

  /**
   Over every run from an empty reassembler: at most sixteen partial frames, each with some but not
   all of its slots filled and a filled count equal to its occupied slots, and
   opened = completed + incomplete + in flight. After a fragment, nothing held is past the timeout.
   */
  lemma {:induction false} ReachableStateIsBounded(evs: seq<Event>)
    requires Admissible(evs)
    ensures Inv(Run(Empty(), evs))
    ensures Accounted(Run(Empty(), evs)) == OpenedCount(Empty(), evs)
    ensures evs != [] && evs[|evs| - 1].payload.VideoFrame? ==>
              NoneExpired(Run(Empty(), evs).partials, evs[|evs| - 1].now)
  {
    RunKeepsInv(Empty(), evs);
    if evs != [] && evs[|evs| - 1].payload.VideoFrame? {
      var last := evs[|evs| - 1];
      AcceptLeavesNoneExpired(Run(Empty(), evs[..|evs| - 1]), last.payload, last.now);
    }
  }

  // ----- Frames and their fragments -----

  /** The frame a receiver should see when `f` was sent. */
  function Delivered(f: Source): EncodedFrame {
    EncodedFrame(f.data, f.kind, f.ptsUs, 0, f.temporalLayer, None, None)
  }

  ghost predicate IsFragmentOf(f: Source, p: Payload) {
    && p.VideoFrame?
    && p.fragmentIndex < |FragmentVideo(f)|
    && p == FragmentVideo(f)[p.fragmentIndex]
  }

  /** The partial holds only fragments of `f`, each at its own index. */
  ghost predicate Holds(f: Source, id: U32, p: Partial) {
    && id == f.frameId && p.ptsUs == f.ptsUs && p.kind == WireCode(f.kind) && p.temporalLayer == f.temporalLayer
    && |p.slots| == |Pieces(f.data)|
    && forall k :: 0 <= k < |p.slots| && p.slots[k].Some? ==> p.slots[k].value == Pieces(f.data)[k]
  }

  lemma AssembleHeld(f: Source, p: Partial)
    requires Sendable(f) && Holds(f, f.frameId, p) && p.filled == Occupied(p.slots) && p.filled == |p.slots|
    ensures Assemble(p) == Delivered(f)
  {
    OccupiedBound(p.slots);
    FlattenComplete(p.slots, Pieces(f.data));
    PiecesCover(f.data);
  }

  lemma FillHeld(f: Source, entry: Partial, p: Payload)
    requires Sendable(f) && IsFragmentOf(f, p) && Holds(f, f.frameId, entry) && p.fragmentIndex < |entry.slots|
    ensures Holds(f, f.frameId, Filled(entry, p))
  {
    FragmentsCover(f);
  }

  /** The shortcut for one-fragment frames returns the frame itself. */
  lemma SingleFragment(g: Source, p: Payload, now: nat)
    requires Sendable(g) && IsFragmentOf(g, p) && p.fragmentCount == 1
    ensures Assemble(Partial(p.kind, p.temporalLayer, p.ptsUs, [Some(p.data)], 1, now)) == Delivered(g)
  {
    FragmentsCover(g);
    var q := Partial(p.kind, p.temporalLayer, p.ptsUs, [Some(p.data)], 1, now);
    assert Occupied(q.slots) == 1 + Occupied(q.slots[1..]);
    AssembleHeld(g, q);
  }

  /** Every video fragment that arrives was cut from some sent frame. */
  ghost predicate FromSender(sent: set<Source>, evs: seq<Event>) {
    forall i :: 0 <= i < |evs| && evs[i].payload.VideoFrame? ==>
      exists f :: f in sent && IsFragmentOf(f, evs[i].payload)
  }
}
