/**
 How often a frame can come out of the reassembler. It is not remembered once complete, so late copies
 can deliver it again; the arrivals of its rarest fragment bound how often.
 */
module Copies {
  import opened Prelude
  import opened Control
  import opened Fragments
  import opened Reassembly
  import opened ReassemblyProofs
  import opened Delivery

  // ----- Counting -----

  /** How often fragment `k` of `f` arrived. */
  ghost function Arrivals(f: Source, k: nat, evs: seq<Event>): nat {
    if evs == [] then 0
    else Arrivals(f, k, evs[..|evs| - 1]) + Brings(f, k, evs[|evs| - 1])
  }

  ghost function Brings(f: Source, k: nat, e: Event): nat {
    if Mine(f, e) && e.payload.fragmentIndex == k then 1 else 0
  }

  /** How often a fragment of `f` released a frame. */
  ghost function Emitted(s: State, f: Source, evs: seq<Event>): nat
    requires Admissible(evs)
  {
    if evs == [] then 0
    else
      var pre, last := evs[..|evs| - 1], evs[|evs| - 1];
      Emitted(s, f, pre) + Emits(Run(s, pre), f, last)
  }

  ghost function Emits(s: State, f: Source, e: Event): nat
    requires Indexable(e.payload)
  {
    if Mine(f, e) && Accept(s, e.payload, e.now).1.Some? then 1 else 0
  }

  /** Fragments under the id of `f` belong to `f` or conflict with it. */
  ghost predicate NoImposter(f: Source, evs: seq<Event>) {
    forall i :: 0 <= i < |evs| ==> Genuine(f, evs[i])
  }

  ghost predicate Genuine(f: Source, e: Event) {
    SameId(f, e.payload) ==> Mine(f, e) || Conflicts(f, e.payload)
  }

  /** The entry agrees with `f` about the timestamp and the fragment count. */
  predicate Agrees(f: Source, p: Partial) {
    p.ptsUs == f.ptsUs && |p.slots| == |Pieces(f.data)|
  }

  /** Whether an entry that agrees with `f` holds fragment `k`. */
  function SlotHeld(f: Source, k: nat, p: Partial): nat {
    if Agrees(f, p) && k < |p.slots| && p.slots[k].Some? then 1 else 0
  }

  function Held(f: Source, k: nat, m: map<U32, Partial>): nat {
    if f.frameId in m then SlotHeld(f, k, m[f.frameId]) else 0
  }

  // ----- One event -----

  lemma SubmapHolds(f: Source, k: nat, a: map<U32, Partial>, b: map<U32, Partial>)
    requires Submap(a, b)
    ensures Held(f, k, a) <= Held(f, k, b)
  {
  }

  /** What storing does to the count: a slot filled, or a frame released and its entry gone. */
  lemma StoreCounts(s: State, f: Source, k: nat, p: Payload, entry: Partial)
    requires SameId(f, p) && p.fragmentIndex < |entry.slots| && entry.slots[p.fragmentIndex].None?
    requires entry.filled == Occupied(entry.slots)
    ensures var r := Store(s, p, entry);
            if r.1.Some?
            then f.frameId !in r.0.partials && forall j :: 0 <= j < |entry.slots| && j != p.fragmentIndex ==> entry.slots[j].Some?
            else Held(f, k, r.0.partials) <= SlotHeld(f, k, Filled(entry, p))
  {
    var e := Filled(entry, p);
    FilledOk(entry, p);
    OccupiedBound(e.slots);
    if e.filled == |e.slots| {
      forall j | 0 <= j < |entry.slots| && j != p.fragmentIndex
        ensures entry.slots[j].Some?
      {
        assert e.slots[j].Some?;
      }
    } else {
      var full := s.(partials := s.partials[p.frameId := e]);
      EvictFacts(full);
      SubmapHolds(f, k, Evict(full).partials, full.partials);
    }
  }

  lemma PlaceMineCounts(s: State, f: Source, k: nat, p: Payload, now: nat)
    requires Sendable(f) && IsFragmentOf(f, p) && Indexable(p) && AllOk(s.partials) && k < |Pieces(f.data)|
    ensures var r := Place(s, p, now);
            (if r.1.Some? then 1 else 0) + Held(f, k, r.0.partials)
            <= Held(f, k, s.partials) + if p.fragmentIndex == k then 1 else 0
  {
    FragmentFields(f, p);
    if Stores(s, p, now) {
      EntryOk(s, p, now);
      StoreCounts(Inserted(s, p, now), f, k, p, Entry(s, p, now));
    }
  }

  lemma PlaceConflictCounts(s: State, f: Source, k: nat, p: Payload, now: nat)
    requires Conflicts(f, p) && Indexable(p) && AllOk(s.partials)
    ensures Held(f, k, Place(s, p, now).0.partials) <= Held(f, k, s.partials)
  {
    if Stores(s, p, now) {
      EntryOk(s, p, now);
      StoreCounts(Inserted(s, p, now), f, k, p, Entry(s, p, now));
    }
  }

  lemma PlaceOtherCounts(s: State, f: Source, k: nat, p: Payload, now: nat)
    requires p.VideoFrame? && !SameId(f, p) && Indexable(p)
    ensures Held(f, k, Place(s, p, now).0.partials) <= Held(f, k, s.partials)
  {
    PlaceOther(s, p, now, f.frameId);
  }

  /** No event emits or holds more of fragment `k` than was held before it or it brings. */
  lemma AcceptCounts(s: State, f: Source, k: nat, e: Event)
    requires Sendable(f) && Inv(s) && Indexable(e.payload) && Genuine(f, e) && k < |Pieces(f.data)|
    ensures Emits(s, f, e) + Held(f, k, Accept(s, e.payload, e.now).0.partials)
            <= Held(f, k, s.partials) + Brings(f, k, e)
  {
    var p := e.payload;
    if p.VideoFrame? {
      PreparedFacts(s, e.now);
      var s1 := Prepared(s, e.now);
      SubmapHolds(f, k, s1.partials, s.partials);
      if Mine(f, e) {
        PlaceMineCounts(s1, f, k, p, e.now);
      } else if SameId(f, p) {
        PlaceConflictCounts(s1, f, k, p, e.now);
      } else {
        PlaceOtherCounts(s1, f, k, p, e.now);
      }
    }
  }

  // ----- Every run -----

  lemma {:induction false} RunCounts(s: State, f: Source, k: nat, evs: seq<Event>)
    requires Sendable(f) && Inv(s) && f.frameId !in s.partials && k < |Pieces(f.data)|
    requires Admissible(evs) && NoImposter(f, evs)
    ensures Emitted(s, f, evs) + Held(f, k, Run(s, evs).partials) <= Arrivals(f, k, evs)
    decreases |evs|
  {
    if evs != [] {
      var pre, last := evs[..|evs| - 1], evs[|evs| - 1];
      assert forall i :: 0 <= i < |pre| ==> pre[i] == evs[i];
      RunCounts(s, f, k, pre);
      RunKeepsInv(s, pre);
      AcceptCounts(Run(s, pre), f, k, last);
    }
  }

  /**
   Over every run, with loss, duplication, expiry and eviction: a frame is emitted at most as often as
   each of its fragments arrived. So it is emitted at most once if some fragment arrived only once.
   */
  lemma EmittedAtMostArrivals(s: State, f: Source, k: nat, evs: seq<Event>)
    requires Sendable(f) && Inv(s) && f.frameId !in s.partials && k < |Pieces(f.data)|
    requires Admissible(evs) && NoImposter(f, evs)
    ensures Emitted(s, f, evs) <= Arrivals(f, k, evs)
  {
    RunCounts(s, f, k, evs);
  }

  // ----- A second delivery -----

  lemma {:induction false} RunSplits(s: State, evs: seq<Event>, n: nat)
    requires Admissible(evs) && n <= |evs|
    ensures Admissible(evs[..n]) && Admissible(evs[n..])
    ensures Run(s, evs) == Run(Run(s, evs[..n]), evs[n..])
    decreases |evs|
  {
    if n == |evs| {
      assert evs[..n] == evs && evs[n..] == [];
    } else {
      var m := |evs| - 1;
      var pre, rest := evs[..m], evs[n..];
      RunSplits(s, pre, n);
      assert pre[..n] == evs[..n] && pre[n..] == rest[..|rest| - 1] && rest[|rest| - 1] == evs[m];
    }
  }

  lemma OutputSplits(s: State, evs: seq<Event>, n: nat, i: nat)
    requires Admissible(evs) && n <= i < |evs|
    ensures Admissible(evs[..n]) && Admissible(evs[n..])
    ensures Output(s, evs, i) == Output(Run(s, evs[..n]), evs[n..], i - n) && evs[i] == evs[n..][i - n]
  {
    RunSplits(s, evs[..i], n);
    assert evs[..i][..n] == evs[..n] && evs[..i][n..] == evs[n..][..i - n];
  }

  /** The shortest prefix of a run that contains every fragment of `f`. */
  lemma {:induction false} FirstComplete(f: Source, evs: seq<Event>) returns (n: nat)
    requires HasAll(f, evs) && !HasAll(f, [])
    ensures 0 < n <= |evs| && HasAll(f, evs[..n]) && !HasAll(f, evs[..n - 1])
    decreases |evs|
  {
    var pre := evs[..|evs| - 1];
    if HasAll(f, pre) {
      n := FirstComplete(f, pre);
      assert pre[..n] == evs[..n] && pre[..n - 1] == evs[..n - 1];
    } else {
      n := |evs|;
      assert evs[..n] == evs;
    }
  }

  lemma NothingIsIncomplete(f: Source)
    requires Sendable(f)
    ensures !HasAll(f, [])
  {
    PiecesCover(f.data);
    assert 0 !in Arrived(f, []);
  }

  lemma CompleteDelivers(s: State, f: Source, t0: nat, evs: seq<Event>) returns (i: nat)
    requires Sendable(f) && Inv(s) && f.frameId !in s.partials && HasAll(f, evs)
    requires Admissible(evs) && Bystanders(f, evs) && Calm(s, f, t0, evs)
    ensures i < |evs| && Mine(f, evs[i]) && Output(s, evs, i) == Some(Delivered(f))
  {
    NothingIsIncomplete(f);
    var n := FirstComplete(f, evs);
    CalmPrefix(s, f, t0, evs, n);
    BystandersPrefix(f, evs, n);
    assert evs[..n][..n - 1] == evs[..n - 1];
    LastFragmentDelivers(s, f, t0, evs[..n]);
    OutputPrefix(s, evs, n, n - 1);
    CompletingIsMine(f, evs[..n]);
    i := n - 1;
  }

  lemma IncompleteIsSilent(s: State, f: Source, t0: nat, evs: seq<Event>, i: nat)
    requires Sendable(f) && Inv(s) && f.frameId !in s.partials && !HasAll(f, evs)
    requires Admissible(evs) && Bystanders(f, evs) && Calm(s, f, t0, evs) && i < |evs|
    ensures SilentAt(s, f, evs, i)
  {
    RunTracks(s, f, t0, evs);
  }

  /** A fragment of `f` releases it at some point of a calm run exactly when the run contains every fragment. */
  lemma DeliveredExactly(s: State, f: Source, t0: nat, evs: seq<Event>)
    requires Sendable(f) && Inv(s) && f.frameId !in s.partials
    requires Admissible(evs) && Bystanders(f, evs) && Calm(s, f, t0, evs)
    ensures (exists i :: 0 <= i < |evs| && Mine(f, evs[i]) && Output(s, evs, i) == Some(Delivered(f))) <==> HasAll(f, evs)
  {
    if HasAll(f, evs) {
      var i := CompleteDelivers(s, f, t0, evs);
    } else if i :| 0 <= i < |evs| && Mine(f, evs[i]) && Output(s, evs, i) == Some(Delivered(f)) {
      IncompleteIsSilent(s, f, t0, evs, i);
      assert false;
    }
  }

  lemma CompletingIsMine(f: Source, evs: seq<Event>)
    requires evs != [] && HasAll(f, evs) && !HasAll(f, evs[..|evs| - 1])
    ensures Mine(f, evs[|evs| - 1])
  {
    ArrivedGrows(f, evs);
  }

  /**
   When a frame is delivered again: after the prefix that first completes it, it comes out a second time
   if and only if the events after that prefix contain every one of its fragments once more.
   */
  lemma DeliveredAgainExactly(s: State, f: Source, t0: nat, t1: nat, evs: seq<Event>, n: nat)
    requires Sendable(f) && Inv(s) && f.frameId !in s.partials && Admissible(evs) && 0 < n <= |evs|
    requires Bystanders(f, evs[..n]) && Calm(s, f, t0, evs[..n])
    requires HasAll(f, evs[..n]) && !HasAll(f, evs[..n - 1])
    requires Bystanders(f, evs[n..]) && Calm(Run(s, evs[..n]), f, t1, evs[n..])
    ensures Output(s, evs, n - 1) == Some(Delivered(f))
    ensures (exists i :: n <= i < |evs| && Mine(f, evs[i]) && Output(s, evs, i) == Some(Delivered(f)))
       <==> HasAll(f, evs[n..])
  {
    var first, rest := evs[..n], evs[n..];
    assert first[..n - 1] == evs[..n - 1];
    LastFragmentDelivers(s, f, t0, first);
    OutputPrefix(s, evs, n, n - 1);
    RunKeepsInv(s, first);
    var s1 := Run(s, first);
    DeliveredExactly(s1, f, t1, rest);
    forall i | n <= i < |evs|
      ensures Output(s, evs, i) == Output(s1, rest, i - n) && evs[i] == rest[i - n]
    {
      OutputSplits(s, evs, n, i);
    }
    if HasAll(f, rest) {
      var j :| 0 <= j < |rest| && Mine(f, rest[j]) && Output(s1, rest, j) == Some(Delivered(f));
      assert evs[n + j] == rest[j] && Output(s, evs, n + j) == Some(Delivered(f));
    }
  }
}
