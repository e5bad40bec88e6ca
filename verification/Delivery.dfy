/**
 The video wire path end to end: fragment, encode, carry over an unordered, duplicating channel shared
 with anything else, decode, reassemble.
 */
module Delivery {
  import opened Prelude
  import opened Control
  import ControlProofs
  import opened Fragments
  import opened Reassembly
  import opened ReassemblyProofs

  /** The event brings a fragment of frame `f`. */
  ghost predicate Mine(f: Source, e: Event) {
    IsFragmentOf(f, e.payload)
  }

  /** The payload is a video fragment under the frame id of `f`. */
  predicate SameId(f: Source, p: Payload) {
    p.VideoFrame? && p.frameId == f.frameId
  }

  /** A fragment under the same id that disagrees with `f` about the timestamp or the fragment count. */
  predicate Conflicts(f: Source, p: Payload) {
    SameId(f, p) && (p.ptsUs != f.ptsUs || p.fragmentCount != |Pieces(f.data)|)
  }

  lemma FragmentFields(f: Source, p: Payload)
    requires Sendable(f) && IsFragmentOf(f, p)
    ensures SameId(f, p) && !Conflicts(f, p) && p.fragmentIndex < p.fragmentCount == |Pieces(f.data)|
    ensures p.kind == WireCode(f.kind) && p.temporalLayer == f.temporalLayer && p.ptsUs == f.ptsUs
    ensures p.data == Pieces(f.data)[p.fragmentIndex]
  {
    FragmentsCover(f);
  }

  /**
   What may come besides fragments of `f`: anything under another id and, once a fragment of `f` has
   arrived, fragments under the same id that conflict with it.
   */
  ghost predicate Bystanders(f: Source, evs: seq<Event>) {
    forall i :: 0 <= i < |evs| && !Mine(f, evs[i]) ==> Bystander(f, evs, i)
  }

  ghost predicate Bystander(f: Source, evs: seq<Event>, i: nat)
    requires i < |evs|
  {
    SameId(f, evs[i].payload) ==> Conflicts(f, evs[i].payload) && Arrived(f, evs[..i]) != {}
  }

  /** The fragment indices of `f` that have arrived. */
  ghost function Arrived(f: Source, evs: seq<Event>): set<nat> {
    set i | 0 <= i < |evs| && Mine(f, evs[i]) :: evs[i].payload.fragmentIndex
  }

  ghost predicate Full(f: Source, got: set<nat>) {
    forall k :: 0 <= k < |Pieces(f.data)| ==> k in got
  }

  ghost predicate HasAll(f: Source, evs: seq<Event>) {
    Full(f, Arrived(f, evs))
  }

  /** Partial frames held besides `f` itself. */
  function Others(f: Source, s: State): nat {
    |s.partials.Keys - {f.frameId}|
  }

  /**
   From the first fragment of `f` (seen at `t0`) no event comes more than the timeout later, and
   the reassembler never ends up holding more than fifteen other partial frames.
   */
  ghost predicate Calm(s: State, f: Source, t0: nat, evs: seq<Event>)
    requires Admissible(evs)
  {
    && (forall i, j :: 0 <= i <= j < |evs| && Mine(f, evs[i]) ==> evs[j].now <= t0 + FRAGMENT_TIMEOUT_MS)
    && (forall i :: 0 <= i < |evs| && Mine(f, evs[i]) && Arrived(f, evs[..i]) == {} ==> evs[i].now == t0)
    && (forall i :: 0 <= i <= |evs| ==> Others(f, Run(s, evs[..i])) < MAX_PARTIAL_FRAMES)
  }

  // ----- One event -----

  /** The state before `f` completes: its slot for `k` is filled exactly when `k` has arrived. */
  ghost predicate Tracks(f: Source, t0: nat, got: set<nat>, s: State) {
    if got == {} then f.frameId !in s.partials
    else
      && f.frameId in s.partials
      && var p := s.partials[f.frameId];
         Holds(f, f.frameId, p) && p.firstSeenMs == t0 && Shows(p, got)
  }

  ghost predicate SameAt(id: U32, a: map<U32, Partial>, b: map<U32, Partial>) {
    (id in a <==> id in b) && (id in a ==> a[id] == b[id])
  }

  /** The cap is reached by other frames alone. */
  predicate Crowded(s: State, id: U32) {
    id !in s.partials && |s.partials| >= MAX_PARTIAL_FRAMES
  }

  lemma NotCrowded(f: Source, s: State)
    requires Others(f, s) < MAX_PARTIAL_FRAMES
    ensures !Crowded(s, f.frameId)
  {
    if f.frameId !in s.partials {
      assert s.partials.Keys - {f.frameId} == s.partials.Keys;
    }
  }

  /** A frame is evicted only when sixteen others remain. */
  lemma EvictKeeps(s: State, id: U32)
    ensures SameAt(id, s.partials, Evict(s).partials) || Crowded(Evict(s), id)
  {
    EvictFacts(s);
  }

  lemma StoreOther(s: State, p: Payload, entry: Partial, id: U32)
    requires p.VideoFrame? && p.fragmentIndex < |entry.slots| && p.frameId != id
    ensures SameAt(id, s.partials, Store(s, p, entry).0.partials) || Crowded(Store(s, p, entry).0, id)
  {
    EvictKeeps(s.(partials := s.partials[p.frameId := Filled(entry, p)]), id);
  }

  /** A fragment of another frame leaves this one alone. */
  lemma PlaceOther(s: State, p: Payload, now: nat, id: U32)
    requires p.VideoFrame? && Indexable(p) && p.frameId != id
    ensures SameAt(id, s.partials, Place(s, p, now).0.partials) || Crowded(Place(s, p, now).0, id)
  {
    if Stores(s, p, now) {
      StoreOther(Inserted(s, p, now), p, Entry(s, p, now), id);
    }
  }

  /** A conflicting fragment meets the entry of `f` and is dropped. */
  lemma PlaceConflict(s: State, f: Source, t0: nat, got: set<nat>, p: Payload, now: nat)
    requires Tracks(f, t0, got, s) && got != {} && Indexable(p) && Conflicts(f, p)
    ensures Place(s, p, now).0.partials == s.partials
  {
    assert s.partials[p.frameId := s.partials[p.frameId]] == s.partials;
  }

  /** What is neither a fragment of `f` nor mistaken for one leaves `f` as it was. */
  lemma AcceptOther(s: State, f: Source, t0: nat, got: set<nat>, e: Event)
    requires Inv(s) && Tracks(f, t0, got, s) && Indexable(e.payload)
    requires SameId(f, e.payload) ==> Conflicts(f, e.payload) && got != {}
    requires got != {} ==> e.now <= t0 + FRAGMENT_TIMEOUT_MS
    requires Others(f, Accept(s, e.payload, e.now).0) < MAX_PARTIAL_FRAMES
    ensures Tracks(f, t0, got, Accept(s, e.payload, e.now).0)
  {
    if e.payload.VideoFrame? {
      PreparedFacts(s, e.now);
      assert Tracks(f, t0, got, Prepared(s, e.now));
      if SameId(f, e.payload) {
        PlaceConflict(Prepared(s, e.now), f, t0, got, e.payload, e.now);
      } else {
        PlaceOther(Prepared(s, e.now), e.payload, e.now, f.frameId);
        NotCrowded(f, Accept(s, e.payload, e.now).0);
      }
    }
  }

  /** The outcome of a fragment of `f` after which `got` has arrived. */
  ghost predicate Progress(f: Source, t0: nat, got: set<nat>, s: State, out: Option<EncodedFrame>) {
    if Full(f, got) then out == Some(Delivered(f)) && f.frameId !in s.partials
    else out == None && (Tracks(f, t0, got, s) || Crowded(s, f.frameId))
  }

  /** The slots of an entry show exactly which fragments have arrived. */
  ghost predicate Shows(entry: Partial, got: set<nat>) {
    forall k :: 0 <= k < |entry.slots| ==> (entry.slots[k].Some? <==> k in got)
  }

  lemma FilledShows(f: Source, got: set<nat>, p: Payload, entry: Partial)
    requires p.VideoFrame? && Holds(f, f.frameId, entry) && Shows(entry, got) && p.fragmentIndex < |entry.slots|
    requires entry.filled == Occupied(entry.slots) && p.fragmentIndex !in got
    ensures var e, now := Filled(entry, p), got + {p.fragmentIndex as nat};
            Shows(e, now) && e.filled == Occupied(e.slots) && (e.filled == |e.slots| <==> Full(f, now))
  {
    FilledOk(entry, p);
    OccupiedBound(Filled(entry, p).slots);
  }

  /** A fragment that is still missing fills its slot; the last one releases the frame. */
  lemma StoreMine(s: State, f: Source, t0: nat, got: set<nat>, p: Payload, entry: Partial)
    requires Sendable(f) && IsFragmentOf(f, p) && Holds(f, f.frameId, entry) && entry.firstSeenMs == t0
    requires Shows(entry, got) && p.fragmentIndex < |entry.slots|
    requires entry.filled == Occupied(entry.slots) && p.fragmentIndex !in got
    ensures Progress(f, t0, got + {p.fragmentIndex as nat}, Store(s, p, entry).0, Store(s, p, entry).1)
  {
    FragmentFields(f, p);
    FillHeld(f, entry, p);
    FilledShows(f, got, p, entry);
    var e := Filled(entry, p);
    if e.filled == |e.slots| {
      AssembleHeld(f, e);
    } else {
      EvictKeeps(s.(partials := s.partials[p.frameId := e]), f.frameId);
    }
  }

  /** The entry a fragment of `f` meets holds exactly the fragments that have arrived. */
  lemma EntryTracks(s: State, f: Source, t0: nat, got: set<nat>, p: Payload, now: nat)
    requires Sendable(f) && IsFragmentOf(f, p) && Tracks(f, t0, got, s)
    requires got == {} ==> now == t0
    ensures var entry := Entry(s, p, now);
            Holds(f, f.frameId, entry) && entry.firstSeenMs == t0 && Shows(entry, got)
  {
    FragmentsCover(f);
  }

  lemma PlaceSingle(s: State, f: Source, t0: nat, p: Payload, now: nat)
    requires Sendable(f) && IsFragmentOf(f, p) && Indexable(p)
    requires p.fragmentCount == 1 && p.frameId !in s.partials
    ensures Progress(f, t0, {p.fragmentIndex as nat}, Place(s, p, now).0, Place(s, p, now).1)
  {
    FragmentsCover(f);
    SingleFragment(f, p, now);
  }

  lemma PlaceDuplicate(s: State, f: Source, t0: nat, got: set<nat>, p: Payload, now: nat)
    requires Sendable(f) && IsFragmentOf(f, p) && Indexable(p) && Tracks(f, t0, got, s)
    requires p.fragmentIndex in got && !Full(f, got)
    ensures Progress(f, t0, got, Place(s, p, now).0, Place(s, p, now).1)
  {
    FragmentsCover(f);
    EntryTracks(s, f, t0, got, p, now);
    assert s.partials[p.frameId := Entry(s, p, now)] == s.partials;
  }

  lemma PlaceNew(s: State, f: Source, t0: nat, got: set<nat>, p: Payload, now: nat)
    requires Sendable(f) && IsFragmentOf(f, p) && Indexable(p) && AllOk(s.partials) && Tracks(f, t0, got, s)
    requires got == {} ==> now == t0
    requires p.fragmentIndex !in got && !(p.fragmentCount == 1 && p.frameId !in s.partials)
    ensures Progress(f, t0, got + {p.fragmentIndex as nat}, Place(s, p, now).0, Place(s, p, now).1)
  {
    FragmentsCover(f);
    EntryTracks(s, f, t0, got, p, now);
    EntryOk(s, p, now);
    StoreMine(Inserted(s, p, now), f, t0, got, p, Entry(s, p, now));
  }

  /** A fragment of `f` while it is incomplete: a duplicate changes nothing, a new one is stored. */
  lemma PlaceMine(s: State, f: Source, t0: nat, got: set<nat>, p: Payload, now: nat)
    requires Sendable(f) && IsFragmentOf(f, p) && Indexable(p) && AllOk(s.partials) && Tracks(f, t0, got, s)
    requires got == {} ==> now == t0
    requires !Full(f, got)
    ensures Progress(f, t0, got + {p.fragmentIndex as nat}, Place(s, p, now).0, Place(s, p, now).1)
  {
    var k: nat := p.fragmentIndex;
    if k in got {
      assert got + {k} == got;
      PlaceDuplicate(s, f, t0, got, p, now);
    } else if p.fragmentCount == 1 && p.frameId !in s.partials {
      assert got + {k} == {k};
      PlaceSingle(s, f, t0, p, now);
    } else {
      PlaceNew(s, f, t0, got, p, now);
    }
  }

  lemma AcceptMine(s: State, f: Source, t0: nat, got: set<nat>, e: Event)
    requires Sendable(f) && IsFragmentOf(f, e.payload) && Indexable(e.payload) && Inv(s) && Tracks(f, t0, got, s)
    requires if got == {} then e.now == t0 else e.now <= t0 + FRAGMENT_TIMEOUT_MS
    requires !Full(f, got)
    ensures var r := Accept(s, e.payload, e.now);
            Progress(f, t0, got + {e.payload.fragmentIndex as nat}, r.0, r.1)
  {
    PreparedFacts(s, e.now);
    var s1 := Prepared(s, e.now);
    PlaceMine(s1, f, t0, got, e.payload, e.now);
  }

  // ----- Whole runs -----

  lemma ArrivedGrows(f: Source, evs: seq<Event>)
    requires evs != []
    ensures var pre, last := evs[..|evs| - 1], evs[|evs| - 1];
            Arrived(f, evs) == Arrived(f, pre) + if Mine(f, last) then {last.payload.fragmentIndex as nat} else {}
  {
    var pre := evs[..|evs| - 1];
    assert forall i :: 0 <= i < |pre| ==> evs[i] == pre[i];
  }

  lemma ArrivedSource(f: Source, evs: seq<Event>)
    requires Arrived(f, evs) != {}
    ensures exists i :: 0 <= i < |evs| && Mine(f, evs[i])
  {
    var k :| k in Arrived(f, evs);
  }

  lemma CalmPrefix(s: State, f: Source, t0: nat, evs: seq<Event>, n: nat)
    requires Admissible(evs) && Calm(s, f, t0, evs) && n <= |evs|
    ensures Admissible(evs[..n]) && Calm(s, f, t0, evs[..n])
  {
    var pre := evs[..n];
    assert forall i :: 0 <= i <= n ==> pre[..i] == evs[..i];
    assert forall i :: 0 <= i < n ==> pre[i] == evs[i];
  }

  lemma BystandersPrefix(f: Source, evs: seq<Event>, n: nat)
    requires Bystanders(f, evs) && n <= |evs|
    ensures Bystanders(f, evs[..n])
  {
    var pre := evs[..n];
    forall i | 0 <= i < n && !Mine(f, pre[i])
      ensures Bystander(f, pre, i)
    {
      assert pre[i] == evs[i] && pre[..i] == evs[..i];
      assert Bystander(f, evs, i);
    }
  }

  /** The clock of the last event of a calm run. */
  lemma CalmLast(s: State, f: Source, t0: nat, evs: seq<Event>)
    requires Admissible(evs) && Calm(s, f, t0, evs) && evs != []
    ensures Ready(f, t0, Arrived(f, evs[..|evs| - 1]), evs[|evs| - 1])
  {
    var n := |evs| - 1;
    var pre := evs[..n];
    if Arrived(f, pre) != {} {
      ArrivedSource(f, pre);
      var i :| 0 <= i < |pre| && Mine(f, pre[i]);
      assert evs[i] == pre[i];
    }
  }

  lemma CalmRoom(s: State, f: Source, t0: nat, evs: seq<Event>)
    requires Admissible(evs) && Calm(s, f, t0, evs)
    ensures Others(f, Run(s, evs)) < MAX_PARTIAL_FRAMES && !Crowded(Run(s, evs), f.frameId)
  {
    assert evs[..|evs|] == evs;
    NotCrowded(f, Run(s, evs));
  }

  /** Where a calm run stands before its last event, the frame still incomplete. */
  ghost predicate Underway(s: State, f: Source, t0: nat, evs: seq<Event>) {
    && Sendable(f) && Inv(s) && evs != []
    && Admissible(evs) && Bystanders(f, evs) && Calm(s, f, t0, evs)
    && !HasAll(f, evs[..|evs| - 1])
    && Tracks(f, t0, Arrived(f, evs[..|evs| - 1]), Run(s, evs[..|evs| - 1]))
  }

  /** The clock of an event that meets a frame of which `got` has arrived. */
  ghost predicate Ready(f: Source, t0: nat, got: set<nat>, e: Event) {
    if got == {} then (Mine(f, e) ==> e.now == t0) else e.now <= t0 + FRAGMENT_TIMEOUT_MS
  }

  /** What the state an event meets and the event itself may be relied on for. */
  ghost predicate Poised(s: State, f: Source, t0: nat, got: set<nat>, e: Event) {
    && Sendable(f) && Inv(s) && Tracks(f, t0, got, s) && !Full(f, got)
    && Indexable(e.payload) && Ready(f, t0, got, e)
    && (!Mine(f, e) && SameId(f, e.payload) ==> Conflicts(f, e.payload) && got != {})
  }

  /** What the last event of a run underway may rely on. */
  lemma LastFacts(s: State, f: Source, t0: nat, evs: seq<Event>)
    requires Underway(s, f, t0, evs)
    ensures Poised(Run(s, evs[..|evs| - 1]), f, t0, Arrived(f, evs[..|evs| - 1]), evs[|evs| - 1])
  {
    CalmLast(s, f, t0, evs);
    RunKeepsInv(s, evs[..|evs| - 1]);
    assert !Mine(f, evs[|evs| - 1]) ==> Bystander(f, evs, |evs| - 1);
  }

  lemma PoisedMine(s: State, f: Source, t0: nat, got: set<nat>, e: Event)
    requires Poised(s, f, t0, got, e) && Mine(f, e)
    ensures Progress(f, t0, got + {e.payload.fragmentIndex as nat},
                     Accept(s, e.payload, e.now).0, Accept(s, e.payload, e.now).1)
  {
    AcceptMine(s, f, t0, got, e);
  }

  lemma CalmMine(s: State, f: Source, t0: nat, evs: seq<Event>)
    requires evs != [] && Admissible(evs) && Mine(f, evs[|evs| - 1])
    requires Poised(Run(s, evs[..|evs| - 1]), f, t0, Arrived(f, evs[..|evs| - 1]), evs[|evs| - 1])
    ensures Progress(f, t0, Arrived(f, evs), Run(s, evs), Output(s, evs, |evs| - 1))
  {
    ArrivedGrows(f, evs);
    PoisedMine(Run(s, evs[..|evs| - 1]), f, t0, Arrived(f, evs[..|evs| - 1]), evs[|evs| - 1]);
  }

  lemma CalmOther(s: State, f: Source, t0: nat, evs: seq<Event>)
    requires evs != [] && Admissible(evs) && !Mine(f, evs[|evs| - 1]) && Others(f, Run(s, evs)) < MAX_PARTIAL_FRAMES
    requires Poised(Run(s, evs[..|evs| - 1]), f, t0, Arrived(f, evs[..|evs| - 1]), evs[|evs| - 1])
    ensures Arrived(f, evs) == Arrived(f, evs[..|evs| - 1]) && Tracks(f, t0, Arrived(f, evs), Run(s, evs))
  {
    ArrivedGrows(f, evs);
    AcceptOther(Run(s, evs[..|evs| - 1]), f, t0, Arrived(f, evs[..|evs| - 1]), evs[|evs| - 1]);
  }

  /** One event of a calm run, given what the events before it left. */
  lemma CalmStep(s: State, f: Source, t0: nat, evs: seq<Event>)
    requires Underway(s, f, t0, evs)
    ensures if Mine(f, evs[|evs| - 1])
            then Progress(f, t0, Arrived(f, evs), Run(s, evs), Output(s, evs, |evs| - 1))
                 && !Crowded(Run(s, evs), f.frameId)
            else Arrived(f, evs) == Arrived(f, evs[..|evs| - 1]) && Tracks(f, t0, Arrived(f, evs), Run(s, evs))
  {
    LastFacts(s, f, t0, evs);
    CalmRoom(s, f, t0, evs);
    if Mine(f, evs[|evs| - 1]) {
      CalmMine(s, f, t0, evs);
    } else {
      CalmOther(s, f, t0, evs);
    }
  }

  lemma OutputPrefix(s: State, evs: seq<Event>, n: nat, i: nat)
    requires Admissible(evs) && i < n <= |evs|
    ensures Output(s, evs[..n], i) == Output(s, evs, i) && evs[..n][i] == evs[i]
  {
    assert evs[..n][..i] == evs[..i];
  }

  lemma MonotoneFull(f: Source, evs: seq<Event>)
    requires evs != [] && HasAll(f, evs[..|evs| - 1])
    ensures HasAll(f, evs)
  {
    ArrivedGrows(f, evs);
  }

  ghost predicate SilentAt(s: State, f: Source, evs: seq<Event>, i: nat)
    requires Admissible(evs) && i < |evs|
  {
    Mine(f, evs[i]) ==> Output(s, evs, i) == None
  }

  /** No event that carried a fragment of `f` released a frame. */
  ghost predicate Silent(s: State, f: Source, evs: seq<Event>)
    requires Admissible(evs)
  {
    forall i :: 0 <= i < |evs| ==> SilentAt(s, f, evs, i)
  }

  lemma SilentPrefix(s: State, f: Source, evs: seq<Event>, n: nat, i: nat)
    requires i < n <= |evs| && Admissible(evs) && Admissible(evs[..n])
    ensures SilentAt(s, f, evs[..n], i) == SilentAt(s, f, evs, i)
  {
    OutputPrefix(s, evs, n, i);
  }

  lemma SilentGrows(s: State, f: Source, evs: seq<Event>)
    requires evs != [] && Admissible(evs) && Admissible(evs[..|evs| - 1])
    requires Silent(s, f, evs[..|evs| - 1]) && SilentAt(s, f, evs, |evs| - 1)
    ensures Silent(s, f, evs)
  {
    forall i | 0 <= i < |evs|
      ensures SilentAt(s, f, evs, i)
    {
      if i < |evs| - 1 {
        SilentPrefix(s, f, evs, |evs| - 1, i);
      }
    }
  }

  /** A calm step that does not complete the frame keeps tracking it and releases nothing. */
  lemma CalmIncomplete(s: State, f: Source, t0: nat, evs: seq<Event>)
    requires Underway(s, f, t0, evs) && !HasAll(f, evs)
    ensures Tracks(f, t0, Arrived(f, evs), Run(s, evs))
    ensures SilentAt(s, f, evs, |evs| - 1)
  {
    CalmStep(s, f, t0, evs);
  }

  lemma {:induction false} RunTracks(s: State, f: Source, t0: nat, evs: seq<Event>)
    requires Sendable(f) && Inv(s) && f.frameId !in s.partials
    requires Admissible(evs) && Bystanders(f, evs) && Calm(s, f, t0, evs) && !HasAll(f, evs)
    ensures Tracks(f, t0, Arrived(f, evs), Run(s, evs))
    ensures Silent(s, f, evs)
    decreases |evs|
  {
    if evs != [] {
      var n := |evs| - 1;
      var pre := evs[..n];
      if HasAll(f, pre) {
        MonotoneFull(f, evs);
      }
      CalmPrefix(s, f, t0, evs, n);
      BystandersPrefix(f, evs, n);
      RunTracks(s, f, t0, pre);
      CalmIncomplete(s, f, t0, evs);
      SilentGrows(s, f, evs);
    }
  }

  /**
   Delivery: fragments of a sendable frame in any order, with duplicates and any other payloads
   between them, give back exactly that frame at the event that brings the last missing fragment,
   and nothing before it.
   */
  lemma LastFragmentDelivers(s: State, f: Source, t0: nat, evs: seq<Event>)
    requires Sendable(f) && Inv(s) && f.frameId !in s.partials && evs != []
    requires Admissible(evs) && Bystanders(f, evs) && Calm(s, f, t0, evs)
    requires HasAll(f, evs) && !HasAll(f, evs[..|evs| - 1])
    ensures Output(s, evs, |evs| - 1) == Some(Delivered(f))
    ensures f.frameId !in Run(s, evs).partials
    ensures forall i :: 0 <= i < |evs| - 1 && Mine(f, evs[i]) ==> Output(s, evs, i) == None
  {
    var n := |evs| - 1;
    var pre := evs[..n];
    CalmPrefix(s, f, t0, evs, n);
    BystandersPrefix(f, evs, n);
    RunTracks(s, f, t0, pre);
    CalmStep(s, f, t0, evs);
    forall i | 0 <= i < n && Mine(f, evs[i])
      ensures Output(s, evs, i) == None
    {
      SilentPrefix(s, f, evs, n, i);
      assert SilentAt(s, f, pre, i);
    }
  }

  /**
   Why soundness needs a hypothesis: two frames of two fragments that share id, timestamp and count, and
   differ in both fragments, can be spliced into one that was never sent.
   */
  lemma ReuseSplices(f: Source, g: Source)
    requires Sendable(f) && Sendable(g) && f.frameId == g.frameId && f.ptsUs == g.ptsUs
    requires |Pieces(f.data)| == |Pieces(g.data)| == 2
    requires Pieces(f.data)[0] != Pieces(g.data)[0] && Pieces(f.data)[1] != Pieces(g.data)[1]
    ensures var evs := [Event(FragmentVideo(f)[0], 0), Event(FragmentVideo(g)[1], 0)];
            && Admissible(evs) && FromSender({f, g}, evs)
            && Output(Empty(), evs, 1).Some?
            && Output(Empty(), evs, 1).value.data == Pieces(f.data)[0] + Pieces(g.data)[1]
            && Output(Empty(), evs, 1).value.data != f.data
            && Output(Empty(), evs, 1).value.data != g.data
  {
    FragmentsCover(f);
    FragmentsCover(g);
    var p, q := FragmentVideo(f)[0], FragmentVideo(g)[1];
    var evs := [Event(p, 0), Event(q, 0)];
    assert IsFragmentOf(f, p) && IsFragmentOf(g, q);
    FirstOfTwo(p);
    RunOne(Event(p, 0));
    assert evs[..1] == [Event(p, 0)];
    SecondOfTwo(Run(Empty(), evs[..1]), p, q);
    TwoPieces(f.data);
    TwoPieces(g.data);
    Mixed(Pieces(f.data)[0], Pieces(f.data)[1], Pieces(g.data)[0], Pieces(g.data)[1]);
  }

  lemma Mixed(a: Bytes, b: Bytes, c: Bytes, d: Bytes)
    requires |a| == |c| && a != c && b != d
    ensures a + d != a + b && a + d != c + d
  {
    assert (a + d)[|a|..] == d && (a + b)[|a|..] == b;
    assert (a + d)[..|a|] == a && (c + d)[..|a|] == c;
  }

  lemma SingleIsReturned(s: State, f: Source, now: nat)
    requires Sendable(f) && |Pieces(f.data)| == 1 && f.frameId !in s.partials
    ensures Indexable(FragmentVideo(f)[0])
    ensures Accept(s, FragmentVideo(f)[0], now).1 == Some(Delivered(f))
    ensures f.frameId !in Accept(s, FragmentVideo(f)[0], now).0.partials
  {
    FragmentsCover(f);
    var p := FragmentVideo(f)[0];
    PreparedFacts(s, now);
    assert IsFragmentOf(f, p);
    SingleFragment(f, p, now);
  }

  lemma RunOne(e: Event)
    requires Indexable(e.payload)
    ensures Admissible([e]) && Run(Empty(), [e]) == Accept(Empty(), e.payload, e.now).0
  {
    var one := [e];
    assert one[..0] == [];
    assert Run(Empty(), one[..0]) == Empty();
  }

  /** Why nothing says "at most once": a completed frame is not remembered, so a late copy delivers it again. */
  lemma CopyIsDeliveredAgain(f: Source, now: nat)
    requires Sendable(f) && |Pieces(f.data)| == 1
    ensures var evs := [Event(FragmentVideo(f)[0], now), Event(FragmentVideo(f)[0], now)];
            && Admissible(evs)
            && Output(Empty(), evs, 0) == Some(Delivered(f)) && Output(Empty(), evs, 1) == Some(Delivered(f))
  {
    var p := FragmentVideo(f)[0];
    var evs := [Event(p, now), Event(p, now)];
    SingleIsReturned(Empty(), f, now);
    RunOne(Event(p, now));
    assert evs[..0] == [] && evs[..1] == [Event(p, now)];
    SingleIsReturned(Run(Empty(), evs[..1]), f, now);
  }

  lemma TwoPieces(data: Bytes)
    requires |Pieces(data)| == 2
    ensures data == Pieces(data)[0] + Pieces(data)[1]
    ensures |Pieces(data)[0]| == MAX_VIDEO_FRAGMENT
  {
    PiecesCover(data);
    var ps := Pieces(data);
    var tail: seq<Bytes> := ps[1..];
    assert tail == [ps[1]] && tail[1..] == [];
    assert Concat(tail) == ps[1] + [];
  }

  lemma FirstOfTwo(p: Payload)
    requires p.VideoFrame? && p.fragmentIndex == 0 && p.fragmentCount == 2
    ensures var m := Accept(Empty(), p, 0).0.partials;
            && p.frameId in m
            && m[p.frameId] == Partial(p.kind, p.temporalLayer, p.ptsUs, [Some(p.data), None], 1, 0)
  {
    PreparedFacts(Empty(), 0);
    var s := Prepared(Empty(), 0);
    var entry := Entry(s, p, 0);
    assert entry.slots == [None, None];
    assert Filled(entry, p).slots == [Some(p.data), None];
    InsertedSize(s, p, 0);
    ReplaceSize(Inserted(s, p, 0).partials, p.frameId, Filled(entry, p));
  }

  lemma ReplaceSize(m: map<U32, Partial>, id: U32, p: Partial)
    requires id in m
    ensures |m[id := p]| == |m|
  {
    assert m[id := p].Keys == m.Keys;
    assert |m[id := p]| == |m[id := p].Keys|;
  }

  lemma SecondOfTwo(s: State, p: Payload, q: Payload)
    requires p.VideoFrame? && q.VideoFrame? && q.fragmentIndex == 1 && q.fragmentCount == 2
    requires p.frameId == q.frameId && p.ptsUs == q.ptsUs && q.frameId in s.partials
    requires s.partials[q.frameId] == Partial(p.kind, p.temporalLayer, p.ptsUs, [Some(p.data), None], 1, 0)
    ensures Accept(s, q, 0).1.Some? && Accept(s, q, 0).1.value.data == p.data + q.data
  {
    PreparedFacts(s, 0);
    var e := Prepared(s, 0);
    assert !IsExpired(s.partials[q.frameId], 0);
    var entry := Entry(e, q, 0);
    assert entry == s.partials[q.frameId];
    var slots := Filled(entry, q).slots;
    assert slots == [Some(p.data), Some(q.data)];
    assert Flatten(slots) == p.data + q.data by {
      var tail: seq<Option<Bytes>> := slots[1..];
      assert tail == [Some(q.data)] && tail[1..] == [];
      assert Flatten(tail) == q.data + [];
    }
  }

  // ----- On the wire -----

  datatype Datagram = Datagram(bytes: Bytes, now: nat)

  /** What the receiver makes of a message: its payload, or nothing of interest if it is malformed. */
  function Parse(b: Bytes): (p: Payload)
    ensures Indexable(p)
  {
    match DecodeFrame(b)
    case Ok(frame) => frame.payload
    case Err(_) => Unknown(0, [])
  }

  ghost function Events(ds: seq<Datagram>): (evs: seq<Event>)
    ensures |evs| == |ds| && Admissible(evs)
  {
    seq(|ds|, i requires 0 <= i < |ds| => Event(Parse(ds[i].bytes), ds[i].now))
  }

  /** `b` is the encoding of a well-formed control frame with header `h` that carries fragment `k` of `f`. */
  ghost predicate Carries(f: Source, k: nat, h: Header, b: Bytes) {
    && k < |FragmentVideo(f)| && WellFormed(ControlFrame(h, FragmentVideo(f)[k]))
    && b == EncodeFrame(ControlFrame(h, FragmentVideo(f)[k]))
  }

  lemma CarriedParses(f: Source, k: nat, h: Header, b: Bytes)
    requires Sendable(f) && Carries(f, k, h, b)
    ensures Parse(b) == FragmentVideo(f)[k]
    ensures IsFragmentOf(f, Parse(b)) && Parse(b).frameId == f.frameId && Parse(b).fragmentIndex == k
  {
    ControlProofs.RoundTripExactly(ControlFrame(h, FragmentVideo(f)[k]));
    FragmentsCover(f);
  }

  /**
   `tags[i]` names the fragment datagram `i` carries, under header `headers[i]`. Untagged datagrams are
   arbitrary foreign bytes, except that one that parses to a fragment under the id of `f` must conflict
   with `f` and come after a fragment of `f`.
   */
  ghost predicate Tagged(f: Source, ds: seq<Datagram>, tags: seq<Option<nat>>, headers: seq<Header>) {
    && |tags| == |headers| == |ds|
    && forall i :: 0 <= i < |ds| ==> TagOk(f, ds[i].bytes, tags[..i], tags[i], headers[i])
  }

  ghost predicate TagOk(f: Source, b: Bytes, before: seq<Option<nat>>, tag: Option<nat>, h: Header) {
    match tag
    case Some(k) => Carries(f, k, h, b)
    case None => SameId(f, Parse(b)) ==> Conflicts(f, Parse(b)) && exists j :: 0 <= j < |before| && before[j].Some?
  }

  lemma TaggedPrefix(f: Source, ds: seq<Datagram>, tags: seq<Option<nat>>, headers: seq<Header>, n: nat)
    requires Tagged(f, ds, tags, headers) && n <= |ds|
    ensures Tagged(f, ds[..n], tags[..n], headers[..n]) && Events(ds[..n]) == Events(ds)[..n]
  {
    forall i | 0 <= i < n
      ensures TagOk(f, ds[..n][i].bytes, tags[..n][..i], tags[..n][i], headers[..n][i])
    {
      assert tags[..n][..i] == tags[..i];
    }
  }

  ghost predicate Complete(f: Source, tags: seq<Option<nat>>) {
    forall k: nat :: k < |FragmentVideo(f)| ==> Some(k) in tags
  }

  /** A datagram carries a fragment of `f` exactly when it is tagged, and then the one the tag names. */
  lemma TagIsMine(f: Source, ds: seq<Datagram>, tags: seq<Option<nat>>, headers: seq<Header>, i: nat)
    requires Sendable(f) && Tagged(f, ds, tags, headers) && i < |ds|
    ensures Mine(f, Events(ds)[i]) <==> tags[i].Some?
    ensures tags[i].Some? ==> Events(ds)[i].payload.VideoFrame? && Events(ds)[i].payload.fragmentIndex == tags[i].value
  {
    var p := Parse(ds[i].bytes);
    if tags[i].Some? {
      CarriedParses(f, tags[i].value, headers[i], ds[i].bytes);
    } else if IsFragmentOf(f, p) {
      FragmentFields(f, p);
    }
  }

  lemma TagsBystand(f: Source, ds: seq<Datagram>, tags: seq<Option<nat>>, headers: seq<Header>)
    requires Sendable(f) && Tagged(f, ds, tags, headers)
    ensures Bystanders(f, Events(ds))
  {
    var evs := Events(ds);
    forall i | 0 <= i < |evs| && !Mine(f, evs[i])
      ensures Bystander(f, evs, i)
    {
      TagIsMine(f, ds, tags, headers, i);
      if SameId(f, evs[i].payload) {
        var j :| 0 <= j < |tags[..i]| && tags[..i][j].Some?;
        TagIsMine(f, ds, tags, headers, j);
        assert evs[..i][j] == evs[j];
        assert evs[j].payload.fragmentIndex in Arrived(f, evs[..i]);
      }
    }
  }

  lemma TagsComplete(f: Source, ds: seq<Datagram>, tags: seq<Option<nat>>, headers: seq<Header>)
    requires Sendable(f) && Tagged(f, ds, tags, headers)
    ensures HasAll(f, Events(ds)) <==> Complete(f, tags)
  {
    var evs := Events(ds);
    forall i | 0 <= i < |ds|
      ensures Mine(f, evs[i]) <==> tags[i].Some?
      ensures tags[i].Some? ==> evs[i].payload.VideoFrame? && evs[i].payload.fragmentIndex == tags[i].value
    {
      TagIsMine(f, ds, tags, headers, i);
    }
    forall k: nat | k < |FragmentVideo(f)|
      ensures k in Arrived(f, evs) <==> Some(k) in tags
    {
      if k in Arrived(f, evs) {
        var i :| 0 <= i < |evs| && Mine(f, evs[i]) && evs[i].payload.fragmentIndex == k;
        assert tags[i] == Some(k);
      }
      if Some(k) in tags {
        var i :| 0 <= i < |tags| && tags[i] == Some(k);
        assert Mine(f, evs[i]);
      }
    }
    FragmentsCover(f);
  }

  lemma TagsArrive(f: Source, ds: seq<Datagram>, tags: seq<Option<nat>>, headers: seq<Header>)
    requires Sendable(f) && Tagged(f, ds, tags, headers)
    ensures Bystanders(f, Events(ds))
    ensures forall i :: 0 <= i < |ds| ==> (Mine(f, Events(ds)[i]) <==> tags[i].Some?)
    ensures HasAll(f, Events(ds)) <==> Complete(f, tags)
  {
    TagsBystand(f, ds, tags, headers);
    TagsComplete(f, ds, tags, headers);
    forall i | 0 <= i < |ds|
      ensures Mine(f, Events(ds)[i]) <==> tags[i].Some?
    {
      TagIsMine(f, ds, tags, headers, i);
    }
  }

  /**
   End to end over bytes. A sendable frame is fragmented and each fragment is encoded under any
   header. The receiver sees those messages in any order, repeated or not, among arbitrary other
   bytes: malformed, belonging to other frames, or, once a fragment of this frame has arrived, video
   fragments under the same id with another timestamp or count. If its id was not already in use, its messages
   fall within 400 ms of the first and at most fifteen other frames are partial, then the frame
   comes back with its exact bytes, kind, layer and timestamp when its last missing message lands,
   and not earlier.
   */
  lemma WireRoundTrip(s: State, f: Source, t0: nat, ds: seq<Datagram>, tags: seq<Option<nat>>, headers: seq<Header>)
    requires Sendable(f) && Inv(s) && f.frameId !in s.partials && ds != []
    requires Tagged(f, ds, tags, headers) && Calm(s, f, t0, Events(ds))
    requires Complete(f, tags) && !Complete(f, tags[..|tags| - 1])
    ensures Output(s, Events(ds), |ds| - 1) == Some(Delivered(f))
    ensures f.frameId !in Run(s, Events(ds)).partials
    ensures forall i :: 0 <= i < |ds| - 1 && tags[i].Some? ==> Output(s, Events(ds), i) == None
  {
    var n := |ds| - 1;
    TagsArrive(f, ds, tags, headers);
    TaggedPrefix(f, ds, tags, headers, n);
    TagsArrive(f, ds[..n], tags[..n], headers[..n]);
    LastFragmentDelivers(s, f, t0, Events(ds));
  }
}
