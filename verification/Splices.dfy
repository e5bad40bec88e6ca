/**
 What can come out when sent frames may share an id, a timestamp and a fragment count: exactly the
 mixtures of their fragments. From this follows when every output was sent.
 */
module Splices {
  import opened Prelude
  import opened Control
  import opened Fragments
  import opened Reassembly
  import opened ReassemblyProofs

  ghost predicate AllSendable(sent: set<Source>) {
    forall f <- sent :: Sendable(f)
  }

  /** The receiver cannot tell fragments of the two frames apart. */
  predicate Alike(f: Source, g: Source) {
    f.frameId == g.frameId && f.ptsUs == g.ptsUs && |Pieces(f.data)| == |Pieces(g.data)|
  }

  /** One sent frame for each fragment position, all alike. */
  ghost predicate Cast(sent: set<Source>, c: seq<Source>) {
    c != [] && forall k :: 0 <= k < |c| ==> c[k] in sent && Alike(c[k], c[0]) && |Pieces(c[k].data)| == |c|
  }

  /** Fragment `k` from the frame cast for position `k`. */
  ghost function Mixed(sent: set<Source>, c: seq<Source>): seq<Bytes>
    requires Cast(sent, c)
  {
    seq(|c|, k requires 0 <= k < |c| => Pieces(c[k].data)[k])
  }

  /** What a receiver sees of frame `f` when its bytes are `pieces`. */
  function Seen(f: Source, pieces: seq<Bytes>): EncodedFrame {
    Delivered(f).(data := Concat(pieces))
  }

  /** A frame put together from alike sent frames, under the kind and layer of one of those. */
  ghost predicate IsMixture(sent: set<Source>, c: seq<Source>, j: nat, e: EncodedFrame) {
    Cast(sent, c) && j < |c| && e == Seen(c[j], Mixed(sent, c))
  }

  ghost predicate Mixture(sent: set<Source>, e: EncodedFrame) {
    exists c, j: nat :: IsMixture(sent, c, j, e)
  }

  ghost predicate EmitsAt(sent: set<Source>, evs: seq<Event>, i: nat, e: EncodedFrame) {
    Admissible(evs) && FromSender(sent, evs) && i < |evs| && Output(Empty(), evs, i) == Some(e)
  }

  /** Some run over fragments of the sent frames emits `e`. */
  ghost predicate Emits(sent: set<Source>, e: EncodedFrame) {
    exists evs, i: nat :: EmitsAt(sent, evs, i, e)
  }

  ghost predicate WasSent(sent: set<Source>, e: EncodedFrame) {
    exists f :: f in sent && e == Delivered(f)
  }

  /** Every output of every run over fragments of the sent frames was sent. */
  ghost predicate Faithful(sent: set<Source>) {
    forall e :: Emits(sent, e) ==> WasSent(sent, e)
  }

  // ----- Whatever comes out is a mixture -----

  /** Each filled slot holds the fragment of the frame cast for it; kind and layer are those of frame `j` of the cast. */
  ghost predicate Draws(sent: set<Source>, c: seq<Source>, j: nat, id: U32, p: Partial) {
    && Cast(sent, c) && j < |c| && |p.slots| == |c|
    && id == c[0].frameId && p.ptsUs == c[0].ptsUs
    && p.kind == WireCode(c[j].kind) && p.temporalLayer == c[j].temporalLayer
    && forall k :: 0 <= k < |c| && p.slots[k].Some? ==> p.slots[k].value == Pieces(c[k].data)[k]
  }

  ghost predicate Drawn(sent: set<Source>, id: U32, p: Partial) {
    exists c, j: nat :: Draws(sent, c, j, id, p) && p.slots[j].Some?
  }

  ghost predicate AllDrawn(sent: set<Source>, m: map<U32, Partial>) {
    forall id <- m :: Drawn(sent, id, m[id])
  }

  lemma AssembleDrawn(sent: set<Source>, c: seq<Source>, j: nat, id: U32, p: Partial)
    requires Draws(sent, c, j, id, p) && p.filled == Occupied(p.slots) && p.filled == |p.slots|
    ensures IsMixture(sent, c, j, Assemble(p))
  {
    OccupiedBound(p.slots);
    FlattenComplete(p.slots, Mixed(sent, c));
  }

  /** The fields of a fragment of `g`. */
  lemma CutFrom(g: Source, p: Payload)
    requires Sendable(g) && IsFragmentOf(g, p)
    ensures p.frameId == g.frameId && p.ptsUs == g.ptsUs && p.fragmentCount == |Pieces(g.data)|
    ensures p.kind == WireCode(g.kind) && p.temporalLayer == g.temporalLayer
    ensures p.fragmentIndex < |Pieces(g.data)| && p.data == Pieces(g.data)[p.fragmentIndex]
  {
    FragmentsCover(g);
  }

  lemma Recast(sent: set<Source>, c: seq<Source>, i: nat, g: Source)
    requires Cast(sent, c) && i < |c| && g in sent && Alike(g, c[0]) && |Pieces(g.data)| == |c|
    ensures Cast(sent, c[i := g])
    ensures c[i := g][0].frameId == c[0].frameId && c[i := g][0].ptsUs == c[0].ptsUs
  {
  }

  /** Filling slot `i` with a fragment of `g` recasts position `i`. */
  lemma FillDrawn(sent: set<Source>, c: seq<Source>, j: nat, id: U32, entry: Partial, p: Payload, g: Source)
    requires Draws(sent, c, j, id, entry) && g in sent && Sendable(g) && IsFragmentOf(g, p) && id == p.frameId
    requires |entry.slots| == p.fragmentCount && entry.ptsUs == p.ptsUs && p.fragmentIndex < |entry.slots|
    requires j == p.fragmentIndex ==> c[j] == g
    ensures Draws(sent, c[p.fragmentIndex := g], j, id, Filled(entry, p))
  {
    CutFrom(g, p);
    Recast(sent, c, p.fragmentIndex, g);
    var d, f := c[p.fragmentIndex := g], Filled(entry, p);
    assert d[j] == c[j];
    forall k | 0 <= k < |d| && f.slots[k].Some?
      ensures f.slots[k].value == Pieces(d[k].data)[k]
    {
      if k != p.fragmentIndex {
        assert f.slots[k] == entry.slots[k] && d[k] == c[k];
      }
    }
  }

  /** The entry a consistent fragment meets, fresh or held, with a cast to which the fragment can be added. */
  lemma EntryDrawn(sent: set<Source>, s: State, p: Payload, now: nat, g: Source) returns (c: seq<Source>, j: nat)
    requires AllDrawn(sent, s.partials) && g in sent && Sendable(g) && IsFragmentOf(g, p) && Indexable(p)
    requires var entry := Entry(s, p, now);
             |entry.slots| == p.fragmentCount && entry.ptsUs == p.ptsUs && entry.slots[p.fragmentIndex].None?
    ensures Draws(sent, c, j, p.frameId, Entry(s, p, now))
    ensures j == p.fragmentIndex ==> c[j] == g
    ensures j == p.fragmentIndex || Entry(s, p, now).slots[j].Some?
  {
    FragmentsCover(g);
    if p.frameId in s.partials {
      c, j :| Draws(sent, c, j, p.frameId, s.partials[p.frameId]) && s.partials[p.frameId].slots[j].Some?;
    } else {
      c, j := seq(|Pieces(g.data)|, _ => g), p.fragmentIndex;
    }
  }

  lemma StoreDrawn(sent: set<Source>, s: State, p: Payload, entry: Partial, c: seq<Source>, j: nat)
    requires p.VideoFrame? && p.fragmentIndex < |entry.slots| && entry.slots[p.fragmentIndex].None?
    requires entry.filled == Occupied(entry.slots)
    requires Draws(sent, c, j, p.frameId, Filled(entry, p)) && Filled(entry, p).slots[j].Some?
    requires AllDrawn(sent, s.partials - {p.frameId})
    ensures AllDrawn(sent, Store(s, p, entry).0.partials)
    ensures Store(s, p, entry).1.Some? ==> Mixture(sent, Store(s, p, entry).1.value)
  {
    FilledOk(entry, p);
    var f := Filled(entry, p);
    if f.filled == |f.slots| {
      AssembleDrawn(sent, c, j, p.frameId, f);
    } else {
      var m := s.partials[p.frameId := f];
      assert forall id <- m :: id == p.frameId || id in s.partials - {p.frameId};
      assert AllDrawn(sent, m);
      EvictFacts(s.(partials := m));
    }
  }

  /** The shortcut for one-fragment frames returns the frame itself. */
  lemma SingleDrawn(sent: set<Source>, g: Source, p: Payload, now: nat)
    requires g in sent && Sendable(g) && IsFragmentOf(g, p) && p.fragmentCount == 1
    ensures Mixture(sent, Assemble(Partial(p.kind, p.temporalLayer, p.ptsUs, [Some(p.data)], 1, now)))
  {
    FragmentsCover(g);
    var q := Partial(p.kind, p.temporalLayer, p.ptsUs, [Some(p.data)], 1, now);
    assert Occupied(q.slots) == 1 + Occupied(q.slots[1..]);
    AssembleDrawn(sent, [g], 0, g.frameId, q);
  }

  lemma PlaceFits(sent: set<Source>, s: State, p: Payload, now: nat, g: Source)
    requires AllDrawn(sent, s.partials) && AllOk(s.partials)
    requires g in sent && Sendable(g) && IsFragmentOf(g, p) && Indexable(p) && Stores(s, p, now)
    ensures AllDrawn(sent, Place(s, p, now).0.partials)
    ensures Place(s, p, now).1.Some? ==> Mixture(sent, Place(s, p, now).1.value)
  {
    InsertedSize(s, p, now);
    EntryOk(s, p, now);
    var entry := Entry(s, p, now);
    var c, j := EntryDrawn(sent, s, p, now, g);
    FillDrawn(sent, c, j, p.frameId, entry, p, g);
    StoreDrawn(sent, Inserted(s, p, now), p, entry, c[p.fragmentIndex := g], j);
  }

  /** A fragment that is neither stored nor a whole frame leaves the held frames alone. */
  lemma PlaceMisfit(s: State, p: Payload, now: nat)
    requires p.VideoFrame? && Indexable(p)
    requires !Stores(s, p, now) && !(p.fragmentCount == 1 && p.frameId !in s.partials)
    ensures Place(s, p, now).0.partials == s.partials && Place(s, p, now).1.None?
  {
    assert p.frameId in s.partials;
    InsertedSize(s, p, now);
  }

  lemma PlaceDrawn(sent: set<Source>, s: State, p: Payload, now: nat, g: Source)
    requires AllDrawn(sent, s.partials) && AllOk(s.partials)
    requires g in sent && Sendable(g) && IsFragmentOf(g, p) && Indexable(p)
    ensures AllDrawn(sent, Place(s, p, now).0.partials)
    ensures Place(s, p, now).1.Some? ==> Mixture(sent, Place(s, p, now).1.value)
  {
    if p.fragmentCount == 1 && p.frameId !in s.partials {
      SingleDrawn(sent, g, p, now);
    } else if Stores(s, p, now) {
      PlaceFits(sent, s, p, now, g);
    } else {
      PlaceMisfit(s, p, now);
    }
  }

  lemma AcceptDrawn(sent: set<Source>, s: State, p: Payload, now: nat)
    requires AllSendable(sent) && AllDrawn(sent, s.partials) && AllOk(s.partials) && Indexable(p)
    requires p.VideoFrame? ==> exists f :: f in sent && IsFragmentOf(f, p)
    ensures AllDrawn(sent, Accept(s, p, now).0.partials)
    ensures Accept(s, p, now).1.Some? ==> Mixture(sent, Accept(s, p, now).1.value)
  {
    if p.VideoFrame? {
      PreparedFacts(s, now);
      var g :| g in sent && IsFragmentOf(g, p);
      PlaceDrawn(sent, Prepared(s, now), p, now, g);
    }
  }

  lemma {:induction false} RunDrawn(sent: set<Source>, evs: seq<Event>)
    requires AllSendable(sent) && Admissible(evs) && FromSender(sent, evs)
    ensures AllDrawn(sent, Run(Empty(), evs).partials)
    decreases |evs|
  {
    if evs != [] {
      var pre, last := evs[..|evs| - 1], evs[|evs| - 1];
      RunDrawn(sent, pre);
      RunKeepsInv(Empty(), pre);
      AcceptDrawn(sent, Run(Empty(), pre), last.payload, last.now);
    }
  }

  lemma EmittedIsMixture(sent: set<Source>, evs: seq<Event>, i: nat, e: EncodedFrame)
    requires AllSendable(sent) && EmitsAt(sent, evs, i, e)
    ensures Mixture(sent, e)
  {
    RunDrawn(sent, evs[..i]);
    RunKeepsInv(Empty(), evs[..i]);
    AcceptDrawn(sent, Run(Empty(), evs[..i]), evs[i].payload, evs[i].now);
  }

  // ----- Every mixture comes out -----

  ghost function Piece(sent: set<Source>, c: seq<Source>, k: nat): Event
    requires AllSendable(sent) && Cast(sent, c) && k < |c|
  {
    Event(FragmentVideo(c[k])[k], 0)
  }

  /** The payload is fragment `k` of the frame cast for it. */
  ghost predicate Carries(c: seq<Source>, k: nat, p: Payload) {
    && k < |c| && p.VideoFrame? && p.frameId == c[0].frameId && p.ptsUs == c[0].ptsUs
    && p.fragmentIndex == k && p.fragmentCount == |c|
    && p.kind == WireCode(c[k].kind) && p.temporalLayer == c[k].temporalLayer
    && k < |Pieces(c[k].data)| && p.data == Pieces(c[k].data)[k]
  }

  ghost predicate Permissible(sent: set<Source>, e: Event) {
    Indexable(e.payload) && (e.payload.VideoFrame? ==> exists f :: f in sent && IsFragmentOf(f, e.payload))
  }

  ghost predicate AllPermissible(sent: set<Source>, evs: seq<Event>) {
    Admissible(evs) && FromSender(sent, evs)
  }

  lemma PermissibleSnoc(sent: set<Source>, evs: seq<Event>, e: Event)
    requires AllPermissible(sent, evs) && Permissible(sent, e)
    ensures AllPermissible(sent, evs + [e])
  {
    var all := evs + [e];
    forall i | 0 <= i < |all|
      ensures Permissible(sent, all[i])
    {
      if i < |evs| {
        assert all[i] == evs[i];
        assert Indexable(evs[i].payload);
      }
    }
  }

  lemma PieceFacts(sent: set<Source>, c: seq<Source>, k: nat)
    requires AllSendable(sent) && Cast(sent, c) && k < |c|
    ensures Carries(c, k, Piece(sent, c, k).payload)
    ensures Permissible(sent, Piece(sent, c, k))
  {
    FragmentsCover(c[k]);
  }

  lemma FeedOne(sent: set<Source>, c: seq<Source>, k: nat)
    requires AllSendable(sent) && Cast(sent, c) && k < |c|
    ensures AllPermissible(sent, [Piece(sent, c, k)])
  {
    PieceFacts(sent, c, k);
    PermissibleSnoc(sent, [], Piece(sent, c, k));
    assert [] + [Piece(sent, c, k)] == [Piece(sent, c, k)];
  }

  lemma FeedMore(sent: set<Source>, c: seq<Source>, evs: seq<Event>, k: nat)
    requires AllSendable(sent) && Cast(sent, c) && k < |c| && AllPermissible(sent, evs)
    ensures AllPermissible(sent, evs + [Piece(sent, c, k)])
  {
    PieceFacts(sent, c, k);
    PermissibleSnoc(sent, evs, Piece(sent, c, k));
  }

  /** The slots once fragment `j` and the fragments below `m` are in. */
  ghost predicate Progress(sent: set<Source>, c: seq<Source>, j: nat, m: nat, p: Partial) {
    && Cast(sent, c) && j < |c|
    && p.ptsUs == c[0].ptsUs && p.kind == WireCode(c[j].kind) && p.temporalLayer == c[j].temporalLayer && p.firstSeenMs == 0
    && |p.slots| == |c| && p.filled == Occupied(p.slots)
    && forall k :: 0 <= k < |c| ==> p.slots[k] == if k < m || k == j then Some(Pieces(c[k].data)[k]) else None
  }

  /** The only partial frame held is the one in progress. */
  ghost predicate Alone(sent: set<Source>, c: seq<Source>, j: nat, m: nat, s: State) {
    Cast(sent, c) && s.partials.Keys == {c[0].frameId} && Progress(sent, c, j, m, s.partials[c[0].frameId])
  }

  lemma AssembleAlone(sent: set<Source>, c: seq<Source>, j: nat, m: nat, f: Partial)
    requires Progress(sent, c, j, m, f) && f.filled == |c|
    ensures Assemble(f) == Seen(c[j], Mixed(sent, c))
  {
    OccupiedBound(f.slots);
    FlattenComplete(f.slots, Mixed(sent, c));
  }

  lemma StoreAlone(sent: set<Source>, c: seq<Source>, j: nat, m: nat, s: State, p: Payload, entry: Partial)
    requires Cast(sent, c) && j < |c| && s.partials.Keys == {c[0].frameId} && p.VideoFrame? && p.frameId == c[0].frameId
    requires p.fragmentIndex < |entry.slots| && Progress(sent, c, j, m, Filled(entry, p))
    ensures Filled(entry, p).filled < |c| ==> Alone(sent, c, j, m, Store(s, p, entry).0)
    ensures Filled(entry, p).filled == |c| ==> Store(s, p, entry).1 == Some(Seen(c[j], Mixed(sent, c)))
  {
    var f := Filled(entry, p);
    if f.filled == |c| {
      AssembleAlone(sent, c, j, m, f);
    } else {
      var m' := s.partials[p.frameId := f];
      assert m'.Keys == {p.frameId};
      assert |m'| == |m'.Keys|;
    }
  }

  lemma PreparedNow(s: State)
    requires forall id <- s.partials :: s.partials[id].firstSeenMs == 0
    ensures Prepared(s, 0).partials == s.partials
  {
    PreparedFacts(s, 0);
  }

  /** The first fragment, when there are others to come. */
  lemma FirstPiece(sent: set<Source>, c: seq<Source>, j: nat)
    requires AllSendable(sent) && Cast(sent, c) && j < |c| && |c| >= 2
    ensures var e := Piece(sent, c, j);
            Indexable(e.payload) && Alone(sent, c, j, 0, Accept(Empty(), e.payload, 0).0)
  {
    PieceFacts(sent, c, j);
    var p := Piece(sent, c, j).payload;
    var s := Prepared(Empty(), 0);
    PreparedNow(Empty());
    var entry := Entry(s, p, 0);
    OccupiedNone(entry.slots);
    OccupiedFill(entry.slots, j, p.data);
    StoreAlone(sent, c, j, 0, Inserted(s, p, 0), p, entry);
  }

  /** Whether fragment `m` is the only one missing. */
  predicate Completes(n: nat, j: nat, m: nat) {
    m + 1 == n || (m + 2 == n && j == m + 1)
  }

  lemma FillProgress(sent: set<Source>, c: seq<Source>, j: nat, m: nat, entry: Partial, p: Payload)
    requires Progress(sent, c, j, m, entry) && Carries(c, m, p) && m != j
    ensures Progress(sent, c, j, m + 1, Filled(entry, p))
    ensures Filled(entry, p).filled <= |c| && (Filled(entry, p).filled == |c| <==> Completes(|c|, j, m))
  {
    OccupiedFill(entry.slots, m, p.data);
    var f := Filled(entry, p);
    OccupiedBound(f.slots);
    if !Completes(|c|, j, m) {
      var k := if j == m + 1 then m + 2 else m + 1;
      assert f.slots[k].None?;
    }
  }

  /** One more fragment: it joins the others or, as the last missing one, releases the frame. */
  lemma NextPiece(sent: set<Source>, c: seq<Source>, j: nat, m: nat, s: State)
    requires AllSendable(sent) && Alone(sent, c, j, m, s) && m < |c| && m != j
    ensures var e := Piece(sent, c, m);
            && Indexable(e.payload)
            && var r := Accept(s, e.payload, 0);
               if Completes(|c|, j, m) then r.1 == Some(Seen(c[j], Mixed(sent, c))) else Alone(sent, c, j, m + 1, r.0)
  {
    PieceFacts(sent, c, m);
    var p := Piece(sent, c, m).payload;
    PreparedNow(s);
    var s1 := Prepared(s, 0);
    var entry := Entry(s1, p, 0);
    InsertedSize(s1, p, 0);
    FillProgress(sent, c, j, m, entry, p);
    StoreAlone(sent, c, j, m + 1, s1, p, entry);
  }

  /** A run after which fragment `j` and the fragments below `m` are in, and nothing else. */
  ghost predicate Fed(sent: set<Source>, c: seq<Source>, j: nat, m: nat, evs: seq<Event>) {
    AllPermissible(sent, evs) && Alone(sent, c, j, m, Run(Empty(), evs))
  }

  /** The fragment that names the kind and layer goes first. */
  lemma FeedFirst(sent: set<Source>, c: seq<Source>, j: nat)
    requires AllSendable(sent) && Cast(sent, c) && j < |c| && |c| >= 2
    ensures Fed(sent, c, j, 0, [Piece(sent, c, j)])
  {
    var first := Piece(sent, c, j);
    FeedOne(sent, c, j);
    FirstPiece(sent, c, j);
    RunSnoc(Empty(), [], first);
    assert [] + [first] == [first];
  }

  /** Then the others, in order. */
  lemma FeedNext(sent: set<Source>, c: seq<Source>, j: nat, m: nat, evs: seq<Event>)
    requires AllSendable(sent) && Cast(sent, c) && j < |c| && Fed(sent, c, j, m, evs) && m < |c| && m != j
    ensures var more := evs + [Piece(sent, c, m)];
            if Completes(|c|, j, m) then EmitsAt(sent, more, |evs|, Seen(c[j], Mixed(sent, c)))
            else Fed(sent, c, j, m + 1, more)
  {
    NextPiece(sent, c, j, m, Run(Empty(), evs));
    FeedMore(sent, c, evs, m);
    RunSnoc(Empty(), evs, Piece(sent, c, m));
  }

  lemma FeedSkips(sent: set<Source>, c: seq<Source>, j: nat, evs: seq<Event>)
    requires Fed(sent, c, j, j, evs)
    ensures Fed(sent, c, j, j + 1, evs)
  {
    assert Progress(sent, c, j, j + 1, Run(Empty(), evs).partials[c[0].frameId]);
  }

  /** Feeding the rest ends with the mixture. */
  lemma {:induction false} FeedRest(sent: set<Source>, c: seq<Source>, j: nat, m: nat, evs: seq<Event>)
    requires AllSendable(sent) && Cast(sent, c) && j < |c| && Fed(sent, c, j, m, evs)
    requires m < |c| && !(m == j && m + 1 == |c|)
    ensures Emits(sent, Seen(c[j], Mixed(sent, c)))
    decreases |c| - m
  {
    if m == j {
      FeedSkips(sent, c, j, evs);
      FeedRest(sent, c, j, m + 1, evs);
    } else {
      var more := evs + [Piece(sent, c, m)];
      FeedNext(sent, c, j, m, evs);
      if !Completes(|c|, j, m) {
        FeedRest(sent, c, j, m + 1, more);
      }
    }
  }

  lemma MixtureIsEmitted(sent: set<Source>, c: seq<Source>, j: nat, e: EncodedFrame)
    requires AllSendable(sent) && IsMixture(sent, c, j, e)
    ensures Emits(sent, e)
  {
    if |c| == 1 {
      OnlyPiece(sent, c, e);
    } else {
      FeedFirst(sent, c, j);
      FeedRest(sent, c, j, 0, [Piece(sent, c, j)]);
    }
  }

  lemma OnlyPiece(sent: set<Source>, c: seq<Source>, e: EncodedFrame)
    requires AllSendable(sent) && IsMixture(sent, c, 0, e) && |c| == 1
    ensures Emits(sent, e)
  {
    var evs := [Piece(sent, c, 0)];
    FeedOne(sent, c, 0);
    PieceFacts(sent, c, 0);
    PreparedNow(Empty());
    assert evs[..0] == [];
    var p := evs[0].payload;
    FlattenComplete([Some(p.data)], Mixed(sent, c));
    assert EmitsAt(sent, evs, 0, e);
  }

  /**
   Exactly what can come out. Whatever set of frames is sent, and under every loss, reordering, duplication,
   expiry and eviction: a frame can be emitted if and only if it is a mixture of alike sent frames.
   */
  lemma EmittedExactly(sent: set<Source>, e: EncodedFrame)
    requires AllSendable(sent)
    ensures Emits(sent, e) <==> Mixture(sent, e)
  {
    if evs, i: nat :| EmitsAt(sent, evs, i, e) {
      EmittedIsMixture(sent, evs, i, e);
    }
    if c, j: nat :| IsMixture(sent, c, j, e) {
      MixtureIsEmitted(sent, c, j, e);
    }
  }

  /** Nothing is ever spliced if and only if every mixture happens to be a sent frame. */
  lemma FaithfulExactly(sent: set<Source>)
    requires AllSendable(sent)
    ensures Faithful(sent) <==> forall e :: Mixture(sent, e) ==> WasSent(sent, e)
  {
    forall e
      ensures Emits(sent, e) <==> Mixture(sent, e)
    {
      EmittedExactly(sent, e);
    }
  }

  // ----- Identified frames -----

  /** Frame id, timestamp and fragment count tell any two sent frames apart. */
  ghost predicate Identified(sent: set<Source>) {
    AllSendable(sent) && forall f, g :: f in sent && g in sent && Alike(f, g) ==> f == g
  }

  /** A cast of one frame only gives that frame back. */
  lemma SoloMixture(sent: set<Source>, c: seq<Source>, f: Source)
    requires Cast(sent, c) && forall k :: 0 <= k < |c| ==> c[k] == f
    ensures Seen(f, Mixed(sent, c)) == Delivered(f)
  {
    assert c[0] == f;
    assert Mixed(sent, c) == Pieces(f.data);
    PiecesCover(f.data);
  }

  /**
   Soundness: if id, timestamp and count identify a sent frame, then whatever is lost, reordered, duplicated,
   expired or evicted, every frame that comes out is one that was sent, byte for byte.
   */
  lemma EveryOutputWasSent(sent: set<Source>, evs: seq<Event>, i: nat)
    requires Identified(sent) && Admissible(evs) && FromSender(sent, evs) && i < |evs|
    requires Output(Empty(), evs, i).Some?
    ensures exists f :: f in sent && Output(Empty(), evs, i).value == Delivered(f)
  {
    var e := Output(Empty(), evs, i).value;
    EmittedIsMixture(sent, evs, i, e);
    var c, j: nat :| IsMixture(sent, c, j, e);
    SoloMixture(sent, c, c[j]);
  }

  /** One-fragment frames are never spliced, whatever they share. */
  lemma SinglesAreFaithful(sent: set<Source>)
    requires AllSendable(sent) && forall f <- sent :: |Pieces(f.data)| == 1
    ensures Faithful(sent)
  {
    forall e | Mixture(sent, e)
      ensures WasSent(sent, e)
    {
      var c, j: nat :| IsMixture(sent, c, j, e);
      SoloMixture(sent, c, c[0]);
    }
    FaithfulExactly(sent);
  }

  // ----- The condition, two frames at a time -----

  /** What cutting a nonempty frame yields: full fragments and a nonempty last one. */
  ghost predicate Cut(ps: seq<Bytes>) {
    && ps != [] && 0 < |ps[|ps| - 1]| <= MAX_VIDEO_FRAGMENT
    && forall k :: 0 <= k < |ps| - 1 ==> |ps[k]| == MAX_VIDEO_FRAGMENT
  }

  lemma {:induction false} ChunksAreCut(data: Bytes)
    requires data != []
    ensures Cut(Chunks(data))
    decreases |data|
  {
    if |data| > MAX_VIDEO_FRAGMENT {
      var tail := data[MAX_VIDEO_FRAGMENT..];
      ChunksAreCut(tail);
      assert Chunks(data) == [data[..MAX_VIDEO_FRAGMENT]] + Chunks(tail);
    }
  }

  lemma {:induction false} CutIsUnique(ps: seq<Bytes>)
    requires Cut(ps)
    ensures Concat(ps) != [] && Chunks(Concat(ps)) == ps
    decreases |ps|
  {
    var rest := ps[1..];
    if rest == [] {
      assert Concat(ps) == ps[0] + [] == ps[0];
      assert ps == [ps[0]];
    } else {
      assert Cut(rest);
      CutIsUnique(rest);
      var all := ps[0] + Concat(rest);
      assert all[..MAX_VIDEO_FRAGMENT] == ps[0] && all[MAX_VIDEO_FRAGMENT..] == Concat(rest);
      assert [ps[0]] + rest == ps;
    }
  }

  lemma PiecesAreCut(data: Bytes)
    requires |Pieces(data)| >= 2
    ensures Cut(Pieces(data))
  {
    ChunksAreCut(data);
  }

  /** The fragments of `f`, with fragment `k` taken from `g`. */
  function Exchanged(f: Source, g: Source, k: nat): seq<Bytes>
    requires Alike(f, g) && k < |Pieces(f.data)|
  {
    Pieces(f.data)[k := Pieces(g.data)[k]]
  }

  lemma ExchangedIsCut(f: Source, g: Source, k: nat)
    requires Alike(f, g) && k < |Pieces(f.data)| && |Pieces(f.data)| >= 2
    ensures Pieces(Concat(Exchanged(f, g, k))) == Exchanged(f, g, k)
  {
    PiecesAreCut(f.data);
    PiecesAreCut(g.data);
    CutIsUnique(Exchanged(f, g, k));
  }

  ghost predicate ExchangeSent(sent: set<Source>, f: Source, g: Source, k: nat)
    requires Alike(f, g) && k < |Pieces(f.data)|
  {
    WasSent(sent, Seen(f, Exchanged(f, g, k)))
  }

  /** Replacing one fragment of a sent frame of several by the same fragment of an alike one gives a sent frame. */
  ghost predicate Exchangeable(sent: set<Source>) {
    forall f, g, k: nat :: f in sent && g in sent && Alike(f, g) && k < |Pieces(f.data)| && |Pieces(f.data)| >= 2 ==>
      ExchangeSent(sent, f, g, k)
  }

  /** No two frame ids share a timestamp. */
  ghost predicate OneIdPerTimestamp(sent: set<Source>) {
    forall f, g :: f in sent && g in sent && f.ptsUs == g.ptsUs ==> f.frameId == g.frameId
  }

  /** An exchange is a mixture. */
  lemma ExchangeIsMixture(sent: set<Source>, f: Source, g: Source, k: nat)
    requires f in sent && g in sent && Alike(f, g) && k < |Pieces(f.data)| && |Pieces(f.data)| >= 2
    ensures Mixture(sent, Seen(f, Exchanged(f, g, k)))
  {
    var n := |Pieces(f.data)|;
    var c := seq(n, _ => f)[k := g];
    assert Cast(sent, c);
    assert Mixed(sent, c) == Exchanged(f, g, k);
    assert IsMixture(sent, c, if k == 0 then 1 else 0, Seen(f, Exchanged(f, g, k)));
  }

  /** `h` has the header of `f` and its fragments, except those below `m`, which are the cast's. */
  ghost predicate Reaches(sent: set<Source>, c: seq<Source>, f: Source, m: nat, h: Source) {
    && Cast(sent, c) && m <= |c| && h in sent && Alike(h, c[0])
    && h.kind == f.kind && h.temporalLayer == f.temporalLayer && Alike(f, c[0])
    && forall k :: 0 <= k < |c| ==> Pieces(h.data)[k] == Pieces((if k < m then c[k] else f).data)[k]
  }

  lemma ReachNext(sent: set<Source>, c: seq<Source>, f: Source, m: nat, h: Source) returns (h': Source)
    requires AllSendable(sent) && OneIdPerTimestamp(sent) && Exchangeable(sent)
    requires Reaches(sent, c, f, m, h) && m < |c| && |c| >= 2
    ensures Reaches(sent, c, f, m + 1, h')
  {
    assert ExchangeSent(sent, h, c[m], m);
    h' :| h' in sent && Seen(h, Exchanged(h, c[m], m)) == Delivered(h');
    ExchangedIsCut(h, c[m], m);
    assert Pieces(h'.data) == Exchanged(h, c[m], m);
  }

  lemma {:induction false} ReachAll(sent: set<Source>, c: seq<Source>, f: Source, m: nat, h: Source) returns (h': Source)
    requires AllSendable(sent) && OneIdPerTimestamp(sent) && Exchangeable(sent)
    requires Reaches(sent, c, f, m, h) && |c| >= 2
    ensures Reaches(sent, c, f, |c|, h')
    decreases |c| - m
  {
    h' := h;
    if m < |c| {
      h' := ReachNext(sent, c, f, m, h);
      h' := ReachAll(sent, c, f, m + 1, h');
    }
  }

  lemma MixtureWasSent(sent: set<Source>, c: seq<Source>, j: nat, e: EncodedFrame)
    requires AllSendable(sent) && OneIdPerTimestamp(sent) && Exchangeable(sent) && IsMixture(sent, c, j, e)
    ensures WasSent(sent, e)
  {
    if |c| == 1 {
      SoloMixture(sent, c, c[0]);
    } else {
      var h := ReachAll(sent, c, c[j], 0, c[j]);
      assert Pieces(h.data) == Mixed(sent, c);
      PiecesCover(h.data);
    }
  }

  /**
   When a timestamp belongs to one frame id, it is enough to look at two frames and one fragment at a
   time: nothing is ever spliced if and only if every exchange of one fragment gives a sent frame.
   */
  lemma FaithfulByPairs(sent: set<Source>)
    requires AllSendable(sent) && OneIdPerTimestamp(sent)
    ensures Faithful(sent) <==> Exchangeable(sent)
  {
    FaithfulExactly(sent);
    if Faithful(sent) {
      forall f, g, k: nat | f in sent && g in sent && Alike(f, g) && k < |Pieces(f.data)| && |Pieces(f.data)| >= 2
        ensures ExchangeSent(sent, f, g, k)
      {
        ExchangeIsMixture(sent, f, g, k);
      }
    }
    if Exchangeable(sent) {
      forall e | Mixture(sent, e)
        ensures WasSent(sent, e)
      {
        var c, j: nat :| IsMixture(sent, c, j, e);
        MixtureWasSent(sent, c, j, e);
      }
    }
  }

  // ----- Two frames -----

  /** Whether two alike frames differ in fragment `k` or, for `k` the fragment count, in kind or layer. */
  predicate DifferAt(f: Source, g: Source, k: nat)
    requires Alike(f, g) && k <= |Pieces(f.data)|
  {
    if k < |Pieces(f.data)| then Pieces(f.data)[k] != Pieces(g.data)[k]
    else f.kind != g.kind || f.temporalLayer != g.temporalLayer
  }

  /** The two differ in at most one respect. */
  ghost predicate DifferOnce(f: Source, g: Source)
    requires Alike(f, g)
  {
    forall a: nat, b: nat :: a < b <= |Pieces(f.data)| ==> !(DifferAt(f, g, a) && DifferAt(f, g, b))
  }

  /** Equal fragments, kind and layer make the same frame to a receiver. */
  lemma SameSeen(f: Source, h: Source, pieces: seq<Bytes>)
    requires Sendable(f) && Sendable(h) && f.ptsUs == h.ptsUs && |pieces| >= 2 && Pieces(Concat(pieces)) == pieces
    ensures Seen(f, pieces) == Delivered(h) <==>
            pieces == Pieces(h.data) && f.kind == h.kind && f.temporalLayer == h.temporalLayer
  {
    PiecesCover(h.data);
  }

  lemma PairExchange(f: Source, g: Source, k: nat)
    requires Sendable(f) && Sendable(g) && Alike(f, g) && k < |Pieces(f.data)| && |Pieces(f.data)| >= 2
    ensures ExchangeSent({f, g}, f, g, k) <==>
            !DifferAt(f, g, k) || forall b: nat :: b <= |Pieces(f.data)| && b != k ==> !DifferAt(f, g, b)
  {
    var ps, n := Exchanged(f, g, k), |Pieces(f.data)|;
    ExchangedIsCut(f, g, k);
    SameSeen(f, f, ps);
    SameSeen(f, g, ps);
    assert ps[k] == Pieces(g.data)[k];
    if ps == Pieces(g.data) && !DifferAt(f, g, n) {
      forall b: nat | b <= n && b != k
        ensures !DifferAt(f, g, b)
      {
        assert b < n ==> ps[b] == Pieces(f.data)[b];
      }
    }
    if forall b: nat :: b <= n && b != k ==> !DifferAt(f, g, b) {
      assert !DifferAt(f, g, n);
      forall b: nat | b < n
        ensures ps[b] == Pieces(g.data)[b]
      {
        assert b != k ==> !DifferAt(f, g, b);
      }
    }
  }

  lemma PairExchangeable(f: Source, g: Source)
    requires Sendable(f) && Sendable(g) && Alike(f, g) && |Pieces(f.data)| >= 2
    ensures Exchangeable({f, g}) <==> DifferOnce(f, g)
  {
    var n := |Pieces(f.data)|;
    if Exchangeable({f, g}) {
      forall a: nat, b: nat | a < b <= n && DifferAt(f, g, a)
        ensures !DifferAt(f, g, b)
      {
        PairExchange(f, g, a);
        assert ExchangeSent({f, g}, f, g, a);
      }
    }
    if DifferOnce(f, g) {
      forall x, y, k: nat | x in {f, g} && y in {f, g} && Alike(x, y) && k < |Pieces(x.data)| && |Pieces(x.data)| >= 2
        ensures ExchangeSent({f, g}, x, y, k)
      {
        PairExchange(x, y, k);
        forall b: nat | b <= n && b != k && DifferAt(x, y, k)
          ensures !DifferAt(x, y, b)
        {
          assert DifferAt(x, y, k) == DifferAt(y, x, k) && DifferAt(x, y, b) == DifferAt(y, x, b);
          var lo, hi := Min(b, k), Max(b, k);
          assert !(DifferAt(f, g, lo) && DifferAt(f, g, hi));
        }
        assert {x, y} <= {f, g};
      }
    }
  }

  /**
   Two frames that share id, timestamp and count: some run splices them into a frame nobody sent if and only
   if they have several fragments and differ in two respects, be it two fragments, or a fragment and the
   kind or layer.
   */
  lemma ReuseIsFaithfulExactly(f: Source, g: Source)
    requires Sendable(f) && Sendable(g) && Alike(f, g)
    ensures Faithful({f, g}) <==> |Pieces(f.data)| == 1 || DifferOnce(f, g)
  {
    PiecesCover(f.data);
    if |Pieces(f.data)| == 1 {
      SinglesAreFaithful({f, g});
    } else {
      FaithfulByPairs({f, g});
      PairExchangeable(f, g);
    }
  }
}
