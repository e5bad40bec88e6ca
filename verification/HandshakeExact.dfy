/** Exactly what the readiness pump sends, how it ends, and what it hands over. */
module HandshakeExact {
  import opened Prelude
  import opened Handshake

  // ----- What an iteration sends -----

  /** The pump gets past the first timer and tells the other side that its channels are open. */
  predicate Announces(p: Peer, c: Circumstances) {
    && !(p.connected && c.late && !c.openAtLate)
    && p.allOpen && !p.announced && c.announceOk
  }

  /** The answer to an offer that was accepted, or a local candidate passed on. */
  function Reply(expectOffer: bool, e: Event, c: Circumstances): seq<Message> {
    if expectOffer && e == Inbox(Offer(true)) && c.acceptOk && c.sendOk then [Answer(true)]
    else if e.LocalCandidate? && c.sendOk then [IceCandidate(e.candidate)]
    else []
  }

  /** The announcement a move makes a side send. */
  function HeadOf(y: System, m: Move, side: Side): seq<Message> {
    if m.Turn? && m.side == side && Enabled(y, m) && Announces(At(y, side).peer, m.c) then [ChannelsReady] else []
  }

  /** The reply to the event a move makes a side consume. */
  function ReplyOf(y: System, m: Move, side: Side): seq<Message> {
    var e := Consumed(y, m, side);
    if m.Turn? && e.Some? then Reply(At(y, side).peer.expectOffer, e.value, m.c) else []
  }

  /** What a move makes a side send. */
  function Says(y: System, m: Move, side: Side): seq<Message> {
    HeadOf(y, m, side) + ReplyOf(y, m, side)
  }

  lemma HeadSends(p: Peer, c: Circumstances)
    requires p.status.Running?
    ensures Head(p, c).1 == if Announces(p, c) then [ChannelsReady] else []
    ensures Head(p, c).0.expectOffer == p.expectOffer
  {
  }

  lemma EventSends(p: Peer, open: bool, c: Circumstances)
    ensures OnEvent(p, open, c).1 == Reply(p.expectOffer, c.event, c)
  {
    if c.event.Inbox? {
      match c.event.msg
      case Offer(_) =>
      case Answer(_) =>
      case IceCandidate(_) =>
      case ChannelsReady =>
      case PeerGone =>
      case OtherMessage =>
    }
  }

  lemma MoveSends(y: System, m: Move, side: Side)
    ensures At(Advance(y, m), side).sent == At(y, side).sent + Says(y, m, side)
    ensures At(Advance(y, m), side).peer.expectOffer == At(y, side).peer.expectOffer
  {
    var h := At(y, side);
    if m.Turn? && m.side == side && Enabled(y, m) {
      HeadSends(h.peer, m.c);
      HeadShape(h.peer, m.c);
      var q := Head(h.peer, m.c).0;
      if q.status.Running? {
        EventSends(q, h.open, m.c);
        EventCaused(q, h.open, m.c);
      } else {
        assert HeadOf(y, m, side) + [] == HeadOf(y, m, side);
      }
    } else {
      assert h.sent + [] == h.sent;
    }
  }

  /** Everything a side says during a run, in order. */
  function Said(moves: seq<Move>, side: Side): seq<Message> {
    if moves == [] then []
    else
      var pre := moves[..|moves| - 1];
      Said(pre, side) + Says(Run(pre), moves[|moves| - 1], side)
  }

  lemma Regroup(a: seq<Message>, b: seq<Message>, c: seq<Message>)
    ensures a + b + c == a + (b + c)
  {
  }

  /** Everything a side has sent, over every run: the controller's offer, then what its moves made it say. */
  lemma {:induction false} SentExactly(moves: seq<Move>, side: Side)
    ensures At(Run(moves), side).sent == At(Initial(), side).sent + Said(moves, side)
    ensures At(Run(moves), side).peer.expectOffer == side.Host?
    decreases |moves|
  {
    if moves == [] {
      assert At(Initial(), side).sent + [] == At(Initial(), side).sent;
    } else {
      var pre, m := moves[..|moves| - 1], moves[|moves| - 1];
      SentExactly(pre, side);
      MoveSends(Run(pre), m, side);
      Regroup(At(Initial(), side).sent, Said(pre, side), Says(Run(pre), m, side));
    }
  }

  // ----- Answers and candidates -----

  /** How many consumed offers a side accepted and could answer. */
  function Accepted(moves: seq<Move>, side: Side): nat {
    if moves == [] then 0
    else
      var pre, m := moves[..|moves| - 1], moves[|moves| - 1];
      Accepted(pre, side) +
      if Consumed(Run(pre), m, side) == Some(Inbox(Offer(true))) && m.c.acceptOk && m.c.sendOk then 1 else 0
  }

  /** The local candidates a side consumed and could send, in order. */
  function Passed(moves: seq<Move>, side: Side): seq<Candidate> {
    if moves == [] then []
    else
      var pre, m := moves[..|moves| - 1], moves[|moves| - 1];
      var e := Consumed(Run(pre), m, side);
      Passed(pre, side) + if e.Some? && e.value.LocalCandidate? && m.c.sendOk then [e.value.candidate] else []
  }

  function Count(sent: seq<Message>, x: Message): nat {
    multiset(sent)[x]
  }

  lemma CountOfBoth(a: seq<Message>, b: seq<Message>, x: Message)
    ensures Count(a + b, x) == Count(a, x) + Count(b, x)
  {
    assert multiset(a + b) == multiset(a) + multiset(b);
  }

  /** The candidates among these messages, in order. */
  function CandidatesIn(sent: seq<Message>): seq<Candidate> {
    if sent == [] then []
    else
      var last := sent[|sent| - 1];
      CandidatesIn(sent[..|sent| - 1]) + if last.IceCandidate? then [last.candidate] else []
  }

  lemma {:induction false} CandidatesOfBoth(a: seq<Message>, b: seq<Message>)
    ensures CandidatesIn(a + b) == CandidatesIn(a) + CandidatesIn(b)
    decreases |b|
  {
    if b == [] {
      assert a + b == a;
    } else {
      var n := |b| - 1;
      CandidatesOfBoth(a, b[..n]);
      assert (a + b)[..|a + b| - 1] == a + b[..n];
    }
  }

  predicate OnlyThese(sent: seq<Message>, answers: bool) {
    forall x <- sent :: x.IceCandidate? || x.ChannelsReady? || (answers && x == Answer(true))
  }

  lemma ReplyParts(expectOffer: bool, e: Event, c: Circumstances)
    ensures var reply := Reply(expectOffer, e, c);
            && Count(reply, Answer(true)) == (if expectOffer && e == Inbox(Offer(true)) && c.acceptOk && c.sendOk then 1 else 0)
            && CandidatesIn(reply) == (if e.LocalCandidate? && c.sendOk then [e.candidate] else [])
            && OnlyThese(reply, expectOffer)
  {
    var none: seq<Message> := [];
    assert CandidatesIn(none) == [];
    if e.LocalCandidate? {
      assert [IceCandidate(e.candidate)][..0] == none;
    }
    if e.Inbox? {
      assert [Answer(true)][..0] == none;
    }
  }

  lemma HeadParts(announces: bool)
    ensures var head := if announces then [ChannelsReady] else [];
            Count(head, Answer(true)) == 0 && CandidatesIn(head) == [] && OnlyThese(head, false)
  {
    var none: seq<Message> := [];
    assert CandidatesIn(none) == [];
    assert [ChannelsReady][..0] == none;
  }

  lemma SaysParts(y: System, m: Move, side: Side)
    requires At(y, side).peer.expectOffer == side.Host?
    ensures var says, e := Says(y, m, side), Consumed(y, m, side);
            && Count(says, Answer(true)) ==
                 (if side.Host? && e == Some(Inbox(Offer(true))) && m.c.acceptOk && m.c.sendOk then 1 else 0)
            && CandidatesIn(says) == (if e.Some? && e.value.LocalCandidate? && m.c.sendOk then [e.value.candidate] else [])
            && OnlyThese(says, side.Host?)
  {
    var head, reply := HeadOf(y, m, side), ReplyOf(y, m, side);
    HeadParts(head != []);
    ReplyOfParts(y, m, side);
    CandidatesOfBoth(head, reply);
    CountOfBoth(head, reply, Answer(true));
  }

  lemma ReplyOfParts(y: System, m: Move, side: Side)
    requires At(y, side).peer.expectOffer == side.Host?
    ensures var reply, e := ReplyOf(y, m, side), Consumed(y, m, side);
            && Count(reply, Answer(true)) ==
                 (if side.Host? && e == Some(Inbox(Offer(true))) && m.c.acceptOk && m.c.sendOk then 1 else 0)
            && CandidatesIn(reply) == (if e.Some? && e.value.LocalCandidate? && m.c.sendOk then [e.value.candidate] else [])
            && OnlyThese(reply, side.Host?)
  {
    if Consumed(y, m, side).Some? {
      ReplyParts(side.Host?, m.c.event, m.c);
    }
  }

  lemma {:induction false} SaidParts(moves: seq<Move>, side: Side)
    ensures Count(Said(moves, side), Answer(true)) == if side.Host? then Accepted(moves, Host) else 0
    ensures CandidatesIn(Said(moves, side)) == Passed(moves, side)
    ensures OnlyThese(Said(moves, side), side.Host?)
    decreases |moves|
  {
    if moves != [] {
      var pre, m := moves[..|moves| - 1], moves[|moves| - 1];
      SaidParts(pre, side);
      SentExactly(pre, side);
      var more := Says(Run(pre), m, side);
      SaysParts(Run(pre), m, side);
      CountOfBoth(Said(pre, side), more, Answer(true));
      CandidatesOfBoth(Said(pre, side), more);
    }
  }

  /**
   The host answers each offer it accepts, once, and the controller answers none; each side passes on its local
   candidates, in order and once each. Besides that a side sends announcements only, and the controller
   the one offer it starts with.
   */
  lemma AnswersAndCandidatesExactly(moves: seq<Move>)
    ensures Count(Run(moves).host.sent, Answer(true)) == Accepted(moves, Host)
    ensures CandidatesIn(Run(moves).host.sent) == Passed(moves, Host)
    ensures OnlyThese(Run(moves).host.sent, true)
    ensures CandidatesIn(Run(moves).controller.sent) == Passed(moves, Controller)
    ensures var sent := Run(moves).controller.sent;
            sent != [] && sent[0] == Offer(true) && OnlyThese(sent[1..], false)
  {
    SentExactly(moves, Host);
    SentExactly(moves, Controller);
    SaidParts(moves, Host);
    SaidParts(moves, Controller);
    assert [] + Said(moves, Host) == Said(moves, Host);
    CandidatesOfBoth([Offer(true)], Said(moves, Controller));
    assert ([Offer(true)] + Said(moves, Controller))[1..] == Said(moves, Controller);
  }

  // ----- Announcing at most once -----

  lemma HeadAnnounces(p: Peer, c: Circumstances)
    requires p.status.Running?
    ensures Announces(p, c) ==> Head(p, c).0.announced
    ensures p.announced ==> !Announces(p, c)
    ensures Head(p, c).0.announced && !p.announced && !Head(p, c).0.status.Gone? ==> Announces(p, c)
  {
  }

  /** The announcements sent, against the flag that says one was made. */
  ghost predicate AnnouncedOnce(h: Half) {
    && Count(h.sent, ChannelsReady) <= 1
    && (Count(h.sent, ChannelsReady) == 1 ==> h.peer.announced)
    && (h.peer.announced && !h.peer.status.Gone? ==> Count(h.sent, ChannelsReady) == 1)
  }

  lemma ReplyIsQuiet(expectOffer: bool, e: Event, c: Circumstances)
    ensures Count(Reply(expectOffer, e, c), ChannelsReady) == 0
  {
  }

  lemma IterateAnnounced(p: Peer, open: bool, c: Circumstances)
    requires p.status.Running?
    ensures var q := Iterate(p, open, c).0;
            && q.announced == Head(p, c).0.announced
            && (Head(p, c).0.status.Gone? ==> q.status.Gone?)
  {
    HeadShape(p, c);
    if Head(p, c).0.status.Running? {
      EventCaused(Head(p, c).0, open, c);
    }
  }

  lemma MoveAnnouncesOnce(y: System, m: Move, side: Side)
    requires AnnouncedOnce(At(y, side))
    ensures AnnouncedOnce(At(Advance(y, m), side))
  {
    var h := At(y, side);
    MoveSends(y, m, side);
    CountOfBoth(h.sent, Says(y, m, side), ChannelsReady);
    if m.Turn? && m.side == side && Enabled(y, m) {
      CountOfBoth(HeadOf(y, m, side), ReplyOf(y, m, side), ChannelsReady);
      ReplyIsQuiet(h.peer.expectOffer, m.c.event, m.c);
      HeadAnnounces(h.peer, m.c);
      HeadShape(h.peer, m.c);
      IterateAnnounced(h.peer, h.open, m.c);
    }
  }

  /** No side announces itself twice, and one that has announced itself and not failed has sent the message. */
  lemma {:induction false} AnnouncedAtMostOnce(moves: seq<Move>, side: Side)
    ensures AnnouncedOnce(At(Run(moves), side))
    decreases |moves|
  {
    if moves != [] {
      AnnouncedAtMostOnce(moves[..|moves| - 1], side);
      MoveAnnouncesOnce(Run(moves[..|moves| - 1]), moves[|moves| - 1], side);
    }
  }

  // ----- How an iteration ends -----

  /** What the checks at the top end the pump with, if they do. */
  function TopFailure(p: Peer, c: Circumstances): Option<Failure> {
    if p.connected && c.late && !c.openAtLate then Some(ChannelsNotOpen)
    else if p.allOpen && !p.announced && !c.announceOk then Some(Signaling)
    else if !c.deadline then None
    else if p.connected && !c.openAtDeadline then Some(ChannelsNotOpen)
    else if p.allOpen && !p.peerReady then Some(PeerNeverReady)
    else Some(TimedOut)
  }

  /** What an event ends the pump with, if it does. */
  function EventFailure(p: Peer, e: Event, c: Circumstances): Option<Failure> {
    if e == Inbox(PeerGone) || e == InboxClosed || e == TransportClosed then Some(ConnectionClosed)
    else if e == ConnectionFailed then Some(IceFailed)
    else if e.LocalCandidate? && !c.sendOk then Some(Signaling)
    else if e == Inbox(if p.expectOffer then Offer(true) else Answer(true)) && !c.acceptOk then Some(Transport)
    else if e == Inbox(Offer(true)) && p.expectOffer && !c.sendOk then Some(Signaling)
    else None
  }

  predicate ConnectedAfter(p: Peer, e: Event) {
    p.connected || e == Connected
  }

  predicate ReadyAfter(p: Peer, e: Event) {
    p.peerReady || e == Inbox(ChannelsReady)
  }

  predicate OpenAfter(p: Peer, e: Event, open: bool) {
    if e == ChannelOpen || (e == Tick && p.connected) then open else p.allOpen
  }

  /**
   How one iteration ends: the first check at the top that fails names the failure; then the event may; otherwise the
   pump has succeeded exactly when it is connected, its channels are open and the other side is ready.
   */
  lemma IterationEndsExactly(p: Peer, open: bool, c: Circumstances)
    requires p.status.Running?
    ensures var q, e := Iterate(p, open, c).0, c.event;
            if TopFailure(p, c).Some? then q.status == Gone(TopFailure(p, c).value)
            else if EventFailure(p, e, c).Some? then q.status == Gone(EventFailure(p, e, c).value)
            else
              && q.connected == ConnectedAfter(p, e) && q.peerReady == ReadyAfter(p, e) && q.allOpen == OpenAfter(p, e, open)
              && q.status == if q.connected && q.peerReady && q.allOpen then Done(q.early) else Running
  {
    HeadEnds(p, c);
    HeadShape(p, c);
    var q := Head(p, c).0;
    if q.status.Running? {
      EventEnds(q, open, c);
    }
  }

  lemma HeadEnds(p: Peer, c: Circumstances)
    requires p.status.Running?
    ensures Head(p, c).0.status == if TopFailure(p, c).Some? then Gone(TopFailure(p, c).value) else Running
  {
  }

  /** What is known once an event has been handled, short of the loop guard. */
  predicate Ended(p: Peer, q: Peer, e: Event, open: bool, c: Circumstances) {
    if EventFailure(p, e, c).Some? then q.status == Gone(EventFailure(p, e, c).value)
    else q.status.Running? && q.connected == ConnectedAfter(p, e) && q.peerReady == ReadyAfter(p, e)
         && q.allOpen == OpenAfter(p, e, open)
  }

  lemma OfferEnds(p: Peer, open: bool, hasSdp: bool, c: Circumstances)
    requires p.status.Running?
    ensures Ended(p, OnMessage(p, Offer(hasSdp), c).0, Inbox(Offer(hasSdp)), open, c)
  {
  }

  lemma AnswerEnds(p: Peer, open: bool, hasSdp: bool, c: Circumstances)
    requires p.status.Running?
    ensures Ended(p, OnMessage(p, Answer(hasSdp), c).0, Inbox(Answer(hasSdp)), open, c)
  {
  }

  lemma MessageEnds(p: Peer, open: bool, m: Message, c: Circumstances)
    requires p.status.Running?
    ensures Ended(p, OnMessage(p, m, c).0, Inbox(m), open, c)
  {
    match m
    case Offer(hasSdp) => OfferEnds(p, open, hasSdp, c);
    case Answer(hasSdp) => AnswerEnds(p, open, hasSdp, c);
    case IceCandidate(_) =>
    case ChannelsReady =>
    case PeerGone =>
    case OtherMessage =>
  }

  lemma EventEnds(p: Peer, open: bool, c: Circumstances)
    requires p.status.Running?
    ensures Ended(p, OnEvent(p, open, c).0, c.event, open, c)
  {
    if c.event.Inbox? {
      MessageEnds(p, open, c.event.msg, c);
    } else {
      LocalEnds(p, open, c);
    }
  }

  lemma LocalEnds(p: Peer, open: bool, c: Circumstances)
    requires p.status.Running? && !c.event.Inbox?
    ensures Ended(p, OnLocal(p, open, c).0, c.event, open, c)
  {
    match c.event
    case InboxClosed =>
    case LocalCandidate(_) =>
    case ChannelOpen =>
    case FrameArrived(_) =>
    case Connected =>
    case ConnectionFailed =>
    case TransportClosed =>
    case OtherEvent =>
    case Tick =>
  }

  // ----- Candidates on the controller -----

  lemma ControllerEvent(p: Peer, open: bool, c: Circumstances)
    requires !p.expectOffer && p.remoteDescribed && p.pending == []
    ensures var q := OnEvent(p, open, c).0;
            q.remoteDescribed && q.pending == [] && !q.expectOffer && q.applied == p.applied + CandidateIn(Some(c.event))
  {
    assert p.applied + [] == p.applied;
    if c.event.Inbox? {
      match c.event.msg
      case Offer(_) =>
      case Answer(_) =>
      case IceCandidate(_) =>
      case ChannelsReady =>
      case PeerGone =>
      case OtherMessage =>
    }
  }

  lemma ControllerMove(y: System, m: Move, arrived: seq<Candidate>)
    requires var p := y.controller.peer; !p.expectOffer && p.remoteDescribed && p.pending == [] && p.applied == arrived
    ensures var q := Advance(y, m).controller.peer;
            && !q.expectOffer && q.remoteDescribed && q.pending == []
            && q.applied == arrived + CandidateIn(Consumed(y, m, Controller))
  {
    var h := y.controller;
    if Consumed(y, m, Controller).Some? {
      HeadShape(h.peer, m.c);
      ControllerEvent(Head(h.peer, m.c).0, h.open, m.c);
    } else {
      UnconsumedKeeps(y, m, Controller);
      assert arrived + [] == arrived;
    }
  }

  /** The controller hands over every candidate that arrives, at once and in order. */
  lemma {:induction false} ControllerCandidates(moves: seq<Move>)
    ensures var p := Run(moves).controller.peer;
            !p.expectOffer && p.remoteDescribed && p.pending == [] && p.applied == CandidatesFor(moves, Controller)
    decreases |moves|
  {
    if moves != [] {
      var pre, m := moves[..|moves| - 1], moves[|moves| - 1];
      ControllerCandidates(pre);
      ControllerMove(Run(pre), m, CandidatesFor(pre, Controller));
    }
  }
}
