/**
 The channel-readiness handshake: two peers, each running `pump`, exchange signaling messages until
 both have opened their data channels.

 The signaling network is as weak as it can be: a peer's messages may be lost, delayed, duplicated
 and reordered. Channels open and close as the environment pleases.
 */
module Handshake {
  import opened Prelude

  type Candidate = int
  type Frame = int

  datatype Message =
    | Offer(hasSdp: bool) | Answer(hasSdp: bool) | IceCandidate(candidate: Candidate) | ChannelsReady
    | PeerGone | OtherMessage

  /** What one `select!` of the loop received. */
  datatype Event =
    | Inbox(msg: Message) | InboxClosed
    | LocalCandidate(candidate: Candidate) | ChannelOpen | FrameArrived(frame: Frame)
    | Connected | ConnectionFailed | TransportClosed | OtherEvent
    | Tick

  datatype Failure = ChannelsNotOpen | PeerNeverReady | TimedOut | IceFailed | ConnectionClosed | Signaling | Transport

  datatype Status = Running | Done(frames: seq<Frame>) | Gone(failure: Failure)

  datatype Peer = Peer(
    expectOffer: bool, pending: seq<Candidate>, remoteDescribed: bool, connected: bool, allOpen: bool,
    announced: bool, peerReady: bool, early: seq<Frame>, applied: seq<Candidate>, status: Status)

  /**
   What the peer meets during one iteration: the event, whether each timer has run out, what the channels
   read at each of the two timer checks, and how its calls turn out. The channels are read a third time
   when an event asks for it.
   */
  datatype Circumstances = Circumstances(
    event: Event, late: bool, openAtLate: bool, deadline: bool, openAtDeadline: bool,
    announceOk: bool, sendOk: bool, acceptOk: bool)

  function Start(expectOffer: bool): Peer {
    Peer(expectOffer, [], !expectOffer, false, false, false, false, [], [], Running)
  }

  // ----- One iteration of the loop -----

  /** The checks and the announcement at the top of the loop. */
  function Head(p: Peer, c: Circumstances): (Peer, seq<Message>) {
    if p.connected && c.late && !c.openAtLate then (p.(status := Gone(ChannelsNotOpen)), [])
    else
      var announces := p.allOpen && !p.announced;
      var q := if announces then p.(announced := true) else p;
      if announces && !c.announceOk then (q.(status := Gone(Signaling)), [])
      else
        var sent := if announces then [ChannelsReady] else [];
        if c.deadline then
          (q.(status := Gone(if q.connected && !c.openAtDeadline then ChannelsNotOpen
                             else if q.allOpen && !q.peerReady then PeerNeverReady
                             else TimedOut)), sent)
        else (q, sent)
  }

  /** `drain_pending`: every buffered candidate goes to the transport, in order. */
  function Drained(p: Peer): Peer {
    p.(applied := p.applied + p.pending, pending := [])
  }

  function OnMessage(p: Peer, m: Message, c: Circumstances): (Peer, seq<Message>) {
    match m
    case Offer(hasSdp) =>
      if !p.expectOffer || !hasSdp then (p, [])
      else if !c.acceptOk then (p.(status := Gone(Transport)), [])
      else if !c.sendOk then (p.(status := Gone(Signaling)), [])
      else (Drained(p.(remoteDescribed := true)), [Answer(true)])
    case Answer(hasSdp) =>
      if p.expectOffer || !hasSdp then (p, [])
      else if !c.acceptOk then (p.(status := Gone(Transport)), [])
      else (Drained(p.(remoteDescribed := true)), [])
    case IceCandidate(x) =>
      if p.remoteDescribed then (p.(applied := p.applied + [x]), [])
      else (p.(pending := p.pending + [x]), [])
    case ChannelsReady => (p.(peerReady := true), [])
    case PeerGone => (p.(status := Gone(ConnectionClosed)), [])
    case OtherMessage => (p, [])
  }

  /** How an event other than a message ends the pump, if it does. */
  function LocalStatus(p: Peer, e: Event, sendOk: bool): Status {
    match e
    case InboxClosed => Gone(ConnectionClosed)
    case TransportClosed => Gone(ConnectionClosed)
    case ConnectionFailed => Gone(IceFailed)
    case LocalCandidate(_) => if sendOk then p.status else Gone(Signaling)
    case _ => p.status
  }

  /** Everything `select!` can deliver besides a signaling message. `open` is what the channels read then. */
  function OnLocal(p: Peer, open: bool, c: Circumstances): (Peer, seq<Message>) {
    var e := c.event;
    (p.(allOpen := if e.ChannelOpen? || (e.Tick? && p.connected) then open else p.allOpen,
        early := if e.FrameArrived? then p.early + [e.frame] else p.early,
        connected := p.connected || e.Connected?,
        status := LocalStatus(p, e, c.sendOk)),
     if e.LocalCandidate? && c.sendOk then [IceCandidate(e.candidate)] else [])
  }

  function OnEvent(p: Peer, open: bool, c: Circumstances): (Peer, seq<Message>) {
    if c.event.Inbox? then OnMessage(p, c.event.msg, c) else OnLocal(p, open, c)
  }

  /** The loop guard: the pump returns as soon as all three conditions hold. */
  function Guard(p: Peer): Peer {
    if p.status.Running? && p.connected && p.allOpen && p.peerReady then p.(status := Done(p.early)) else p
  }

  function Iterate(p: Peer, open: bool, c: Circumstances): (Peer, seq<Message>) {
    var (q, sent) := Head(p, c);
    if !q.status.Running? then (q, sent)
    else
      var (r, more) := OnEvent(q, open, c);
      (Guard(r), sent + more)
  }

  /** The pump as the program runs it: flags and buffers updated in place, one call per iteration. */
  class Pump {
    const expectOffer: bool
    var pending: seq<Candidate>
    var remoteDescribed: bool
    var connected: bool
    var allOpen: bool
    var announced: bool
    var peerReady: bool
    var early: seq<Frame>
    var applied: seq<Candidate>
    var status: Status

    ghost function View(): Peer
      reads this
    {
      Peer(expectOffer, pending, remoteDescribed, connected, allOpen, announced, peerReady, early, applied, status)
    }

    constructor (expectOffer: bool)
      ensures View() == Start(expectOffer)
    {
      this.expectOffer := expectOffer;
      pending, early, applied := [], [], [];
      remoteDescribed := !expectOffer;
      connected, allOpen, announced, peerReady := false, false, false, false;
      status := Running;
    }

    method DrainPending()
      modifies this`pending, this`applied
      ensures View() == Drained(old(View()))
    {
      while pending != []
        invariant applied + pending == old(applied) + old(pending)
        decreases |pending|
      {
        assert pending == [pending[0]] + pending[1..];
        applied := applied + [pending[0]];
        pending := pending[1..];
      }
      assert applied + [] == applied;
    }

    method Receive(m: Message, c: Circumstances) returns (sent: seq<Message>)
      modifies this
      ensures (View(), sent) == OnMessage(old(View()), m, c)
    {
      sent := [];
      match m
      case Offer(hasSdp) =>
        if expectOffer && hasSdp {
          if !c.acceptOk {
            status := Gone(Transport);
            return;
          }
          if !c.sendOk {
            status := Gone(Signaling);
            return;
          }
          sent := [Answer(true)];
          remoteDescribed := true;
          DrainPending();
        }
      case Answer(hasSdp) =>
        if !expectOffer && hasSdp {
          if !c.acceptOk {
            status := Gone(Transport);
            return;
          }
          remoteDescribed := true;
          DrainPending();
        }
      case IceCandidate(x) =>
        if remoteDescribed {
          applied := applied + [x];
        } else {
          pending := pending + [x];
        }
      case ChannelsReady =>
        peerReady := true;
      case PeerGone =>
        status := Gone(ConnectionClosed);
      case OtherMessage =>
    }

    method CheckAndAnnounce(c: Circumstances) returns (sent: seq<Message>)
      modifies this`announced, this`status
      ensures (View(), sent) == Head(old(View()), c)
    {
      sent := [];
      if connected && c.late && !c.openAtLate {
        status := Gone(ChannelsNotOpen);
        return;
      }
      if allOpen && !announced {
        announced := true;
        if !c.announceOk {
          status := Gone(Signaling);
          return;
        }
        sent := [ChannelsReady];
      }
      if c.deadline {
        status := Gone(if connected && !c.openAtDeadline then ChannelsNotOpen
                       else if allOpen && !peerReady then PeerNeverReady
                       else TimedOut);
      }
    }

    method React(open: bool, c: Circumstances) returns (sent: seq<Message>)
      modifies this
      ensures (View(), sent) == OnEvent(old(View()), open, c)
    {
      sent := [];
      if c.event.Inbox? {
        sent := Receive(c.event.msg, c);
        return;
      }
      match c.event
      case InboxClosed => status := Gone(ConnectionClosed);
      case LocalCandidate(x) =>
        if c.sendOk {
          sent := [IceCandidate(x)];
        } else {
          status := Gone(Signaling);
        }
      case ChannelOpen => allOpen := open;
      case FrameArrived(f) => early := early + [f];
      case Connected => connected := true;
      case ConnectionFailed => status := Gone(IceFailed);
      case TransportClosed => status := Gone(ConnectionClosed);
      case OtherEvent =>
      case Tick =>
        if connected {
          allOpen := open;
        }
    }

    /** One pass of the loop: top, event, guard. */
    method Iteration(open: bool, c: Circumstances) returns (sent: seq<Message>)
      modifies this
      ensures (View(), sent) == Iterate(old(View()), open, c)
    {
      sent := CheckAndAnnounce(c);
      if !status.Running? {
        return;
      }
      var more := React(open, c);
      sent := sent + more;
      if status.Running? && connected && allOpen && peerReady {
        status := Done(early);
      }
    }
  }

  // ----- Two peers -----

  datatype Side = Host | Controller

  function Other(s: Side): Side {
    if s.Host? then Controller else Host
  }

  /** One pump, every message it has sent, whether its channels are open, and whether they ever were. */
  datatype Half = Half(peer: Peer, sent: seq<Message>, open: bool, wasOpen: bool)

  datatype System = System(host: Half, controller: Half)

  function At(y: System, s: Side): Half {
    if s.Host? then y.host else y.controller
  }

  function Put(y: System, s: Side, h: Half): System {
    if s.Host? then y.(host := h) else y.(controller := h)
  }

  /** The controller has already sent its offer when its pump starts. */
  function Initial(): System {
    System(Half(Start(true), [], false, false), Half(Start(false), [Offer(true)], false, false))
  }

  datatype Move = Channels(side: Side, open: bool) | Turn(side: Side, c: Circumstances)

  /** A message of the peer's own kind must have been sent by it; the server may add notices of its own. */
  predicate Deliverable(e: Event, sent: seq<Message>) {
    e.Inbox? && !e.msg.PeerGone? && !e.msg.OtherMessage? ==> e.msg in sent
  }

  predicate Enabled(y: System, m: Move) {
    m.Turn? ==> At(y, m.side).peer.status.Running? && Deliverable(m.c.event, At(y, Other(m.side)).sent)
  }

  function Advance(y: System, m: Move): System {
    if !Enabled(y, m) then y
    else
      var h := At(y, m.side);
      match m
      case Channels(side, open) => Put(y, side, h.(open := open, wasOpen := h.wasOpen || open))
      case Turn(side, c) =>
        var (p, out) := Iterate(h.peer, h.open, c);
        Put(y, side, h.(peer := p, sent := h.sent + out))
  }

  function Run(moves: seq<Move>): System {
    if moves == [] then Initial() else Advance(Run(moves[..|moves| - 1]), moves[|moves| - 1])
  }

  // ----- What one iteration changes -----

  /** The top of the loop touches only the announcement and the status. */
  lemma HeadShape(p: Peer, c: Circumstances)
    requires p.status.Running?
    ensures var (q, out) := Head(p, c);
            && q == p.(announced := q.announced, status := q.status) && !q.status.Done?
            && (p.announced ==> q.announced) && (q.announced ==> p.announced || p.allOpen)
            && (q.status.Running? ==> (q.announced <==> p.announced || p.allOpen))
            && (ChannelsReady in out ==> q.announced)
  {
  }

  predicate IsCandidate(e: Event) {
    e.Inbox? && e.msg.IceCandidate?
  }

  /** An event never announces, and sets each flag only for its own cause. */
  predicate Caused(p: Peer, r: Peer, open: bool, e: Event) {
    && r.announced == p.announced && (r.allOpen ==> p.allOpen || open)
    && r.expectOffer == p.expectOffer && !r.status.Done?
    && (r.peerReady ==> p.peerReady || e == Inbox(ChannelsReady))
    && r.early == if e.FrameArrived? then p.early + [e.frame] else p.early
  }

  lemma MessageCaused(p: Peer, open: bool, m: Message, c: Circumstances)
    requires p.status.Running?
    ensures Caused(p, OnMessage(p, m, c).0, open, Inbox(m))
  {
    match m
    case Offer(_) =>
    case Answer(_) =>
    case IceCandidate(_) =>
    case ChannelsReady =>
    case PeerGone =>
    case OtherMessage =>
  }

  lemma LocalCaused(p: Peer, open: bool, c: Circumstances)
    requires p.status.Running? && !c.event.Inbox?
    ensures Caused(p, OnLocal(p, open, c).0, open, c.event)
  {
  }

  lemma EventCaused(p: Peer, open: bool, c: Circumstances)
    requires p.status.Running?
    ensures Caused(p, OnEvent(p, open, c).0, open, c.event)
  {
    if c.event.Inbox? {
      MessageCaused(p, open, c.event.msg, c);
    } else {
      LocalCaused(p, open, c);
    }
  }

  lemma EventNeverAnnounces(p: Peer, open: bool, c: Circumstances)
    ensures ChannelsReady !in OnEvent(p, open, c).1
  {
  }

  lemma IterateFlags(p: Peer, open: bool, c: Circumstances)
    requires p.status.Running?
    ensures var (q, out) := Iterate(p, open, c);
            && (q.allOpen ==> p.allOpen || open)
            && (q.announced ==> p.announced || p.allOpen)
            && (ChannelsReady in out ==> q.announced)
            && (p.announced ==> q.announced)
            && (q.peerReady ==> p.peerReady || c.event == Inbox(ChannelsReady))
            && (q.status.Done? ==> q.connected && q.allOpen && q.peerReady && q.status.frames == q.early)
  {
    HeadShape(p, c);
    var q := Head(p, c).0;
    if q.status.Running? {
      EventCaused(q, open, c);
      EventNeverAnnounces(q, open, c);
    }
  }

  // ----- Readiness -----

  /** The chain that links one side's success to the other side's channels. */
  predicate Linked(mine: Half, theirs: Half) {
    && (mine.open ==> mine.wasOpen)
    && (mine.peer.allOpen ==> mine.wasOpen)
    && (mine.peer.announced ==> mine.wasOpen)
    && (ChannelsReady in mine.sent ==> mine.peer.announced)
    && (mine.peer.peerReady ==> ChannelsReady in theirs.sent)
    && (mine.peer.status.Done? ==> mine.peer.connected && mine.peer.allOpen && mine.peer.peerReady)
  }

  predicate Inv(y: System) {
    Linked(y.host, y.controller) && Linked(y.controller, y.host)
  }

  lemma TurnKeepsLinks(mine: Half, theirs: Half, c: Circumstances)
    requires Linked(mine, theirs) && Linked(theirs, mine)
    requires mine.peer.status.Running? && Deliverable(c.event, theirs.sent)
    ensures var (p, out) := Iterate(mine.peer, mine.open, c);
            var mine' := mine.(peer := p, sent := mine.sent + out);
            Linked(mine', theirs) && Linked(theirs, mine')
  {
    IterateFlags(mine.peer, mine.open, c);
  }

  lemma AdvanceKeepsInv(y: System, m: Move)
    requires Inv(y)
    ensures Inv(Advance(y, m))
  {
    if Enabled(y, m) && m.Turn? {
      TurnKeepsLinks(At(y, m.side), At(y, Other(m.side)), m.c);
    }
  }

  lemma {:induction false} RunKeepsInv(moves: seq<Move>)
    ensures Inv(Run(moves))
    decreases |moves|
  {
    if moves != [] {
      RunKeepsInv(moves[..|moves| - 1]);
      AdvanceKeepsInv(Run(moves[..|moves| - 1]), moves[|moves| - 1]);
    }
  }

  /** If either pump returns successfully, every channel of both peers had been open. */
  lemma SuccessMeansBothOpened(moves: seq<Move>, side: Side)
    requires At(Run(moves), side).peer.status.Done?
    ensures Run(moves).host.wasOpen && Run(moves).controller.wasOpen
  {
    RunKeepsInv(moves);
  }

  // ----- The unannounced exit -----

  /** While a side has not announced, the other cannot have succeeded. */
  lemma UnannouncedHoldsOther(moves: seq<Move>, side: Side)
    requires !At(Run(moves), side).peer.announced
    ensures !At(Run(moves), Other(side)).peer.status.Done?
  {
    RunKeepsInv(moves);
  }

  lemma {:induction false} StoppedStays(moves: seq<Move>, n: nat, side: Side)
    requires n <= |moves| && !At(Run(moves[..n]), side).peer.status.Running?
    ensures At(Run(moves), side).peer == At(Run(moves[..n]), side).peer
    decreases |moves|
  {
    if n == |moves| {
      assert moves[..n] == moves;
    } else {
      var pre := moves[..|moves| - 1];
      assert pre[..n] == moves[..n];
      StoppedStays(pre, n, side);
    }
  }

  /** Once one side has succeeded unannounced, no continuation lets the other succeed. */
  lemma StrandedForever(moves: seq<Move>, n: nat, side: Side)
    requires n <= |moves|
    requires At(Run(moves[..n]), side).peer.status.Done? && !At(Run(moves[..n]), side).peer.announced
    ensures !At(Run(moves), Other(side)).peer.status.Done?
  {
    StoppedStays(moves, n, side);
    UnannouncedHoldsOther(moves, side);
  }

  function Quiet(e: Event): Circumstances {
    Circumstances(e, false, true, false, true, true, true, true)
  }

  lemma RunSnoc(moves: seq<Move>, m: Move)
    ensures Run(moves + [m]) == Advance(Run(moves), m)
  {
    assert (moves + [m])[..|moves|] == moves;
  }

  /** A host whose channels open announces itself on its second iteration. */
  lemma HostAnnounces() returns (moves: seq<Move>)
    ensures ChannelsReady in Run(moves).host.sent && Run(moves).controller == Initial().controller
  {
    var m1, m2, m3 := Channels(Host, true), Turn(Host, Quiet(ChannelOpen)), Turn(Host, Quiet(Tick));
    assert [] + [m1] == [m1];
    RunSnoc([], m1);
    RunSnoc([m1], m2);
    assert Run([m1] + [m2]).host.peer.allOpen;
    RunSnoc([m1] + [m2], m3);
    moves := [m1] + [m2] + [m3];
  }

  /** Such a run exists: the controller's own channels open only after the host's announcement came in. */
  lemma UnannouncedSuccessHappens()
    ensures exists moves :: At(Run(moves), Controller).peer.status.Done? && !At(Run(moves), Controller).peer.announced
  {
    var m3 := HostAnnounces();
    var m4 := m3 + [Turn(Controller, Quiet(Connected))];
    var m5 := m4 + [Turn(Controller, Quiet(Inbox(ChannelsReady)))];
    var m6 := m5 + [Channels(Controller, true)];
    var m7 := m6 + [Turn(Controller, Quiet(ChannelOpen))];
    RunSnoc(m3, Turn(Controller, Quiet(Connected)));
    assert Run(m4).controller.peer == Start(false).(connected := true) && Run(m4).host == Run(m3).host;
    RunSnoc(m4, Turn(Controller, Quiet(Inbox(ChannelsReady))));
    assert Run(m5).controller.peer == Start(false).(connected := true, peerReady := true);
    RunSnoc(m5, Channels(Controller, true));
    RunSnoc(m6, Turn(Controller, Quiet(ChannelOpen)));
    assert At(Run(m7), Controller).peer.status.Done?;
  }

  // ----- Candidates and early frames -----

  /** The event a move makes a side consume, if any: an iteration that fails at its top consumes nothing. */
  function Consumed(y: System, m: Move, side: Side): Option<Event> {
    if m.Turn? && m.side == side && Enabled(y, m) && Head(At(y, side).peer, m.c).0.status.Running?
    then Some(m.c.event)
    else None
  }

  function CandidateIn(e: Option<Event>): seq<Candidate> {
    if e.Some? && IsCandidate(e.value) then [e.value.msg.candidate] else []
  }

  function FrameIn(e: Option<Event>): seq<Frame> {
    if e.Some? && e.value.FrameArrived? then [e.value.frame] else []
  }

  // ----- Who has announced -----

  /** The event makes the pump look at its channels and find them all open. */
  predicate Notices(p: Peer, open: bool, e: Event) {
    open && (e.ChannelOpen? || (e.Tick? && p.connected))
  }

  /** Move `i` makes the side consume an event. */
  predicate ConsumesAt(moves: seq<Move>, i: nat, side: Side) {
    i < |moves| && Consumed(Run(moves[..i]), moves[i], side).Some?
  }

  /** Move `i` makes the side consume an event at which it finds its channels open. */
  predicate NoticesAt(moves: seq<Move>, i: nat, side: Side) {
    && ConsumesAt(moves, i, side)
    && var h := At(Run(moves[..i]), side); Notices(h.peer, h.open, moves[i].c.event)
  }

  /** Some consumed event so far found the channels open. */
  ghost predicate Noticed(moves: seq<Move>, side: Side) {
    exists i: nat :: NoticesAt(moves, i, side)
  }

  /** Some consumed event before the last consumed one found the channels open. */
  ghost predicate NoticedBefore(moves: seq<Move>, side: Side) {
    exists i: nat, j: nat :: i < j && NoticesAt(moves, i, side) && ConsumesAt(moves, j, side)
  }

  lemma PrefixAt(moves: seq<Move>, n: nat, i: nat, side: Side)
    requires i < n <= |moves|
    ensures ConsumesAt(moves[..n], i, side) <==> ConsumesAt(moves, i, side)
    ensures NoticesAt(moves[..n], i, side) <==> NoticesAt(moves, i, side)
  {
    assert moves[..n][..i] == moves[..i];
  }

  lemma NoticedGrows(moves: seq<Move>, side: Side)
    requires moves != []
    ensures var n := |moves| - 1;
            && (Noticed(moves, side) <==> Noticed(moves[..n], side) || NoticesAt(moves, n, side))
            && (NoticedBefore(moves, side) <==>
                if ConsumesAt(moves, n, side) then Noticed(moves[..n], side) else NoticedBefore(moves[..n], side))
  {
    var n := |moves| - 1;
    forall i: nat | i < n
      ensures ConsumesAt(moves[..n], i, side) <==> ConsumesAt(moves, i, side)
      ensures NoticesAt(moves[..n], i, side) <==> NoticesAt(moves, i, side)
    {
      PrefixAt(moves, n, i, side);
    }
    if i: nat :| NoticesAt(moves, i, side) {
      assert i == n || NoticesAt(moves[..n], i, side);
    }
    if i: nat :| NoticesAt(moves[..n], i, side) {
      assert NoticesAt(moves, i, side);
    }
    NoticedBeforeGrows(moves, side);
  }

  lemma NoticedBeforeGrows(moves: seq<Move>, side: Side)
    requires moves != []
    requires forall i: nat :: i < |moves| - 1 ==>
               && (ConsumesAt(moves[..|moves| - 1], i, side) <==> ConsumesAt(moves, i, side))
               && (NoticesAt(moves[..|moves| - 1], i, side) <==> NoticesAt(moves, i, side))
    ensures NoticedBefore(moves, side) <==>
            if ConsumesAt(moves, |moves| - 1, side) then Noticed(moves[..|moves| - 1], side)
            else NoticedBefore(moves[..|moves| - 1], side)
  {
    var n := |moves| - 1;
    if i: nat, j: nat :| i < j && NoticesAt(moves, i, side) && ConsumesAt(moves, j, side) {
      assert NoticesAt(moves[..n], i, side);
      assert j == n || ConsumesAt(moves[..n], j, side);
    }
    if ConsumesAt(moves, n, side) {
      if i: nat :| NoticesAt(moves[..n], i, side) {
        assert i < n && NoticesAt(moves, i, side);
      }
    } else if i: nat, j: nat :| i < j && NoticesAt(moves[..n], i, side) && ConsumesAt(moves[..n], j, side) {
      assert NoticesAt(moves, i, side) && ConsumesAt(moves, j, side);
    }
  }

  /** The flags of a pump that has not failed, in terms of what it has seen. */
  ghost predicate Informed(p: Peer, noticed: bool, before: bool) {
    !p.status.Gone? ==>
      && (p.announced <==> before) && (before ==> noticed)
      && (p.allOpen ==> noticed) && (noticed && !before ==> p.allOpen)
  }

  lemma IterateInforms(p: Peer, open: bool, c: Circumstances, noticed: bool, before: bool)
    requires p.status.Running? && Informed(p, noticed, before) && Head(p, c).0.status.Running?
    ensures Informed(Iterate(p, open, c).0, noticed || Notices(p, open, c.event), noticed)
  {
    HeadShape(p, c);
    EventLooks(Head(p, c).0, open, c);
  }

  /** What an event does to the flags: only a look at the channels changes what is known of them. */
  lemma EventLooks(p: Peer, open: bool, c: Circumstances)
    requires p.status.Running?
    ensures var r := OnEvent(p, open, c).0;
            && r.announced == p.announced && !r.status.Done?
            && r.allOpen == if c.event.ChannelOpen? || (c.event.Tick? && p.connected) then open else p.allOpen
  {
    EventCaused(p, open, c);
    if c.event.Inbox? {
      match c.event.msg
      case Offer(_) =>
      case Answer(_) =>
      case IceCandidate(_) =>
      case ChannelsReady =>
      case PeerGone =>
      case OtherMessage =>
    }
  }

  lemma StepInforms(y: System, m: Move, side: Side, noticed: bool, before: bool)
    requires Informed(At(y, side).peer, noticed, before)
    ensures var h := At(y, side);
            if Consumed(y, m, side).Some?
            then Informed(At(Advance(y, m), side).peer, noticed || Notices(h.peer, h.open, m.c.event), noticed)
            else Informed(At(Advance(y, m), side).peer, noticed, before)
  {
    var h := At(y, side);
    if Consumed(y, m, side).Some? {
      IterateInforms(h.peer, h.open, m.c, noticed, before);
    } else {
      UnconsumedFails(y, m, side);
    }
  }

  /** A move that consumes nothing leaves the peer alone or ends it in failure. */
  lemma UnconsumedFails(y: System, m: Move, side: Side)
    requires Consumed(y, m, side).None?
    ensures At(Advance(y, m), side).peer == At(y, side).peer || At(Advance(y, m), side).peer.status.Gone?
  {
    if m.Turn? && m.side == side && Enabled(y, m) {
      HeadShape(At(y, side).peer, m.c);
    }
  }

  lemma {:induction false} RunInforms(moves: seq<Move>, side: Side)
    ensures Informed(At(Run(moves), side).peer, Noticed(moves, side), NoticedBefore(moves, side))
    decreases |moves|
  {
    if moves != [] {
      var n := |moves| - 1;
      RunInforms(moves[..n], side);
      NoticedGrows(moves, side);
      StepInforms(Run(moves[..n]), moves[n], side, Noticed(moves[..n], side), NoticedBefore(moves[..n], side));
    }
  }

  /**
   Exactly which successes were announced: a side that has succeeded has announced itself if and only if
   some event it consumed before its last one was a channel opening, or a tick while connected, with all
   its channels open.
   */
  lemma SuccessAnnouncedExactly(moves: seq<Move>, side: Side)
    requires At(Run(moves), side).peer.status.Done?
    ensures At(Run(moves), side).peer.announced <==> NoticedBefore(moves, side)
  {
    RunInforms(moves, side);
  }

  // ----- Candidates and early frames -----

  /** The candidates that reached a side, in arrival order. */
  function CandidatesFor(moves: seq<Move>, side: Side): seq<Candidate> {
    if moves == [] then []
    else
      var pre := moves[..|moves| - 1];
      CandidatesFor(pre, side) + CandidateIn(Consumed(Run(pre), moves[|moves| - 1], side))
  }

  function FramesFor(moves: seq<Move>, side: Side): seq<Frame> {
    if moves == [] then []
    else
      var pre := moves[..|moves| - 1];
      FramesFor(pre, side) + FrameIn(Consumed(Run(pre), moves[|moves| - 1], side))
  }

  /** Whether the offer-expecting side has accepted an offer and answered it. */
  predicate OfferAccepted(moves: seq<Move>) {
    if moves == [] then false
    else
      var pre, m := moves[..|moves| - 1], moves[|moves| - 1];
      OfferAccepted(pre) ||
      (Consumed(Run(pre), m, Host) == Some(Inbox(Offer(true))) && m.c.acceptOk && m.c.sendOk)
  }

  /** Candidates held back and handed over, against those that arrived. */
  predicate CandidatesKept(p: Peer, arrived: seq<Candidate>, accepted: bool) {
    && p.applied + p.pending == arrived
    && (p.remoteDescribed <==> accepted)
    && (if accepted then p.pending == [] else p.applied == [])
    && p.expectOffer
  }

  lemma MessageCandidates(p: Peer, m: Message, c: Circumstances, arrived: seq<Candidate>, accepted: bool)
    requires CandidatesKept(p, arrived, accepted)
    ensures CandidatesKept(OnMessage(p, m, c).0,
                           arrived + (if m.IceCandidate? then [m.candidate] else []),
                           accepted || (m == Offer(true) && c.acceptOk && c.sendOk))
  {
    assert arrived + [] == arrived;
    if m.IceCandidate? {
      var x := [m.candidate];
      assert p.pending == [] ==> p.applied + p.pending + x == p.applied + x + p.pending;
      assert p.applied == [] ==> p.applied + p.pending + x == p.applied + (p.pending + x);
    }
  }

  lemma EventCandidates(p: Peer, open: bool, c: Circumstances, arrived: seq<Candidate>, accepted: bool)
    requires CandidatesKept(p, arrived, accepted)
    ensures CandidatesKept(OnEvent(p, open, c).0, arrived + CandidateIn(Some(c.event)),
                           accepted || (c.event == Inbox(Offer(true)) && c.acceptOk && c.sendOk))
  {
    if c.event.Inbox? {
      MessageCandidates(p, c.event.msg, c, arrived, accepted);
    } else {
      assert arrived + [] == arrived;
    }
  }

  lemma IterateCandidates(p: Peer, open: bool, c: Circumstances, arrived: seq<Candidate>, accepted: bool)
    requires CandidatesKept(p, arrived, accepted) && p.status.Running? && Head(p, c).0.status.Running?
    ensures CandidatesKept(Iterate(p, open, c).0, arrived + CandidateIn(Some(c.event)),
                           accepted || (c.event == Inbox(Offer(true)) && c.acceptOk && c.sendOk))
  {
    HeadShape(p, c);
    EventCandidates(Head(p, c).0, open, c, arrived, accepted);
  }

  lemma HeadOnlyStops(p: Peer, open: bool, c: Circumstances)
    requires p.status.Running? && !Head(p, c).0.status.Running?
    ensures var q := Iterate(p, open, c).0;
            q == p.(announced := q.announced, status := q.status) && !q.status.Done?
  {
    HeadShape(p, c);
  }

  /** A move either makes a side consume an event, or leaves its buffers alone. */
  lemma UnconsumedKeeps(y: System, m: Move, side: Side)
    requires Consumed(y, m, side).None?
    ensures var p, q := At(y, side).peer, At(Advance(y, m), side).peer;
            q == p.(announced := q.announced, status := q.status)
            && (q.status.Done? ==> p.status == q.status)
  {
    if m.Turn? && m.side == side && Enabled(y, m) {
      HeadOnlyStops(At(y, side).peer, At(y, side).open, m.c);
    }
  }

  /**
   On the offer-expecting side every candidate that arrives is handed to the transport exactly once
   and in arrival order: none before the offer is accepted, and none held back after.
   */
  lemma {:induction false} CandidatesInOrder(moves: seq<Move>)
    ensures CandidatesKept(Run(moves).host.peer, CandidatesFor(moves, Host), OfferAccepted(moves))
    decreases |moves|
  {
    if moves != [] {
      var pre, m := moves[..|moves| - 1], moves[|moves| - 1];
      CandidatesInOrder(pre);
      var y := Run(pre);
      if Consumed(y, m, Host).Some? {
        IterateCandidates(y.host.peer, y.host.open, m.c, CandidatesFor(pre, Host), OfferAccepted(pre));
      } else {
        UnconsumedKeeps(y, m, Host);
        assert CandidatesFor(pre, Host) + [] == CandidatesFor(pre, Host);
      }
    }
  }

  lemma IterateFrames(p: Peer, open: bool, c: Circumstances)
    requires p.status.Running? && Head(p, c).0.status.Running?
    ensures var q := Iterate(p, open, c).0;
            q.early == p.early + FrameIn(Some(c.event)) && (q.status.Done? ==> q.status.frames == q.early)
  {
    HeadShape(p, c);
    EventCaused(Head(p, c).0, open, c);
  }

  /** Frames that arrive early are kept, in order, and handed over on success. */
  lemma {:induction false} EarlyFramesKept(moves: seq<Move>, side: Side)
    ensures var p := At(Run(moves), side).peer;
            && p.early == FramesFor(moves, side)
            && (p.status.Done? ==> p.status.frames == FramesFor(moves, side))
    decreases |moves|
  {
    if moves != [] {
      var pre, m := moves[..|moves| - 1], moves[|moves| - 1];
      EarlyFramesKept(pre, side);
      var y := Run(pre);
      if Consumed(y, m, side).Some? {
        IterateFrames(At(y, side).peer, At(y, side).open, m.c);
      } else {
        UnconsumedKeeps(y, m, side);
        assert FramesFor(pre, side) + [] == FramesFor(pre, side);
      }
    }
  }
}
