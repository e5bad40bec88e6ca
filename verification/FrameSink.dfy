/**
 The latest-frame-wins sink: one slot under a mutex, three relaxed counters and a notification
 permit, shared by any number of publishing and receiving threads. The two calls are broken into
 the atomic actions the threads can interleave, and every claim is about every interleaving.
 */
module FrameSink {
  import opened Prelude

  /** A frame is known by its capture sequence number. */
  type Frame = nat

  /** Where one thread stands inside a call. */
  datatype Pc =
    | Idle
    | Counted(frame: Frame)                     // publish: counted as produced, wants the lock
    | Stored(replaced: bool)                    // publish: holds the lock, slot written
    | Tallied                                   // publish: holds the lock, drop counted
    | Notifying                                 // publish: lock released, about to notify
    | Looking(again: bool)                      // receive: wants the lock; `again` for the waiting form
    | Taken(got: Option<Frame>, again: bool)    // receive: holds the lock, slot emptied
    | Leaving(got: Option<Frame>, again: bool)  // receive: lock released
    | Parked                                    // receive: queued on the notification
    | Woken                                     // receive: notified, not yet resumed

  /** What the threads share. */
  datatype Shared = Shared(
    slot: Option<Frame>,
    lock: Option<nat>,
    permit: bool,
    waiters: seq<nat>,
    produced: nat,
    consumed: nat,
    dropped: nat
  )

  /**
   What an observer writes down: frames passed to publish in call order, frames stored in lock order,
   the index in `published` of each frame taken, and the frames handed back by receive.
   */
  datatype Log = Log(called: seq<Frame>, published: seq<Frame>, positions: seq<nat>, returned: seq<Frame>)

  datatype System = System(shared: Shared, threads: seq<Pc>, log: Log)

  datatype Event =
    | CallPublish(thread: nat, frame: Frame)
    | CallTryRecv(thread: nat)
    | CallRecv(thread: nat)
    | Advance(thread: nat)
    | Cancel(thread: nat)   // the waiting receive is dropped at its await point, as a timeout does

  function Start(n: nat): System {
    System(Shared(None, None, false, [], 0, 0, 0), seq(n, _ => Idle), Log([], [], [], []))
  }

  /** The system after `t` moves to `pc`. */
  function Move(s: System, t: nat, pc: Pc): System {
    s.(threads := Set(s.threads, t, pc))
  }

  function Set(threads: seq<Pc>, t: nat, pc: Pc): (r: seq<Pc>)
    ensures |r| == |threads|
    ensures forall u: nat :: u < |r| ==> r[u] == if u == t then pc else threads[u]
  {
    if t < |threads| then threads[t := pc] else threads
  }

  // ----- The atomic actions -----

  function CountProduced(s: System, t: nat, frame: Frame): System {
    Move(s, t, Counted(frame)).(
    shared := s.shared.(produced := s.shared.produced + 1),
    log := s.log.(called := s.log.called + [frame]))
  }

  function Store(s: System, t: nat, frame: Frame): System {
    Move(s, t, Stored(s.shared.slot.Some?)).(
    shared := s.shared.(slot := Some(frame), lock := Some(t)),
    log := s.log.(published := s.log.published + [frame]))
  }

  function CountDrop(s: System, t: nat, replaced: bool): System {
    Move(s, t, Tallied).(
    shared := s.shared.(dropped := s.shared.dropped + if replaced then 1 else 0))
  }

  function Unlock(s: System, t: nat, pc: Pc): System {
    Move(s, t, pc).(shared := s.shared.(lock := None))
  }

  /** Wakes the longest-waiting receiver, or leaves one permit for the next to wait. */
  function NotifyOne(s: System): System {
    if s.shared.waiters == [] then s.(shared := s.shared.(permit := true))
    else Move(s, s.shared.waiters[0], Woken).(shared := s.shared.(waiters := s.shared.waiters[1..]))
  }

  function Take(s: System, t: nat, again: bool): System {
    Move(s, t, Taken(s.shared.slot, again)).(
    shared := s.shared.(slot := None, lock := Some(t)),
    log := if s.shared.slot.Some? && s.log.published != []
           then s.log.(positions := s.log.positions + [|s.log.published| - 1]) else s.log)
  }

  function HandBack(s: System, t: nat, frame: Frame): System {
    Move(s, t, Idle).(
    shared := s.shared.(consumed := s.shared.consumed + 1),
    log := s.log.(returned := s.log.returned + [frame]))
  }

  function Await(s: System, t: nat): System {
    if s.shared.permit then Move(s, t, Looking(true)).(shared := s.shared.(permit := false))
    else Move(s, t, Parked).(shared := s.shared.(waiters := s.shared.waiters + [t]))
  }

  function Without(waiters: seq<nat>, t: nat): seq<nat> {
    if waiters == [] then []
    else (if waiters[0] == t then [] else [waiters[0]]) + Without(waiters[1..], t)
  }

  function Abandon(s: System, t: nat): System {
    Move(s, t, Idle).(shared := s.shared.(waiters := Without(s.shared.waiters, t)))
  }

  /** A thread's next action; a thread that wants a held lock stays where it is. */
  function Proceed(s: System, t: nat): System
    requires t < |s.threads|
  {
    match s.threads[t]
    case Idle => s
    case Counted(frame) => if s.shared.lock.Some? then s else Store(s, t, frame)
    case Stored(replaced) => CountDrop(s, t, replaced)
    case Tallied => Unlock(s, t, Notifying)
    case Notifying => NotifyOne(Move(s, t, Idle))
    case Looking(again) => if s.shared.lock.Some? then s else Take(s, t, again)
    case Taken(got, again) => Unlock(s, t, Leaving(got, again))
    case Leaving(got, again) =>
      if got.Some? then HandBack(s, t, got.value) else if again then Await(s, t) else Move(s, t, Idle)
    case Parked => s
    case Woken => Move(s, t, Looking(true))
  }

  /** Dropping a waiting receive: a wakeup it had already been given goes to the next waiter. */
  function Drop(s: System, t: nat): System
    requires t < |s.threads|
  {
    match s.threads[t]
    case Parked => Abandon(s, t)
    case Woken => NotifyOne(Move(s, t, Idle))
    case _ => s
  }

  function Step(s: System, e: Event): (r: System)
    ensures |r.threads| == |s.threads|
  {
    if e.thread >= |s.threads| then s
    else match e
      case CallPublish(t, frame) => if s.threads[t].Idle? then CountProduced(s, t, frame) else s
      case CallTryRecv(t) => if s.threads[t].Idle? then Move(s, t, Looking(false)) else s
      case CallRecv(t) => if s.threads[t].Idle? then Move(s, t, Looking(true)) else s
      case Advance(t) => Proceed(s, t)
      case Cancel(t) => Drop(s, t)
  }

  function Run(n: nat, events: seq<Event>): (r: System)
    ensures |r.threads| == n
  {
    if events == [] then Start(n)
    else Step(Run(n, events[..|events| - 1]), events[|events| - 1])
  }

  // ----- Mutual exclusion -----

  predicate Holds(pc: Pc) {
    pc.Stored? || pc.Tallied? || pc.Taken?
  }

  ghost predicate Exclusive(s: System) {
    && (s.shared.lock.Some? ==> s.shared.lock.value < |s.threads|)
    && forall t: nat :: t < |s.threads| ==> (Holds(s.threads[t]) <==> s.shared.lock == Some(t))
  }

  // ----- Waiters -----

  ghost predicate Distinct(q: seq<nat>) {
    forall i, j :: 0 <= i < j < |q| ==> q[i] != q[j]
  }

  /** The queue lists exactly the parked threads, once each, and is empty while a permit is stored. */
  ghost predicate Queued(s: System) {
    && Distinct(s.shared.waiters)
    && (forall t: nat :: t < |s.threads| ==> (s.threads[t].Parked? <==> t in s.shared.waiters))
    && (forall i :: 0 <= i < |s.shared.waiters| ==> s.shared.waiters[i] < |s.threads|)
    && (s.shared.permit ==> s.shared.waiters == [])
  }

  /** A thread that will still notify, or that will still look in the slot on behalf of a waiting receive. */
  predicate Alert(pc: Pc) {
    WillNotify(pc) || pc.Woken? || pc == Looking(true)
  }

  predicate WillNotify(pc: Pc) {
    pc.Stored? || pc.Tallied? || pc.Notifying?
  }

  ghost predicate Someone(threads: seq<Pc>) {
    exists t: nat :: t < |threads| && Alert(threads[t])
  }

  ghost predicate Wakeful(s: System) {
    s.shared.slot.Some? ==> s.shared.permit || Someone(s.threads)
  }

  // ----- Counting -----

  function Weight(pc: Pc): nat {
    match pc
    case Counted(_) => 1
    case Stored(replaced) => if replaced then 1 else 0
    case Taken(got, _) => if got.Some? then 1 else 0
    case Leaving(got, _) => if got.Some? then 1 else 0
    case _ => 0
  }

  /** Frames that a call has in hand between two counters. */
  function InHand(threads: seq<Pc>): nat {
    if threads == [] then 0 else Weight(threads[0]) + InHand(threads[1..])
  }

  function Occupancy(s: Shared): nat { if s.slot.Some? then 1 else 0 }

  ghost predicate Balanced(s: System) {
    s.shared.produced == s.shared.consumed + s.shared.dropped + Occupancy(s.shared) + InHand(s.threads)
  }

  lemma {:induction false} InHandMoves(threads: seq<Pc>, t: nat, pc: Pc)
    requires t < |threads|
    ensures InHand(Set(threads, t, pc)) + Weight(threads[t]) == InHand(threads) + Weight(pc)
  {
    if t == 0 {
      assert Set(threads, t, pc)[1..] == threads[1..];
    } else {
      assert Set(threads, t, pc)[1..] == Set(threads[1..], t - 1, pc);
      InHandMoves(threads[1..], t - 1, pc);
    }
  }

  lemma {:induction false} IdleHandsAreEmpty(n: nat)
    ensures InHand(seq(n, _ => Idle)) == 0
  {
    if n > 0 {
      var all := seq(n, _ => Idle);
      assert all[1..] == seq(n - 1, _ => Idle);
      IdleHandsAreEmpty(n - 1);
    }
  }

  // ----- Order -----

  ghost predicate Increasing(p: seq<nat>, below: nat) {
    && (forall i, j :: 0 <= i < j < |p| ==> p[i] < p[j])
    && (forall i :: 0 <= i < |p| ==> p[i] < below)
  }

  /**
   Frames are taken at increasing positions of the stored order, and the newest stored frame is the
   one in the slot or, when the slot is empty, the one taken last.
   */
  ghost predicate Ordered(s: System) {
    var p, q := s.log.published, s.log.positions;
    && Increasing(q, |p|)
    && (s.shared.slot.Some? ==> p != [] && s.shared.slot.value == p[|p| - 1] && Increasing(q, |p| - 1))
    && (s.shared.slot.None? && p != [] ==> q != [] && q[|q| - 1] == |p| - 1)
  }

  ghost predicate Inv(s: System) {
    Exclusive(s) && Queued(s) && Wakeful(s) && Balanced(s) && Ordered(s)
  }

  // ----- Every action keeps the invariant -----

  lemma StillAlert(threads: seq<Pc>, t: nat, pc: Pc)
    requires t < |threads| && (Alert(threads[t]) ==> Alert(pc))
    ensures Someone(threads) ==> Someone(Set(threads, t, pc))
  {
    if Someone(threads) {
      var u: nat :| u < |threads| && Alert(threads[u]);
      assert Alert(Set(threads, t, pc)[u]);
    }
  }

  lemma OneAlert(threads: seq<Pc>, t: nat, pc: Pc)
    requires t < |threads| && Alert(pc)
    ensures Someone(Set(threads, t, pc))
  {
    assert Alert(Set(threads, t, pc)[t]);
  }

  /** A move that changes only the program counter, between states that neither hold nor wait nor carry. */
  lemma MoveKeeps(s: System, t: nat, pc: Pc)
    requires Inv(s) && t < |s.threads|
    requires Holds(pc) == Holds(s.threads[t]) && pc.Parked? == s.threads[t].Parked?
    requires Weight(pc) == Weight(s.threads[t]) && (Alert(s.threads[t]) ==> Alert(pc))
    ensures Inv(Move(s, t, pc))
  {
    StillAlert(s.threads, t, pc);
    InHandMoves(s.threads, t, pc);
  }

  lemma CountProducedKeeps(s: System, t: nat, frame: Frame)
    requires Inv(s) && t < |s.threads| && s.threads[t].Idle?
    ensures Inv(CountProduced(s, t, frame))
  {
    StillAlert(s.threads, t, Counted(frame));
    InHandMoves(s.threads, t, Counted(frame));
  }

  lemma StoreKeeps(s: System, t: nat, frame: Frame)
    requires Inv(s) && t < |s.threads| && s.threads[t] == Counted(frame) && s.shared.lock.None?
    ensures Inv(Store(s, t, frame))
  {
    OneAlert(s.threads, t, Stored(s.shared.slot.Some?));
    InHandMoves(s.threads, t, Stored(s.shared.slot.Some?));
  }

  lemma CountDropKeeps(s: System, t: nat, replaced: bool)
    requires Inv(s) && t < |s.threads| && s.threads[t] == Stored(replaced)
    ensures Inv(CountDrop(s, t, replaced))
  {
    StillAlert(s.threads, t, Tallied);
    InHandMoves(s.threads, t, Tallied);
  }

  lemma UnlockKeeps(s: System, t: nat, pc: Pc)
    requires Inv(s) && t < |s.threads| && Holds(s.threads[t]) && !Holds(pc) && !pc.Parked?
    requires Weight(pc) == Weight(s.threads[t]) && (Alert(s.threads[t]) ==> Alert(pc))
    ensures Inv(Unlock(s, t, pc))
  {
    StillAlert(s.threads, t, pc);
    InHandMoves(s.threads, t, pc);
  }

  /** Everything but the wakeup clause. */
  ghost predicate Sound(s: System) {
    Exclusive(s) && Queued(s) && Balanced(s) && Ordered(s)
  }

  /** A notification establishes the wakeup clause whether or not it held. */
  lemma NotifyKeeps(s: System)
    requires Sound(s)
    ensures Inv(NotifyOne(s))
  {
    if s.shared.waiters != [] {
      var w := s.shared.waiters[0];
      assert w in s.shared.waiters;
      NotifyQueue(s);
      OneAlert(s.threads, w, Woken);
      InHandMoves(s.threads, w, Woken);
    }
  }

  lemma NotifyQueue(s: System)
    requires Queued(s) && s.shared.waiters != []
    ensures Queued(NotifyOne(s))
  {
    var q, r := s.shared.waiters, s.shared.waiters[1..];
    assert q == [q[0]] + r;
    assert forall i :: 0 <= i < |r| ==> r[i] == q[i + 1];
    assert q[0] !in r;
  }

  lemma NotifyAndLeave(s: System, t: nat)
    requires Inv(s) && t < |s.threads| && (s.threads[t].Notifying? || s.threads[t].Woken?)
    ensures Inv(NotifyOne(Move(s, t, Idle)))
  {
    InHandMoves(s.threads, t, Idle);
    NotifyKeeps(Move(s, t, Idle));
  }

  lemma TakeKeeps(s: System, t: nat, again: bool)
    requires Inv(s) && t < |s.threads| && s.threads[t] == Looking(again) && s.shared.lock.None?
    ensures Inv(Take(s, t, again))
  {
    InHandMoves(s.threads, t, Taken(s.shared.slot, again));
  }

  lemma HandBackKeeps(s: System, t: nat, frame: Frame, again: bool)
    requires Inv(s) && t < |s.threads| && s.threads[t] == Leaving(Some(frame), again)
    ensures Inv(HandBack(s, t, frame))
  {
    StillAlert(s.threads, t, Idle);
    InHandMoves(s.threads, t, Idle);
  }

  lemma ParkKeepsQueue(s: System, t: nat)
    requires Queued(s) && t < |s.threads| && !s.threads[t].Parked? && !s.shared.permit
    ensures Queued(Await(s, t))
  {
    assert t !in s.shared.waiters;
  }

  lemma PermitKeeps(s: System, t: nat)
    requires Inv(s) && t < |s.threads| && s.threads[t] == Leaving(None, true) && s.shared.permit
    ensures Inv(Await(s, t))
  {
    OneAlert(s.threads, t, Looking(true));
    InHandMoves(s.threads, t, Looking(true));
  }

  lemma ParkKeeps(s: System, t: nat)
    requires Inv(s) && t < |s.threads| && s.threads[t] == Leaving(None, true) && !s.shared.permit
    ensures Inv(Await(s, t))
  {
    ParkKeepsQueue(s, t);
    StillAlert(s.threads, t, Parked);
    InHandMoves(s.threads, t, Parked);
  }

  lemma AwaitKeeps(s: System, t: nat)
    requires Inv(s) && t < |s.threads| && s.threads[t] == Leaving(None, true)
    ensures Inv(Await(s, t))
  {
    if s.shared.permit {
      PermitKeeps(s, t);
    } else {
      ParkKeeps(s, t);
    }
  }

  lemma {:induction false} WithoutIsExact(q: seq<nat>, t: nat)
    requires Distinct(q)
    ensures Distinct(Without(q, t))
    ensures forall u: nat :: u in Without(q, t) <==> u in q && u != t
  {
    if q != [] {
      assert q == [q[0]] + q[1..];
      assert q[0] !in q[1..];
      WithoutIsExact(q[1..], t);
    }
  }

  lemma AbandonKeeps(s: System, t: nat)
    requires Inv(s) && t < |s.threads| && s.threads[t].Parked?
    ensures Inv(Abandon(s, t))
  {
    StillAlert(s.threads, t, Idle);
    InHandMoves(s.threads, t, Idle);
    WithoutIsExact(s.shared.waiters, t);
    var q := Without(s.shared.waiters, t);
    assert forall i :: 0 <= i < |q| ==> q[i] in q;
  }

  lemma ProceedKeeps(s: System, t: nat)
    requires Inv(s) && t < |s.threads|
    ensures Inv(Proceed(s, t))
  {
    match s.threads[t]
    case Idle =>
    case Counted(frame) => if s.shared.lock.None? { StoreKeeps(s, t, frame); }
    case Stored(replaced) => CountDropKeeps(s, t, replaced);
    case Tallied => UnlockKeeps(s, t, Notifying);
    case Notifying => NotifyAndLeave(s, t);
    case Looking(again) => if s.shared.lock.None? { TakeKeeps(s, t, again); }
    case Taken(got, again) => UnlockKeeps(s, t, Leaving(got, again));
    case Leaving(got, again) =>
      if got.Some? {
        HandBackKeeps(s, t, got.value, again);
      } else if again {
        AwaitKeeps(s, t);
      } else {
        MoveKeeps(s, t, Idle);
      }
    case Parked =>
    case Woken => MoveKeeps(s, t, Looking(true));
  }

  lemma DropKeeps(s: System, t: nat)
    requires Inv(s) && t < |s.threads|
    ensures Inv(Drop(s, t))
  {
    if s.threads[t].Parked? {
      AbandonKeeps(s, t);
    } else if s.threads[t].Woken? {
      NotifyAndLeave(s, t);
    }
  }

  lemma StepKeeps(s: System, e: Event)
    requires Inv(s)
    ensures Inv(Step(s, e))
  {
    if e.thread < |s.threads| {
      match e
      case CallPublish(t, frame) => if s.threads[t].Idle? { CountProducedKeeps(s, t, frame); }
      case CallTryRecv(t) => if s.threads[t].Idle? { MoveKeeps(s, t, Looking(false)); }
      case CallRecv(t) => if s.threads[t].Idle? { MoveKeeps(s, t, Looking(true)); }
      case Advance(t) => ProceedKeeps(s, t);
      case Cancel(t) => DropKeeps(s, t);
    }
  }

  lemma StartInv(n: nat)
    ensures Inv(Start(n))
  {
    IdleHandsAreEmpty(n);
  }

  /** The invariant holds after every interleaving of every set of calls. */
  lemma {:induction false} RunKeepsInv(n: nat, events: seq<Event>)
    ensures Inv(Run(n, events))
    decreases |events|
  {
    if events == [] {
      StartInv(n);
    } else {
      var pre := events[..|events| - 1];
      RunKeepsInv(n, pre);
      StepKeeps(Run(n, pre), events[|events| - 1]);
    }
  }

  // ----- What every interleaving guarantees -----

  lemma {:induction false} AllIdle(threads: seq<Pc>)
    requires forall t: nat :: t < |threads| ==> threads[t].Idle? || threads[t].Parked?
    ensures InHand(threads) == 0
  {
    if threads != [] {
      AllIdle(threads[1..]);
    }
  }

  /**
   Conservation: every frame counted as produced is consumed, dropped, in the slot, or in the hands of
   a call between two actions; once no call is between actions the three counters and the slot agree.
   */
  lemma FramesAreConserved(n: nat, events: seq<Event>)
    ensures var s := Run(n, events);
            && s.shared.produced == s.shared.consumed + s.shared.dropped + Occupancy(s.shared) + InHand(s.threads)
            && ((forall t: nat :: t < n ==> s.threads[t].Idle? || s.threads[t].Parked?) ==>
                  s.shared.produced == s.shared.consumed + s.shared.dropped + Occupancy(s.shared))
  {
    RunKeepsInv(n, events);
    var s := Run(n, events);
    if forall t: nat :: t < n ==> s.threads[t].Idle? || s.threads[t].Parked? {
      AllIdle(s.threads);
    }
  }

  lemma StepCounters(s: System, e: Event)
    requires s.shared.produced == |s.log.called| && s.shared.consumed == |s.log.returned|
    ensures Step(s, e).shared.produced == |Step(s, e).log.called|
    ensures Step(s, e).shared.consumed == |Step(s, e).log.returned|
  {
    if e.thread < |s.threads| {
      NotifyCounters(s, e.thread);
      NotifyCounters(Move(s, e.thread, Idle), e.thread);
    }
  }

  lemma NotifyCounters(s: System, t: nat)
    ensures NotifyOne(s).shared.produced == s.shared.produced && NotifyOne(s).shared.consumed == s.shared.consumed
    ensures NotifyOne(s).log == s.log
  {
  }

  /**
   The counters of every run: `produced` counts the frames passed to publish and `consumed` those handed back by
   receive. What `dropped` counts then follows from the balance.
   */
  lemma {:induction false} CountersExactly(n: nat, events: seq<Event>)
    ensures Run(n, events).shared.produced == |Run(n, events).log.called|
    ensures Run(n, events).shared.consumed == |Run(n, events).log.returned|
    decreases |events|
  {
    if events != [] {
      CountersExactly(n, events[..|events| - 1]);
      StepCounters(Run(n, events[..|events| - 1]), events[|events| - 1]);
    }
  }

  /**
   No lost wakeup: while a receiver is parked and a frame is in the slot, some other thread is still
   to notify or is an awake receiver on its way to the slot.
   */
  lemma NoLostWakeup(n: nat, events: seq<Event>, c: nat)
    requires c < n
    requires Run(n, events).threads[c].Parked? && Run(n, events).shared.slot.Some?
    ensures exists t: nat :: t < n && t != c && Alert(Run(n, events).threads[t])
  {
    RunKeepsInv(n, events);
    var s := Run(n, events);
    assert c in s.shared.waiters;
    var t: nat :| t < |s.threads| && Alert(s.threads[t]);
    assert t < n && t != c;
  }

  /** Calls to receive are made by thread `c` only. */
  ghost predicate OnlyReceiver(events: seq<Event>, c: nat) {
    forall i :: 0 <= i < |events| && (events[i].CallTryRecv? || events[i].CallRecv?) ==> events[i].thread == c
  }

  predicate Receiving(pc: Pc) {
    pc.Looking? || pc.Taken? || pc.Leaving? || pc.Parked? || pc.Woken?
  }

  ghost predicate OthersDoNotReceive(s: System, c: nat) {
    forall t: nat :: t < |s.threads| && t != c ==> !Receiving(s.threads[t])
  }

  /** A step moves its own thread, and of the others at most one, from parked to woken. */
  lemma OnlyOneMoves(s: System, e: Event)
    requires Queued(s)
    ensures forall u: nat :: u < |s.threads| && u != e.thread ==>
              || Step(s, e).threads[u] == s.threads[u]
              || (s.threads[u].Parked? && Step(s, e).threads[u].Woken?)
  {
    var q := s.shared.waiters;
    if q != [] {
      assert q[0] in q;
      assert q[0] < |s.threads| ==> s.threads[q[0]].Parked?;
    }
  }

  lemma LoneReceiverStep(s: System, e: Event, c: nat)
    requires Queued(s) && OthersDoNotReceive(s, c) && (e.CallTryRecv? || e.CallRecv? ==> e.thread == c)
    ensures OthersDoNotReceive(Step(s, e), c)
  {
    OnlyOneMoves(s, e);
    if e.thread < |s.threads| && e.thread != c {
      assert !Receiving(s.threads[e.thread]);
      StaysOutOfReceive(s, e);
    }
  }

  lemma StaysOutOfReceive(s: System, e: Event)
    requires Queued(s) && e.thread < |s.threads| && !Receiving(s.threads[e.thread])
    requires !e.CallTryRecv? && !e.CallRecv?
    ensures !Receiving(Step(s, e).threads[e.thread])
  {
    var q := s.shared.waiters;
    if q != [] {
      assert q[0] in q;
    }
  }

  lemma {:induction false} LoneReceiver(n: nat, events: seq<Event>, c: nat)
    requires OnlyReceiver(events, c)
    ensures OthersDoNotReceive(Run(n, events), c)
    decreases |events|
  {
    if events != [] {
      var pre := events[..|events| - 1];
      assert forall i :: 0 <= i < |pre| ==> pre[i] == events[i];
      LoneReceiver(n, pre, c);
      RunKeepsInv(n, pre);
      LoneReceiverStep(Run(n, pre), events[|events| - 1], c);
    }
  }

  /** With one receiver, a full slot while it is parked means a publisher is about to notify it. */
  lemma PublisherIsAboutToNotify(n: nat, events: seq<Event>, c: nat)
    requires c < n && OnlyReceiver(events, c)
    requires Run(n, events).threads[c].Parked? && Run(n, events).shared.slot.Some?
    ensures exists t: nat :: t < n && WillNotify(Run(n, events).threads[t])
  {
    NoLostWakeup(n, events, c);
    LoneReceiver(n, events, c);
    var t: nat :| t < n && t != c && Alert(Run(n, events).threads[t]);
    assert WillNotify(Run(n, events).threads[t]);
  }

  /**
   Publishing never blocks for good: a call under way that is not parked can take its next action,
   or it waits for a lock whose holder can.
   */
  lemma SomeoneCanMove(n: nat, events: seq<Event>, t: nat)
    requires t < n
    requires !Run(n, events).threads[t].Idle? && !Run(n, events).threads[t].Parked?
    ensures var s := Run(n, events);
            || Step(s, Advance(t)).threads[t] != s.threads[t]
            || (s.shared.lock.Some? && s.shared.lock.value < n
                && Step(s, Advance(s.shared.lock.value)).threads[s.shared.lock.value] != s.threads[s.shared.lock.value])
  {
    RunKeepsInv(n, events);
  }

  // ----- A parked receiver does not wait forever -----

  /** The system after the listed threads each take an action, in turn. */
  function After(s: System, turns: seq<nat>): (r: System)
    ensures |r.threads| == |s.threads|
  {
    if turns == [] then s else Step(After(s, turns[..|turns| - 1]), Advance(turns[|turns| - 1]))
  }

  function Advances(turns: seq<nat>): (r: seq<Event>)
    ensures |r| == |turns| && forall i :: 0 <= i < |r| ==> r[i] == Advance(turns[i])
  {
    seq(|turns|, i requires 0 <= i < |turns| => Advance(turns[i]))
  }

  lemma {:induction false} RunAfter(n: nat, events: seq<Event>, turns: seq<nat>)
    ensures Run(n, events + Advances(turns)) == After(Run(n, events), turns)
    decreases |turns|
  {
    var all := events + Advances(turns);
    if turns == [] {
      assert all == events;
    } else {
      var m := |turns| - 1;
      RunAfter(n, events, turns[..m]);
      assert all[..|all| - 1] == events + Advances(turns[..m]);
    }
  }

  lemma AfterOne(s: System, turns: seq<nat>, t: nat)
    ensures After(s, turns + [t]) == Step(After(s, turns), Advance(t))
  {
    assert (turns + [t])[..|turns|] == turns;
  }

  /** The frame has been taken, or a waiting receiver has been woken. */
  predicate Relieved(s: System, r: System) {
    r.shared.slot.None? || |r.shared.waiters| < |s.shared.waiters|
  }

  lemma {:induction false} AfterFirst(s: System, t: nat, turns: seq<nat>)
    ensures After(s, [t] + turns) == After(Step(s, Advance(t)), turns)
    decreases |turns|
  {
    if turns == [] {
      assert [t] + turns == [] + [t];
      AfterOne(s, [], t);
    } else {
      var m := |turns| - 1;
      AfterFirst(s, t, turns[..m]);
      assert [t] + turns == [t] + turns[..m] + [turns[m]];
      AfterOne(s, [t] + turns[..m], turns[m]);
    }
  }

  /** How many actions a publisher past the store still takes. */
  function Remaining(pc: Pc): nat {
    if pc.Stored? then 3 else if pc.Tallied? then 2 else 1
  }

  lemma PublisherSteps(s: System, t: nat)
    requires t < |s.threads| && WillNotify(s.threads[t]) && s.shared.waiters != []
    ensures var r := Step(s, Advance(t));
            if s.threads[t].Notifying? then |r.shared.waiters| < |s.shared.waiters|
            else r.shared.waiters == s.shared.waiters && WillNotify(r.threads[t])
                 && Remaining(r.threads[t]) < Remaining(s.threads[t])
  {
  }

  /** A publisher past the store notifies within three actions of its own. */
  lemma {:induction false} PublisherNotifies(s: System, t: nat) returns (turns: seq<nat>)
    requires t < |s.threads| && WillNotify(s.threads[t]) && s.shared.waiters != []
    ensures |turns| <= Remaining(s.threads[t]) && |After(s, turns).shared.waiters| < |s.shared.waiters|
    ensures forall i :: 0 <= i < |turns| ==> turns[i] == t
    decreases Remaining(s.threads[t])
  {
    PublisherSteps(s, t);
    var rest: seq<nat> := [];
    if !s.threads[t].Notifying? {
      rest := PublisherNotifies(Step(s, Advance(t)), t);
    }
    turns := [t] + rest;
    AfterFirst(s, t, rest);
  }

  lemma HolderSteps(s: System, h: nat)
    requires h < |s.threads| && Holds(s.threads[h]) && s.shared.lock == Some(h)
    ensures var r := Step(s, Advance(h));
            && r.shared.slot == s.shared.slot
            && (forall u: nat :: u < |s.threads| && u != h ==> r.threads[u] == s.threads[u])
            && if s.threads[h].Stored? then r.shared.lock == Some(h) && r.threads[h].Tallied? else r.shared.lock.None?
  {
  }

  /** Whoever holds the lock gives it up within two actions, and nothing else happens. */
  lemma {:induction false} HolderReleases(s: System, h: nat) returns (turns: seq<nat>)
    requires h < |s.threads| && Holds(s.threads[h]) && s.shared.lock == Some(h)
    ensures |turns| <= if s.threads[h].Stored? then 2 else 1
    ensures forall i :: 0 <= i < |turns| ==> turns[i] == h
    ensures var r := After(s, turns);
            && r.shared.lock.None? && r.shared.slot == s.shared.slot
            && forall u: nat :: u < |s.threads| && u != h ==> r.threads[u] == s.threads[u]
    decreases if s.threads[h].Stored? then 1 else 0
  {
    HolderSteps(s, h);
    var rest: seq<nat> := [];
    if s.threads[h].Stored? {
      rest := HolderReleases(Step(s, Advance(h)), h);
    }
    turns := [h] + rest;
    AfterFirst(s, h, rest);
  }

  lemma ReceiverSteps(s: System, t: nat)
    requires t < |s.threads| && s.shared.lock.None? && (s.threads[t].Woken? || s.threads[t] == Looking(true))
    ensures var r := Step(s, Advance(t));
            if s.threads[t].Woken? then r.shared.lock.None? && r.threads[t] == Looking(true) else r.shared.slot.None?
  {
  }

  /** With the lock free an awake receiver empties the slot within two actions. */
  lemma {:induction false} FreeReceiverTakes(s: System, t: nat) returns (turns: seq<nat>)
    requires t < |s.threads| && s.shared.lock.None? && (s.threads[t].Woken? || s.threads[t] == Looking(true))
    ensures |turns| <= (if s.threads[t].Woken? then 2 else 1) && After(s, turns).shared.slot.None?
    ensures forall i :: 0 <= i < |turns| ==> turns[i] == t
    decreases if s.threads[t].Woken? then 1 else 0
  {
    ReceiverSteps(s, t);
    var rest: seq<nat> := [];
    if s.threads[t].Woken? {
      rest := FreeReceiverTakes(Step(s, Advance(t)), t);
    }
    turns := [t] + rest;
    AfterFirst(s, t, rest);
  }

  lemma {:induction false} AfterBoth(s: System, a: seq<nat>, b: seq<nat>)
    ensures After(s, a + b) == After(After(s, a), b)
    decreases |b|
  {
    if b == [] {
      assert a + b == a;
    } else {
      var m := |b| - 1;
      AfterBoth(s, a, b[..m]);
      assert a + b == a + b[..m] + [b[m]];
      AfterOne(s, a + b[..m], b[m]);
    }
  }

  /** The turns are those of thread `t` and of the thread that held the lock at the start. */
  predicate TurnsOf(s: System, t: nat, turns: seq<nat>) {
    forall i :: 0 <= i < |turns| ==> turns[i] == t || s.shared.lock == Some(turns[i])
  }

  /** An awake receiver on its way to the slot empties it within four actions of its own and the lock holder's. */
  lemma ReceiverTakes(s: System, t: nat) returns (turns: seq<nat>)
    requires Exclusive(s) && t < |s.threads| && (s.threads[t].Woken? || s.threads[t] == Looking(true))
    ensures |turns| <= 4 && After(s, turns).shared.slot.None? && TurnsOf(s, t, turns)
  {
    var freeing: seq<nat> := [];
    if s.shared.lock.Some? {
      freeing := HolderReleases(s, s.shared.lock.value);
    }
    var taking := FreeReceiverTakes(After(s, freeing), t);
    turns := freeing + taking;
    AfterBoth(s, freeing, taking);
  }

  /**
   Progress: from every reachable state with a parked receiver and a full slot, at most four actions of
   the alert thread and the lock holder empty the slot or wake a receiver.
   */
  lemma ParkedReceiverIsRelieved(n: nat, events: seq<Event>, c: nat) returns (turns: seq<nat>)
    requires c < n && Run(n, events).threads[c].Parked? && Run(n, events).shared.slot.Some?
    ensures |turns| <= 4 && Relieved(Run(n, events), Run(n, events + Advances(turns)))
    ensures exists t: nat :: t < n && t != c && Alert(Run(n, events).threads[t]) && TurnsOf(Run(n, events), t, turns)
  {
    var s := Run(n, events);
    RunKeepsInv(n, events);
    NoLostWakeup(n, events, c);
    assert c in s.shared.waiters;
    var t: nat :| t < n && t != c && Alert(s.threads[t]);
    if WillNotify(s.threads[t]) {
      turns := PublisherNotifies(s, t);
    } else {
      turns := ReceiverTakes(s, t);
    }
    RunAfter(n, events, turns);
  }

  // ----- One publisher and one receiver -----

  /** Calls to publish are made by thread `p` only. */
  ghost predicate OnlyPublisher(events: seq<Event>, p: nat) {
    forall i :: 0 <= i < |events| && events[i].CallPublish? ==> events[i].thread == p
  }

  /** The frame a thread has been asked to publish and has not stored yet. */
  function Offered(threads: seq<Pc>, p: nat): seq<Frame> {
    if p < |threads| && threads[p].Counted? then [threads[p].frame] else []
  }

  /** The frame a thread has taken and not handed back yet. */
  function CarriedBy(pc: Pc): seq<Frame> {
    match pc
    case Taken(got, _) => if got.Some? then [got.value] else []
    case Leaving(got, _) => if got.Some? then [got.value] else []
    case _ => []
  }

  function Carried(threads: seq<Pc>, c: nat): seq<Frame> {
    if c < |threads| then CarriedBy(threads[c]) else []
  }

  ghost predicate StoredAsCalled(s: System, p: nat) {
    && (forall t: nat :: t < |s.threads| && t != p ==> !s.threads[t].Counted?)
    && s.log.called == s.log.published + Offered(s.threads, p)
  }

  /** `frames` are the elements of `all` at the positions `q`. */
  ghost predicate Picks(all: seq<Frame>, q: seq<nat>, frames: seq<Frame>) {
    |frames| == |q| && forall i :: 0 <= i < |q| ==> q[i] < |all| && frames[i] == all[q[i]]
  }

  ghost predicate HandedAsTaken(s: System, c: nat) {
    OthersDoNotReceive(s, c) && Picks(s.log.published, s.log.positions, s.log.returned + Carried(s.threads, c))
  }

  /** The frame this event begins to publish. */
  function Begun(s: System, e: Event): seq<Frame> {
    if e.CallPublish? && e.thread < |s.threads| && s.threads[e.thread].Idle? then [e.frame] else []
  }

  predicate Locks(s: System, e: Event) {
    e.Advance? && e.thread < |s.threads| && s.shared.lock.None?
  }

  /** The frame this event writes to the slot. */
  function StoredBy(s: System, e: Event): seq<Frame> {
    if Locks(s, e) && s.threads[e.thread].Counted? then [s.threads[e.thread].frame] else []
  }

  /** The frame this event takes from the slot. */
  function TakenBy(s: System, e: Event): seq<Frame> {
    if Locks(s, e) && s.threads[e.thread].Looking? && s.shared.slot.Some? then [s.shared.slot.value] else []
  }

  /** The frame this event hands back to the caller. */
  function ReturnedBy(s: System, e: Event): seq<Frame> {
    if e.Advance? && e.thread < |s.threads| && s.threads[e.thread].Leaving? && s.threads[e.thread].got.Some?
    then [s.threads[e.thread].got.value] else []
  }

  lemma CalledAndStored(s: System, e: Event)
    requires e.thread < |s.threads|
    ensures Step(s, e).log.called == s.log.called + Begun(s, e)
    ensures Step(s, e).log.published == s.log.published + StoredBy(s, e)
    ensures Offered(s.threads, e.thread) + Begun(s, e) == StoredBy(s, e) + Offered(Step(s, e).threads, e.thread)
  {
  }

  lemma TakenAndReturned(s: System, e: Event)
    requires e.thread < |s.threads| && (s.shared.slot.Some? ==> s.log.published != [])
    ensures Step(s, e).log.positions == s.log.positions + if TakenBy(s, e) == [] then [] else [|s.log.published| - 1]
    ensures Step(s, e).log.returned == s.log.returned + ReturnedBy(s, e)
    ensures Carried(s.threads, e.thread) + TakenBy(s, e) == ReturnedBy(s, e) + Carried(Step(s, e).threads, e.thread)
  {
    TakenIsNoted(s, e);
    ReturnedIsNoted(s, e);
    CarriedMoves(s, e);
  }

  lemma TakenIsNoted(s: System, e: Event)
    requires e.thread < |s.threads| && (s.shared.slot.Some? ==> s.log.published != [])
    ensures Step(s, e).log.positions == s.log.positions + if TakenBy(s, e) == [] then [] else [|s.log.published| - 1]
  {
  }

  lemma ReturnedIsNoted(s: System, e: Event)
    requires e.thread < |s.threads|
    ensures Step(s, e).log.returned == s.log.returned + ReturnedBy(s, e)
  {
  }

  lemma CarriedMoves(s: System, e: Event)
    requires e.thread < |s.threads|
    ensures Carried(s.threads, e.thread) + TakenBy(s, e) == ReturnedBy(s, e) + Carried(Step(s, e).threads, e.thread)
  {
  }

  lemma StepStores(s: System, e: Event, p: nat)
    requires StoredAsCalled(s, p) && (e.CallPublish? ==> e.thread == p) && Queued(s)
    ensures StoredAsCalled(Step(s, e), p)
  {
    if e.thread < |s.threads| {
      var r := Step(s, e);
      OnlyOneMoves(s, e);
      CalledAndStored(s, e);
      if e.thread == p {
        calc {
          r.log.called;
          s.log.published + (Offered(s.threads, p) + Begun(s, e));
          s.log.published + (StoredBy(s, e) + Offered(r.threads, p));
          r.log.published + Offered(r.threads, p);
        }
      }
    }
  }

  lemma PicksMore(all: seq<Frame>, more: seq<Frame>, q: seq<nat>, frames: seq<Frame>)
    requires Picks(all, q, frames)
    ensures Picks(all + more, q, frames)
  {
  }

  /** What the lone receiver has been handed or carries grows by exactly what the step takes. */
  lemma ReceivedGrows(s: System, e: Event, c: nat)
    requires Queued(s) && OthersDoNotReceive(s, c) && (s.shared.slot.Some? ==> s.log.published != [])
    requires e.thread < |s.threads|
    ensures Step(s, e).log.returned + Carried(Step(s, e).threads, c)
         == s.log.returned + Carried(s.threads, c) + TakenBy(s, e)
  {
    var r := Step(s, e);
    OnlyOneMoves(s, e);
    TakenAndReturned(s, e);
    if e.thread == c {
      calc {
        r.log.returned + Carried(r.threads, c);
        s.log.returned + (ReturnedBy(s, e) + Carried(r.threads, c));
        s.log.returned + (Carried(s.threads, c) + TakenBy(s, e));
      }
    } else {
      assert !Receiving(s.threads[e.thread]);
    }
  }

  /** Taking the newest frame extends the picked frames by it. */
  lemma PicksNewest(all: seq<Frame>, q: seq<nat>, frames: seq<Frame>)
    requires all != [] && Picks(all, q, frames)
    ensures Picks(all, q + [|all| - 1], frames + [all[|all| - 1]])
  {
  }

  lemma StepPicks(s: System, e: Event, frames: seq<Frame>)
    requires e.thread < |s.threads| && Ordered(s) && Picks(s.log.published, s.log.positions, frames)
    ensures Picks(Step(s, e).log.published, Step(s, e).log.positions, frames + TakenBy(s, e))
  {
    TakenIsNoted(s, e);
    CalledAndStored(s, e);
    if TakenBy(s, e) == [] {
      PicksMore(s.log.published, StoredBy(s, e), s.log.positions, frames);
      assert frames + TakenBy(s, e) == frames;
    } else {
      PicksNewest(s.log.published, s.log.positions, frames);
      assert StoredBy(s, e) == [];
    }
  }

  lemma StepHands(s: System, e: Event, c: nat)
    requires Inv(s) && HandedAsTaken(s, c) && (e.CallTryRecv? || e.CallRecv? ==> e.thread == c)
    ensures HandedAsTaken(Step(s, e), c)
  {
    LoneReceiverStep(s, e, c);
    if e.thread < |s.threads| {
      ReceivedGrows(s, e, c);
      StepPicks(s, e, s.log.returned + Carried(s.threads, c));
    }
  }

  lemma {:induction false} RunStores(n: nat, events: seq<Event>, p: nat)
    requires OnlyPublisher(events, p)
    ensures StoredAsCalled(Run(n, events), p)
    decreases |events|
  {
    if events != [] {
      var pre := events[..|events| - 1];
      assert forall i :: 0 <= i < |pre| ==> pre[i] == events[i];
      RunStores(n, pre, p);
      RunKeepsInv(n, pre);
      StepStores(Run(n, pre), events[|events| - 1], p);
    }
  }

  lemma {:induction false} RunHands(n: nat, events: seq<Event>, c: nat)
    requires OnlyReceiver(events, c)
    ensures HandedAsTaken(Run(n, events), c)
    decreases |events|
  {
    if events != [] {
      var pre := events[..|events| - 1];
      assert forall i :: 0 <= i < |pre| ==> pre[i] == events[i];
      RunHands(n, pre, c);
      RunKeepsInv(n, pre);
      StepHands(Run(n, pre), events[|events| - 1], c);
    }
  }

  /** Frames of `all` in their order, each at most once; when `upToDate`, the last of `all` is among them. */
  ghost predicate InOrderOnce(all: seq<Frame>, frames: seq<Frame>, upToDate: bool) {
    exists q: seq<nat> :: Increasing(q, |all|) && Picks(all, q, frames)
                       && (upToDate && all != [] ==> q != [] && q[|q| - 1] == |all| - 1)
  }

  lemma NewestOf(s: System, p: nat, c: nat)
    requires Ordered(s) && StoredAsCalled(s, p) && HandedAsTaken(s, c)
    ensures InOrderOnce(s.log.called, s.log.returned + Carried(s.threads, c),
                        s.shared.slot.None? && Offered(s.threads, p) == [])
    ensures s.shared.slot.Some? && Offered(s.threads, p) == [] ==>
              s.log.called != [] && s.shared.slot.value == s.log.called[|s.log.called| - 1]
  {
    PicksMore(s.log.published, Offered(s.threads, p), s.log.positions, s.log.returned + Carried(s.threads, c));
    assert Increasing(s.log.positions, |s.log.called|);
  }

  /**
   Latest frame wins: with one publisher and one receiver, the frames received, together with one the
   receiver still carries, are a subsequence of the frames published, each at most once. The newest
   stored frame is never lost: it is in the slot, or the slot is empty and it is the last one taken.
   */
  lemma NewestIsNeverLost(n: nat, events: seq<Event>, p: nat, c: nat)
    requires OnlyPublisher(events, p) && OnlyReceiver(events, c)
    ensures var s := Run(n, events);
            && InOrderOnce(s.log.called, s.log.returned + Carried(s.threads, c),
                           s.shared.slot.None? && Offered(s.threads, p) == [])
            && (s.shared.slot.Some? && Offered(s.threads, p) == [] ==>
                  s.log.called != [] && s.shared.slot.value == s.log.called[|s.log.called| - 1])
  {
    RunKeepsInv(n, events);
    RunStores(n, events, p);
    RunHands(n, events, c);
    var s := Run(n, events);
    NewestOf(s, p, c);
  }

  // ----- One publisher and any number of receivers -----

  function Count(frames: seq<Frame>, x: Frame): nat {
    multiset(frames)[x]
  }

  lemma CountOfBoth(a: seq<Frame>, b: seq<Frame>, x: Frame)
    ensures Count(a + b, x) == Count(a, x) + Count(b, x)
  {
    assert multiset(a + b) == multiset(a) + multiset(b);
  }

  function Sum(ws: seq<nat>): nat {
    if ws == [] then 0 else ws[0] + Sum(ws[1..])
  }

  lemma {:induction false} SumOfZeros(ws: seq<nat>)
    requires forall u :: 0 <= u < |ws| ==> ws[u] == 0
    ensures Sum(ws) == 0
  {
    if ws != [] {
      SumOfZeros(ws[1..]);
    }
  }

  lemma {:induction false} SumMoves(ws: seq<nat>, t: nat, w: nat)
    requires t < |ws|
    ensures Sum(ws[t := w]) + ws[t] == Sum(ws) + w
  {
    if t == 0 {
      assert ws[t := w][1..] == ws[1..];
    } else {
      assert ws[t := w][1..] == ws[1..][t - 1 := w];
      SumMoves(ws[1..], t - 1, w);
    }
  }

  /** How often each thread carries frame `x`. */
  function Loads(threads: seq<Pc>, x: Frame): seq<nat> {
    seq(|threads|, u requires 0 <= u < |threads| => Count(CarriedBy(threads[u]), x))
  }

  /** How often frame `x` has been taken and not handed back yet. */
  function InFlight(threads: seq<Pc>, x: Frame): nat {
    Sum(Loads(threads, x))
  }

  /** When only thread `t` carries something else than before, the frames in flight change by just that. */
  lemma InFlightMoves(a: seq<Pc>, b: seq<Pc>, t: nat, x: Frame)
    requires t < |a| == |b| && forall u: nat :: u < |a| && u != t ==> CarriedBy(a[u]) == CarriedBy(b[u])
    ensures InFlight(b, x) + Count(CarriedBy(a[t]), x) == InFlight(a, x) + Count(CarriedBy(b[t]), x)
  {
    assert Loads(b, x) == Loads(a, x)[t := Count(CarriedBy(b[t]), x)];
    SumMoves(Loads(a, x), t, Count(CarriedBy(b[t]), x));
  }

  /** Each frame was taken as often as it was handed back or is still carried. */
  ghost predicate AllHanded(s: System, taken: seq<Frame>) {
    forall x :: Count(taken, x) == Count(s.log.returned, x) + InFlight(s.threads, x)
  }

  /** `taken` are the frames taken, in that order, and each was handed back or is still carried. */
  ghost predicate SharedOut(s: System, taken: seq<Frame>) {
    Picks(s.log.published, s.log.positions, taken) && AllHanded(s, taken)
  }

  lemma StepCounts(s: System, e: Event, x: Frame)
    requires Inv(s) && e.thread < |s.threads|
    ensures Step(s, e).log.returned == s.log.returned + ReturnedBy(s, e)
    ensures InFlight(Step(s, e).threads, x) + Count(ReturnedBy(s, e), x) == InFlight(s.threads, x) + Count(TakenBy(s, e), x)
  {
    var r, t := Step(s, e), e.thread;
    TakenAndReturned(s, e);
    OnlyOneMoves(s, e);
    InFlightMoves(s.threads, r.threads, t, x);
    CountOfBoth(CarriedBy(s.threads[t]), TakenBy(s, e), x);
    CountOfBoth(ReturnedBy(s, e), CarriedBy(r.threads[t]), x);
  }

  lemma StepShares(s: System, e: Event, taken: seq<Frame>)
    requires Inv(s) && e.thread < |s.threads| && SharedOut(s, taken)
    ensures SharedOut(Step(s, e), taken + TakenBy(s, e))
  {
    StepPicks(s, e, taken);
    forall x
      ensures Count(taken + TakenBy(s, e), x) == Count(Step(s, e).log.returned, x) + InFlight(Step(s, e).threads, x)
    {
      StepCounts(s, e, x);
      CountOfBoth(taken, TakenBy(s, e), x);
      CountOfBoth(s.log.returned, ReturnedBy(s, e), x);
      assert Count(taken, x) == Count(s.log.returned, x) + InFlight(s.threads, x);
    }
  }

  lemma StartShares(n: nat)
    ensures SharedOut(Start(n), [])
  {
    forall x
      ensures InFlight(Start(n).threads, x) == 0
    {
      SumOfZeros(Loads(Start(n).threads, x));
    }
  }

  lemma {:induction false} RunShares(n: nat, events: seq<Event>)
    ensures exists taken :: SharedOut(Run(n, events), taken)
    decreases |events|
  {
    if events == [] {
      StartShares(n);
      assert SharedOut(Run(n, events), []);
    } else {
      var pre, last := events[..|events| - 1], events[|events| - 1];
      RunShares(n, pre);
      RunKeepsInv(n, pre);
      var s := Run(n, pre);
      var taken :| SharedOut(s, taken);
      assert Run(n, events) == Step(s, last);
      if last.thread < n {
        StepShares(s, last, taken);
      } else {
        assert SharedOut(Step(s, last), taken);
      }
    }
  }

  /**
   `taken` lists the frames in the order they were taken: each is the published frame at the position noted
   when it was taken, these positions increase, and the last is the newest's once the slot is empty.
   Each was handed back or is still carried.
   */
  ghost predicate Served(s: System, p: nat, taken: seq<Frame>) {
    var all, q := s.log.called, s.log.positions;
    && Picks(all, q, taken) && Increasing(q, |all|)
    && (s.shared.slot.None? && Offered(s.threads, p) == [] && all != [] ==> q != [] && q[|q| - 1] == |all| - 1)
    && AllHanded(s, taken)
  }

  lemma ServedBy(s: System, p: nat, taken: seq<Frame>)
    requires Ordered(s) && StoredAsCalled(s, p) && SharedOut(s, taken)
    ensures Served(s, p, taken)
  {
    PicksMore(s.log.published, Offered(s.threads, p), s.log.positions, taken);
  }

  /**
   Latest frame wins among any number of receivers: with one publisher, the frames taken are, in the order
   they were taken, a subsequence of the frames published, and are exactly those handed back to some
   receiver or still carried by one. So no published frame reaches two receivers, and the newest is never
   lost: it is in the slot, or the slot is empty and it was taken last.
   */
  lemma NewestAmongReceivers(n: nat, events: seq<Event>, p: nat)
    requires OnlyPublisher(events, p)
    ensures exists taken :: Served(Run(n, events), p, taken)
    ensures var s := Run(n, events);
            s.shared.slot.Some? && Offered(s.threads, p) == [] ==>
              s.log.called != [] && s.shared.slot.value == s.log.called[|s.log.called| - 1]
  {
    RunKeepsInv(n, events);
    RunStores(n, events, p);
    RunShares(n, events);
    var taken :| SharedOut(Run(n, events), taken);
    ServedBy(Run(n, events), p, taken);
  }

  // ----- Uninterrupted calls -----

  /** What a whole publish does to the shared state when no other thread moves. */
  function Published(h: Shared, frame: Frame): (r: Shared)
    ensures r.slot == Some(frame) && r.lock == h.lock && r.consumed == h.consumed
    ensures r.produced - r.dropped - Occupancy(r) == h.produced - h.dropped - Occupancy(h)
    ensures r.permit || |r.waiters| < |h.waiters|
  {
    var stored := h.(slot := Some(frame), produced := h.produced + 1,
                     dropped := h.dropped + if h.slot.Some? then 1 else 0);
    if h.waiters == [] then stored.(permit := true) else stored.(waiters := h.waiters[1..])
  }

  /** What a whole try_recv does to the shared state when no other thread moves. */
  function Received(h: Shared): (r: Shared)
    ensures r.slot.None? && r.lock == h.lock && r.produced == h.produced && r.dropped == h.dropped
    ensures r.consumed == h.consumed + Occupancy(h)
    ensures r.permit == h.permit && r.waiters == h.waiters
  {
    h.(slot := None, consumed := h.consumed + Occupancy(h))
  }

  /** `k` actions of one thread in a row. */
  function Actions(s: System, t: nat, k: nat): (r: System)
    ensures |r.threads| == |s.threads|
  {
    if k == 0 then s else Step(Actions(s, t, k - 1), Advance(t))
  }

  lemma PublishUninterrupted(s: System, t: nat, frame: Frame)
    requires t < |s.threads| && s.threads[t].Idle? && s.shared.lock.None?
    ensures Actions(Step(s, CallPublish(t, frame)), t, 4).shared == Published(s.shared, frame)
  {
    var s0 := Step(s, CallPublish(t, frame));
    var s1 := Step(s0, Advance(t));
    assert s1.shared == s0.shared.(slot := Some(frame), lock := Some(t)) && s1.threads[t] == Stored(s.shared.slot.Some?);
    var s2 := Step(s1, Advance(t));
    assert s2.threads[t] == Tallied;
    var s3 := Step(s2, Advance(t));
    assert s3.threads[t] == Notifying && s3.shared == s2.shared.(lock := None);
    var s4 := Step(s3, Advance(t));
    assert s4.shared == Published(s.shared, frame);
    ChainOfFour(s0, t, s1, s2, s3, s4);
  }

  lemma ChainOfFour(s0: System, t: nat, s1: System, s2: System, s3: System, s4: System)
    requires s1 == Step(s0, Advance(t)) && s2 == Step(s1, Advance(t))
    requires s3 == Step(s2, Advance(t)) && s4 == Step(s3, Advance(t))
    ensures Actions(s0, t, 1) == s1 && Actions(s0, t, 2) == s2
    ensures Actions(s0, t, 3) == s3 && Actions(s0, t, 4) == s4
  {
    assert Actions(s0, t, 0) == s0;
    assert Actions(s0, t, 1) == s1;
    assert Actions(s0, t, 2) == s2;
    assert Actions(s0, t, 3) == s3;
  }

  lemma TryRecvUninterrupted(s: System, t: nat)
    requires t < |s.threads| && s.threads[t].Idle? && s.shared.lock.None?
    ensures var r := Actions(Step(s, CallTryRecv(t)), t, 3);
            && r.shared == Received(s.shared)
            && r.threads[t].Idle?
            && r.log.returned == s.log.returned + if s.shared.slot.Some? then [s.shared.slot.value] else []
  {
    var s0 := Step(s, CallTryRecv(t));
    var s1 := Step(s0, Advance(t));
    assert s1.threads[t] == Taken(s.shared.slot, false) && s1.shared == s.shared.(slot := None, lock := Some(t));
    var s2 := Step(s1, Advance(t));
    assert s2.threads[t] == Leaving(s.shared.slot, false) && s2.shared == s.shared.(slot := None);
    var s3 := Step(s2, Advance(t));
    assert s3.shared == Received(s.shared);
    ChainOfFour(s0, t, s1, s2, s3, Step(s3, Advance(t)));
  }

  /** Both ends of the channel as one object, its calls not interrupted. */
  class Channel {
    var slot: Option<Frame>
    var permit: bool
    var waiters: seq<nat>
    var produced: nat
    var consumed: nat
    var dropped: nat

    ghost function Value(): Shared
      reads this
    {
      Shared(slot, None, permit, waiters, produced, consumed, dropped)
    }

    constructor ()
      ensures Value() == Start(0).shared
    {
      slot, permit, waiters := None, false, [];
      produced, consumed, dropped := 0, 0, 0;
    }

    method Publish(frame: Frame)
      modifies this
      ensures Value() == Published(old(Value()), frame)
    {
      produced := produced + 1;
      var replaced := slot.Some?;
      slot := Some(frame);
      if replaced {
        dropped := dropped + 1;
      }
      if waiters == [] {
        permit := true;
      } else {
        waiters := waiters[1..];
      }
    }

    method TryRecv() returns (frame: Option<Frame>)
      modifies this
      ensures frame == old(slot) && Value() == Received(old(Value()))
    {
      frame := slot;
      slot := None;
      if frame.Some? {
        consumed := consumed + 1;
      }
    }
  }
}
