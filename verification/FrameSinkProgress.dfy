/**
 Liveness of the frame sink: whatever the scheduler interleaves, as long as it is fair, a receiver does not
 stay parked in front of a full slot.
 */
module FrameSinkProgress {
  import opened Prelude
  import opened FrameSink

  function Follow(s: System, events: seq<Event>): (r: System)
    ensures |r.threads| == |s.threads|
    decreases |events|
  {
    if events == [] then s else Follow(Step(s, events[0]), events[1..])
  }

  /** Receiver `c` is parked and a frame is in the slot. */
  ghost predicate Pending(s: System, c: nat) {
    Inv(s) && c < |s.threads| && s.threads[c].Parked? && s.shared.slot.Some?
  }

  ghost predicate Wakes(s: System, e: Event) {
    exists u: nat :: u < |s.threads| && s.threads[u].Parked? && Step(s, e).threads[u].Woken?
  }

  /** The step takes the frame, wakes a receiver, or drops the receive that waits. */
  ghost predicate Relieves(s: System, c: nat, e: Event) {
    Step(s, e).shared.slot.None? || Wakes(s, e) || e == Cancel(c)
  }

  /** No step of the schedule relieves `c`. */
  ghost predicate Unrelieved(s: System, c: nat, events: seq<Event>)
    decreases |events|
  {
    events == [] || (!Relieves(s, c, events[0]) && Unrelieved(Step(s, events[0]), c, events[1..]))
  }

  // ----- Fair schedules -----

  const FAIR_ROUNDS: nat := 6

  /** Every thread takes a turn. */
  ghost predicate EveryoneMoves(n: nat, events: seq<Event>) {
    forall t: nat :: t < n ==> Advance(t) in events
  }

  /** A schedule given round by round: in each round every thread takes a turn. */
  ghost predicate Fair(n: nat, rounds: seq<seq<Event>>) {
    forall i :: 0 <= i < |rounds| ==> EveryoneMoves(n, rounds[i])
  }

  function Flat(rounds: seq<seq<Event>>): seq<Event> {
    if rounds == [] then [] else rounds[0] + Flat(rounds[1..])
  }

  // ----- One step -----

  /** A step that does not relieve leaves the receiver pending. */
  lemma StaysPending(s: System, c: nat, e: Event)
    requires Pending(s, c) && !Relieves(s, c, e)
    ensures Pending(Step(s, e), c)
  {
    StepKeeps(s, e);
    OnlyOneMoves(s, e);
    if e.thread == c {
      assert Step(s, e).threads[c] == s.threads[c];
    }
  }

  /** With a parked receiver a notification always wakes one. */
  lemma NotifyWakes(s: System, c: nat, e: Event)
    requires Pending(s, c) && e.thread < |s.threads|
    requires || (e.Advance? && s.threads[e.thread].Notifying?)
             || (e.Cancel? && s.threads[e.thread].Woken?)
    ensures Wakes(s, e)
  {
    var q := s.shared.waiters;
    assert c in q;
    assert q[0] in q;
    assert s.threads[q[0]].Parked? && Step(s, e).threads[q[0]].Woken?;
  }

  /** A thread that is neither idle, parked nor woken moves only by its own turns. */
  lemma OthersKeep(s: System, e: Event, t: nat)
    requires Queued(s) && t < |s.threads| && e != Advance(t)
    requires !s.threads[t].Idle? && !s.threads[t].Parked? && !s.threads[t].Woken?
    ensures Step(s, e).threads[t] == s.threads[t]
  {
    OnlyOneMoves(s, e);
  }

  /** Someone is past the store and still to notify. */
  ghost predicate Announced(s: System) {
    exists u: nat :: u < |s.threads| && WillNotify(s.threads[u])
  }

  lemma NotifierStep(s: System, c: nat, e: Event, u: nat)
    requires Pending(s, c) && !Relieves(s, c, e) && u < |s.threads| && WillNotify(s.threads[u])
    ensures WillNotify(Step(s, e).threads[u])
    ensures Remaining(Step(s, e).threads[u]) == Remaining(s.threads[u]) - if e == Advance(u) then 1 else 0
  {
    if e == Advance(u) {
      if s.threads[u].Notifying? {
        NotifyWakes(s, c, e);
      }
    } else {
      OthersKeep(s, e, u);
    }
  }

  lemma AnnouncedStays(s: System, c: nat, e: Event)
    requires Pending(s, c) && !Relieves(s, c, e) && Announced(s)
    ensures Announced(Step(s, e))
  {
    var u: nat :| u < |s.threads| && WillNotify(s.threads[u]);
    NotifierStep(s, c, e, u);
  }

  /** Unless a frame is taken, whoever gets hold of the lock is past the store. */
  lemma LockStep(s: System, c: nat, e: Event)
    requires Pending(s, c) && !Relieves(s, c, e) && s.shared.lock.None?
    ensures Step(s, e).shared.lock.None? || Announced(Step(s, e))
  {
    var r := Step(s, e);
    if r.shared.lock.Some? {
      assert e.Advance? && s.threads[e.thread].Counted?;
      assert WillNotify(r.threads[e.thread]);
    }
  }

  // ----- The stages on the way to relief -----

  /** Someone is to notify, or `t` is on its way to the slot. */
  ghost predicate Looks(s: System, t: nat) {
    Announced(s) || (t < |s.threads| && s.threads[t] == Looking(true))
  }

  /** Someone is to notify, or `t` is on its way and the lock is free. */
  ghost predicate Free(s: System, t: nat) {
    Announced(s) || (t < |s.threads| && s.threads[t] == Looking(true) && s.shared.lock.None?)
  }

  ghost predicate Awake(s: System, t: nat) {
    Looks(s, t) || (t < |s.threads| && s.threads[t].Woken?)
  }

  lemma LooksStep(s: System, c: nat, e: Event, t: nat)
    requires Pending(s, c) && !Relieves(s, c, e) && Looks(s, t)
    ensures Looks(Step(s, e), t)
  {
    if Announced(s) {
      AnnouncedStays(s, c, e);
    } else if e != Advance(t) {
      OthersKeep(s, e, t);
    }
  }

  lemma FreeStep(s: System, c: nat, e: Event, t: nat)
    requires Pending(s, c) && !Relieves(s, c, e) && Free(s, t)
    ensures Free(Step(s, e), t) && (e == Advance(t) ==> Announced(Step(s, e)))
  {
    LooksStep(s, c, e, t);
    if Announced(s) {
      AnnouncedStays(s, c, e);
    } else {
      LockStep(s, c, e);
    }
  }

  /** The turn of a woken thread takes it to the lock; its receive cannot be dropped without waking another. */
  lemma AwakeStep(s: System, c: nat, e: Event, t: nat)
    requires Pending(s, c) && !Relieves(s, c, e) && Awake(s, t)
    ensures Awake(Step(s, e), t) && (e == Advance(t) ==> Looks(Step(s, e), t))
  {
    if Looks(s, t) {
      LooksStep(s, c, e, t);
    } else if e == Cancel(t) {
      NotifyWakes(s, c, e);
    } else if e != Advance(t) {
      OnlyOneMoves(s, e);
    }
  }

  /** The lock holder's turn, if it holds the lock for a receive, frees the lock. */
  lemma HolderStep(s: System, c: nat, e: Event, t: nat, h: nat)
    requires Pending(s, c) && !Relieves(s, c, e) && Looks(s, t) && s.shared.lock == Some(h)
    ensures Free(Step(s, e), t) || (e != Advance(h) && Looks(Step(s, e), t) && Step(s, e).shared.lock == Some(h))
  {
    LooksStep(s, c, e, t);
    if !Announced(s) && !Announced(Step(s, e)) {
      assert s.threads[h].Taken?;
      assert t != h;
      if e != Advance(h) {
        OthersKeep(s, e, h);
        StaysPending(s, c, e);
      }
    }
  }

  // ----- One round at a time -----

  lemma {:induction false} PendingFollows(s: System, c: nat, events: seq<Event>)
    requires Pending(s, c) && Unrelieved(s, c, events)
    ensures Pending(Follow(s, events), c)
    decreases |events|
  {
    if events != [] {
      StaysPending(s, c, events[0]);
      PendingFollows(Step(s, events[0]), c, events[1..]);
    }
  }

  /** A woken thread's turn. */
  lemma {:induction false} ReachLock(s: System, c: nat, events: seq<Event>, t: nat)
    requires Pending(s, c) && Unrelieved(s, c, events) && Awake(s, t)
    requires Looks(s, t) || Advance(t) in events
    ensures Looks(Follow(s, events), t)
    decreases |events|
  {
    if events != [] {
      StaysPending(s, c, events[0]);
      AwakeStep(s, c, events[0], t);
      if Looks(s, t) {
        LooksStep(s, c, events[0], t);
      }
      ReachLock(Step(s, events[0]), c, events[1..], t);
    }
  }

  lemma {:induction false} StaysFree(s: System, c: nat, events: seq<Event>, t: nat)
    requires Pending(s, c) && Unrelieved(s, c, events) && Free(s, t)
    ensures Free(Follow(s, events), t)
    ensures Announced(s) || Advance(t) in events ==> Announced(Follow(s, events))
    decreases |events|
  {
    if events != [] {
      StaysPending(s, c, events[0]);
      FreeStep(s, c, events[0], t);
      if Announced(s) {
        AnnouncedStays(s, c, events[0]);
      }
      StaysFree(Step(s, events[0]), c, events[1..], t);
    }
  }

  /** The turn of whoever holds the lock. */
  lemma {:induction false} ReachFree(s: System, c: nat, events: seq<Event>, t: nat)
    requires Pending(s, c) && Unrelieved(s, c, events) && Looks(s, t)
    requires s.shared.lock.Some? ==> Advance(s.shared.lock.value) in events
    ensures Free(Follow(s, events), t)
    decreases |events|
  {
    if s.shared.lock.None? {
      StaysFree(s, c, events, t);
    } else {
      var h, next := s.shared.lock.value, Step(s, events[0]);
      StaysPending(s, c, events[0]);
      HolderStep(s, c, events[0], t, h);
      if Free(next, t) {
        StaysFree(next, c, events[1..], t);
      } else {
        ReachFree(next, c, events[1..], t);
      }
    }
  }

  /** How many turns thread `t` takes. */
  function Turns(events: seq<Event>, t: nat): nat {
    if events == [] then 0 else (if events[0] == Advance(t) then 1 else 0) + Turns(events[1..], t)
  }

  /** A thread that is to notify cannot take all its remaining turns without relieving. */
  lemma {:induction false} NotifierIsHeld(s: System, c: nat, events: seq<Event>, u: nat)
    requires Pending(s, c) && Unrelieved(s, c, events) && u < |s.threads| && WillNotify(s.threads[u])
    ensures Turns(events, u) < Remaining(s.threads[u])
    decreases |events|
  {
    if events != [] {
      StaysPending(s, c, events[0]);
      NotifierStep(s, c, events[0], u);
      NotifierIsHeld(Step(s, events[0]), c, events[1..], u);
    }
  }

  // ----- Rounds -----

  lemma {:induction false} Cut(s: System, c: nat, now: seq<Event>, later: seq<Event>)
    requires Unrelieved(s, c, now + later)
    ensures Unrelieved(s, c, now) && Unrelieved(Follow(s, now), c, later)
    decreases |now|
  {
    if now == [] {
      assert now + later == later;
    } else {
      assert (now + later)[1..] == now[1..] + later;
      Cut(Step(s, now[0]), c, now[1..], later);
    }
  }

  lemma {:induction false} TurnsAdd(a: seq<Event>, b: seq<Event>, t: nat)
    ensures Turns(a + b, t) == Turns(a, t) + Turns(b, t)
  {
    if a == [] {
      assert a + b == b;
    } else {
      TurnsAdd(a[1..], b, t);
      assert (a + b)[1..] == a[1..] + b;
    }
  }

  lemma {:induction false} HasTurn(events: seq<Event>, t: nat)
    requires Advance(t) in events
    ensures Turns(events, t) >= 1
  {
    if events[0] != Advance(t) {
      HasTurn(events[1..], t);
    }
  }

  lemma {:induction false} RoundsGiveTurns(n: nat, rounds: seq<seq<Event>>, t: nat)
    requires Fair(n, rounds) && t < n
    ensures Turns(Flat(rounds), t) >= |rounds|
    decreases |rounds|
  {
    if rounds != [] {
      HasTurn(rounds[0], t);
      RoundsGiveTurns(n, rounds[1..], t);
      TurnsAdd(rounds[0], Flat(rounds[1..]), t);
    }
  }

  /** While a receiver is parked in front of a full slot someone is alert. */
  lemma SomeoneIsAwake(s: System, c: nat) returns (t: nat)
    requires Pending(s, c)
    ensures t < |s.threads| && Awake(s, t)
  {
    assert c in s.shared.waiters;
    t :| t < |s.threads| && Alert(s.threads[t]);
  }

  /** A fair schedule from a state with a pending receiver that does not relieve it. */
  ghost predicate Starves(s: System, c: nat, rounds: seq<seq<Event>>) {
    Pending(s, c) && Unrelieved(s, c, Flat(rounds)) && Fair(|s.threads|, rounds)
  }

  lemma NextRound(s: System, c: nat, rounds: seq<seq<Event>>)
    requires Starves(s, c, rounds) && rounds != []
    ensures Unrelieved(s, c, rounds[0]) && Starves(Follow(s, rounds[0]), c, rounds[1..])
  {
    Cut(s, c, rounds[0], Flat(rounds[1..]));
    PendingFollows(s, c, rounds[0]);
  }

  // Each round takes the system to the next stage, and the last one lasts less than three.

  lemma AnnouncedInTime(s: System, c: nat, rounds: seq<seq<Event>>)
    requires Starves(s, c, rounds) && Announced(s)
    ensures |rounds| < 3
  {
    var u: nat :| u < |s.threads| && WillNotify(s.threads[u]);
    NotifierIsHeld(s, c, Flat(rounds), u);
    RoundsGiveTurns(|s.threads|, rounds, u);
  }

  lemma FreeInTime(s: System, c: nat, rounds: seq<seq<Event>>, t: nat)
    requires Starves(s, c, rounds) && t < |s.threads| && Free(s, t)
    ensures |rounds| < 4
  {
    if rounds != [] {
      NextRound(s, c, rounds);
      StaysFree(s, c, rounds[0], t);
      AnnouncedInTime(Follow(s, rounds[0]), c, rounds[1..]);
    }
  }

  lemma LooksInTime(s: System, c: nat, rounds: seq<seq<Event>>, t: nat)
    requires Starves(s, c, rounds) && t < |s.threads| && Looks(s, t)
    ensures |rounds| < 5
  {
    if rounds != [] {
      NextRound(s, c, rounds);
      ReachFree(s, c, rounds[0], t);
      FreeInTime(Follow(s, rounds[0]), c, rounds[1..], t);
    }
  }

  lemma AwakeInTime(s: System, c: nat, rounds: seq<seq<Event>>, t: nat)
    requires Starves(s, c, rounds) && t < |s.threads| && Awake(s, t)
    ensures |rounds| < FAIR_ROUNDS
  {
    if rounds != [] {
      NextRound(s, c, rounds);
      ReachLock(s, c, rounds[0], t);
      LooksInTime(Follow(s, rounds[0]), c, rounds[1..], t);
    }
  }

  /** No fair schedule starves a pending receiver for six rounds. */
  lemma StarvesBriefly(s: System, c: nat, rounds: seq<seq<Event>>)
    requires Starves(s, c, rounds)
    ensures |rounds| < FAIR_ROUNDS
  {
    var t := SomeoneIsAwake(s, c);
    AwakeInTime(s, c, rounds, t);
  }

  lemma RunStep(n: nat, events: seq<Event>, e: Event)
    ensures Run(n, events + [e]) == Step(Run(n, events), e)
  {
    assert (events + [e])[..|events|] == events;
  }

  ghost predicate RelievedAt(n: nat, events: seq<Event>, c: nat, more: seq<Event>, i: nat) {
    i < |more| && Relieves(Run(n, events + more[..i]), c, more[i])
  }

  lemma RelievedLater(n: nat, events: seq<Event>, c: nat, more: seq<Event>, i: nat)
    requires more != [] && RelievedAt(n, events + [more[0]], c, more[1..], i)
    ensures RelievedAt(n, events, c, more, i + 1)
  {
    assert events + [more[0]] + more[1..][..i] == events + more[..i + 1];
  }

  lemma {:induction false} FindRelief(n: nat, events: seq<Event>, c: nat, more: seq<Event>)
    requires !Unrelieved(Run(n, events), c, more)
    ensures exists i: nat :: RelievedAt(n, events, c, more, i)
    decreases |more|
  {
    assert events + more[..0] == events;
    if Relieves(Run(n, events), c, more[0]) {
      assert RelievedAt(n, events, c, more, 0);
    } else {
      RunStep(n, events, more[0]);
      FindRelief(n, events + [more[0]], c, more[1..]);
      var i: nat :| RelievedAt(n, events + [more[0]], c, more[1..], i);
      RelievedLater(n, events, c, more, i);
    }
  }

  /**
   Liveness under every fair schedule: from every reachable state with a parked receiver and a full slot, and
   whatever calls, cancellations and turns are interleaved, six rounds in which each thread takes a turn
   contain a step that takes the frame, wakes a receiver, or drops the waiting receive.
   (A turn of an idle or parked thread does nothing, so rounds ask nothing of those.)
   */
  lemma FairScheduleRelieves(n: nat, events: seq<Event>, c: nat, rounds: seq<seq<Event>>)
    requires c < n && Run(n, events).threads[c].Parked? && Run(n, events).shared.slot.Some?
    requires Fair(n, rounds) && |rounds| >= FAIR_ROUNDS
    ensures exists i: nat :: RelievedAt(n, events, c, Flat(rounds), i)
  {
    RunKeepsInv(n, events);
    if Unrelieved(Run(n, events), c, Flat(rounds)) {
      StarvesBriefly(Run(n, events), c, rounds);
    }
    FindRelief(n, events, c, Flat(rounds));
  }

  // ----- First parked, first woken -----

  /** The number of events after which thread `v`, parked now, came to be parked. */
  ghost function Since(n: nat, events: seq<Event>, v: nat): (since: nat)
    requires v < n && Run(n, events).threads[v].Parked?
    ensures since <= |events|
  {
    if events != [] && Run(n, events[..|events| - 1]).threads[v].Parked? then Since(n, events[..|events| - 1], v)
    else |events|
  }

  /** `a` stands before `b` in the queue. */
  ghost predicate Precedes(q: seq<nat>, a: nat, b: nat) {
    exists i, j :: 0 <= i < j < |q| && q[i] == a && q[j] == b
  }

  /** Each entry of `r` is one of `q`, in the same order. */
  ghost predicate Keeps(q: seq<nat>, r: seq<nat>) {
    (forall a <- r :: a in q) && forall a, b :: Precedes(r, a, b) ==> Precedes(q, a, b)
  }

  lemma TailKeeps(q: seq<nat>)
    requires q != []
    ensures Keeps(q, q[1..])
  {
    forall a, b | Precedes(q[1..], a, b)
      ensures Precedes(q, a, b)
    {
      var i, j :| 0 <= i < j < |q[1..]| && q[1..][i] == a && q[1..][j] == b;
      assert q[i + 1] == a && q[j + 1] == b;
    }
  }

  lemma HeadPrecedes(q: seq<nat>, b: nat)
    requires q != [] && b in q[1..]
    ensures Precedes(q, q[0], b)
  {
    var l :| 0 <= l < |q[1..]| && q[1..][l] == b;
    assert q[l + 1] == b;
  }

  lemma PrecedesCons(x: nat, rest: seq<nat>, a: nat, b: nat)
    requires Precedes([x] + rest, a, b)
    ensures (a == x && b in rest) || Precedes(rest, a, b)
  {
    var all := [x] + rest;
    var i, j :| 0 <= i < j < |all| && all[i] == a && all[j] == b;
    assert rest[j - 1] == b;
    assert i > 0 ==> rest[i - 1] == a;
  }

  lemma {:induction false} WithoutKeeps(q: seq<nat>, t: nat)
    ensures Keeps(q, Without(q, t))
  {
    if q != [] {
      var rest, r := Without(q[1..], t), Without(q, t);
      WithoutKeeps(q[1..], t);
      TailKeeps(q);
      assert q == [q[0]] + q[1..];
      if q[0] == t {
        assert r == rest;
      } else {
        forall a, b | Precedes(r, a, b)
          ensures Precedes(q, a, b)
        {
          PrecedesCons(q[0], rest, a, b);
          if a == q[0] && b in rest {
            HeadPrecedes(q, b);
          }
        }
      }
    }
  }

  lemma NotifyKeepsOrder(s: System)
    ensures Keeps(s.shared.waiters, NotifyOne(s).shared.waiters)
  {
    if s.shared.waiters != [] {
      TailKeeps(s.shared.waiters);
    }
  }

  /** `r` is `q` less some waiters, or with a thread that was not parked at its end. */
  ghost predicate Turned(s: System, t: nat, q: seq<nat>, r: seq<nat>) {
    Keeps(q, r) || (r == q + [t] && t < |s.threads| && !s.threads[t].Parked?)
  }

  lemma ProceedTurns(s: System, t: nat)
    requires t < |s.threads|
    ensures Turned(s, t, s.shared.waiters, Proceed(s, t).shared.waiters)
  {
    NotifyKeepsOrder(Move(s, t, Idle));
  }

  /** One step takes waiters out of the queue, or puts a thread that was not parked at its end. */
  lemma WaitersStep(s: System, e: Event)
    ensures Turned(s, e.thread, s.shared.waiters, Step(s, e).shared.waiters)
  {
    if e.thread < |s.threads| {
      if e.Advance? {
        ProceedTurns(s, e.thread);
      } else if e.Cancel? {
        WithoutKeeps(s.shared.waiters, e.thread);
        NotifyKeepsOrder(Move(s, e.thread, Idle));
      }
    }
  }

  /** The queue of waiters lists them in the order in which they parked. */
  ghost predicate InParkOrder(n: nat, events: seq<Event>) {
    var s := Run(n, events);
    && Inv(s)
    && forall a, b :: Precedes(s.shared.waiters, a, b) ==>
         a in s.shared.waiters && b in s.shared.waiters && Since(n, events, a) < Since(n, events, b)
  }

  lemma {:induction false} WaitersInOrder(n: nat, events: seq<Event>)
    ensures InParkOrder(n, events)
    decreases |events|
  {
    RunKeepsInv(n, events);
    if events != [] {
      var pre, e := events[..|events| - 1], events[|events| - 1];
      WaitersInOrder(n, pre);
      WaitersStep(Run(n, pre), e);
      var q, w := Run(n, pre).shared.waiters, Run(n, events).shared.waiters;
      forall a, b | Precedes(w, a, b)
        ensures a in w && b in w && Since(n, events, a) < Since(n, events, b)
      {
        if !Keeps(q, w) {
          Appended(q, e.thread, a, b);
        }
      }
    }
  }

  lemma Appended(q: seq<nat>, t: nat, a: nat, b: nat)
    requires Precedes(q + [t], a, b)
    ensures Precedes(q, a, b) || (a in q && b == t)
  {
    var i, j :| 0 <= i < j < |q + [t]| && (q + [t])[i] == a && (q + [t])[j] == b;
    if j < |q| {
      assert q[i] == a && q[j] == b;
    }
  }

  /** A notification wakes the receiver that has been parked longest. */
  lemma FirstParkedFirstWoken(n: nat, events: seq<Event>, e: Event, u: nat, v: nat)
    requires u < n && v < n && u != v
    requires Run(n, events).threads[u].Parked? && Step(Run(n, events), e).threads[u].Woken?
    requires Run(n, events).threads[v].Parked?
    ensures Since(n, events, u) < Since(n, events, v)
  {
    WaitersInOrder(n, events);
    HeadIsWoken(Run(n, events), e, u);
    var q := Run(n, events).shared.waiters;
    assert v in q;
    var j :| 0 <= j < |q| && q[j] == v;
    assert Precedes(q, u, v);
  }

  lemma HeadIsWoken(s: System, e: Event, u: nat)
    requires Inv(s) && u < |s.threads| && s.threads[u].Parked? && Step(s, e).threads[u].Woken?
    ensures s.shared.waiters != [] && s.shared.waiters[0] == u
  {
    assert u in s.shared.waiters;
  }
}
