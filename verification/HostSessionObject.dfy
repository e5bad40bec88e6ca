/** The host session as the program runs it, beside the address book and audit log it is handed. */
module HostSessionObject {
  import opened Prelude
  import opened Caps
  import opened HostSession

  class AddressBook {
    var entries: map<DeviceId, Key>

    constructor ()
      ensures entries == map[]
    {
      entries := map[];
    }

    /** `check_and_pin`: pins on first contact; reports whether a different key was pinned before. */
    method CheckAndPin(peer: Credentials) returns (changed: bool)
      modifies this
      ensures changed == Changed(old(entries), peer)
      ensures entries == if changed then old(entries) else old(entries)[peer.device := peer.identity]
    {
      if peer.device !in entries {
        entries := entries[peer.device := peer.identity];
        return false;
      }
      changed := entries[peer.device] != peer.identity;
      if !changed {
        assert entries[peer.device := peer.identity] == entries;
      }
    }
  }

  /** The last `capacity` events; a capacity of zero keeps them all. */
  function Retained(events: seq<AuditEvent>, capacity: nat): (r: seq<AuditEvent>)
    ensures |r| == if capacity == 0 then |events| else Min(|events|, capacity)
    ensures forall i :: 0 <= i < |r| ==> r[i] == events[|events| - |r| + i]
  {
    if capacity == 0 || |events| <= capacity then events else events[|events| - capacity..]
  }

  /** Recording one more event pushes out the oldest retained one exactly when the log is full. */
  lemma RetainedGrows(events: seq<AuditEvent>, capacity: nat, e: AuditEvent)
    ensures var r := Retained(events, capacity);
            Retained(events + [e], capacity) == (if capacity > 0 && |r| >= capacity then r[1..] else r) + [e]
  {
    var all := events + [e];
    if capacity > 0 && |events| >= capacity {
      var k := |events| - capacity;
      assert all[|all| - capacity..] == events[k..][1..] + [e];
    }
  }

  /** The log: `events` is everything ever recorded, `entries` what is still in memory. */
  class AuditLog {
    const capacity: nat
    var entries: seq<AuditEvent>
    ghost var events: seq<AuditEvent>

    ghost predicate Valid()
      reads this
    {
      entries == Retained(events, capacity)
    }

    constructor (capacity: nat)
      ensures Valid() && events == [] && this.capacity == capacity
    {
      this.capacity := capacity;
      entries, events := [], [];
    }

    /** `record`: the oldest entry makes room once the log is full. */
    method Record(e: AuditEvent)
      requires Valid()
      modifies this
      ensures Valid() && events == old(events) + [e]
    {
      RetainedGrows(events, capacity, e);
      if capacity > 0 && |entries| >= capacity {
        entries := entries[1..];
      }
      entries := entries + [e];
      events := events + [e];
    }
  }

  class Host {
    const peer: DeviceId
    const requested: SessionCaps
    const startedAtMs: nat
    const confirm: Key -> Tag
    var phase: Phase
    var consented: Option<SessionCaps>
    var grant: Option<Grant>
    var pinIssued: bool
    var pendingKey: Option<Key>

    ghost function View(): Session
      reads this
    {
      Session(peer, phase, requested, consented, grant, pinIssued, pendingKey, startedAtMs)
    }

    ghost function Around(book: AddressBook, audit: AuditLog): World
      reads this, book, audit
    {
      World(View(), book.entries, audit.events)
    }

    constructor (peer: DeviceId, requested: SessionCaps, now: nat, confirm: Key -> Tag)
      ensures View() == New(peer, requested, now) && this.confirm == confirm
    {
      this.peer, this.requested, startedAtMs, this.confirm := peer, requested, now, confirm;
      phase, consented, grant, pinIssued, pendingKey := AwaitingConsent, None, None, false, None;
    }

    method Consent(decision: Option<SessionCaps>, now: nat, book: AddressBook, audit: AuditLog) returns (r: Outcome)
      requires audit.Valid()
      modifies this, audit
      ensures audit.Valid() && (Around(book, audit), r) == ApplyConsent(old(Around(book, audit)), decision, now)
    {
      if phase != AwaitingConsent {
        return Err(WrongState);
      }
      if SatSub(now, startedAtMs) > CONSENT_TIMEOUT_MS {
        phase := Failed(TimedOut);
        return Err(ConsentTimeout);
      }
      if decision.None? {
        phase := Failed(Denied);
        audit.Record(InjectionRefused(now));
        return Err(ConsentDenied);
      }
      consented := Some(requested.ClampTo(decision.value));
      pinIssued := true;
      phase := Authenticating;
      return Ok(());
    }

    method BeginPin(round: Option<Key>, book: AddressBook, audit: AuditLog) returns (r: Outcome)
      requires audit.Valid()
      modifies this
      ensures audit.Valid() && (Around(book, audit), r) == BeginPinAuth(old(Around(book, audit)), round)
    {
      if phase != Authenticating || !pinIssued {
        return Err(WrongState);
      }
      if round.None? {
        phase := Failed(PinRejected);
        return Err(PinFailed);
      }
      pendingKey := round;
      phase := AwaitingConfirmation;
      return Ok(());
    }

    method CompletePin(tag: Tag, credentials: Credentials, now: nat, book: AddressBook, audit: AuditLog)
      returns (r: Outcome)
      requires audit.Valid()
      modifies this, book, audit
      ensures audit.Valid() && (Around(book, audit), r) == CompletePinAuth(confirm, old(Around(book, audit)), tag, credentials, now)
    {
      if phase != AwaitingConfirmation || consented.None? || pendingKey.None? {
        return Err(WrongState);
      }
      var key := pendingKey.value;
      pendingKey := None;
      if confirm(key) != tag {
        phase := Failed(ConfirmationMismatch);
        return Err(PinFailed);
      }
      var changed := book.CheckAndPin(credentials);
      if changed {
        phase := Failed(IdentityChanged);
        return Err(KeyChanged);
      }
      if !Binds(credentials.proof, peer) {
        phase := Failed(UnboundFingerprint);
        return Err(BindingFailed);
      }
      audit.Record(SessionStarted(now, consented.value, SessionPin));
      grant := Some(Grant(peer, consented.value, SessionPin, now));
      phase := Established;
      return Ok(());
    }

    method UseToken(verified: Option<SessionCaps>, proof: Proof, now: nat, book: AddressBook, audit: AuditLog)
      returns (r: Outcome)
      requires audit.Valid()
      modifies this, audit
      ensures audit.Valid() && (Around(book, audit), r) == AuthenticateWithToken(old(Around(book, audit)), verified, proof, now)
    {
      if phase != AwaitingConsent && phase != Authenticating {
        return Err(WrongState);
      }
      if verified.None? {
        phase := Failed(BadToken);
        return Err(TokenRejected);
      }
      if !Binds(proof, peer) {
        phase := Failed(UnboundFingerprint);
        return Err(BindingFailed);
      }
      var caps := requested.ClampTo(verified.value);
      grant := Some(Grant(peer, caps, UnattendedToken, now));
      phase := Established;
      audit.Record(SessionStarted(now, caps, UnattendedToken));
      return Ok(());
    }

    method RestrictTo(to: SessionCaps, now: nat, book: AddressBook, audit: AuditLog)
      requires audit.Valid()
      modifies this, audit
      ensures audit.Valid() && Around(book, audit) == RestrictGrant(old(Around(book, audit)), to, now)
    {
      if grant.Some? {
        var narrowed := grant.value.(caps := grant.value.caps.ClampTo(to));
        audit.Record(CapabilitiesChanged(now, narrowed.caps));
        grant := Some(narrowed);
      }
    }

    method CloseWith(reason: string, now: nat, book: AddressBook, audit: AuditLog)
      requires audit.Valid()
      modifies this, audit
      ensures audit.Valid() && Around(book, audit) == CloseSession(old(Around(book, audit)), reason, now)
    {
      if phase.Closed? {
        return;
      }
      grant := None;
      pendingKey := None;
      phase := Closed(reason);
      audit.Record(SessionEnded(now, SatSub(now, startedAtMs)));
    }
  }
}
