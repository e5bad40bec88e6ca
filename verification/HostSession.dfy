/**
 The host's authorization state machine, from a connection request to teardown.

 Cryptography is outside the model. The key-confirmation tag is an arbitrary function of the derived
 key; whether a PAKE round, a token or a signature verified is an argument of the call.
 */
module HostSession {
  import opened Prelude
  import opened Caps

  const CONSENT_TIMEOUT_MS := 30_000

  type Key = int
  type Tag = int
  type DeviceId = int

  datatype Phase =
    | AwaitingConsent | Authenticating | AwaitingConfirmation | Established
    | Closed(why: string) | Failed(reason: FailureReason)

  datatype FailureReason =
    | TimedOut | Denied | PinRejected | ConfirmationMismatch | IdentityChanged | UnboundFingerprint | BadToken

  datatype AuthMethod = SessionPin | UnattendedToken

  datatype Grant = Grant(peer: DeviceId, caps: SessionCaps, auth: AuthMethod, grantedAtMs: nat)

  datatype SessionError =
    | ConsentDenied | ConsentTimeout | PinFailed | TokenRejected | BindingFailed | KeyChanged | WrongState

  datatype AuditEvent =
    | InjectionRefused(at: nat)
    | SessionStarted(at: nat, caps: SessionCaps, auth: AuthMethod)
    | SessionEnded(at: nat, durationMs: nat)
    | CapabilitiesChanged(at: nat, caps: SessionCaps)

  datatype Session = Session(
    peer: DeviceId, phase: Phase, requested: SessionCaps, consented: Option<SessionCaps>, grant: Option<Grant>,
    pinIssued: bool, pendingKey: Option<Key>, startedAtMs: nat)

  /** What the session works with besides its own fields. */
  datatype World = World(session: Session, book: map<DeviceId, Key>, audit: seq<AuditEvent>)

  /** A binding proof: the device whose identity key it is by, and whether its role and signature check out. */
  datatype Proof = Proof(device: DeviceId, roleOk: bool, signatureOk: bool)

  /** What the peer presents: a device id with its identity key, and a binding proof. */
  datatype Credentials = Credentials(device: DeviceId, identity: Key, proof: Proof)

  datatype Op =
    | Consent(decision: Option<SessionCaps>, at: nat)
    | BeginPin(round: Option<Key>)
    | CompletePin(tag: Tag, peer: Credentials, at: nat)
    | UseToken(verified: Option<SessionCaps>, proof: Proof, at: nat)
    | Restrict(to: SessionCaps, at: nat)
    | Close(reason: string, at: nat)

  type Outcome = Result<(), SessionError>

  function New(peer: DeviceId, requested: SessionCaps, now: nat): Session {
    Session(peer, AwaitingConsent, requested, None, None, false, None, now)
  }

  function Recorded(w: World, s: Session, e: AuditEvent): World {
    w.(session := s, audit := w.audit + [e])
  }

  function Fail(s: Session, reason: FailureReason): Session {
    s.(phase := Failed(reason))
  }

  /** `FingerprintBinding::verify` against the device the session is with: role, identity, signature. */
  predicate Binds(proof: Proof, expected: DeviceId) {
    proof.roleOk && proof.device == expected && proof.signatureOk
  }

  function ApplyConsent(w: World, decision: Option<SessionCaps>, now: nat): (World, Outcome) {
    var s := w.session;
    if s.phase != AwaitingConsent then (w, Err(WrongState))
    else if SatSub(now, s.startedAtMs) > CONSENT_TIMEOUT_MS then
      (w.(session := Fail(s, TimedOut)), Err(ConsentTimeout))
    else
      match decision
      case None => (Recorded(w, Fail(s, Denied), InjectionRefused(now)), Err(ConsentDenied))
      case Some(caps) =>
        (w.(session := s.(consented := Some(s.requested.ClampTo(caps)), pinIssued := true, phase := Authenticating)),
         Ok(()))
  }

  function BeginPinAuth(w: World, round: Option<Key>): (World, Outcome) {
    var s := w.session;
    if s.phase != Authenticating || !s.pinIssued then (w, Err(WrongState))
    else
      match round
      case None => (w.(session := Fail(s, PinRejected)), Err(PinFailed))
      case Some(key) => (w.(session := s.(pendingKey := Some(key), phase := AwaitingConfirmation)), Ok(()))
  }

  /** Whether the address book holds a different key for this device. */
  predicate Changed(book: map<DeviceId, Key>, peer: Credentials) {
    peer.device in book && book[peer.device] != peer.identity
  }

  /** `complete_pin_auth`: state, key confirmation, address book, binding, in that order. */
  function CompletePinAuth(confirm: Key -> Tag, w: World, tag: Tag, peer: Credentials, now: nat): (World, Outcome) {
    var s := w.session;
    if s.phase != AwaitingConfirmation || s.consented.None? || s.pendingKey.None? then (w, Err(WrongState))
    else
      var taken := s.(pendingKey := None);
      if confirm(s.pendingKey.value) != tag then
        (w.(session := Fail(taken, ConfirmationMismatch)), Err(PinFailed))
      else if Changed(w.book, peer) then
        (w.(session := Fail(taken, IdentityChanged)), Err(KeyChanged))
      else
        var pinned := w.(book := w.book[peer.device := peer.identity]);
        if !Binds(peer.proof, s.peer) then
          (pinned.(session := Fail(taken, UnboundFingerprint)), Err(BindingFailed))
        else
          var caps := s.consented.value;
          (Recorded(pinned, taken.(grant := Some(Grant(s.peer, caps, SessionPin, now)), phase := Established),
                    SessionStarted(now, caps, SessionPin)), Ok(()))
  }

  function AuthenticateWithToken(w: World, verified: Option<SessionCaps>, proof: Proof, now: nat): (World, Outcome) {
    var s := w.session;
    if s.phase != AwaitingConsent && s.phase != Authenticating then (w, Err(WrongState))
    else if verified.None? then (w.(session := Fail(s, BadToken)), Err(TokenRejected))
    else if !Binds(proof, s.peer) then (w.(session := Fail(s, UnboundFingerprint)), Err(BindingFailed))
    else
      var caps := s.requested.ClampTo(verified.value);
      (Recorded(w, s.(grant := Some(Grant(s.peer, caps, UnattendedToken, now)), phase := Established),
                SessionStarted(now, caps, UnattendedToken)), Ok(()))
  }

  function RestrictGrant(w: World, to: SessionCaps, now: nat): World {
    var s := w.session;
    if s.grant.None? then w
    else
      var g := s.grant.value.(caps := s.grant.value.caps.ClampTo(to));
      Recorded(w, s.(grant := Some(g)), CapabilitiesChanged(now, g.caps))
  }

  function CloseSession(w: World, reason: string, now: nat): World {
    var s := w.session;
    if s.phase.Closed? then w
    else Recorded(w, s.(grant := None, pendingKey := None, phase := Closed(reason)),
                  SessionEnded(now, SatSub(now, s.startedAtMs)))
  }

  function Step(confirm: Key -> Tag, w: World, op: Op): World {
    match op
    case Consent(decision, now) => ApplyConsent(w, decision, now).0
    case BeginPin(round) => BeginPinAuth(w, round).0
    case CompletePin(tag, peer, now) => CompletePinAuth(confirm, w, tag, peer, now).0
    case UseToken(verified, proof, now) => AuthenticateWithToken(w, verified, proof, now).0
    case Restrict(to, now) => RestrictGrant(w, to, now)
    case Close(reason, now) => CloseSession(w, reason, now)
  }

  function Run(confirm: Key -> Tag, w: World, ops: seq<Op>): World {
    if ops == [] then w else Step(confirm, Run(confirm, w, ops[..|ops| - 1]), ops[|ops| - 1])
  }

  // ----- State safety -----

  predicate Terminal(p: Phase) {
    p.Closed? || p.Failed?
  }

  /** A grant exactly when established, a pending key exactly when its confirmation is awaited. */
  predicate Inv(s: Session) {
    && (s.grant.Some? <==> s.phase == Established)
    && (s.pendingKey.Some? <==> s.phase == AwaitingConfirmation)
    && (s.phase == Authenticating || s.phase == AwaitingConfirmation ==> s.consented.Some? && s.pinIssued)
    && (s.consented.Some? ==> s.consented.value.Within(s.requested))
    && (s.grant.Some? ==> s.grant.value.caps.Within(s.requested) && s.grant.value.peer == s.peer)
  }

  /** Pinned identity keys are never replaced. */
  predicate BookKept(a: map<DeviceId, Key>, b: map<DeviceId, Key>) {
    forall d <- a :: d in b && b[d] == a[d]
  }

  /** What no operation may break, between the world before and after it. */
  predicate SafeStep(w: World, w': World) {
    && Inv(w'.session) && w'.session.peer == w.session.peer
    && (Terminal(w.session.phase) ==> Terminal(w'.session.phase))
    && (w.session.grant.Some? && w'.session.grant.Some? ==>
          && w'.session.grant.value.caps.Within(w.session.grant.value.caps)
          && w'.session.grant.value.auth == w.session.grant.value.auth)
    && (w.session.phase == Established ==> w'.session.phase == Established || w'.session.phase.Closed?)
    && BookKept(w.book, w'.book)
  }

  lemma ConsentSafe(w: World, decision: Option<SessionCaps>, now: nat)
    requires Inv(w.session)
    ensures SafeStep(w, ApplyConsent(w, decision, now).0)
  {
  }

  lemma CompleteSafe(confirm: Key -> Tag, w: World, tag: Tag, peer: Credentials, now: nat)
    requires Inv(w.session)
    ensures SafeStep(w, CompletePinAuth(confirm, w, tag, peer, now).0)
  {
  }

  lemma TokenSafe(w: World, verified: Option<SessionCaps>, proof: Proof, now: nat)
    requires Inv(w.session)
    ensures SafeStep(w, AuthenticateWithToken(w, verified, proof, now).0)
  {
  }

  lemma RestrictSafe(w: World, to: SessionCaps, now: nat)
    requires Inv(w.session)
    ensures SafeStep(w, RestrictGrant(w, to, now))
  {
  }

  /** One operation keeps the invariant, never revives a finished session and never widens a grant. */
  lemma StepSafe(confirm: Key -> Tag, w: World, op: Op)
    requires Inv(w.session)
    ensures SafeStep(w, Step(confirm, w, op))
  {
    match op
    case Consent(decision, now) => ConsentSafe(w, decision, now);
    case BeginPin(_) =>
    case CompletePin(tag, peer, now) => CompleteSafe(confirm, w, tag, peer, now);
    case UseToken(verified, proof, now) => TokenSafe(w, verified, proof, now);
    case Restrict(to, now) => RestrictSafe(w, to, now);
    case Close(_, _) =>
  }

  lemma {:induction false} RunSafe(confirm: Key -> Tag, w: World, ops: seq<Op>)
    requires Inv(w.session)
    ensures Inv(Run(confirm, w, ops).session)
    ensures Run(confirm, w, ops).session.peer == w.session.peer
    ensures Terminal(w.session.phase) ==> Terminal(Run(confirm, w, ops).session.phase)
    ensures w.session.phase == Established ==>
              Run(confirm, w, ops).session.phase == Established || Terminal(Run(confirm, w, ops).session.phase)
    ensures w.session.grant.Some? && Run(confirm, w, ops).session.grant.Some? ==>
              Run(confirm, w, ops).session.grant.value.caps.Within(w.session.grant.value.caps)
    ensures BookKept(w.book, Run(confirm, w, ops).book)
    decreases |ops|
  {
    if ops != [] {
      RunSafe(confirm, w, ops[..|ops| - 1]);
      StepSafe(confirm, Run(confirm, w, ops[..|ops| - 1]), ops[|ops| - 1]);
    }
  }

  function SubRun(confirm: Key -> Tag, w: World, ops: seq<Op>, n: nat): World
    requires n <= |ops|
  {
    Run(confirm, w, ops[..n])
  }

  lemma {:induction false} RunSplits(confirm: Key -> Tag, w: World, ops: seq<Op>, n: nat)
    requires n <= |ops|
    ensures Run(confirm, w, ops) == Run(confirm, SubRun(confirm, w, ops, n), ops[n..])
    decreases |ops|
  {
    if n == |ops| {
      assert ops[..n] == ops;
    } else {
      var pre := ops[..|ops| - 1];
      RunSplits(confirm, w, pre, n);
      assert pre[..n] == ops[..n] && pre[n..] == ops[n..][..|ops| - 1 - n];
    }
  }

  /**
   Safety of every run of a new session, between any two points of it: the invariant holds at both,
   a finished session stays finished, and a grant held at both points has only lost capabilities.
   */
  lemma EveryRunIsSafe(confirm: Key -> Tag, peer: DeviceId, requested: SessionCaps, start: nat,
                       book: map<DeviceId, Key>, ops: seq<Op>, n: nat)
    requires n <= |ops|
    ensures var w := World(New(peer, requested, start), book, []);
            var mid, end := Run(confirm, w, ops[..n]).session, Run(confirm, w, ops).session;
            && Inv(mid) && Inv(end)
            && (Terminal(mid.phase) ==> Terminal(end.phase) && end.grant.None?)
            && (mid.grant.Some? && end.grant.Some? ==> end.grant.value.caps.Within(mid.grant.value.caps))
            && (mid.grant.Some? && end.grant.None? ==> Terminal(end.phase))
  {
    var w := World(New(peer, requested, start), book, []);
    RunSafe(confirm, w, ops[..n]);
    RunSafe(confirm, Run(confirm, w, ops[..n]), ops[n..]);
    RunSplits(confirm, w, ops, n);
  }

  // ----- What a grant proves about the past -----

  /** Operation `i` was the local user's consent to `caps`, given in time and while it was awaited. */
  predicate ConsentedAt(confirm: Key -> Tag, w: World, ops: seq<Op>, i: nat, caps: SessionCaps) {
    && i < |ops| && ops[i].Consent? && ops[i].decision == Some(caps)
    && SatSub(ops[i].at, w.session.startedAtMs) <= CONSENT_TIMEOUT_MS
    && Run(confirm, w, ops[..i]).session.phase == AwaitingConsent
  }

  /** Operation `j` was a completed PAKE round that derived `key`. */
  predicate PairedAt(confirm: Key -> Tag, w: World, ops: seq<Op>, j: nat, key: Key) {
    && j < |ops| && ops[j] == BeginPin(Some(key))
    && Run(confirm, w, ops[..j]).session.phase == Authenticating
  }

  /** Operation `k` carried the tag for `key`, an unchanged identity key and a verified binding. */
  predicate ConfirmedAt(confirm: Key -> Tag, w: World, ops: seq<Op>, k: nat, key: Key) {
    && k < |ops| && ops[k].CompletePin? && ops[k].tag == confirm(key)
    && !Changed(Run(confirm, w, ops[..k]).book, ops[k].peer) && Binds(ops[k].peer.proof, w.session.peer)
    && Run(confirm, w, ops[..k]).session.phase == AwaitingConfirmation
  }

  predicate TokenAt(confirm: Key -> Tag, w: World, ops: seq<Op>, k: nat, caps: SessionCaps) {
    && k < |ops| && ops[k].UseToken? && ops[k].verified == Some(caps) && Binds(ops[k].proof, w.session.peer)
    && (var p := Run(confirm, w, ops[..k]).session.phase; p == AwaitingConsent || p == Authenticating)
  }

  ghost predicate HasConsent(confirm: Key -> Tag, w: World, ops: seq<Op>, granted: SessionCaps) {
    exists i: nat, caps :: ConsentedAt(confirm, w, ops, i, caps) && granted == w.session.requested.ClampTo(caps)
  }

  ghost predicate HasPairing(confirm: Key -> Tag, w: World, ops: seq<Op>, granted: SessionCaps, key: Key) {
    exists i: nat, j: nat, caps :: i < j && ConsentedAt(confirm, w, ops, i, caps) && PairedAt(confirm, w, ops, j, key)
                         && granted == w.session.requested.ClampTo(caps)
  }

  /** Consent, pairing and confirmation, in that order, and nothing granted beyond the consent. */
  ghost predicate EarnedByPin(confirm: Key -> Tag, w: World, ops: seq<Op>, granted: SessionCaps) {
    exists i: nat, j: nat, k: nat, caps, key ::
      && i < j < k && ConsentedAt(confirm, w, ops, i, caps) && PairedAt(confirm, w, ops, j, key)
      && ConfirmedAt(confirm, w, ops, k, key) && granted.Within(w.session.requested.ClampTo(caps))
  }

  ghost predicate EarnedByToken(confirm: Key -> Tag, w: World, ops: seq<Op>, granted: SessionCaps) {
    exists k: nat, caps :: TokenAt(confirm, w, ops, k, caps) && granted.Within(w.session.requested.ClampTo(caps))
  }

  ghost predicate Justified(confirm: Key -> Tag, w: World, ops: seq<Op>, s: Session) {
    && s.peer == w.session.peer && s.requested == w.session.requested && s.startedAtMs == w.session.startedAtMs
    && (s.phase == Authenticating ==> s.consented.Some? && HasConsent(confirm, w, ops, s.consented.value))
    && (s.phase == AwaitingConfirmation ==>
          s.consented.Some? && s.pendingKey.Some?
          && HasPairing(confirm, w, ops, s.consented.value, s.pendingKey.value))
    && (s.grant.Some? ==>
          if s.grant.value.auth.SessionPin? then EarnedByPin(confirm, w, ops, s.grant.value.caps)
          else EarnedByToken(confirm, w, ops, s.grant.value.caps))
  }

  // Evidence found in a prefix is still there in the whole.

  lemma PrefixRun(confirm: Key -> Tag, w: World, ops: seq<Op>, n: nat, i: nat)
    requires i < n <= |ops|
    ensures ops[..n][i] == ops[i] && Run(confirm, w, ops[..n][..i]) == Run(confirm, w, ops[..i])
  {
    assert ops[..n][..i] == ops[..i];
  }

  lemma ConsentExtends(confirm: Key -> Tag, w: World, ops: seq<Op>, n: nat, i: nat, caps: SessionCaps)
    requires n <= |ops| && ConsentedAt(confirm, w, ops[..n], i, caps)
    ensures ConsentedAt(confirm, w, ops, i, caps)
  {
    PrefixRun(confirm, w, ops, n, i);
  }

  lemma PairingExtends(confirm: Key -> Tag, w: World, ops: seq<Op>, n: nat, j: nat, key: Key)
    requires n <= |ops| && PairedAt(confirm, w, ops[..n], j, key)
    ensures PairedAt(confirm, w, ops, j, key)
  {
    PrefixRun(confirm, w, ops, n, j);
  }

  lemma PinExtends(confirm: Key -> Tag, w: World, ops: seq<Op>, n: nat, granted: SessionCaps, less: SessionCaps)
    requires n <= |ops| && EarnedByPin(confirm, w, ops[..n], granted) && less.Within(granted)
    ensures EarnedByPin(confirm, w, ops, less)
  {
    var i: nat, j: nat, k: nat, caps, key :|
      && i < j < k && ConsentedAt(confirm, w, ops[..n], i, caps) && PairedAt(confirm, w, ops[..n], j, key)
      && ConfirmedAt(confirm, w, ops[..n], k, key) && granted.Within(w.session.requested.ClampTo(caps));
    ConsentExtends(confirm, w, ops, n, i, caps);
    PairingExtends(confirm, w, ops, n, j, key);
    PrefixRun(confirm, w, ops, n, k);
    assert ConfirmedAt(confirm, w, ops, k, key);
  }

  lemma TokenExtends(confirm: Key -> Tag, w: World, ops: seq<Op>, n: nat, granted: SessionCaps, less: SessionCaps)
    requires n <= |ops| && EarnedByToken(confirm, w, ops[..n], granted) && less.Within(granted)
    ensures EarnedByToken(confirm, w, ops, less)
  {
    var k: nat, caps :| TokenAt(confirm, w, ops[..n], k, caps) && granted.Within(w.session.requested.ClampTo(caps));
    PrefixRun(confirm, w, ops, n, k);
    assert TokenAt(confirm, w, ops, k, caps);
  }

  // One lemma per operation that can create or carry evidence.

  lemma ConsentJustified(confirm: Key -> Tag, w: World, ops: seq<Op>)
    requires ops != [] && ops[|ops| - 1].Consent?
    requires var s := Run(confirm, w, ops[..|ops| - 1]).session;
             Inv(s) && Justified(confirm, w, ops[..|ops| - 1], s) && s.phase == AwaitingConsent
    ensures Justified(confirm, w, ops, Run(confirm, w, ops).session)
  {
    var n := |ops| - 1;
    var s' := Run(confirm, w, ops).session;
    if s'.phase == Authenticating {
      assert ConsentedAt(confirm, w, ops, n, ops[n].decision.value);
    }
  }

  lemma BeginJustified(confirm: Key -> Tag, w: World, ops: seq<Op>)
    requires ops != [] && ops[|ops| - 1].BeginPin?
    requires var s := Run(confirm, w, ops[..|ops| - 1]).session;
             Inv(s) && Justified(confirm, w, ops[..|ops| - 1], s) && s.phase == Authenticating
    ensures Justified(confirm, w, ops, Run(confirm, w, ops).session)
  {
    var n := |ops| - 1;
    var s, s' := Run(confirm, w, ops[..n]).session, Run(confirm, w, ops).session;
    if s'.phase == AwaitingConfirmation {
      var i: nat, caps :| ConsentedAt(confirm, w, ops[..n], i, caps)
                     && s.consented.value == w.session.requested.ClampTo(caps);
      ConsentExtends(confirm, w, ops, n, i, caps);
      assert PairedAt(confirm, w, ops, n, s'.pendingKey.value);
    }
  }

  /** A completion that leaves a grant was confirmed. */
  lemma CompleteConfirmed(confirm: Key -> Tag, w: World, ops: seq<Op>)
    requires ops != [] && ops[|ops| - 1].CompletePin? && Run(confirm, w, ops).session.grant.Some?
    requires var s := Run(confirm, w, ops[..|ops| - 1]).session;
             Inv(s) && s.peer == w.session.peer && s.phase == AwaitingConfirmation
    ensures var s, s' := Run(confirm, w, ops[..|ops| - 1]).session, Run(confirm, w, ops).session;
            && s.pendingKey.Some? && ConfirmedAt(confirm, w, ops, |ops| - 1, s.pendingKey.value)
            && s.consented.Some? && s'.grant.value.caps == s.consented.value && s'.grant.value.auth == SessionPin
  {
  }

  /** Consent and pairing found before, and the confirmation just made, together earn the grant. */
  lemma PinEarned(confirm: Key -> Tag, w: World, ops: seq<Op>, granted: SessionCaps, key: Key)
    requires ops != [] && HasPairing(confirm, w, ops[..|ops| - 1], granted, key)
    requires ConfirmedAt(confirm, w, ops, |ops| - 1, key)
    ensures EarnedByPin(confirm, w, ops, granted)
  {
    var n := |ops| - 1;
    var i: nat, j: nat, caps :|
      && i < j && ConsentedAt(confirm, w, ops[..n], i, caps) && PairedAt(confirm, w, ops[..n], j, key)
      && granted == w.session.requested.ClampTo(caps);
    ConsentExtends(confirm, w, ops, n, i, caps);
    PairingExtends(confirm, w, ops, n, j, key);
  }

  lemma CompleteJustified(confirm: Key -> Tag, w: World, ops: seq<Op>)
    requires ops != [] && ops[|ops| - 1].CompletePin?
    requires var s := Run(confirm, w, ops[..|ops| - 1]).session;
             Inv(s) && Justified(confirm, w, ops[..|ops| - 1], s) && s.phase == AwaitingConfirmation
    ensures Justified(confirm, w, ops, Run(confirm, w, ops).session)
  {
    var s := Run(confirm, w, ops[..|ops| - 1]).session;
    if Run(confirm, w, ops).session.grant.Some? {
      CompleteConfirmed(confirm, w, ops);
      PinEarned(confirm, w, ops, s.consented.value, s.pendingKey.value);
    }
  }

  lemma TokenJustified(confirm: Key -> Tag, w: World, ops: seq<Op>)
    requires ops != [] && ops[|ops| - 1].UseToken?
    requires var s := Run(confirm, w, ops[..|ops| - 1]).session;
             && Inv(s) && Justified(confirm, w, ops[..|ops| - 1], s)
             && (s.phase == AwaitingConsent || s.phase == Authenticating)
    ensures Justified(confirm, w, ops, Run(confirm, w, ops).session)
  {
    var n := |ops| - 1;
    if Run(confirm, w, ops).session.grant.Some? {
      assert TokenAt(confirm, w, ops, n, ops[n].verified.value);
    }
  }

  /** An operation that leaves the phase alone carries the evidence over, for no more than before. */
  lemma CarriedJustified(confirm: Key -> Tag, w: World, ops: seq<Op>)
    requires ops != []
    requires var s, s' := Run(confirm, w, ops[..|ops| - 1]).session, Run(confirm, w, ops).session;
             && Inv(s) && Inv(s') && Justified(confirm, w, ops[..|ops| - 1], s)
             && s'.phase == s.phase && s'.consented == s.consented && s'.pendingKey == s.pendingKey
             && s'.peer == s.peer && s'.requested == s.requested && s'.startedAtMs == s.startedAtMs
             && (s.grant.Some? ==> s'.grant.value.caps.Within(s.grant.value.caps)
                                   && s'.grant.value.auth == s.grant.value.auth)
    ensures Justified(confirm, w, ops, Run(confirm, w, ops).session)
  {
    var n := |ops| - 1;
    var s, s' := Run(confirm, w, ops[..n]).session, Run(confirm, w, ops).session;
    if s.phase == Authenticating {
      var i: nat, caps :| ConsentedAt(confirm, w, ops[..n], i, caps)
                     && s.consented.value == w.session.requested.ClampTo(caps);
      ConsentExtends(confirm, w, ops, n, i, caps);
    } else if s.phase == AwaitingConfirmation {
      var i: nat, j: nat, caps :| i < j && ConsentedAt(confirm, w, ops[..n], i, caps)
                        && PairedAt(confirm, w, ops[..n], j, s.pendingKey.value)
                        && s.consented.value == w.session.requested.ClampTo(caps);
      ConsentExtends(confirm, w, ops, n, i, caps);
      PairingExtends(confirm, w, ops, n, j, s.pendingKey.value);
    } else if s.grant.Some? {
      if s.grant.value.auth.SessionPin? {
        PinExtends(confirm, w, ops, n, s.grant.value.caps, s'.grant.value.caps);
      } else {
        TokenExtends(confirm, w, ops, n, s.grant.value.caps, s'.grant.value.caps);
      }
    }
  }

  lemma {:induction false} RunJustified(confirm: Key -> Tag, w: World, ops: seq<Op>)
    requires Inv(w.session) && w.session.phase == AwaitingConsent
    ensures Justified(confirm, w, ops, Run(confirm, w, ops).session)
    decreases |ops|
  {
    if ops != [] {
      var n := |ops| - 1;
      RunJustified(confirm, w, ops[..n]);
      RunSafe(confirm, w, ops[..n]);
      var before := Run(confirm, w, ops[..n]);
      StepSafe(confirm, before, ops[n]);
      var s, s' := before.session, Run(confirm, w, ops).session;
      if s'.phase == s.phase {
        CarriedJustified(confirm, w, ops);
      } else {
        match ops[n]
        case Consent(_, _) => ConsentJustified(confirm, w, ops);
        case BeginPin(_) => BeginJustified(confirm, w, ops);
        case CompletePin(_, _, _) => CompleteJustified(confirm, w, ops);
        case UseToken(_, _, _) => TokenJustified(confirm, w, ops);
        case Restrict(_, _) =>
        case Close(_, _) =>
      }
    }
  }

  /**
   Whoever holds a grant earned it. A PIN grant was preceded, in order, by an in-time consent, a
   completed PAKE round, and a confirmation whose tag matched that round's key, with an identity key
   that had not changed and a binding that verified; it carries no more than was requested and
   consented to. A token grant was preceded by a verified token and binding, and carries no more
   than was requested and the token allows.
   */
  lemma GrantsAreEarned(confirm: Key -> Tag, peer: DeviceId, requested: SessionCaps, start: nat,
                        book: map<DeviceId, Key>, ops: seq<Op>)
    ensures var w := World(New(peer, requested, start), book, []);
            var s := Run(confirm, w, ops).session;
            s.grant.Some? ==>
              if s.grant.value.auth.SessionPin? then EarnedByPin(confirm, w, ops, s.grant.value.caps)
              else EarnedByToken(confirm, w, ops, s.grant.value.caps)
  {
    RunJustified(confirm, World(New(peer, requested, start), book, []), ops);
  }

  // ----- The address book -----

  /** Operation `i` completed a key confirmation for device `d`: the pending key's tag, whatever the binding. */
  predicate PinsAt(confirm: Key -> Tag, w: World, ops: seq<Op>, i: nat, d: DeviceId) {
    && i < |ops| && ops[i].CompletePin? && ops[i].peer.device == d
    && var s := Run(confirm, w, ops[..i]).session;
       s.phase == AwaitingConfirmation && s.pendingKey.Some? && confirm(s.pendingKey.value) == ops[i].tag
  }

  ghost predicate Pins(confirm: Key -> Tag, w: World, ops: seq<Op>, d: DeviceId) {
    exists i: nat :: PinsAt(confirm, w, ops, i, d)
  }

  lemma PinsAtPrefix(confirm: Key -> Tag, w: World, ops: seq<Op>, n: nat, i: nat, d: DeviceId)
    requires i < n <= |ops|
    ensures PinsAt(confirm, w, ops[..n], i, d) <==> PinsAt(confirm, w, ops, i, d)
  {
    PrefixRun(confirm, w, ops, n, i);
  }

  lemma PinsGrow(confirm: Key -> Tag, w: World, ops: seq<Op>, d: DeviceId)
    requires ops != []
    ensures Pins(confirm, w, ops, d) <==>
            Pins(confirm, w, ops[..|ops| - 1], d) || PinsAt(confirm, w, ops, |ops| - 1, d)
  {
    var n := |ops| - 1;
    if i: nat :| PinsAt(confirm, w, ops, i, d) {
      if i < n {
        PinsAtPrefix(confirm, w, ops, n, i, d);
      }
    }
    if i: nat :| PinsAt(confirm, w, ops[..n], i, d) {
      PinsAtPrefix(confirm, w, ops, n, i, d);
    }
  }

  lemma StepPins(confirm: Key -> Tag, w: World, op: Op, d: DeviceId)
    requires Inv(w.session)
    ensures var s := w.session;
            d in Step(confirm, w, op).book <==>
            d in w.book
            || (op.CompletePin? && op.peer.device == d && s.phase == AwaitingConfirmation && s.pendingKey.Some?
                && confirm(s.pendingKey.value) == op.tag)
  {
  }

  /**
   Exactly who gets pinned: a device is in the final book if and only if it was in the first one, or some
   operation confirmed the pending key for it, even one whose binding then failed to verify.
   */
  lemma {:induction false} PinnedExactly(confirm: Key -> Tag, w: World, ops: seq<Op>, d: DeviceId)
    requires Inv(w.session)
    ensures d in Run(confirm, w, ops).book <==> d in w.book || Pins(confirm, w, ops, d)
    decreases |ops|
  {
    if ops != [] {
      var pre := ops[..|ops| - 1];
      PinnedExactly(confirm, w, pre, d);
      RunSafe(confirm, w, pre);
      StepPins(confirm, Run(confirm, w, pre), ops[|ops| - 1], d);
      PinsGrow(confirm, w, ops, d);
    }
  }

  lemma RunSnoc(confirm: Key -> Tag, w: World, ops: seq<Op>, op: Op)
    ensures Run(confirm, w, ops + [op]) == Step(confirm, Run(confirm, w, ops), op)
  {
    assert (ops + [op])[..|ops|] == ops;
  }

  /** A run that pins a key whose binding never verified: the session fails and the key stays. */
  lemma UnverifiedKeyStaysPinned(confirm: Key -> Tag, peer: DeviceId, requested: SessionCaps, start: nat,
                                 book: map<DeviceId, Key>, caps: SessionCaps, key: Key, presented: Credentials)
    requires presented.device !in book && !Binds(presented.proof, peer)
    ensures var w := World(New(peer, requested, start), book, []);
            var ops := [Consent(Some(caps), start)] + [BeginPin(Some(key))] + [CompletePin(confirm(key), presented, start)];
            var end := Run(confirm, w, ops);
            && end.session.phase == Failed(UnboundFingerprint) && end.session.grant.None?
            && presented.device in end.book && end.book[presented.device] == presented.identity
  {
    var w := World(New(peer, requested, start), book, []);
    var a, b, c := Consent(Some(caps), start), BeginPin(Some(key)), CompletePin(confirm(key), presented, start);
    RunSnoc(confirm, w, [], a);
    assert [] + [a] == [a];
    RunSnoc(confirm, w, [a], b);
    RunSnoc(confirm, w, [a] + [b], c);
  }

  // ----- Exactly when a grant is issued -----

  /** Operation `k` meets everything a grant by `auth` takes, in the state it finds. */
  predicate IssuesAt(confirm: Key -> Tag, w: World, ops: seq<Op>, k: nat, auth: AuthMethod) {
    && k < |ops|
    && match auth
       case UnattendedToken =>
         ops[k].UseToken? && ops[k].verified.Some? && TokenAt(confirm, w, ops, k, ops[k].verified.value)
       case SessionPin =>
         && ops[k].CompletePin? && PinsAt(confirm, w, ops, k, ops[k].peer.device)
         && !Changed(Run(confirm, w, ops[..k]).book, ops[k].peer) && Binds(ops[k].peer.proof, w.session.peer)
  }

  predicate Granted(s: Session, auth: AuthMethod) {
    s.grant.Some? && s.grant.value.auth == auth
  }

  lemma NextRun(confirm: Key -> Tag, w: World, ops: seq<Op>, k: nat)
    requires k < |ops|
    ensures Run(confirm, w, ops[..k + 1]) == Step(confirm, Run(confirm, w, ops[..k]), ops[k])
  {
    RunSnoc(confirm, w, ops[..k], ops[k]);
    assert ops[..k + 1] == ops[..k] + [ops[k]];
  }

  /** A grant appears at an operation exactly when that operation meets what its method takes. */
  lemma GrantAppearsExactly(confirm: Key -> Tag, w: World, ops: seq<Op>, k: nat, auth: AuthMethod)
    requires Inv(w.session) && k < |ops|
    ensures var before, after := Run(confirm, w, ops[..k]).session, Run(confirm, w, ops[..k + 1]).session;
            before.grant.None? && Granted(after, auth) <==> IssuesAt(confirm, w, ops, k, auth)
  {
    RunSafe(confirm, w, ops[..k]);
    NextRun(confirm, w, ops, k);
    match ops[k]
    case Consent(_, _) =>
    case BeginPin(_) =>
    case CompletePin(_, _, _) =>
    case UseToken(_, _, _) =>
    case Restrict(_, _) =>
    case Close(_, _) =>
  }

  ghost predicate Issues(confirm: Key -> Tag, w: World, ops: seq<Op>, auth: AuthMethod) {
    exists k: nat :: IssuesAt(confirm, w, ops, k, auth)
  }

  ghost predicate EverGranted(confirm: Key -> Tag, w: World, ops: seq<Op>, auth: AuthMethod) {
    exists n: nat :: n <= |ops| && Granted(Run(confirm, w, ops[..n]).session, auth)
  }

  /** A grant held after `n` operations was issued by one of them. */
  lemma {:induction false} GrantWasIssued(confirm: Key -> Tag, w: World, ops: seq<Op>, n: nat, auth: AuthMethod)
    requires Inv(w.session) && w.session.grant.None?
    requires n <= |ops| && Granted(Run(confirm, w, ops[..n]).session, auth)
    ensures Issues(confirm, w, ops, auth)
  {
    if n > 0 {
      var before := Run(confirm, w, ops[..n - 1]);
      NextRun(confirm, w, ops, n - 1);
      if before.session.grant.None? {
        GrantAppearsExactly(confirm, w, ops, n - 1, auth);
      } else {
        RunSafe(confirm, w, ops[..n - 1]);
        StepSafe(confirm, before, ops[n - 1]);
        GrantWasIssued(confirm, w, ops, n - 1, auth);
      }
    }
  }

  /**
   Exactly who gets a grant: at some point of a run a grant by a method is held if and only if some operation
   met what the method takes. For a token that is a verified token and binding while consent or
   authentication is open; for a PIN it is the pending key's tag while confirmation is awaited, an
   identity key that has not changed and a verified binding.
   */
  lemma GrantedExactly(confirm: Key -> Tag, w: World, ops: seq<Op>, auth: AuthMethod)
    requires Inv(w.session) && w.session.grant.None?
    ensures EverGranted(confirm, w, ops, auth) <==> Issues(confirm, w, ops, auth)
  {
    if n: nat :| n <= |ops| && Granted(Run(confirm, w, ops[..n]).session, auth) {
      GrantWasIssued(confirm, w, ops, n, auth);
    }
    if k: nat :| IssuesAt(confirm, w, ops, k, auth) {
      GrantAppearsExactly(confirm, w, ops, k, auth);
      assert Granted(Run(confirm, w, ops[..k + 1]).session, auth);
    }
  }

  /** The binding proof an operation carries. */
  function ProofOf(op: Op): Option<Proof> {
    match op
    case CompletePin(_, peer, _) => Some(peer.proof)
    case UseToken(_, proof, _) => Some(proof)
    case _ => None
  }

  /**
   Whoever is named in the address book, every grant of every run was issued on a binding proof that was signed
   by the session's own peer.
   */
  lemma GrantsAreProvenByPeer(confirm: Key -> Tag, w: World, ops: seq<Op>, n: nat, auth: AuthMethod)
    requires Inv(w.session) && w.session.grant.None?
    requires n <= |ops| && Granted(Run(confirm, w, ops[..n]).session, auth)
    ensures Run(confirm, w, ops[..n]).session.grant.value.peer == w.session.peer
    ensures exists k: nat :: k < n && IssuesAt(confirm, w, ops, k, auth) && ProofOf(ops[k]).Some?
                             && ProofOf(ops[k]).value.device == w.session.peer && ProofOf(ops[k]).value.signatureOk
  {
    RunSafe(confirm, w, ops[..n]);
    var pre := ops[..n];
    assert pre[..n] == pre;
    GrantWasIssued(confirm, w, pre, n, auth);
    var k: nat :| IssuesAt(confirm, w, pre, k, auth);
    PrefixRun(confirm, w, ops, n, k);
    assert IssuesAt(confirm, w, ops, k, auth);
  }

  /** A session is granted at most once, by either method. */
  lemma IssuedOnce(confirm: Key -> Tag, w: World, ops: seq<Op>, i: nat, k: nat, a: AuthMethod, b: AuthMethod)
    requires Inv(w.session) && IssuesAt(confirm, w, ops, i, a) && IssuesAt(confirm, w, ops, k, b)
    ensures i == k && a == b
  {
    if i < k {
      IssuedEarlier(confirm, w, ops, i, k, a, b);
    } else if k < i {
      IssuedEarlier(confirm, w, ops, k, i, b, a);
    }
  }

  lemma IssuedEarlier(confirm: Key -> Tag, w: World, ops: seq<Op>, i: nat, k: nat, a: AuthMethod, b: AuthMethod)
    requires Inv(w.session) && IssuesAt(confirm, w, ops, i, a) && i < k
    ensures !IssuesAt(confirm, w, ops, k, b)
  {
    if k < |ops| {
      GrantAppearsExactly(confirm, w, ops, i, a);
      RunSafe(confirm, w, ops[..i + 1]);
      var pre := ops[..k];
      assert pre[..i + 1] == ops[..i + 1];
      RunSplits(confirm, w, pre, i + 1);
      RunSafe(confirm, Run(confirm, w, ops[..i + 1]), pre[i + 1..]);
    }
  }

  // ----- Whose key a PIN grant vouches for -----

  /** The book holds `key` for device `d`. */
  predicate PinnedAs(book: map<DeviceId, Key>, d: DeviceId, key: Key) {
    d in book && book[d] == key
  }

  /**
   The address book is consulted for the device presented, which is never compared with the session's peer.
   After a PIN grant the presented key is the one pinned for the session's peer, then and for good, if and
   only if the presented device is that peer or the peer was already pinned with that key.
   */
  lemma PeerKeyVouchedExactly(confirm: Key -> Tag, w: World, ops: seq<Op>, k: nat)
    requires Inv(w.session) && IssuesAt(confirm, w, ops, k, SessionPin)
    ensures var peer, before := ops[k].peer, Run(confirm, w, ops[..k]);
            var d := before.session.peer;
            && PinnedAs(Run(confirm, w, ops).book, peer.device, peer.identity)
            && (PinnedAs(Run(confirm, w, ops[..k + 1]).book, d, peer.identity) <==>
                peer.device == d || PinnedAs(before.book, d, peer.identity))
            && (PinnedAs(Run(confirm, w, ops[..k + 1]).book, d, peer.identity) ==>
                PinnedAs(Run(confirm, w, ops).book, d, peer.identity))
  {
    NextRun(confirm, w, ops, k);
    RunSafe(confirm, w, ops[..k]);
    RunSafe(confirm, w, ops[..k + 1]);
    RunSplits(confirm, w, ops, k + 1);
    RunSafe(confirm, Run(confirm, w, ops[..k + 1]), ops[k + 1..]);
  }

  /** A run that grants a peer whose pinned key is not the one presented. */
  lemma OtherDeviceIsGranted(confirm: Key -> Tag, peer: DeviceId, requested: SessionCaps, start: nat,
                             book: map<DeviceId, Key>, caps: SessionCaps, key: Key, presented: Credentials)
    requires presented.device !in book && Binds(presented.proof, peer) && presented.device != peer
    ensures var w := World(New(peer, requested, start), book, []);
            var ops := [Consent(Some(caps), start)] + [BeginPin(Some(key))] + [CompletePin(confirm(key), presented, start)];
            var end := Run(confirm, w, ops);
            && end.session.grant == Some(Grant(peer, requested.ClampTo(caps), SessionPin, start))
            && end.book == book[presented.device := presented.identity]
            && (peer in end.book <==> peer in book) && (peer in book ==> end.book[peer] == book[peer])
  {
    var w := World(New(peer, requested, start), book, []);
    var a, b, c := Consent(Some(caps), start), BeginPin(Some(key)), CompletePin(confirm(key), presented, start);
    RunSnoc(confirm, w, [], a);
    assert [] + [a] == [a];
    RunSnoc(confirm, w, [a], b);
    RunSnoc(confirm, w, [a] + [b], c);
  }

  /** The token path issues grants too, with no PIN, consent or pinned key. */
  lemma TokenAlsoGrants(confirm: Key -> Tag, peer: DeviceId, requested: SessionCaps, start: nat,
                        book: map<DeviceId, Key>, caps: SessionCaps)
    ensures var w := World(New(peer, requested, start), book, []);
            var end := Run(confirm, w, [UseToken(Some(caps), Proof(peer, true, true), start)]);
            && end.session.grant == Some(Grant(peer, requested.ClampTo(caps), UnattendedToken, start))
            && end.book == book && end.session.consented.None?
  {
    var w := World(New(peer, requested, start), book, []);
    RunSnoc(confirm, w, [], UseToken(Some(caps), Proof(peer, true, true), start));
    assert [] + [UseToken(Some(caps), Proof(peer, true, true), start)] == [UseToken(Some(caps), Proof(peer, true, true), start)];
  }
}
