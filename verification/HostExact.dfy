/** Exactly what each session call answers, records and leaves, and exactly which capabilities a grant still carries. */
module HostExact {
  import opened Prelude
  import opened Caps
  import opened HostSession

  datatype Capability = View | Input | Clipboard | File | Audio

  predicate Permits(caps: SessionCaps, c: Capability) {
    match c
    case View => caps.view
    case Input => caps.input
    case Clipboard => caps.clipboard
    case File => caps.file
    case Audio => caps.audio
  }

  /** Everything both allow, and nothing else. */
  ghost predicate IsCommon(r: SessionCaps, a: SessionCaps, b: SessionCaps) {
    forall c :: Permits(r, c) <==> Permits(a, c) && Permits(b, c)
  }

  lemma ClampIsCommon(a: SessionCaps, b: SessionCaps)
    ensures IsCommon(a.ClampTo(b), a, b)
  {
    forall c
      ensures Permits(a.ClampTo(b), c) <==> Permits(a, c) && Permits(b, c)
    {
      match c
      case View =>
      case Input =>
      case Clipboard =>
      case File =>
      case Audio =>
    }
  }

  // ----- The consent that counts -----

  lemma StepConsent(confirm: Key -> Tag, w: World, op: Op)
    ensures w.session.phase != AwaitingConsent ==>
              Step(confirm, w, op).session.phase != AwaitingConsent
              && Step(confirm, w, op).session.consented == w.session.consented
    ensures Step(confirm, w, op).session.requested == w.session.requested
    ensures Step(confirm, w, op).session.startedAtMs == w.session.startedAtMs
  {
  }

  lemma {:induction false} RunRequested(confirm: Key -> Tag, w: World, ops: seq<Op>)
    ensures Run(confirm, w, ops).session.requested == w.session.requested
    ensures Run(confirm, w, ops).session.startedAtMs == w.session.startedAtMs
    decreases |ops|
  {
    if ops != [] {
      RunRequested(confirm, w, ops[..|ops| - 1]);
      StepConsent(confirm, Run(confirm, w, ops[..|ops| - 1]), ops[|ops| - 1]);
    }
  }

  /** The consent to `caps` is on record, within what was requested. */
  ghost predicate OnRecord(s: Session, requested: SessionCaps, caps: SessionCaps) {
    s.consented.Some? && s.phase != AwaitingConsent && IsCommon(s.consented.value, requested, caps)
  }

  lemma ConsentRecorded(confirm: Key -> Tag, w: World, op: Op, caps: SessionCaps)
    requires op.Consent? && op.decision == Some(caps) && w.session.phase == AwaitingConsent
    requires SatSub(op.at, w.session.startedAtMs) <= CONSENT_TIMEOUT_MS
    ensures OnRecord(Step(confirm, w, op).session, w.session.requested, caps)
  {
    ClampIsCommon(w.session.requested, caps);
  }

  lemma ConsentStarts(confirm: Key -> Tag, w: World, ops: seq<Op>, i: nat, caps: SessionCaps)
    requires ConsentedAt(confirm, w, ops, i, caps)
    ensures OnRecord(Run(confirm, w, ops[..i + 1]).session, w.session.requested, caps)
  {
    NextRun(confirm, w, ops, i);
    RunRequested(confirm, w, ops[..i]);
    ConsentRecorded(confirm, Run(confirm, w, ops[..i]), ops[i], caps);
  }

  lemma RecordStays(confirm: Key -> Tag, w: World, op: Op, requested: SessionCaps, caps: SessionCaps)
    requires OnRecord(w.session, requested, caps)
    ensures OnRecord(Step(confirm, w, op).session, requested, caps)
  {
    StepConsent(confirm, w, op);
  }

  /** What the user consented to stays on record. */
  lemma {:induction false} ConsentStays(confirm: Key -> Tag, w: World, ops: seq<Op>, i: nat, caps: SessionCaps, n: nat)
    requires ConsentedAt(confirm, w, ops, i, caps) && i < n <= |ops|
    ensures OnRecord(Run(confirm, w, ops[..n]).session, w.session.requested, caps)
    decreases n
  {
    if i == n - 1 {
      ConsentStarts(confirm, w, ops, i, caps);
    } else {
      ConsentStays(confirm, w, ops, i, caps, n - 1);
      NextRun(confirm, w, ops, n - 1);
      RecordStays(confirm, Run(confirm, w, ops[..n - 1]), ops[n - 1], w.session.requested, caps);
    }
  }

  // ----- Capabilities of a grant -----

  /** The grant operation `k` issued. */
  function IssuedBy(confirm: Key -> Tag, w: World, ops: seq<Op>, k: nat): Option<Grant>
    requires k < |ops|
  {
    Run(confirm, w, ops[..k + 1]).session.grant
  }

  /** The capabilities the user or the token allowed when operation `k` issued its grant. */
  ghost predicate AllowedAt(confirm: Key -> Tag, w: World, ops: seq<Op>, k: nat, auth: AuthMethod, caps: SessionCaps) {
    match auth
    case UnattendedToken => TokenAt(confirm, w, ops, k, caps)
    case SessionPin => exists i: nat :: i < k && ConsentedAt(confirm, w, ops, i, caps)
  }

  lemma IssuedGrant(confirm: Key -> Tag, w: World, ops: seq<Op>, k: nat, auth: AuthMethod)
    requires Inv(w.session) && IssuesAt(confirm, w, ops, k, auth)
    ensures var s := Run(confirm, w, ops[..k]).session;
            var g := IssuedBy(confirm, w, ops, k);
            && g.Some? && g.value.peer == w.session.peer && g.value.auth == auth && g.value.grantedAtMs == ops[k].at
            && (if auth.UnattendedToken? then g.value.caps == s.requested.ClampTo(ops[k].verified.value)
                else s.consented.Some? && g.value.caps == s.consented.value)
  {
    RunSafe(confirm, w, ops[..k]);
    NextRun(confirm, w, ops, k);
  }

  /**
   What a new grant permits, capability by capability: what was requested and what the token allows, or what was
   requested and what the user consented to.
   */
  lemma IssuedExactly(confirm: Key -> Tag, w: World, ops: seq<Op>, k: nat, auth: AuthMethod, caps: SessionCaps)
    requires Inv(w.session) && IssuesAt(confirm, w, ops, k, auth) && AllowedAt(confirm, w, ops, k, auth, caps)
    ensures var g := IssuedBy(confirm, w, ops, k);
            && g.Some? && g.value.peer == w.session.peer && g.value.auth == auth && g.value.grantedAtMs == ops[k].at
            && IsCommon(g.value.caps, w.session.requested, caps)
  {
    IssuedGrant(confirm, w, ops, k, auth);
    RunRequested(confirm, w, ops[..k]);
    match auth
    case UnattendedToken => ClampIsCommon(w.session.requested, caps);
    case SessionPin =>
      var i: nat :| i < k && ConsentedAt(confirm, w, ops, i, caps);
      ConsentStays(confirm, w, ops, i, caps, k);
  }

  /** Every restriction from operation `k` on permits the capability. */
  predicate Unrestricted(ops: seq<Op>, k: nat, c: Capability) {
    forall j :: k <= j < |ops| && ops[j].Restrict? ==> Permits(ops[j].to, c)
  }

  lemma UnrestrictedGrows(ops: seq<Op>, k: nat, c: Capability)
    requires k < |ops|
    ensures var n := |ops| - 1;
            Unrestricted(ops, k, c) <==> Unrestricted(ops[..n], k, c) && (ops[n].Restrict? ==> Permits(ops[n].to, c))
  {
    var n := |ops| - 1;
    if Unrestricted(ops[..n], k, c) && (ops[n].Restrict? ==> Permits(ops[n].to, c)) {
      forall j | k <= j < |ops| && ops[j].Restrict?
        ensures Permits(ops[j].to, c)
      {
        assert j < n ==> ops[..n][j] == ops[j];
      }
    }
    if Unrestricted(ops, k, c) {
      assert forall j :: k <= j < n ==> ops[..n][j] == ops[j];
    }
  }

  /** `g` is the grant issued, and permits the capability exactly when that did and `free` says so. */
  predicate Descends(issued: Grant, g: Grant, c: Capability, free: bool) {
    && g == issued.(caps := g.caps)
    && (Permits(g.caps, c) <==> Permits(issued.caps, c) && free)
  }

  /** One operation on a session that holds a grant keeps it, narrowed by a restriction, or ends it. */
  lemma StepNarrows(confirm: Key -> Tag, w: World, op: Op, issued: Grant, c: Capability, free: bool)
    requires Inv(w.session) && w.session.grant.Some? && Step(confirm, w, op).session.grant.Some?
    requires Descends(issued, w.session.grant.value, c, free)
    ensures Descends(issued, Step(confirm, w, op).session.grant.value, c, free && (op.Restrict? ==> Permits(op.to, c)))
  {
    if op.Restrict? {
      ClampIsCommon(w.session.grant.value.caps, op.to);
    }
  }

  /**
   What a grant still permits, over every run: it is the grant that was issued, and it permits a capability if and
   only if it did when issued and every restriction since then does.
   */
  lemma {:induction false} GrantPermitsExactly(confirm: Key -> Tag, w: World, ops: seq<Op>, k: nat, auth: AuthMethod, c: Capability)
    requires Inv(w.session) && IssuesAt(confirm, w, ops, k, auth) && Run(confirm, w, ops).session.grant.Some?
    ensures var issued := IssuedBy(confirm, w, ops, k);
            issued.Some? && Descends(issued.value, Run(confirm, w, ops).session.grant.value, c, Unrestricted(ops, k + 1, c))
    decreases |ops|
  {
    IssuedGrant(confirm, w, ops, k, auth);
    if k == |ops| - 1 {
      assert ops[..k + 1] == ops;
    } else {
      HeldSince(confirm, w, ops, k, auth);
      IssuedEarly(confirm, w, ops, |ops| - 1, k, auth);
      GrantPermitsExactly(confirm, w, ops[..|ops| - 1], k, auth, c);
      LastNarrows(confirm, w, ops, k, c);
    }
  }

  lemma LastNarrows(confirm: Key -> Tag, w: World, ops: seq<Op>, k: nat, c: Capability)
    requires Inv(w.session) && k < |ops| - 1 && IssuedBy(confirm, w, ops, k).Some?
    requires var n := |ops| - 1;
             && Run(confirm, w, ops).session.grant.Some? && Run(confirm, w, ops[..n]).session.grant.Some?
             && Descends(IssuedBy(confirm, w, ops, k).value, Run(confirm, w, ops[..n]).session.grant.value, c,
                         Unrestricted(ops[..n], k + 1, c))
    ensures Descends(IssuedBy(confirm, w, ops, k).value, Run(confirm, w, ops).session.grant.value, c,
                     Unrestricted(ops, k + 1, c))
  {
    var n := |ops| - 1;
    RunSafe(confirm, w, ops[..n]);
    StepNarrows(confirm, Run(confirm, w, ops[..n]), ops[n], IssuedBy(confirm, w, ops, k).value, c,
                Unrestricted(ops[..n], k + 1, c));
    UnrestrictedGrows(ops, k + 1, c);
  }

  lemma IssuedEarly(confirm: Key -> Tag, w: World, ops: seq<Op>, n: nat, k: nat, auth: AuthMethod)
    requires k < n <= |ops| && IssuesAt(confirm, w, ops, k, auth)
    ensures IssuesAt(confirm, w, ops[..n], k, auth)
    ensures IssuedBy(confirm, w, ops[..n], k) == IssuedBy(confirm, w, ops, k)
  {
    PrefixRun(confirm, w, ops, n, k);
    assert ops[..n][..k + 1] == ops[..k + 1];
  }

  /** A grant held now and issued at `k` was held before the last operation too. */
  lemma HeldSince(confirm: Key -> Tag, w: World, ops: seq<Op>, k: nat, auth: AuthMethod)
    requires Inv(w.session) && IssuesAt(confirm, w, ops, k, auth) && k < |ops| - 1
    requires Run(confirm, w, ops).session.grant.Some?
    ensures Run(confirm, w, ops[..|ops| - 1]).session.grant.Some?
  {
    var n := |ops| - 1;
    var now := Run(confirm, w, ops).session.grant.value.auth;
    if Run(confirm, w, ops[..n]).session.grant.None? {
      assert ops[..n + 1] == ops;
      GrantAppearsExactly(confirm, w, ops, n, now);
      IssuedOnce(confirm, w, ops, k, n, auth, now);
    }
  }

  // ----- Closing -----

  /** Operation `k` is the first to close the session. */
  predicate FirstClose(ops: seq<Op>, k: nat) {
    k < |ops| && ops[k].Close? && forall j :: 0 <= j < k ==> !ops[j].Close?
  }

  lemma StepCloses(confirm: Key -> Tag, w: World, op: Op)
    requires Inv(w.session)
    ensures var s, r := w.session, Step(confirm, w, op).session;
            && (s.phase.Closed? ==> r.phase == s.phase)
            && (!s.phase.Closed? && op.Close? ==> r.phase == Closed(op.reason))
            && (!s.phase.Closed? && !op.Close? ==> !r.phase.Closed?)
  {
  }

  lemma FirstCloseGrows(ops: seq<Op>, k: nat)
    requires ops != []
    ensures var n := |ops| - 1;
            FirstClose(ops, k) <==>
            FirstClose(ops[..n], k) || (k == n && ops[n].Close? && forall j: nat :: !FirstClose(ops[..n], j))
  {
    var n := |ops| - 1;
    if FirstClose(ops, k) && k < n {
      assert FirstClose(ops[..n], k);
    }
    if FirstClose(ops[..n], k) {
      assert forall j :: 0 <= j <= k ==> ops[..n][j] == ops[j];
    }
    if k == n && ops[n].Close? && forall j: nat :: !FirstClose(ops[..n], j) {
      NoFirstClose(ops[..n]);
      assert forall j :: 0 <= j < n ==> ops[..n][j] == ops[j];
    }
  }

  lemma {:induction false} NoFirstClose(ops: seq<Op>)
    requires forall j: nat :: !FirstClose(ops, j)
    ensures forall j :: 0 <= j < |ops| ==> !ops[j].Close?
  {
    if ops != [] {
      var n := |ops| - 1;
      forall j: nat
        ensures !FirstClose(ops[..n], j)
      {
        assert !FirstClose(ops, j);
        assert j < n ==> forall i :: 0 <= i <= j ==> ops[..n][i] == ops[i];
      }
      NoFirstClose(ops[..n]);
      assert forall j :: 0 <= j < n ==> ops[..n][j] == ops[j];
      assert !FirstClose(ops, n);
    }
  }

  /**
   A session is closed if and only if some operation closed it; the reason is the first one given, and neither a
   grant nor a pending key is left.
   */
  lemma {:induction false} ClosedExactly(confirm: Key -> Tag, w: World, ops: seq<Op>)
    requires Inv(w.session) && !w.session.phase.Closed?
    ensures var s := Run(confirm, w, ops).session;
            && (s.phase.Closed? <==> exists k: nat :: FirstClose(ops, k))
            && (forall k: nat :: FirstClose(ops, k) ==> s.phase == Closed(ops[k].reason))
            && (s.phase.Closed? ==> s.grant.None? && s.pendingKey.None?)
    decreases |ops|
  {
    RunSafe(confirm, w, ops);
    if ops != [] {
      var n := |ops| - 1;
      ClosedExactly(confirm, w, ops[..n]);
      RunSafe(confirm, w, ops[..n]);
      StepCloses(confirm, Run(confirm, w, ops[..n]), ops[n]);
      forall k: nat
        ensures FirstClose(ops, k) <==>
                FirstClose(ops[..n], k) || (k == n && ops[n].Close? && forall j: nat :: !FirstClose(ops[..n], j))
      {
        FirstCloseGrows(ops, k);
      }
      if ops[n].Close? && forall j: nat :: !FirstClose(ops[..n], j) {
        assert FirstClose(ops, n);
      }
      if k: nat :| FirstClose(ops[..n], k) {
        assert FirstClose(ops, k);
      }
    }
  }

  // ----- Answers, phases and records of the calls that can fail -----

  /** What a call answers. */
  function AnswerOf(confirm: Key -> Tag, w: World, op: Op): Outcome {
    match op
    case Consent(decision, now) => ApplyConsent(w, decision, now).1
    case BeginPin(round) => BeginPinAuth(w, round).1
    case CompletePin(tag, peer, now) => CompletePinAuth(confirm, w, tag, peer, now).1
    case UseToken(verified, proof, now) => AuthenticateWithToken(w, verified, proof, now).1
    case Restrict(_, _) => Ok(())
    case Close(_, _) => Ok(())
  }

  /** The call is not one for the session's phase. */
  predicate Misplaced(s: Session, op: Op) {
    match op
    case Consent(_, _) => s.phase != AwaitingConsent
    case BeginPin(_) => s.phase != Authenticating
    case CompletePin(_, _, _) => s.phase != AwaitingConfirmation
    case UseToken(_, _, _) => s.phase != AwaitingConsent && s.phase != Authenticating
    case _ => false
  }

  /** The error a call in its phase ends with, and the reason noted in the session. */
  function Failing(confirm: Key -> Tag, w: World, op: Op): Option<(SessionError, FailureReason)> {
    var s := w.session;
    match op
    case Consent(decision, now) =>
      if now > s.startedAtMs + 30_000 then Some((ConsentTimeout, TimedOut))
      else if decision.None? then Some((ConsentDenied, Denied)) else None
    case BeginPin(round) => if round.None? then Some((PinFailed, PinRejected)) else None
    case CompletePin(tag, peer, _) =>
      if s.pendingKey.None? || tag != confirm(s.pendingKey.value) then Some((PinFailed, ConfirmationMismatch))
      else if peer.device in w.book && w.book[peer.device] != peer.identity then Some((KeyChanged, IdentityChanged))
      else if !Binds(peer.proof, s.peer) then Some((BindingFailed, UnboundFingerprint)) else None
    case UseToken(verified, proof, _) =>
      if verified.None? then Some((TokenRejected, BadToken))
      else if !Binds(proof, s.peer) then Some((BindingFailed, UnboundFingerprint)) else None
    case _ => None
  }

  /** The phase a call that succeeds leads to. */
  predicate Succeeds(s: Session, r: Session, op: Op) {
    match op
    case Consent(_, _) => r.phase == Authenticating && r.pinIssued
    case BeginPin(round) => r.phase == AwaitingConfirmation && r.pendingKey == round
    case CompletePin(_, _, _) => r.phase == Established && r.pendingKey.None?
    case UseToken(_, _, _) => r.phase == Established
    case _ => true
  }

  /**
   What each of the four calls that can fail answers, and where it leaves the session: out of its phase it is
   refused and changes nothing; otherwise the first check that fails names the error and ends the session, and
   the call succeeds when none does.
   */
  lemma AnswersExactly(confirm: Key -> Tag, w: World, op: Op)
    requires Inv(w.session) && !op.Restrict? && !op.Close?
    ensures var r, answer := Step(confirm, w, op), AnswerOf(confirm, w, op);
            var failing := Failing(confirm, w, op);
            if Misplaced(w.session, op) then answer == Err(WrongState) && r == w
            else if failing.Some? then answer == Err(failing.value.0) && r.session.phase == Failed(failing.value.1)
            else answer == Ok(()) && Succeeds(w.session, r.session, op)
  {
    match op
    case Consent(_, _) =>
    case BeginPin(_) =>
    case CompletePin(_, _, _) =>
    case UseToken(_, _, _) =>
    case Restrict(_, _) =>
    case Close(_, _) =>
  }

  /** What an operation adds to the audit log. */
  ghost function Entries(confirm: Key -> Tag, w: World, op: Op): seq<AuditEvent> {
    var r := Step(confirm, w, op).session;
    if op.Consent? then (if AnswerOf(confirm, w, op) == Err(ConsentDenied) then [InjectionRefused(op.at)] else [])
    else if op.CompletePin? || op.UseToken? then
      if AnswerOf(confirm, w, op).Ok? && r.grant.Some?
      then [SessionStarted(op.at, r.grant.value.caps, r.grant.value.auth)] else []
    else if op.Restrict? then
      if w.session.grant.Some? && r.grant.Some? then [CapabilitiesChanged(op.at, r.grant.value.caps)] else []
    else if op.Close? then
      if w.session.phase.Closed? then []
      else [SessionEnded(op.at, if op.at < w.session.startedAtMs then 0 else op.at - w.session.startedAtMs)]
    else []
  }

  ghost function RunEntries(confirm: Key -> Tag, w: World, ops: seq<Op>): seq<AuditEvent> {
    if ops == [] then []
    else
      var pre, last := ops[..|ops| - 1], ops[|ops| - 1];
      RunEntries(confirm, w, pre) + Entries(confirm, Run(confirm, w, pre), last)
  }

  lemma StepEntries(confirm: Key -> Tag, w: World, op: Op)
    requires Inv(w.session)
    ensures Step(confirm, w, op).audit == w.audit + Entries(confirm, w, op)
  {
    match op
    case Consent(_, _) =>
    case BeginPin(_) =>
    case CompletePin(_, _, _) =>
    case UseToken(_, _, _) =>
    case Restrict(_, _) =>
    case Close(_, _) =>
  }

  lemma Regroup(a: seq<AuditEvent>, b: seq<AuditEvent>, c: seq<AuditEvent>)
    ensures a + b + c == a + (b + c)
  {
  }

  /**
   The audit log of a run, entry by entry: each denial, each grant with what it carries, each change of what it
   carries, and the end with its duration.
   */
  lemma {:induction false} AuditExactly(confirm: Key -> Tag, w: World, ops: seq<Op>)
    requires Inv(w.session)
    ensures Run(confirm, w, ops).audit == w.audit + RunEntries(confirm, w, ops)
    decreases |ops|
  {
    if ops == [] {
      assert w.audit + [] == w.audit;
    } else {
      var pre, last := ops[..|ops| - 1], ops[|ops| - 1];
      AuditExactly(confirm, w, pre);
      RunSafe(confirm, w, pre);
      StepEntries(confirm, Run(confirm, w, pre), last);
      Regroup(w.audit, RunEntries(confirm, w, pre), Entries(confirm, Run(confirm, w, pre), last));
    }
  }
}
