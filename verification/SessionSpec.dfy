/** An authentication session as a pure state machine; module SessionAggregate refines it. */
module SessionSpec {
  import opened Types

  datatype AssuranceLevel = Aal1 | Aal2 | Aal3 | UnknownAal(raw: string)

  datatype FactorType = Totp | SmsOtp | Fido2 | Passkey | OtherFactor(raw: string)

  datatype SessionStatus = Active | Expired | Revoked | UnknownStatus(raw: string)

  datatype RevokeReason =
    | NoReason
    | UserLogout
    | AdminForceLogout
    | PasswordChange
    | PasswordReset
    | DeviceRevoked
    | SecurityEvent
    | ConcurrentSessionLimit
    | ExpiredIdle
    | ExpiredAbsolute
    | OtherReason(raw: string)
  {
    predicate IsManual() {
      match this
      case UserLogout | AdminForceLogout | PasswordChange | PasswordReset
         | DeviceRevoked | SecurityEvent | ConcurrentSessionLimit => true
      case _ => false
    }

    predicate IsExpiry() {
      ExpiredIdle? || ExpiredAbsolute?
    }
  }

  datatype SessionError =
    | ErrInvalidSession
    | ErrInvalidSessionPolicy
    | ErrSessionExpired
    | ErrSessionRevoked
    | ErrInvalidRevokeReason
    | ErrAalFactorMismatch

  datatype SessionPolicy = SessionPolicy(idleTimeout: Duration, absoluteLifetime: Duration) {
    predicate Valid() {
      idleTimeout > 0 && absoluteLifetime > 0 && idleTimeout <= absoluteLifetime
    }
  }

  /** The client seen at creation; an empty address is an invalid one. */
  datatype ClientInfo = ClientInfo(ip: string, userAgent: string)

  /** What is fixed onto a session when it is created. */
  datatype Terms = Terms(
    id: string,
    identity: string,
    device: string,
    aal: AssuranceLevel,
    factors: seq<FactorType>,
    createdAt: Time,
    idleTimeout: Duration,
    absoluteExpiresAt: Time,
    client: ClientInfo)

  /** The persistence shape of a session, which is also its abstract state. */
  datatype SessionSnapshot = SessionSnapshot(
    terms: Terms,
    status: SessionStatus,
    lastActivityAt: Time,
    revokedAt: Option<Time>,
    revokeReason: RevokeReason)

  datatype SessionEvent =
    | SessionCreated(session: string, identity: string, device: string, aal: AssuranceLevel, ip: string,
                     idleTimeout: Duration, absoluteExpiresAt: Time, at: Time)
    | SessionRevoked(session: string, identity: string, reason: RevokeReason, revokedBy: string, at: Time)

  datatype SessionStep = SessionStep(next: SessionSnapshot, emitted: seq<SessionEvent>, err: Option<SessionError>)

  /** validateAALFactors: the level matches the factors actually verified. */
  predicate FactorsMatch(aal: AssuranceLevel, factors: seq<FactorType>) {
    match aal
    case Aal1 => factors == []
    case Aal2 => factors != []
    case Aal3 => Fido2 in factors
    case UnknownAal(_) => true
  }

  /** The terms NewAuthenticationSession sets, or the error it returns. */
  function NewTerms(id: string, identity: string, device: string, aal: AssuranceLevel, factors: seq<FactorType>,
                    client: ClientInfo, policy: SessionPolicy, now: Time): Result<Terms, SessionError>
  {
    if id == "" || identity == "" || aal.UnknownAal? || client.ip == "" || now == ZERO_TIME then Err(ErrInvalidSession)
    else if !policy.Valid() then Err(ErrInvalidSessionPolicy)
    else if !FactorsMatch(aal, factors) then Err(ErrAalFactorMismatch)
    else Ok(Terms(id, identity, device, aal, factors, now, policy.idleTimeout, now + policy.absoluteLifetime, client))
  }

  /** An ACTIVE session on these terms, on which nothing has happened yet. */
  function Opened(t: Terms): SessionSnapshot {
    SessionSnapshot(t, Active, t.createdAt, None, NoReason)
  }

  function CreatedEvent(t: Terms): SessionEvent {
    SessionCreated(t.id, t.identity, t.device, t.aal, t.client.ip, t.idleTimeout, t.absoluteExpiresAt, t.createdAt)
  }

  function IdleExpiresAt(s: SessionSnapshot): Time {
    s.lastActivityAt + s.terms.idleTimeout
  }

  /** expiryAt: why and when the session ran out, if it has by `now`; the absolute timeout wins. */
  function ExpiryAt(s: SessionSnapshot, now: Time): Option<(RevokeReason, Time)> {
    if now >= s.terms.absoluteExpiresAt then Some((ExpiredAbsolute, s.terms.absoluteExpiresAt))
    else if now >= IdleExpiresAt(s) then Some((ExpiredIdle, IdleExpiresAt(s)))
    else None
  }

  predicate IsActive(s: SessionSnapshot, now: Time) {
    s.status.Active? && ExpiryAt(s, now).None?
  }

  function RevokedEvent(s: SessionSnapshot, reason: RevokeReason, actor: string, at: Time): SessionEvent {
    SessionRevoked(s.terms.id, s.terms.identity, reason, actor, at)
  }

  function Terminated(s: SessionSnapshot, status: SessionStatus, reason: RevokeReason, at: Time): SessionSnapshot {
    s.(status := status, revokedAt := Some(at), revokeReason := reason)
  }

  /** EnforceExpiry has something to do. */
  predicate Expires(s: SessionSnapshot, now: Time) {
    s.status.Active? && ExpiryAt(s, now).Some?
  }

  /** EnforceExpiry. */
  function EnforceStep(s: SessionSnapshot, now: Time): SessionStep {
    if Expires(s, now) then
      var (reason, at) := ExpiryAt(s, now).value;
      SessionStep(Terminated(s, Expired, reason, at), [RevokedEvent(s, reason, "", at)], None)
    else SessionStep(s, [], None)
  }

  /** ensureActive. */
  function EnsureActiveStep(s: SessionSnapshot, now: Time): SessionStep {
    if s.status.Revoked? then SessionStep(s, [], Some(ErrSessionRevoked))
    else if s.status.Expired? then SessionStep(s, [], Some(ErrSessionExpired))
    else
      var e := EnforceStep(s, now);
      SessionStep(e.next, e.emitted, if Expires(s, now) then Some(ErrSessionExpired) else None)
  }

  /** Touch. */
  function TouchStep(s: SessionSnapshot, now: Time): SessionStep {
    var e := EnsureActiveStep(s, now);
    if e.err.Some? then e
    else SessionStep(if now > s.lastActivityAt then s.(lastActivityAt := now) else s, [], None)
  }

  /** Revoke. */
  function RevokeStep(s: SessionSnapshot, reason: RevokeReason, actor: string, now: Time): SessionStep {
    if !reason.IsManual() then SessionStep(s, [], Some(ErrInvalidRevokeReason))
    else
      var e := EnsureActiveStep(s, now);
      if e.err.Some? then e
      else SessionStep(Terminated(s, Revoked, reason, now), [RevokedEvent(s, reason, actor, now)], None)
  }

  /** The status agrees with the revocation columns. */
  predicate EndShape(s: SessionSnapshot) {
    match s.status
    case Active => s.revokedAt.None? && s.revokeReason.NoReason?
    case Revoked => s.revokedAt.Some? && s.revokeReason.IsManual()
    case Expired => s.revokedAt.Some? && s.revokeReason.IsExpiry()
    case UnknownStatus(_) => false
  }

  /** What RehydrateSession asks of the parts of a snapshot other than its factors. */
  predicate SessionShape(s: SessionSnapshot) {
    && s.terms.id != "" && s.terms.identity != ""
    && !s.terms.aal.UnknownAal?
    && s.terms.idleTimeout > 0 && s.terms.absoluteExpiresAt > s.terms.createdAt
    && s.lastActivityAt >= s.terms.createdAt
    && EndShape(s)
  }

  /** The snapshots RehydrateSession accepts. */
  predicate AcceptsSession(s: SessionSnapshot) {
    SessionShape(s) && FactorsMatch(s.terms.aal, s.terms.factors)
  }
}
