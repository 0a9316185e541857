/** The AuthenticationSession aggregate, updated in place; each method takes one step of SessionSpec. */
module SessionAggregate {
  import opened Types
  import opened SessionSpec

  class AuthenticationSession {
    const terms: Terms
    var status: SessionStatus
    var lastActivityAt: Time
    var revokedAt: Option<Time>
    var revokeReason: RevokeReason

    var events: seq<SessionEvent>

    function Snapshot(): SessionSnapshot
      reads this
    {
      SessionSnapshot(terms, status, lastActivityAt, revokedAt, revokeReason)
    }

    constructor Restore(snap: SessionSnapshot, events: seq<SessionEvent>)
      ensures Snapshot() == snap && this.events == events
    {
      terms := snap.terms;
      status, lastActivityAt := snap.status, snap.lastActivityAt;
      revokedAt, revokeReason := snap.revokedAt, snap.revokeReason;
      this.events := events;
    }

    /** NewAuthenticationSession: an ACTIVE session whose one event is SessionCreated. */
    static method New(id: string, identity: string, device: string, aal: AssuranceLevel, factors: seq<FactorType>,
                      client: ClientInfo, policy: SessionPolicy, now: Time)
      returns (r: Result<AuthenticationSession, SessionError>)
      ensures match NewTerms(id, identity, device, aal, factors, client, policy, now)
              case Err(error) => r == Err(error)
              case Ok(t) => r.Ok? && fresh(r.value) && r.value.Snapshot() == Opened(t)
                            && r.value.events == [CreatedEvent(t)]
      ensures r.Ok? ==> && r.value.terms.idleTimeout == policy.idleTimeout
                        && r.value.terms.absoluteExpiresAt == now + policy.absoluteLifetime
    {
      if id == "" || identity == "" || aal.UnknownAal? || client.ip == "" || now == ZERO_TIME {
        return Err(ErrInvalidSession);
      }
      if !policy.Valid() {
        return Err(ErrInvalidSessionPolicy);
      }
      if !FactorsMatch(aal, factors) {
        return Err(ErrAalFactorMismatch);
      }
      var t := Terms(id, identity, device, aal, factors, now, policy.idleTimeout, now + policy.absoluteLifetime,
                     client);
      var s := new AuthenticationSession.Restore(Opened(t), [CreatedEvent(t)]);
      r := Ok(s);
    }

    /** RehydrateSession: rebuilds a session without events, or refuses the snapshot. */
    static method Rehydrate(snap: SessionSnapshot) returns (r: Result<AuthenticationSession, SessionError>)
      ensures r.Ok? <==> AcceptsSession(snap)
      ensures r.Ok? ==> fresh(r.value) && r.value.Snapshot() == snap && r.value.events == []
      ensures r.Err? ==> r.error == if SessionShape(snap) then ErrAalFactorMismatch else ErrInvalidSession
    {
      if snap.terms.id == "" || snap.terms.identity == "" || snap.status.UnknownStatus? || snap.terms.aal.UnknownAal?
         || snap.terms.idleTimeout <= 0 || snap.terms.absoluteExpiresAt <= snap.terms.createdAt
         || snap.lastActivityAt < snap.terms.createdAt
      {
        return Err(ErrInvalidSession);
      }
      match snap.status {
        case Active =>
          if snap.revokedAt.Some? || snap.revokeReason != NoReason { return Err(ErrInvalidSession); }
        case Revoked =>
          if snap.revokedAt.None? || !snap.revokeReason.IsManual() { return Err(ErrInvalidSession); }
        case Expired =>
          if snap.revokedAt.None? || !snap.revokeReason.IsExpiry() { return Err(ErrInvalidSession); }
      }
      if !FactorsMatch(snap.terms.aal, snap.terms.factors) {
        return Err(ErrAalFactorMismatch);
      }
      var s := new AuthenticationSession.Restore(snap, []);
      r := Ok(s);
    }

    method EnforceExpiry(now: Time) returns (transitioned: bool)
      modifies this
      ensures var e := EnforceStep(old(Snapshot()), now);
              Snapshot() == e.next && events == old(events) + e.emitted
      ensures transitioned <==> Expires(old(Snapshot()), now)
    {
      if status != Active {
        return false;
      }
      var expiry := ExpiryAt(Snapshot(), now);
      if expiry.None? {
        return false;
      }
      Terminate(Expired, expiry.value.0, "", expiry.value.1);
      transitioned := true;
    }

    method EnsureActive(now: Time) returns (err: Option<SessionError>)
      modifies this
      ensures var e := EnsureActiveStep(old(Snapshot()), now);
              Snapshot() == e.next && events == old(events) + e.emitted && err == e.err
    {
      if status == Revoked {
        return Some(ErrSessionRevoked);
      }
      if status == Expired {
        return Some(ErrSessionExpired);
      }
      var expired := EnforceExpiry(now);
      if expired {
        return Some(ErrSessionExpired);
      }
      err := None;
    }

    method Touch(now: Time) returns (err: Option<SessionError>)
      modifies this
      ensures var t := TouchStep(old(Snapshot()), now);
              Snapshot() == t.next && events == old(events) + t.emitted && err == t.err
    {
      err := EnsureActive(now);
      if err.Some? {
        return;
      }
      if now > lastActivityAt {
        lastActivityAt := now;
      }
    }

    method Revoke(reason: RevokeReason, actor: string, now: Time) returns (err: Option<SessionError>)
      modifies this
      ensures var r := RevokeStep(old(Snapshot()), reason, actor, now);
              Snapshot() == r.next && events == old(events) + r.emitted && err == r.err
    {
      if !reason.IsManual() {
        return Some(ErrInvalidRevokeReason);
      }
      err := EnsureActive(now);
      if err.Some? {
        return;
      }
      Terminate(Revoked, reason, actor, now);
    }

    method PullEvents() returns (pulled: seq<SessionEvent>)
      modifies this`events
      ensures pulled == old(events) && events == []
    {
      pulled := events;
      events := [];
    }

    method Terminate(status: SessionStatus, reason: RevokeReason, actor: string, at: Time)
      modifies this
      ensures Snapshot() == Terminated(old(Snapshot()), status, reason, at)
      ensures events == old(events) + [RevokedEvent(old(Snapshot()), reason, actor, at)]
    {
      this.status := status;
      revokedAt := Some(at);
      revokeReason := reason;
      events := events + [SessionRevoked(terms.id, terms.identity, reason, actor, at)];
    }
  }
}
