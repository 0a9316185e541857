/** What every run of a session keeps, and what its two lazy timeouts mean. */
module SessionRuns {
  import opened Types
  import opened SessionSpec

  datatype SessionOp =
    | Touch(now: Time)
    | Revoke(reason: RevokeReason, actor: string, now: Time)
    | Enforce(now: Time)

  function ApplySession(s: SessionSnapshot, op: SessionOp): SessionStep {
    match op
    case Touch(now) => TouchStep(s, now)
    case Revoke(reason, actor, now) => RevokeStep(s, reason, actor, now)
    case Enforce(now) => EnforceStep(s, now)
  }

  datatype SessionTrace = SessionTrace(final: SessionSnapshot, log: seq<SessionEvent>)

  /** A run from the moment a session is created; its log begins with SessionCreated. */
  function ExecSession(t: Terms, ops: seq<SessionOp>): SessionTrace {
    if ops == [] then SessionTrace(Opened(t), [CreatedEvent(t)])
    else
      var before := ExecSession(t, Front(ops));
      var step := ApplySession(before.final, Last(ops));
      SessionTrace(step.next, before.log + step.emitted)
  }

  /** The assurance levels that a list of verified factors supports. */
  function Levels(factors: seq<FactorType>): set<AssuranceLevel> {
    if factors == [] then {Aal1} else if Fido2 in factors then {Aal2, Aal3} else {Aal2}
  }

  lemma LevelsMatch(aal: AssuranceLevel, factors: seq<FactorType>)
    ensures aal in Levels(factors) <==> !aal.UnknownAal? && FactorsMatch(aal, factors)
  {
  }

  /** What the terms of a session agree on. */
  predicate Agreed(t: Terms) {
    && t.id != "" && t.identity != ""
    && t.aal in Levels(t.factors)
    && 0 < t.idleTimeout
    && t.createdAt + t.idleTimeout <= t.absoluteExpiresAt
  }

  /**
   NewAuthenticationSession sets terms `t` under a policy exactly when they are
   agreed, with an address and a creation time, and carry the policy's own idle
   timeout and, from the creation on, its own lifetime.
   */
  lemma AgreedIffNew(t: Terms, policy: SessionPolicy)
    ensures NewTerms(t.id, t.identity, t.device, t.aal, t.factors, t.client, policy, t.createdAt) == Ok(t) <==>
            && Agreed(t) && t.client.ip != "" && t.createdAt != ZERO_TIME
            && t.idleTimeout == policy.idleTimeout && t.absoluteExpiresAt == t.createdAt + policy.absoluteLifetime
  {
    LevelsMatch(t.aal, t.factors);
  }

  /** Whatever terms it sets are those it was asked for. */
  lemma NewKeepsItsWord(id: string, identity: string, device: string, aal: AssuranceLevel, factors: seq<FactorType>,
                        client: ClientInfo, policy: SessionPolicy, now: Time)
    ensures var r := NewTerms(id, identity, device, aal, factors, client, policy, now);
            && (r.Ok? <==>
                && id != "" && identity != "" && client.ip != "" && now != ZERO_TIME && aal in Levels(factors)
                && 0 < policy.idleTimeout <= policy.absoluteLifetime)
            && (r.Ok? ==>
                && Agreed(r.value) && r.value.id == id && r.value.identity == identity && r.value.device == device
                && r.value.aal == aal && r.value.factors == factors && r.value.client == client
                && r.value.createdAt == now && r.value.idleTimeout == policy.idleTimeout
                && r.value.absoluteExpiresAt == now + policy.absoluteLifetime)
  {
    LevelsMatch(aal, factors);
  }

  predicate Ended(s: SessionSnapshot) {
    s.status.Expired? || s.status.Revoked?
  }

  /** The event that tells of the beginning of a session. */
  predicate TellsBeginning(e: SessionEvent, t: Terms) {
    && e.SessionCreated? && e.session == t.id && e.identity == t.identity && e.device == t.device && e.aal == t.aal
    && e.ip == t.client.ip && e.idleTimeout == t.idleTimeout && e.absoluteExpiresAt == t.absoluteExpiresAt
    && e.at == t.createdAt
  }

  /** The event that tells of the end a session came to. */
  predicate TellsEnd(e: SessionEvent, s: SessionSnapshot) {
    && e.SessionRevoked? && e.session == s.terms.id && e.identity == s.terms.identity
    && e.reason == s.revokeReason && s.revokedAt == Some(e.at)
  }

  /** The state and the whole log of a session at any point of its life. */
  predicate Coherent(t: Terms, s: SessionSnapshot, log: seq<SessionEvent>) {
    && s.terms == t
    && t.createdAt <= s.lastActivityAt < t.absoluteExpiresAt
    && EndShape(s)
    && (s.revokedAt.Some? ==> s.revokedAt.value <= t.absoluteExpiresAt)
    && (s.status.Expired? ==>
        s.revokedAt == Some(if s.revokeReason.ExpiredAbsolute? then t.absoluteExpiresAt else IdleExpiresAt(s)))
    && |log| == (if Ended(s) then 2 else 1)
    && TellsBeginning(log[0], t)
    && (Ended(s) ==> TellsEnd(log[1], s))
  }

  lemma StepCoherent(t: Terms, s: SessionSnapshot, log: seq<SessionEvent>, op: SessionOp)
    requires Agreed(t) && Coherent(t, s, log)
    ensures var step := ApplySession(s, op);
            && Coherent(t, step.next, log + step.emitted)
            && s.lastActivityAt <= step.next.lastActivityAt
            && (Ended(s) ==> step.next == s && step.emitted == [])
  {
    assert log + [] == log;
  }

  /**
   Every run of a session keeps its terms; its last activity lies between its
   creation and its absolute expiry; it never ends after that expiry; and its
   whole log is SessionCreated, followed by one SessionRevoked exactly when the
   session has ended.
   */
  lemma {:induction false} SessionRunsAreCoherent(t: Terms, ops: seq<SessionOp>)
    requires Agreed(t)
    ensures Coherent(t, ExecSession(t, ops).final, ExecSession(t, ops).log)
  {
    if ops != [] {
      var before := ExecSession(t, Front(ops));
      SessionRunsAreCoherent(t, Front(ops));
      StepCoherent(t, before.final, before.log, Last(ops));
    }
  }

  lemma StepForward(s: SessionSnapshot, op: SessionOp)
    ensures var step := ApplySession(s, op);
            && s.lastActivityAt <= step.next.lastActivityAt
            && (Ended(s) ==> step.next == s && step.emitted == [])
  {
  }

  /** Nothing an ended session is asked to do changes it or its log. */
  ghost predicate OnlyForward(before: SessionTrace, after: SessionTrace) {
    && before.final.lastActivityAt <= after.final.lastActivityAt
    && (Ended(before.final) ==> after == before)
  }

  lemma OneMoreOperation(t: Terms, ops: seq<SessionOp>, op: SessionOp)
    ensures OnlyForward(ExecSession(t, ops), ExecSession(t, ops + [op]))
  {
    var before := ExecSession(t, ops);
    StepForward(before.final, op);
    assert Front(ops + [op]) == ops;
    assert before.log + [] == before.log;
  }

  /** A session that has ended stays exactly as it is, and activity never moves backwards. */
  lemma {:induction false} EndsAreFinal(t: Terms, ops: seq<SessionOp>, more: seq<SessionOp>)
    ensures OnlyForward(ExecSession(t, ops), ExecSession(t, ops + more))
  {
    if more == [] {
      assert ops + more == ops;
    } else {
      EndsAreFinal(t, ops, Front(more));
      OneMoreOperation(t, ops + Front(more), Last(more));
      assert ops + more == (ops + Front(more)) + [Last(more)];
    }
  }

  /** RehydrateSession accepts every reachable snapshot. */
  lemma ReachableSessionsRehydrate(t: Terms, ops: seq<SessionOp>)
    requires Agreed(t)
    ensures AcceptsSession(ExecSession(t, ops).final)
  {
    SessionRunsAreCoherent(t, ops);
    LevelsMatch(t.aal, t.factors);
  }

  // ------------------------------------------------------------------------
  // Liveness refines the activity log.
  // ------------------------------------------------------------------------

  function Touches(ts: seq<Time>): (ops: seq<SessionOp>)
    ensures |ops| == |ts|
  {
    if ts == [] then [] else Touches(Front(ts)) + [Touch(Last(ts))]
  }

  predicate Sorted(ts: seq<Time>) {
    forall i, j :: 0 <= i < j < |ts| ==> ts[i] <= ts[j]
  }

  /** Each instant comes less than `idle` after the one before it. */
  predicate NeverIdle(ts: seq<Time>, idle: Duration) {
    forall i :: 0 <= i < |ts| - 1 ==> ts[i + 1] - ts[i] < idle
  }

  lemma NeverIdleSnoc(ts: seq<Time>, t: Time, idle: Duration)
    requires ts != []
    ensures NeverIdle(ts + [t], idle) <==> NeverIdle(ts, idle) && t - Last(ts) < idle
  {
    var ext := ts + [t];
    if NeverIdle(ext, idle) {
      assert ext[|ts| - 1 + 1] - ext[|ts| - 1] < idle;
      forall i | 0 <= i < |ts| - 1
        ensures ts[i + 1] - ts[i] < idle
      {
        assert ext[i + 1] - ext[i] < idle;
      }
    }
  }

  /** What is known of a session after activities at `all`, in terms of the instants alone. */
  predicate StatusOf(t: Terms, s: SessionSnapshot, all: seq<Time>)
    requires all != []
  {
    && s.terms == t
    && (s.status.Active? <==> NeverIdle(all, t.idleTimeout) && Last(all) < t.absoluteExpiresAt)
    && (s.status.Active? ==> s.lastActivityAt == Last(all))
    && (s.status.Active? || s.status.Expired?)
  }

  lemma TouchStatus(t: Terms, s: SessionSnapshot, all: seq<Time>, now: Time)
    requires Agreed(t) && all != [] && StatusOf(t, s, all) && Last(all) <= now
    ensures StatusOf(t, TouchStep(s, now).next, all + [now])
  {
    NeverIdleSnoc(all, now, t.idleTimeout);
  }

  lemma SortedSnoc(all: seq<Time>, now: Time)
    requires all != [] && Sorted(all + [now])
    ensures Sorted(all) && Last(all) <= now
  {
    var ext := all + [now];
    assert forall i :: 0 <= i < |all| ==> ext[i] == all[i];
    assert ext[|all| - 1] <= ext[|all|];
  }

  lemma {:induction false} TouchedStatus(t: Terms, ts: seq<Time>)
    requires Agreed(t) && Sorted([t.createdAt] + ts)
    ensures StatusOf(t, ExecSession(t, Touches(ts)).final, [t.createdAt] + ts)
  {
    if ts != [] {
      var all, now := [t.createdAt] + Front(ts), Last(ts);
      assert [t.createdAt] + ts == all + [now];
      SortedSnoc(all, now);
      TouchedStatus(t, Front(ts));
      assert Front(Touches(ts)) == Touches(Front(ts));
      TouchStatus(t, ExecSession(t, Touches(Front(ts))).final, all, now);
    }
  }

  /**
   After any run of touches under a clock that never runs backwards, the session
   is usable at `now` exactly when `now` is before its absolute expiry and no gap
   between consecutive activities, the last one up to `now` included, has
   reached the idle timeout.
   */
  lemma LivenessRefinesActivity(t: Terms, ts: seq<Time>, now: Time)
    requires Agreed(t) && Sorted([t.createdAt] + ts + [now])
    ensures IsActive(ExecSession(t, Touches(ts)).final, now) <==>
            now < t.absoluteExpiresAt && NeverIdle([t.createdAt] + ts + [now], t.idleTimeout)
  {
    var all := [t.createdAt] + ts;
    SortedSnoc(all, now);
    TouchedStatus(t, ts);
    NeverIdleSnoc(all, now, t.idleTimeout);
  }

  /**
   So a session created at `created` under a policy is usable at `now` exactly
   when the policy's lifetime has not passed since and no gap between activities
   has reached the policy's idle timeout.
   */
  lemma CreatedSessionLiveness(id: string, identity: string, device: string, aal: AssuranceLevel,
                               factors: seq<FactorType>, client: ClientInfo, policy: SessionPolicy, created: Time,
                               ts: seq<Time>, now: Time)
    requires NewTerms(id, identity, device, aal, factors, client, policy, created).Ok?
    requires Sorted([created] + ts + [now])
    ensures var t := NewTerms(id, identity, device, aal, factors, client, policy, created).value;
            IsActive(ExecSession(t, Touches(ts)).final, now) <==>
            now < created + policy.absoluteLifetime && NeverIdle([created] + ts + [now], policy.idleTimeout)
  {
    NewKeepsItsWord(id, identity, device, aal, factors, client, policy, created);
    var t := NewTerms(id, identity, device, aal, factors, client, policy, created).value;
    LivenessRefinesActivity(t, ts, now);
  }

  // ------------------------------------------------------------------------
  // How sessions answer, and what ends them.
  // ------------------------------------------------------------------------

  /** The reasons for which somebody can end a session. */
  const MANUAL: set<RevokeReason> := {
    UserLogout, AdminForceLogout, PasswordChange, PasswordReset, DeviceRevoked, SecurityEvent, ConcurrentSessionLimit
  }

  lemma ManualReasons(r: RevokeReason)
    ensures r.IsManual() <==> r in MANUAL
    ensures r.IsExpiry() <==> r in {ExpiredIdle, ExpiredAbsolute}
  {
  }

  /** RehydrateSession accepts exactly the snapshots whose terms hold together and whose end fits its status. */
  lemma AcceptedSessionIff(s: SessionSnapshot)
    ensures AcceptsSession(s) <==>
            && s.terms.id != "" && s.terms.identity != "" && s.terms.aal in Levels(s.terms.factors)
            && 0 < s.terms.idleTimeout && s.terms.createdAt < s.terms.absoluteExpiresAt
            && s.terms.createdAt <= s.lastActivityAt
            && (|| (s.status == Active && s.revokedAt == None && s.revokeReason == NoReason)
                || (s.status == Revoked && s.revokedAt.Some? && s.revokeReason in MANUAL)
                || (s.status == Expired && s.revokedAt.Some? && s.revokeReason in {ExpiredIdle, ExpiredAbsolute}))
  {
    LevelsMatch(s.terms.aal, s.terms.factors);
    ManualReasons(s.revokeReason);
  }

  /** Either timeout has been reached. */
  predicate RunOut(s: SessionSnapshot, now: Time) {
    now >= s.terms.absoluteExpiresAt || now >= s.lastActivityAt + s.terms.idleTimeout
  }

  /** The answer to a use of the session, by its status and its timeouts. */
  function Answer(s: SessionSnapshot, now: Time): Option<SessionError> {
    match s.status
    case Revoked => Some(ErrSessionRevoked)
    case Expired => Some(ErrSessionExpired)
    case _ => if RunOut(s, now) then Some(ErrSessionExpired) else None
  }

  /** The session as its timeout ends it: at the instant of that timeout, the absolute one coming first. */
  function TimedOut(s: SessionSnapshot, now: Time): SessionSnapshot {
    if now >= s.terms.absoluteExpiresAt
    then s.(status := Expired, revokeReason := ExpiredAbsolute, revokedAt := Some(s.terms.absoluteExpiresAt))
    else s.(status := Expired, revokeReason := ExpiredIdle, revokedAt := Some(s.lastActivityAt + s.terms.idleTimeout))
  }

  /**
   Touch and Revoke answer by status and timeouts, and Revoke first of all by
   its reason; what goes through takes effect, and whoever finds an ACTIVE
   session run out ends it.
   */
  lemma AnswersByStatus(s: SessionSnapshot, op: SessionOp)
    requires !s.status.UnknownStatus?
    ensures var step := ApplySession(s, op);
            && (op.Touch? ==> step.err == Answer(s, op.now))
            && (op.Revoke? ==>
                step.err == if op.reason !in MANUAL then Some(ErrInvalidRevokeReason) else Answer(s, op.now))
            && (op.Touch? && step.err.None? ==>
                step.next == s.(lastActivityAt := if op.now > s.lastActivityAt then op.now else s.lastActivityAt))
            && (op.Revoke? && step.err.None? ==>
                step.next == s.(status := Revoked, revokeReason := op.reason, revokedAt := Some(op.now)))
            && (op.Enforce? ==> step.err.None?)
            && (op.Enforce? || step.err.Some? ==>
                step.next ==
                if s.status == Active && RunOut(s, op.now) && step.err != Some(ErrInvalidRevokeReason)
                then TimedOut(s, op.now) else s)
  {
    if op.Revoke? {
      ManualReasons(op.reason);
    }
  }

  /** The operation is what revoked the session, and the event says by whom. */
  predicate Revokes(op: SessionOp, s: SessionSnapshot, e: SessionEvent) {
    && op.Revoke? && op.reason in MANUAL && s.revokeReason == op.reason && s.revokedAt == Some(op.now)
    && e.SessionRevoked? && e.revokedBy == op.actor
  }

  /** A timeout ended the session, and an operation at or after that found out. */
  predicate RanOutBy(op: SessionOp, s: SessionSnapshot, e: SessionEvent) {
    && s.revokeReason in {ExpiredIdle, ExpiredAbsolute} && s.revokedAt.Some? && s.revokedAt.value <= op.now
    && e.SessionRevoked? && e.revokedBy == ""
  }

  /** The end of the session has a cause among the operations. */
  ghost predicate HasCause(s: SessionSnapshot, log: seq<SessionEvent>, ops: seq<SessionOp>) {
    && (s.status.Revoked? ==> |log| == 2 && exists i :: 0 <= i < |ops| && Revokes(ops[i], s, log[1]))
    && (s.status.Expired? ==> |log| == 2 && exists i :: 0 <= i < |ops| && RanOutBy(ops[i], s, log[1]))
  }

  lemma StepHasCause(t: Terms, s: SessionSnapshot, log: seq<SessionEvent>, ops: seq<SessionOp>, op: SessionOp)
    requires Agreed(t) && Coherent(t, s, log) && HasCause(s, log, ops)
    ensures var step := ApplySession(s, op);
            HasCause(step.next, log + step.emitted, ops + [op])
  {
    var step := ApplySession(s, op);
    assert log + [] == log;
    if Ended(s) {
      KeepsCause(s, log, ops, op);
    } else if Ended(step.next) {
      if op.Revoke? {
        ManualReasons(op.reason);
      }
      assert (ops + [op])[|ops|] == op;
      assert Revokes(op, step.next, (log + step.emitted)[1]) || RanOutBy(op, step.next, (log + step.emitted)[1]);
    }
  }

  lemma KeepsCause(s: SessionSnapshot, log: seq<SessionEvent>, ops: seq<SessionOp>, op: SessionOp)
    requires HasCause(s, log, ops)
    ensures HasCause(s, log, ops + [op])
  {
    if s.status.Revoked? {
      var i :| 0 <= i < |ops| && Revokes(ops[i], s, log[1]);
      assert (ops + [op])[i] == ops[i];
    } else if s.status.Expired? {
      var i :| 0 <= i < |ops| && RanOutBy(ops[i], s, log[1]);
      assert (ops + [op])[i] == ops[i];
    }
  }

  /**
   In every run a revoked session was revoked by one of its operations, for that
   operation's reason, at its time and by its actor; and an expired one by a
   timeout that one of them found to have passed.
   */
  lemma {:induction false} EndsHaveCauses(t: Terms, ops: seq<SessionOp>)
    requires Agreed(t)
    ensures HasCause(ExecSession(t, ops).final, ExecSession(t, ops).log, ops)
  {
    if ops != [] {
      var before := ExecSession(t, Front(ops));
      EndsHaveCauses(t, Front(ops));
      SessionRunsAreCoherent(t, Front(ops));
      StepHasCause(t, before.final, before.log, Front(ops), Last(ops));
      assert ops == Front(ops) + [Last(ops)];
    }
  }

  // ------------------------------------------------------------------------
  // When expiry is detected matters on one condition only.
  // ------------------------------------------------------------------------

  /** The end recorded when expiry is detected at `now`. */
  function DetectedEnd(s: SessionSnapshot, now: Time): (RevokeReason, Option<Time>)
    requires Expires(s, now)
  {
    var e := EnforceStep(s, now).next;
    (e.revokeReason, e.revokedAt)
  }

  /** Detections on the same side of the absolute expiry record the same end. */
  lemma DetectionDependsOnSide(s: SessionSnapshot, now: Time, now': Time)
    requires Expires(s, now) && Expires(s, now')
    ensures DetectedEnd(s, now) == DetectedEnd(s, now') <==>
            (now < s.terms.absoluteExpiresAt <==> now' < s.terms.absoluteExpiresAt)
  {
  }

  ghost predicate DetectionNeverMatters(s: SessionSnapshot) {
    forall now, now' :: Expires(s, now) && Expires(s, now') ==> DetectedEnd(s, now) == DetectedEnd(s, now')
  }

  /** The recorded end is independent of when expiry is detected exactly when idle expiry is not first. */
  lemma DetectionTimeTheorem(s: SessionSnapshot)
    requires s.status.Active?
    ensures DetectionNeverMatters(s) <==> IdleExpiresAt(s) >= s.terms.absoluteExpiresAt
  {
    if IdleExpiresAt(s) < s.terms.absoluteExpiresAt {
      var early, late := IdleExpiresAt(s), s.terms.absoluteExpiresAt;
      assert Expires(s, early) && Expires(s, late);
      assert DetectedEnd(s, early) != DetectedEnd(s, late);
    }
  }

  /** So for every new session with an idle timeout below its lifetime, lazy and late detection disagree. */
  lemma NewSessionDetection(t: Terms)
    requires Agreed(t)
    ensures DetectionNeverMatters(Opened(t)) <==> t.createdAt + t.idleTimeout == t.absoluteExpiresAt
  {
    DetectionTimeTheorem(Opened(t));
  }
}
