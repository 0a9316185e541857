/** How long a lock keeps an account shut, read off the event log alone. */
module LockDurations {
  import opened Types
  import opened CredentialSpec
  import opened CredentialRuns
  import opened CredentialPersistence
  import opened Escalation
  import opened LazyUnlock

  /** An unusable policy is refused before anything else happens: no failure counts and no password changes under it. */
  lemma UnusablePolicyRefused(p: Policies, s: CredentialSnapshot, op: Op)
    ensures op.Fail? ==>
              (Apply(p, s, op).err == Some(ErrInvalidLockoutPolicy) <==>
               || p.lockout.threshold < 1 || p.lockout.window <= 0
               || exists d :: d in p.lockout.temporary && d <= 0)
    ensures op.Change? || op.Reset? ==>
              (Apply(p, s, op).err == Some(ErrInvalidCredentialPolicy) <==>
               p.credential.historyDepth < 0 || p.credential.maxAge < 0)
    ensures Apply(p, s, op).err in {Some(ErrInvalidLockoutPolicy), Some(ErrInvalidCredentialPolicy)} ==>
              Apply(p, s, op).next == s && Apply(p, s, op).emitted == []
  {
    if op.Fail? && p.lockout.threshold >= 1 && p.lockout.window > 0 && !p.lockout.Valid() {
      var i :| 0 <= i < |p.lockout.temporary| && p.lockout.temporary[i] <= 0;
      assert p.lockout.temporary[i] in p.lockout.temporary;
    }
  }

  /** The lock event that no unlock has followed. */
  function InForce(log: seq<CredentialEvent>): (r: Option<CredentialEvent>)
    ensures r.Some? ==> r.value.AccountLocked?
  {
    if log == [] then None
    else match Last(log)
      case AccountLocked(_, _, _, _, _, _, _) => Some(Last(log))
      case AccountUnlocked(_, _, _, _, _) => None
      case _ => InForce(Front(log))
  }

  /** The lock in force is the last one taken. */
  lemma {:induction false} InForceIsLast(log: seq<CredentialEvent>)
    ensures InForce(log).Some? ==> Locks(log) != [] && InForce(log).value == Last(Locks(log))
  {
    if log != [] {
      InForceIsLast(Front(log));
    }
  }

  /** Replaying a log leaves the lock in force, or none. */
  lemma {:induction false} ReplayInForce(v: LockView, log: seq<CredentialEvent>)
    requires v.status.Unlocked? && v.lockedUntil.None?
    ensures match InForce(log)
            case None => Replay(v, log).status.Unlocked?
            case Some(e) => Replay(v, log).status == e.lockoutType && Replay(v, log).lockedUntil == e.lockedUntil
  {
    if log != [] {
      InForceIsLast(log);
      ReplayInForce(v, Front(log));
    }
  }

  /** The account is shut at `now`, by the lock in force and the duration configured for it. */
  ghost predicate ShutAt(p: Policies, log: seq<CredentialEvent>, now: Time) {
    var k := |Locks(log)|;
    && InForce(log).Some?
    && (1 <= k <= |p.lockout.temporary| ==> now < InForce(log).value.at + p.lockout.temporary[k - 1])
  }

  /** The stored lock shuts the account at `now`. */
  predicate LockShuts(l: Lockout, now: Time)
    requires LockShape(l)
  {
    l.status == LockedPermanent || (l.status == LockedTemporary && now < l.lockedUntil.value)
  }

  /** The lock that replays from a log shuts the account exactly when the log says so. */
  lemma {:induction false} LockOfLog(p: Policies, first: LockView, log: seq<CredentialEvent>, l: Lockout, now: Time)
    requires first.status.Unlocked? && first.lockedUntil.None? && LockShape(l) && View(l) == Replay(first, log)
    requires Escalates(p, Locks(log))
    ensures LockShuts(l, now) <==> ShutAt(p, log, now)
  {
    ReplayInForce(first, log);
    InForceIsLast(log);
    if InForce(log).Some? {
      assert OnTier(p, Locks(log), |Locks(log)| - 1);
    }
  }

  /**
   After every run from a new credential, with any clock and any administrator,
   an operation that checks the lock is refused exactly when the last lock was
   not lifted since and its configured duration has not passed; a lock past the
   configured durations never passes.
   */
  lemma {:induction false} RefusedExactlyWhileShut(p: Policies, s: CredentialSnapshot, ops: seq<Op>, op: Op)
    requires p.Valid() && IsNew(s) && ChecksLock(op)
    ensures var t := Exec(p, s, ops);
            Apply(p, t.final, op).err == Some(ErrAccountLocked) <==> ShutAt(p, t.log, op.now)
  {
    var t := Exec(p, s, ops);
    LogDeterminesLock(p, s, ops);
    LocksEscalate(p, s, ops);
    LockOfLog(p, View(s.lock), t.log, t.final.lock, op.now);
    RefusedByLock(p, t.final, op);
  }

  /** An operation is refused with ErrAccountLocked exactly while the stored lock holds. */
  lemma RefusedByLock(p: Policies, s: CredentialSnapshot, op: Op)
    requires p.Valid() && ChecksLock(op) && LockShape(s.lock)
    ensures Apply(p, s, op).err == Some(ErrAccountLocked) <==> LockShuts(s.lock, op.now)
  {
  }
}
