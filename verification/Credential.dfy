/** The Credential aggregate, updated in place; each method takes one step of CredentialSpec. */
module CredentialAggregate {
  import opened Types
  import opened CredentialSpec

  class Credential {
    var id: string
    var identity: string
    var password: PasswordHash
    var passwordCreatedAt: Time
    var passwordExpiresAt: Option<Time>
    var forcePasswordChange: bool
    var failedAttemptCount: int
    var lastFailedAt: Option<Time>
    var lockoutStatus: LockoutStatus
    var lockedAt: Option<Time>
    var lockedUntil: Option<Time>
    var lockoutHistoryCount: int
    var history: seq<HistoryEntry>

    var events: seq<CredentialEvent>

    /** Without this shape EnsureVerifiable would dereference a nil `lockedUntil`. */
    ghost predicate Valid()
      reads this
    {
      LockShape(LockPart()) && lockoutHistoryCount >= 0
    }

    function Snapshot(): CredentialSnapshot
      reads this
    {
      CredentialSnapshot(id, identity, SecretPart(), LockPart())
    }

    function SecretPart(): Secret
      reads this
    {
      Secret(password, passwordCreatedAt, passwordExpiresAt, forcePasswordChange, history)
    }

    function LockPart(): Lockout
      reads this
    {
      Lockout(failedAttemptCount, lastFailedAt, lockoutStatus, lockedAt, lockedUntil, lockoutHistoryCount)
    }

    constructor Restore(snap: CredentialSnapshot)
      ensures Snapshot() == snap && events == []
    {
      id, identity, password := snap.id, snap.identity, snap.secret.password;
      passwordCreatedAt, passwordExpiresAt := snap.secret.createdAt, snap.secret.expiresAt;
      forcePasswordChange, history := snap.secret.forceChange, snap.secret.history;
      failedAttemptCount, lastFailedAt := snap.lock.failedAttemptCount, snap.lock.lastFailedAt;
      lockoutStatus, lockedAt, lockedUntil := snap.lock.status, snap.lock.lockedAt, snap.lock.lockedUntil;
      lockoutHistoryCount := snap.lock.lockoutHistoryCount;
      events := [];
    }

    static method New(id: string, identity: string, password: PasswordHash, policy: CredentialPolicy, force: bool,
                      now: Time)
      returns (r: Result<Credential, CredentialError>)
      ensures r.Ok? <==> id != "" && identity != "" && !password.IsZero() && now != ZERO_TIME && policy.Valid()
      ensures r.Ok? ==> fresh(r.value) && r.value.Valid() && r.value.events == []
      ensures r.Ok? ==> r.value.Snapshot() == Fresh(id, identity, password, policy, force, now)
      ensures r.Err? ==> r.error == if id == "" || identity == "" || password.IsZero() || now == ZERO_TIME
                                    then ErrInvalidCredential else ErrInvalidCredentialPolicy
    {
      if id == "" || identity == "" || password.IsZero() || now == ZERO_TIME {
        return Err(ErrInvalidCredential);
      }
      if !policy.Valid() {
        return Err(ErrInvalidCredentialPolicy);
      }
      var c := new Credential.Restore(Fresh(id, identity, password, policy, force, now));
      r := Ok(c);
    }

    /** RehydrateCredential: accepts exactly the snapshots that keep the aggregate's invariants. */
    static method Rehydrate(snap: CredentialSnapshot, policy: CredentialPolicy)
      returns (r: Result<Credential, CredentialError>)
      ensures r.Ok? <==> Accepts(snap, policy)
      ensures r.Ok? ==> fresh(r.value) && r.value.Valid() && r.value.Snapshot() == snap && r.value.events == []
      ensures r.Err? ==> r.error == if policy.Valid() then ErrInvalidCredential else ErrInvalidCredentialPolicy
    {
      if !policy.Valid() {
        return Err(ErrInvalidCredentialPolicy);
      }
      if snap.id == "" || snap.identity == "" || snap.secret.password.IsZero() || snap.secret.createdAt == ZERO_TIME
         || snap.lock.status.UnknownLockout? || snap.lock.failedAttemptCount < 0 || snap.lock.lockoutHistoryCount < 0
         || |snap.secret.history| > policy.historyDepth
      {
        return Err(ErrInvalidCredential);
      }
      match snap.lock.status {
        case Unlocked =>
          if snap.lock.lockedAt.Some? || snap.lock.lockedUntil.Some? { return Err(ErrInvalidCredential); }
        case LockedTemporary =>
          if snap.lock.lockedAt.None? || snap.lock.lockedUntil.None? || snap.lock.lockoutHistoryCount < 1 {
            return Err(ErrInvalidCredential);
          }
        case LockedPermanent =>
          if snap.lock.lockedAt.None? || snap.lock.lockedUntil.Some? || snap.lock.lockoutHistoryCount < 1 {
            return Err(ErrInvalidCredential);
          }
      }
      for i := 0 to |snap.secret.history|
        invariant NoEmptyEntries(snap.secret.history[..i])
      {
        if snap.secret.history[i].hash.IsZero() {
          return Err(ErrInvalidCredential);
        }
      }
      assert snap.secret.history[..|snap.secret.history|] == snap.secret.history;
      var c := new Credential.Restore(snap);
      r := Ok(c);
    }

    method EnsureVerifiable(now: Time) returns (err: Option<CredentialError>)
      requires Valid()
      modifies this
      ensures Valid()
      ensures var e := EnsureStep(old(Snapshot()), now);
              Snapshot() == e.next && events == old(events) + e.emitted && err == e.err
      ensures err.Some? <==> IsLocked(old(LockPart()), now)
    {
      match lockoutStatus {
        case Unlocked => return None;
        case LockedPermanent => return Some(ErrAccountLocked);
        case LockedTemporary =>
          if now < lockedUntil.value {
            return Some(ErrAccountLocked);
          }
          UnlockBy("", lockedUntil.value);
          return None;
      }
    }

    method RecordFailedAttempt(attempt: AttemptContext, policy: LockoutPolicy, now: Time)
      returns (err: Option<CredentialError>)
      requires Valid()
      modifies this
      ensures Valid()
      ensures var f := FailStep(old(Snapshot()), attempt, policy, now);
              Snapshot() == f.next && events == old(events) + f.emitted && err == f.err
    {
      if !policy.Valid() {
        return Some(ErrInvalidLockoutPolicy);
      }
      err := EnsureVerifiable(now);
      if err.Some? {
        RecordLoginFailed(attempt, LockedOut, now);
        return;
      }
      CountFailure(attempt, policy, now);
    }

    /** The part of RecordFailedAttempt after the lock check. */
    method CountFailure(attempt: AttemptContext, policy: LockoutPolicy, now: Time)
      requires Valid() && lockoutStatus.Unlocked?
      modifies this`failedAttemptCount, this`lastFailedAt, this`lockoutHistoryCount, this`lockedAt,
               this`lockedUntil, this`lockoutStatus, this`events
      ensures Valid()
      ensures LockPart() == Struck(old(LockPart()), policy, now)
      ensures var locked :=
                if Trips(old(LockPart()), policy, now) then [LockedEvent(Snapshot(), attempt.ip, now)] else [];
              events == old(events) + [FailedEvent(Snapshot(), InvalidCredentials, attempt, now)] + locked
    {
      if lastFailedAt.Some? && now - lastFailedAt.value > policy.window {
        failedAttemptCount := 0;
      }
      failedAttemptCount := failedAttemptCount + 1;
      lastFailedAt := Some(now);
      RecordLoginFailed(attempt, InvalidCredentials, now);
      if failedAttemptCount >= policy.threshold {
        Lock(policy, attempt.ip, now);
      }
    }

    method RecordSuccessfulVerification(now: Time) returns (err: Option<CredentialError>)
      requires Valid()
      modifies this
      ensures Valid()
      ensures var e := SucceedStep(old(Snapshot()), now);
              Snapshot() == e.next && events == old(events) + e.emitted && err == e.err
    {
      err := EnsureVerifiable(now);
      if err.Some? {
        return;
      }
      failedAttemptCount := 0;
      lastFailedAt := None;
    }

    method Unlock(actor: string, now: Time) returns (err: Option<CredentialError>)
      requires Valid()
      modifies this
      ensures Valid()
      ensures var u := AdminUnlockStep(old(Snapshot()), actor, now);
              Snapshot() == u.next && events == old(events) + u.emitted && err == u.err
    {
      if lockoutStatus == Unlocked {
        return Some(ErrAccountNotLocked);
      }
      UnlockBy(actor, now);
      err := None;
    }

    method ChangePassword(newHash: PasswordHash, isReuse: Matcher, actor: string, policy: CredentialPolicy, now: Time)
      returns (err: Option<CredentialError>)
      requires Valid()
      modifies this
      ensures Valid()
      ensures var c := ChangeStep(old(Snapshot()), newHash, isReuse, actor, policy, now);
              Snapshot() == c.next && events == old(events) + c.emitted && err == c.err
    {
      if !policy.Valid() {
        return Some(ErrInvalidCredentialPolicy);
      }
      err := EnsureVerifiable(now);
      if err.Some? {
        return;
      }
      var kind := UserInitiated;
      if RequiresPasswordChange(SecretPart(), now) {
        kind := Forced;
      }
      err := ReplacePassword(newHash, isReuse, policy, now);
      if err.Some? {
        return;
      }
      events := events + [PasswordChanged(id, identity, actor, kind, now)];
    }

    method ResetPassword(newHash: PasswordHash, isReuse: Matcher, policy: CredentialPolicy, now: Time)
      returns (err: Option<CredentialError>)
      requires Valid()
      modifies this
      ensures Valid()
      ensures var c := ResetStep(old(Snapshot()), newHash, isReuse, policy, now);
              Snapshot() == c.next && events == old(events) + c.emitted && err == c.err
    {
      if !policy.Valid() {
        return Some(ErrInvalidCredentialPolicy);
      }
      if lockoutStatus == LockedPermanent {
        return Some(ErrAccountLocked);
      }
      err := ReplacePassword(newHash, isReuse, policy, now);
      if err.Some? {
        return;
      }
      events := events + [PasswordResetCompleted(id, identity, now)];
    }

    method MarkForcePasswordChange(actor: string, now: Time) returns (err: Option<CredentialError>)
      requires Valid()
      modifies this
      ensures Valid()
      ensures var c := ForceChangeStep(old(Snapshot()), actor, now);
              Snapshot() == c.next && events == old(events) + c.emitted && err == c.err
    {
      if actor == "" {
        return Some(ErrInvalidCredential);
      }
      if forcePasswordChange {
        return None;
      }
      forcePasswordChange := true;
      events := events + [AdminInitiatedPasswordReset(id, identity, actor, now)];
      err := None;
    }

    method PullEvents() returns (pulled: seq<CredentialEvent>)
      modifies this`events
      ensures pulled == old(events) && events == []
    {
      pulled := events;
      events := [];
    }

    /** replacePassword; the search through the history is the source's ContainsFunc. */
    method ReplacePassword(newHash: PasswordHash, isReuse: Matcher, policy: CredentialPolicy, now: Time)
      returns (err: Option<CredentialError>)
      requires Valid() && policy.Valid()
      modifies this
      ensures Valid() && events == old(events) && id == old(id) && identity == old(identity)
      ensures LockPart() == old(LockPart())
      ensures match Replace(old(SecretPart()), newHash, isReuse, policy, now)
              case Ok(secret) => err.None? && SecretPart() == secret
              case Err(error) => err == Some(error) && SecretPart() == old(SecretPart())
    {
      if newHash.IsZero() {
        return Some(ErrInvalidPasswordHash);
      }
      if isReuse.None? {
        return Some(ErrInvalidCredential);
      }
      var reused := isReuse.value(password);
      var i := 0;
      while !reused && i < |history|
        invariant 0 <= i <= |history|
        invariant reused ==> Reuses(SecretPart(), isReuse.value)
        invariant !reused ==> !isReuse.value(password)
        invariant !reused ==> forall j :: 0 <= j < i ==> !isReuse.value(history[j].hash)
        decreases |history| - i, !reused
      {
        reused := isReuse.value(history[i].hash);
        i := i + 1;
      }
      if reused {
        return Some(ErrPasswordReused);
      }
      history := [HistoryEntry(password, now)] + history;
      if |history| > policy.historyDepth {
        history := history[..policy.historyDepth];
      }
      password := newHash;
      passwordCreatedAt := now;
      passwordExpiresAt := policy.ExpiryFrom(now);
      forcePasswordChange := false;
      err := None;
    }

    /** lock: the tier is set by how often the credential was locked before. */
    method Lock(policy: LockoutPolicy, triggerIp: string, now: Time)
      requires lockoutHistoryCount >= 0
      modifies this`lockoutHistoryCount, this`lockedAt, this`lockedUntil, this`lockoutStatus, this`events
      ensures Valid() && lockoutHistoryCount == old(lockoutHistoryCount) + 1 && lockedAt == Some(now)
      ensures if lockoutHistoryCount <= |policy.temporary|
              then && lockoutStatus == LockedTemporary
                   && lockedUntil == Some(now + policy.temporary[lockoutHistoryCount - 1])
              else lockoutStatus == LockedPermanent && lockedUntil == None
      ensures events == old(events) + [LockedEvent(Snapshot(), triggerIp, now)]
    {
      lockoutHistoryCount := lockoutHistoryCount + 1;
      lockedAt := Some(now);
      if lockoutHistoryCount <= |policy.temporary| {
        lockoutStatus := LockedTemporary;
        lockedUntil := Some(now + policy.temporary[lockoutHistoryCount - 1]);
      } else {
        lockoutStatus := LockedPermanent;
        lockedUntil := None;
      }
      events := events + [AccountLocked(id, identity, lockoutStatus, lockedUntil, triggerIp, failedAttemptCount, now)];
    }

    method UnlockBy(actor: string, at: Time)
      requires lockoutHistoryCount >= 0
      modifies this`failedAttemptCount, this`lastFailedAt, this`lockedAt, this`lockedUntil, this`lockoutStatus,
               this`events
      ensures Valid()
      ensures var u := UnlockStep(old(Snapshot()), actor, at);
              Snapshot() == u.next && events == old(events) + u.emitted
    {
      var previous := lockoutStatus;
      lockoutStatus := Unlocked;
      lockedAt := None;
      lockedUntil := None;
      failedAttemptCount := 0;
      lastFailedAt := None;
      events := events + [AccountUnlocked(id, identity, actor, previous, at)];
    }

    method RecordLoginFailed(attempt: AttemptContext, reason: FailureReason, now: Time)
      modifies this`events
      ensures events == old(events) + [FailedEvent(Snapshot(), reason, attempt, now)]
    {
      events := events + [LoginFailed(id, identity, reason, failedAttemptCount, attempt, now)];
    }
  }
}
