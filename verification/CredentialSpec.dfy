/**
 The credential of an identity as a pure state machine. Every operation maps a
 snapshot to a `Step`: the next snapshot, the domain events it emits and the
 error it returns. The class in module CredentialAggregate is proved to take
 exactly these steps; the whole-run theorems are proved about them.
 */
module CredentialSpec {
  import opened Types

  const ARGON2ID := "argon2id"
  const BCRYPT := "bcrypt"

  datatype PasswordHash = PasswordHash(hash: string, salt: string, algorithm: string, version: int) {
    predicate IsZero() {
      this == PasswordHash("", "", "", 0)
    }

    /** What NewPasswordHash demands of the stored parts. */
    predicate WellFormed() {
      && hash != ""
      && salt != ""
      && (algorithm == ARGON2ID || algorithm == BCRYPT)
      && version >= 1
    }
  }

  /** Tells whether a candidate plaintext matches a stored hash; `None` is Go's nil matcher. */
  type Matcher = Option<PasswordHash -> bool>

  datatype HistoryEntry = HistoryEntry(hash: PasswordHash, createdAt: Time)

  datatype LockoutStatus = Unlocked | LockedTemporary | LockedPermanent | UnknownLockout(raw: string)

  datatype FailureReason = InvalidCredentials | LockedOut

  datatype ChangeType = UserInitiated | Forced

  datatype CredentialError =
    | ErrInvalidCredential
    | ErrInvalidPasswordHash
    | ErrInvalidLockoutPolicy
    | ErrInvalidCredentialPolicy
    | ErrAccountLocked
    | ErrAccountNotLocked
    | ErrPasswordReused

  datatype LockoutPolicy = LockoutPolicy(threshold: int, window: Duration, temporary: seq<Duration>) {
    predicate Valid() {
      && threshold >= 1
      && window > 0
      && forall i :: 0 <= i < |temporary| ==> temporary[i] > 0
    }
  }

  datatype CredentialPolicy = CredentialPolicy(historyDepth: int, maxAge: Duration) {
    predicate Valid() {
      historyDepth >= 0 && maxAge >= 0
    }

    function ExpiryFrom(t: Time): Option<Time> {
      if maxAge == 0 then None else Some(t + maxAge)
    }
  }

  const DEFAULT_CREDENTIAL_POLICY := CredentialPolicy(12, 180 * 24 * 3600 * SECOND)

  datatype AttemptContext = AttemptContext(companyCode: string, ip: string, userAgent: string, fingerprint: string)

  datatype CredentialEvent =
    | LoginFailed(credential: string, identity: string, reason: FailureReason, failedAttemptCount: int,
                  attempt: AttemptContext, at: Time)
    | AccountLocked(credential: string, identity: string, lockoutType: LockoutStatus, lockedUntil: Option<Time>,
                    triggerIp: string, failedAttemptCount: int, at: Time)
    | AccountUnlocked(credential: string, identity: string, unlockedBy: string, previous: LockoutStatus, at: Time)
    | PasswordChanged(credential: string, identity: string, changedBy: string, changeType: ChangeType, at: Time)
    | PasswordResetCompleted(credential: string, identity: string, at: Time)
    | AdminInitiatedPasswordReset(credential: string, identity: string, initiatedBy: string, at: Time)

  /** The lockout columns of a credential. */
  datatype Lockout = Lockout(
    failedAttemptCount: int,
    lastFailedAt: Option<Time>,
    status: LockoutStatus,
    lockedAt: Option<Time>,
    lockedUntil: Option<Time>,
    lockoutHistoryCount: int)

  /** The password columns of a credential; `history` is newest first. */
  datatype Secret = Secret(
    password: PasswordHash,
    createdAt: Time,
    expiresAt: Option<Time>,
    forceChange: bool,
    history: seq<HistoryEntry>)

  /** The persistence shape of a credential, which is also its abstract state. */
  datatype CredentialSnapshot = CredentialSnapshot(id: string, identity: string, secret: Secret, lock: Lockout)

  datatype Step = Step(next: CredentialSnapshot, emitted: seq<CredentialEvent>, err: Option<CredentialError>)

  const NO_LOCKOUT := Lockout(0, None, Unlocked, None, None, 0)

  // ------------------------------------------------------------------------
  // The lockout machine.
  // ------------------------------------------------------------------------

  /** The lock timestamps and counter agree with the lock status. */
  predicate LockShape(l: Lockout) {
    match l.status
    case Unlocked => l.lockedAt.None? && l.lockedUntil.None?
    case LockedTemporary => l.lockedAt.Some? && l.lockedUntil.Some? && l.lockoutHistoryCount >= 1
    case LockedPermanent => l.lockedAt.Some? && l.lockedUntil.None? && l.lockoutHistoryCount >= 1
    case UnknownLockout(_) => false
  }

  /** A temporary lock whose deadline has come. */
  predicate Elapsed(l: Lockout, now: Time) {
    l.status.LockedTemporary? && l.lockedUntil.Some? && now >= l.lockedUntil.value
  }

  /** IsLocked: the lock holds at `now`, whether or not an elapsed lock was already lifted. */
  predicate IsLocked(l: Lockout, now: Time) {
    !l.status.Unlocked? && !Elapsed(l, now)
  }

  function Released(l: Lockout): Lockout {
    l.(status := Unlocked, lockedAt := None, lockedUntil := None, failedAttemptCount := 0, lastFailedAt := None)
  }

  function Settled(l: Lockout, now: Time): Lockout {
    if Elapsed(l, now) then Released(l) else l
  }

  /** True when the previous failure is too old for the next one to be consecutive. */
  predicate StreakBroken(l: Lockout, policy: LockoutPolicy, now: Time) {
    l.lastFailedAt.Some? && now - l.lastFailedAt.value > policy.window
  }

  function CountAfter(l: Lockout, policy: LockoutPolicy, now: Time): int {
    (if StreakBroken(l, policy, now) then 0 else l.failedAttemptCount) + 1
  }

  /** The failure at `now` reaches the threshold. */
  predicate Trips(l: Lockout, policy: LockoutPolicy, now: Time) {
    CountAfter(l, policy, now) >= policy.threshold
  }

  /** The status of the `k`-th lock of a credential, counting from 1. */
  function TierStatus(policy: LockoutPolicy, k: int): LockoutStatus {
    if k <= |policy.temporary| then LockedTemporary else LockedPermanent
  }

  /** The deadline of the `k`-th lock when it is taken at `now`. */
  function TierUntil(policy: LockoutPolicy, k: int, now: Time): Option<Time> {
    if 1 <= k <= |policy.temporary| then Some(now + policy.temporary[k - 1]) else None
  }

  /** A failure counted against an unlocked credential, which locks it at the threshold. */
  function Struck(l: Lockout, policy: LockoutPolicy, now: Time): Lockout {
    var counted := l.(failedAttemptCount := CountAfter(l, policy, now), lastFailedAt := Some(now));
    if Trips(l, policy, now) then
      var k := l.lockoutHistoryCount + 1;
      counted.(lockoutHistoryCount := k, lockedAt := Some(now),
               status := TierStatus(policy, k), lockedUntil := TierUntil(policy, k, now))
    else counted
  }

  function Forgiven(l: Lockout): Lockout {
    l.(failedAttemptCount := 0, lastFailedAt := None)
  }

  // ------------------------------------------------------------------------
  // The operations.
  // ------------------------------------------------------------------------

  predicate NoEmptyEntries(history: seq<HistoryEntry>) {
    forall i :: 0 <= i < |history| ==> !history[i].hash.IsZero()
  }

  /** The snapshots RehydrateCredential accepts. */
  predicate Accepts(s: CredentialSnapshot, policy: CredentialPolicy) {
    && policy.Valid()
    && s.id != "" && s.identity != ""
    && !s.secret.password.IsZero()
    && s.secret.createdAt != ZERO_TIME
    && s.lock.failedAttemptCount >= 0 && s.lock.lockoutHistoryCount >= 0
    && |s.secret.history| <= policy.historyDepth
    && LockShape(s.lock)
    && NoEmptyEntries(s.secret.history)
  }

  /** The credential NewCredential builds. */
  function Fresh(id: string, identity: string, password: PasswordHash, policy: CredentialPolicy, force: bool, now: Time)
    : CredentialSnapshot
  {
    CredentialSnapshot(id, identity, Secret(password, now, policy.ExpiryFrom(now), force, []), NO_LOCKOUT)
  }

  predicate IsPasswordExpired(c: Secret, now: Time) {
    c.expiresAt.Some? && now >= c.expiresAt.value
  }

  predicate RequiresPasswordChange(c: Secret, now: Time) {
    c.forceChange || IsPasswordExpired(c, now)
  }

  function UnlockStep(s: CredentialSnapshot, actor: string, at: Time): Step {
    Step(s.(lock := Released(s.lock)), [AccountUnlocked(s.id, s.identity, actor, s.lock.status, at)], None)
  }

  /** EnsureVerifiable: refuses while locked and lifts a temporary lock that has run out. */
  function EnsureStep(s: CredentialSnapshot, now: Time): Step {
    if Elapsed(s.lock, now) then UnlockStep(s, "", s.lock.lockedUntil.value)
    else Step(s, [], if s.lock.status.Unlocked? then None else Some(ErrAccountLocked))
  }

  function FailedEvent(s: CredentialSnapshot, reason: FailureReason, attempt: AttemptContext,
                       now: Time): CredentialEvent {
    LoginFailed(s.id, s.identity, reason, s.lock.failedAttemptCount, attempt, now)
  }

  function LockedEvent(s: CredentialSnapshot, ip: string, now: Time): CredentialEvent {
    AccountLocked(s.id, s.identity, s.lock.status, s.lock.lockedUntil, ip, s.lock.failedAttemptCount, now)
  }

  /** RecordFailedAttempt. */
  function FailStep(s: CredentialSnapshot, attempt: AttemptContext, policy: LockoutPolicy, now: Time): Step {
    if !policy.Valid() then
      Step(s, [], Some(ErrInvalidLockoutPolicy))
    else
      var e := EnsureStep(s, now);
      if e.err.Some? then
        Step(s, [FailedEvent(s, LockedOut, attempt, now)], e.err)
      else
        var struck := s.(lock := Struck(e.next.lock, policy, now));
        var trips := Trips(e.next.lock, policy, now);
        Step(struck,
             e.emitted + [FailedEvent(struck, InvalidCredentials, attempt, now)]
             + (if trips then [LockedEvent(struck, attempt.ip, now)] else []),
             None)
  }

  /** RecordSuccessfulVerification. */
  function SucceedStep(s: CredentialSnapshot, now: Time): Step {
    var e := EnsureStep(s, now);
    if e.err.Some? then e
    else Step(s.(lock := Forgiven(e.next.lock)), e.emitted, None)
  }

  /** Unlock by an administrator. */
  function AdminUnlockStep(s: CredentialSnapshot, actor: string, now: Time): Step {
    if s.lock.status.Unlocked? then Step(s, [], Some(ErrAccountNotLocked))
    else UnlockStep(s, actor, now)
  }

  predicate Reuses(c: Secret, isReuse: PasswordHash -> bool) {
    isReuse(c.password) || exists i :: 0 <= i < |c.history| && isReuse(c.history[i].hash)
  }

  function Truncate<T>(xs: seq<T>, depth: int): seq<T>
    requires depth >= 0
  {
    if |xs| > depth then xs[..depth] else xs
  }

  /** What replacePassword makes of the password columns. */
  function Replace(c: Secret, newHash: PasswordHash, isReuse: Matcher, policy: CredentialPolicy, now: Time)
    : Result<Secret, CredentialError>
    requires policy.Valid()
  {
    if newHash.IsZero() then Err(ErrInvalidPasswordHash)
    else if isReuse.None? then Err(ErrInvalidCredential)
    else if Reuses(c, isReuse.value) then Err(ErrPasswordReused)
    else
      Ok(Secret(newHash, now, policy.ExpiryFrom(now), false,
                Truncate([HistoryEntry(c.password, now)] + c.history, policy.historyDepth)))
  }

  /** ChangePassword. */
  function ChangeStep(s: CredentialSnapshot, newHash: PasswordHash, isReuse: Matcher, actor: string,
                      policy: CredentialPolicy, now: Time): Step
  {
    if !policy.Valid() then Step(s, [], Some(ErrInvalidCredentialPolicy))
    else
      var e := EnsureStep(s, now);
      if e.err.Some? then e
      else
        match Replace(s.secret, newHash, isReuse, policy, now)
        case Err(error) => Step(e.next, e.emitted, Some(error))
        case Ok(secret) =>
          var kind := if RequiresPasswordChange(s.secret, now) then Forced else UserInitiated;
          Step(e.next.(secret := secret), e.emitted + [PasswordChanged(s.id, s.identity, actor, kind, now)], None)
  }

  /** ResetPassword: refused under a permanent lock; a temporary lock stays in place. */
  function ResetStep(s: CredentialSnapshot, newHash: PasswordHash, isReuse: Matcher, policy: CredentialPolicy,
                     now: Time)
    : Step
  {
    if !policy.Valid() then Step(s, [], Some(ErrInvalidCredentialPolicy))
    else if s.lock.status.LockedPermanent? then Step(s, [], Some(ErrAccountLocked))
    else
      match Replace(s.secret, newHash, isReuse, policy, now)
      case Err(error) => Step(s, [], Some(error))
      case Ok(secret) => Step(s.(secret := secret), [PasswordResetCompleted(s.id, s.identity, now)], None)
  }

  /** MarkForcePasswordChange. */
  function ForceChangeStep(s: CredentialSnapshot, actor: string, now: Time): Step {
    if actor == "" then Step(s, [], Some(ErrInvalidCredential))
    else if s.secret.forceChange then Step(s, [], None)
    else
      Step(s.(secret := s.secret.(forceChange := true)),
           [AdminInitiatedPasswordReset(s.id, s.identity, actor, now)], None)
  }
}
