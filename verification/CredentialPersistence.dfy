/**
 What storage keeps of a credential: the event log determines the stored lock,
 every reachable snapshot can be rehydrated, and login's partial load and save
 lose nothing that login can change.
 */
module CredentialPersistence {
  import opened Types
  import opened CredentialSpec
  import opened CredentialRuns

  // ------------------------------------------------------------------------
  // The lock columns can be replayed from the log.
  // ------------------------------------------------------------------------

  datatype LockView = LockView(status: LockoutStatus, lockedAt: Option<Time>, lockedUntil: Option<Time>, locks: int)

  function View(l: Lockout): LockView {
    LockView(l.status, l.lockedAt, l.lockedUntil, l.lockoutHistoryCount)
  }

  function Absorb(v: LockView, e: CredentialEvent): LockView {
    match e
    case AccountLocked(_, _, lockoutType, lockedUntil, _, _, at) =>
      LockView(lockoutType, Some(at), lockedUntil, v.locks + 1)
    case AccountUnlocked(_, _, _, _, _) => LockView(Unlocked, None, None, v.locks)
    case _ => v
  }

  function Replay(v: LockView, log: seq<CredentialEvent>): LockView {
    if log == [] then v else Absorb(Replay(v, Front(log)), Last(log))
  }

  lemma {:induction false} ReplayAppend(v: LockView, a: seq<CredentialEvent>, b: seq<CredentialEvent>)
    ensures Replay(v, a + b) == Replay(Replay(v, a), b)
  {
    if b == [] {
      assert a + b == a;
    } else {
      assert Front(a + b) == a + Front(b);
      ReplayAppend(v, a, Front(b));
    }
  }

  lemma ReplayOne(v: LockView, e: CredentialEvent)
    ensures Replay(v, [e]) == Absorb(v, e)
  {
    assert Front([e]) == [];
  }

  lemma ReplayEnsure(s: CredentialSnapshot, now: Time)
    ensures Replay(View(s.lock), EnsureStep(s, now).emitted) == View(EnsureStep(s, now).next.lock)
  {
    if Elapsed(s.lock, now) {
      ReplayOne(View(s.lock), EnsureStep(s, now).emitted[0]);
    }
  }

  /** The events of a failure that was counted: a lift if one was due, the failure, and a lock if it tripped. */
  function CountedEvents(p: Policies, s: CredentialSnapshot, op: Op): seq<CredentialEvent>
    requires op.Fail?
  {
    var l := Settled(s.lock, op.now);
    var struck := s.(lock := Struck(l, p.lockout, op.now));
    EnsureStep(s, op.now).emitted + [FailedEvent(struck, InvalidCredentials, op.attempt, op.now)]
    + LockEvents(p, struck, l, op)
  }

  function LockEvents(p: Policies, struck: CredentialSnapshot, l: Lockout, op: Op): seq<CredentialEvent>
    requires op.Fail?
  {
    if Trips(l, p.lockout, op.now) then [LockedEvent(struck, op.attempt.ip, op.now)] else []
  }

  /** A failure is counted, or changes nothing and emits at most a LoginFailed. */
  lemma FailShape(p: Policies, s: CredentialSnapshot, op: Op)
    requires op.Fail?
    ensures var step := Apply(p, s, op);
            if step.err.None?
            then p.lockout.Valid() && !IsLocked(s.lock, op.now) && step.emitted == CountedEvents(p, s, op)
                 && step.next.lock == Struck(Settled(s.lock, op.now), p.lockout, op.now)
            else step.next == s
                 && (step.emitted == [] || step.emitted == [FailedEvent(s, LockedOut, op.attempt, op.now)])
  {
  }

  /** Replaying a LoginFailed in the middle changes nothing. */
  lemma ReplayAround(v: LockView, a: seq<CredentialEvent>, e: CredentialEvent, b: seq<CredentialEvent>)
    requires e.LoginFailed?
    ensures Replay(v, a + [e] + b) == Replay(Replay(v, a), b)
  {
    ReplayAppend(v, a + [e], b);
    ReplayAppend(v, a, [e]);
    ReplayOne(Replay(v, a), e);
  }

  lemma ReplayStruck(p: Policies, s: CredentialSnapshot, l: Lockout, op: Op)
    requires op.Fail? && l.status.Unlocked? && LockShape(l)
    ensures var struck := Struck(l, p.lockout, op.now);
            Replay(View(l), LockEvents(p, s.(lock := struck), l, op)) == View(struck)
  {
    var struck := s.(lock := Struck(l, p.lockout, op.now));
    if Trips(l, p.lockout, op.now) {
      ReplayOne(View(l), LockedEvent(struck, op.attempt.ip, op.now));
    }
  }

  lemma ReplayCounted(p: Policies, s: CredentialSnapshot, op: Op)
    requires op.Fail? && LockShape(s.lock) && !IsLocked(s.lock, op.now)
    ensures Replay(View(s.lock), CountedEvents(p, s, op)) == View(Struck(Settled(s.lock, op.now), p.lockout, op.now))
  {
    var l := Settled(s.lock, op.now);
    var struck := s.(lock := Struck(l, p.lockout, op.now));
    ReplayEnsure(s, op.now);
    ReplayAround(View(s.lock), EnsureStep(s, op.now).emitted,
                 FailedEvent(struck, InvalidCredentials, op.attempt, op.now),
                 LockEvents(p, struck, l, op));
    ReplayStruck(p, s, l, op);
  }

  lemma ReplayFail(p: Policies, s: CredentialSnapshot, op: Op)
    requires op.Fail? && LockShape(s.lock)
    ensures Replay(View(s.lock), Apply(p, s, op).emitted) == View(Apply(p, s, op).next.lock)
  {
    FailShape(p, s, op);
    if Apply(p, s, op).err.None? {
      ReplayCounted(p, s, op);
    } else {
      ReplayOne(View(s.lock), FailedEvent(s, LockedOut, op.attempt, op.now));
    }
  }

  /** A change leaves the lock as EnsureVerifiable does, and emits at most one event more. */
  lemma ChangeShape(p: Policies, s: CredentialSnapshot, op: Op)
    requires op.Change?
    ensures var step, e := Apply(p, s, op), EnsureStep(s, op.now);
            || (step.next.lock == e.next.lock && step.emitted == e.emitted)
            || (step.next.lock == e.next.lock && step.emitted != [] && Last(step.emitted).PasswordChanged?
                && step.emitted == e.emitted + [Last(step.emitted)])
            || (step.next == s && step.emitted == [])
  {
  }

  lemma ReplayChange(p: Policies, s: CredentialSnapshot, op: Op)
    requires op.Change?
    ensures Replay(View(s.lock), Apply(p, s, op).emitted) == View(Apply(p, s, op).next.lock)
  {
    var step, e := Apply(p, s, op), EnsureStep(s, op.now);
    ChangeShape(p, s, op);
    ReplayEnsure(s, op.now);
    if step.emitted != [] && step.emitted != e.emitted {
      ReplayAppend(View(s.lock), e.emitted, [Last(step.emitted)]);
      ReplayOne(View(e.next.lock), Last(step.emitted));
    }
  }

  /** Folding what a step emits over the old lock columns gives the new ones, for every operation. */
  lemma ReplayStep(p: Policies, s: CredentialSnapshot, op: Op)
    requires LockShape(s.lock)
    ensures Replay(View(s.lock), Apply(p, s, op).emitted) == View(Apply(p, s, op).next.lock)
  {
    match op {
      case Fail(_, _) => ReplayFail(p, s, op);
      case Change(_, _, _, _) => ReplayChange(p, s, op);
      case Verify(now) => ReplayEnsure(s, now);
      case Succeed(now) => ReplayEnsure(s, now);
      case _ => if Apply(p, s, op).emitted != [] { ReplayOne(View(s.lock), Apply(p, s, op).emitted[0]); }
    }
  }

  lemma StepKeepsShape(p: Policies, s: CredentialSnapshot, op: Op)
    requires LockShape(s.lock) && s.lock.lockoutHistoryCount >= 0
    ensures var l := Apply(p, s, op).next.lock;
            LockShape(l) && l.lockoutHistoryCount >= 0
  {
  }

  /** Over every run the log replays to the lock the credential ends with. */
  lemma {:induction false} LogDeterminesLock(p: Policies, s: CredentialSnapshot, ops: seq<Op>)
    requires LockShape(s.lock) && s.lock.lockoutHistoryCount >= 0
    ensures var t := Exec(p, s, ops);
            LockShape(t.final.lock) && t.final.lock.lockoutHistoryCount >= 0
            && View(t.final.lock) == Replay(View(s.lock), t.log)
  {
    if ops != [] {
      var t, op := Exec(p, s, Front(ops)), Last(ops);
      LogDeterminesLock(p, s, Front(ops));
      ReplayStep(p, t.final, op);
      ReplayAppend(View(s.lock), t.log, Apply(p, t.final, op).emitted);
      StepKeepsShape(p, t.final, op);
    }
  }

  // ------------------------------------------------------------------------
  // Rehydration accepts whatever can be reached.
  // ------------------------------------------------------------------------

  /** Everything Accepts asks for except a nonzero creation time. */
  predicate Sound(s: CredentialSnapshot, policy: CredentialPolicy) {
    Accepts(s.(secret := s.secret.(createdAt := 1)), policy)
  }

  lemma SoundSecret(p: Policies, s: CredentialSnapshot, op: Op)
    requires p.Valid() && Sound(s, p.credential)
    ensures var c := Apply(p, s, op).next.secret;
            !c.password.IsZero() && |c.history| <= p.credential.historyDepth && NoEmptyEntries(c.history)
    ensures Apply(p, s, op).next.secret.createdAt ==
            if (op.Change? || op.Reset?) && Apply(p, s, op).err.None? then op.now else s.secret.createdAt
    ensures Apply(p, s, op).next.id == s.id && Apply(p, s, op).next.identity == s.identity
  {
    assert NoEmptyEntries(s.secret.history);
  }

  lemma SoundLock(p: Policies, l: Lockout, op: Op)
    requires p.Valid() && LockShape(l) && l.failedAttemptCount >= 0 && l.lockoutHistoryCount >= 0
    ensures var l' := LockAfter(p, l, op);
            LockShape(l') && l'.failedAttemptCount >= 0 && l'.lockoutHistoryCount >= 0
  {
  }

  lemma SoundStep(p: Policies, s: CredentialSnapshot, op: Op)
    requires p.Valid() && Sound(s, p.credential)
    ensures Sound(Apply(p, s, op).next, p.credential)
  {
    SoundSecret(p, s, op);
    StepOnLock(p, s, op);
    SoundLock(p, s.lock, op);
  }

  /** No password was ever set at Go's zero time. */
  ghost predicate NoZeroTimes(ops: seq<Op>) {
    forall i :: 0 <= i < |ops| ==> ops[i].now != ZERO_TIME
  }

  /**
   RehydrateCredential accepts the snapshot of a reachable state exactly when
   its password was not set at the zero instant; so it accepts all of them if
   no operation carries that instant.
   */
  lemma {:induction false} ReachableSnapshotsRehydrate(p: Policies, s: CredentialSnapshot, ops: seq<Op>)
    requires p.Valid() && Accepts(s, p.credential)
    ensures var last := Exec(p, s, ops).final;
            && Sound(last, p.credential)
            && (Accepts(last, p.credential) <==> last.secret.createdAt != ZERO_TIME)
            && (NoZeroTimes(ops) ==> Accepts(last, p.credential))
  {
    if ops != [] {
      var before := Exec(p, s, Front(ops)).final;
      ReachableSnapshotsRehydrate(p, s, Front(ops));
      SoundStep(p, before, Last(ops));
      SoundSecret(p, before, Last(ops));
      if NoZeroTimes(ops) {
        assert NoZeroTimes(Front(ops));
      }
    }
  }

  /**
   RehydrateCredential accepts exactly the snapshots that could be locked as they
   say and remember no more than they may.
   */
  lemma AcceptedCredentialIff(s: CredentialSnapshot, policy: CredentialPolicy)
    ensures Accepts(s, policy) <==>
            && s.id != "" && s.identity != "" && s.secret.createdAt != ZERO_TIME
            && s.secret.password != PasswordHash("", "", "", 0)
            && 0 <= policy.maxAge && |s.secret.history| <= policy.historyDepth
            && (forall e :: e in s.secret.history ==> e.hash != PasswordHash("", "", "", 0))
            && 0 <= s.lock.failedAttemptCount && 0 <= s.lock.lockoutHistoryCount
            && (|| (s.lock.status == Unlocked && s.lock.lockedAt == None && s.lock.lockedUntil == None)
                || (s.lock.status == LockedTemporary && s.lock.lockedAt.Some? && s.lock.lockedUntil.Some?
                    && 1 <= s.lock.lockoutHistoryCount)
                || (s.lock.status == LockedPermanent && s.lock.lockedAt.Some? && s.lock.lockedUntil.None?
                    && 1 <= s.lock.lockoutHistoryCount))
  {
    assert NoEmptyEntries(s.secret.history) <==>
           forall e :: e in s.secret.history ==> e.hash != PasswordHash("", "", "", 0);
  }

  // ------------------------------------------------------------------------
  // Login's row: loaded without history, saved without algorithm and version.
  // ------------------------------------------------------------------------

  /** A row of the credentials table. */
  datatype CredentialRow = CredentialRow(
    id: string,
    identity: string,
    hash: string,
    salt: string,
    algorithm: string,
    version: int,
    createdAt: Time,
    expiresAt: Option<Time>,
    forceChange: bool,
    lock: Lockout)

  /** The row that stores a credential in full; the history has a table of its own. */
  function RowOf(s: CredentialSnapshot): CredentialRow {
    CredentialRow(s.id, s.identity, s.secret.password.hash, s.secret.password.salt, s.secret.password.algorithm,
                  s.secret.password.version, s.secret.createdAt, s.secret.expiresAt, s.secret.forceChange, s.lock)
  }

  function RowPassword(row: CredentialRow): PasswordHash {
    PasswordHash(row.hash, row.salt, row.algorithm, row.version)
  }

  function RowSnapshot(row: CredentialRow): CredentialSnapshot {
    CredentialSnapshot(row.id, row.identity,
                       Secret(RowPassword(row), row.createdAt, row.expiresAt, row.forceChange, []), row.lock)
  }

  /** The rows findCredentialByIdentity can turn into a credential. */
  predicate Loadable(row: CredentialRow) {
    RowPassword(row).WellFormed() && Accepts(RowSnapshot(row), DEFAULT_CREDENTIAL_POLICY)
  }

  /** What the UPDATE of Save leaves in a row: `password_algorithm` and `password_version` are not in it. */
  function SaveColumns(row: CredentialRow, s: CredentialSnapshot): CredentialRow {
    row.(hash := s.secret.password.hash, salt := s.secret.password.salt, createdAt := s.secret.createdAt,
         expiresAt := s.secret.expiresAt, forceChange := s.secret.forceChange, lock := s.lock)
  }

  /** The credential operations login performs. */
  predicate LoginOp(op: Op) {
    op.Verify? || op.Fail? || op.Succeed?
  }

  ghost predicate LoginOps(ops: seq<Op>) {
    forall i :: 0 <= i < |ops| ==> LoginOp(ops[i])
  }

  /** Equal but for the password history. */
  predicate SameButHistory(a: CredentialSnapshot, b: CredentialSnapshot) {
    a == b.(secret := b.secret.(history := a.secret.history))
  }

  lemma LoginStepIgnoresSecret(p: Policies, a: CredentialSnapshot, b: CredentialSnapshot, op: Op)
    requires LoginOp(op) && SameButHistory(a, b)
    ensures var x, y := Apply(p, a, op), Apply(p, b, op);
            SameButHistory(x.next, y.next) && x.emitted == y.emitted && x.err == y.err
            && x.next.secret == a.secret
  {
  }

  lemma {:induction false} LoginRunIgnoresHistory(p: Policies, a: CredentialSnapshot, b: CredentialSnapshot,
                                                  ops: seq<Op>)
    requires LoginOps(ops) && SameButHistory(a, b)
    ensures var x, y := Exec(p, a, ops), Exec(p, b, ops);
            SameButHistory(x.final, y.final) && x.log == y.log && x.errs == y.errs && x.final.secret == a.secret
  {
    if ops != [] {
      LoginRunIgnoresHistory(p, a, b, Front(ops));
      LoginStepIgnoresSecret(p, Exec(p, a, Front(ops)).final, Exec(p, b, Front(ops)).final, Last(ops));
    }
  }

  /**
   Login's partial persistence refines full persistence: reload the credential
   without its history, run any login operations, and save only Save's columns;
   the row, the events and the errors are those of the full aggregate.
   */
  lemma PartialPersistence(p: Policies, s: CredentialSnapshot, ops: seq<Op>)
    requires LoginOps(ops)
    ensures var full := Exec(p, s, ops);
            var partial := Exec(p, RowSnapshot(RowOf(s)), ops);
            && SaveColumns(RowOf(s), partial.final) == RowOf(full.final)
            && partial.log == full.log && partial.errs == full.errs
  {
    LoginRunIgnoresHistory(p, RowSnapshot(RowOf(s)), s, ops);
  }

  /** Every credential with a well-formed password that storage would accept can be loaded from its row. */
  lemma StoredRowsLoad(s: CredentialSnapshot)
    requires Accepts(s, DEFAULT_CREDENTIAL_POLICY)
    ensures var h := s.secret.password;
            Loadable(RowOf(s)) <==>
            h.hash != "" && h.salt != "" && h.algorithm in {"argon2id", "bcrypt"} && 1 <= h.version
    ensures var row, h := RowOf(s), s.secret.password;
            && row.hash == h.hash && row.salt == h.salt && row.algorithm == h.algorithm && row.version == h.version
            && row.id == s.id && row.identity == s.identity && row.lock == s.lock
            && RowSnapshot(row) == s.(secret := s.secret.(history := []))
  {
    assert RowPassword(RowOf(s)) == s.secret.password;
  }

  /**
   Save does not persist every mutable field: it stores a credential in full
   exactly when the algorithm and version of its password are those of the row.
   */
  lemma SaveIsFullOnlyForSameAlgorithm(row: CredentialRow, s: CredentialSnapshot)
    requires row.id == s.id && row.identity == s.identity
    ensures SaveColumns(row, s) == RowOf(s) <==>
            row.algorithm == s.secret.password.algorithm && row.version == s.secret.password.version
  {
  }

  /** For instance, replacing a bcrypt password by an argon2id one and saving it leaves a row that disagrees. */
  lemma SaveLosesMigration(p: Policies, s: CredentialSnapshot, op: Op)
    requires op.Change? && Apply(p, s, op).err.None?
    requires s.secret.password.algorithm == BCRYPT && op.newHash.algorithm == ARGON2ID
    ensures SaveColumns(RowOf(s), Apply(p, s, op).next) != RowOf(Apply(p, s, op).next)
    ensures RowPassword(SaveColumns(RowOf(s), Apply(p, s, op).next)) ==
            op.newHash.(algorithm := BCRYPT, version := s.secret.password.version)
  {
  }
}
