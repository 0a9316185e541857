/** The reuse window that the bounded password history enforces. */
module PasswordHistory {
  import opened Types
  import opened CredentialSpec
  import opened CredentialRuns

  /** A matcher that recognises exactly the hashes of the new plaintext. */
  ghost predicate Honest(plain: PasswordHash -> string, op: Op) {
    (op.Change? || op.Reset?) && op.isReuse.Some? ==>
      forall h :: op.isReuse.value(h) <==> plain(h) == plain(op.newHash)
  }

  ghost predicate AllHonest(plain: PasswordHash -> string, ops: seq<Op>) {
    forall i :: 0 <= i < |ops| ==> Honest(plain, ops[i])
  }

  predicate Replaces(op: Op, step: Step) {
    (op.Change? || op.Reset?) && step.err.None?
  }

  /** Every password the credential ever had, oldest first. */
  ghost function Passwords(p: Policies, s: CredentialSnapshot, ops: seq<Op>): (r: seq<PasswordHash>)
    ensures r != []
  {
    if ops == [] then [s.secret.password]
    else
      Passwords(p, s, Front(ops)) + if Replaces(Last(ops), LastStep(p, s, ops)) then [Last(ops).newHash] else []
  }

  /** The current password and the history are the tail of all passwords, newest first. */
  ghost predicate RemembersTail(depth: int, c: Secret, all: seq<PasswordHash>) {
    && all != []
    && c.password == Last(all)
    && |c.history| == Min(depth, |all| - 1)
    && forall i :: 0 <= i < |c.history| ==> c.history[i].hash == all[|all| - 2 - i]
  }

  /** Passwords at most `depth + 1` changes apart have different plaintexts. */
  ghost predicate NoReuse(plain: PasswordHash -> string, depth: int, all: seq<PasswordHash>) {
    forall i, j :: 0 <= i < j < |all| && j - i <= depth + 1 ==> plain(all[i]) != plain(all[j])
  }

  /** Only a successful change or reset touches the password and its history. */
  lemma SecretAfter(p: Policies, s: CredentialSnapshot, op: Op)
    requires p.Valid()
    ensures var step := Apply(p, s, op);
            if Replaces(op, step)
            then Replace(s.secret, op.newHash, op.isReuse, p.credential, op.now) == Ok(step.next.secret)
            else step.next.secret.password == s.secret.password && step.next.secret.history == s.secret.history
  {
  }

  lemma ReplaceExtends(plain: PasswordHash -> string, p: Policies, c: Secret, op: Op, all: seq<PasswordHash>)
    requires p.Valid() && (op.Change? || op.Reset?) && Honest(plain, op)
    requires RemembersTail(p.credential.historyDepth, c, all) && NoReuse(plain, p.credential.historyDepth, all)
    requires Replace(c, op.newHash, op.isReuse, p.credential, op.now).Ok?
    ensures var c' := Replace(c, op.newHash, op.isReuse, p.credential, op.now).value;
            && RemembersTail(p.credential.historyDepth, c', all + [op.newHash])
            && NoReuse(plain, p.credential.historyDepth, all + [op.newHash])
  {
    var all' := all + [op.newHash];
    assert !Reuses(c, op.isReuse.value);
    forall i, j | 0 <= i < j < |all'| && j - i <= p.credential.historyDepth + 1
      ensures plain(all'[i]) != plain(all'[j])
    {
      if j == |all| && i < |all| - 1 {
        assert c.history[|all| - 2 - i].hash == all[i];
      }
    }
  }

  /**
   In every run the history is exactly the most recent former passwords, newest
   first and at most `historyDepth` of them, and any `historyDepth + 2`
   consecutive passwords have pairwise different plaintexts.
   */
  lemma {:induction false} ReuseWindow(plain: PasswordHash -> string, p: Policies, s: CredentialSnapshot, ops: seq<Op>)
    requires p.Valid() && IsNew(s) && AllHonest(plain, ops)
    ensures RemembersTail(p.credential.historyDepth, Exec(p, s, ops).final.secret, Passwords(p, s, ops))
    ensures NoReuse(plain, p.credential.historyDepth, Passwords(p, s, ops))
  {
    if ops != [] {
      var before, op := Exec(p, s, Front(ops)).final, Last(ops);
      ReuseWindow(plain, p, s, Front(ops));
      SecretAfter(p, before, op);
      var all := Passwords(p, s, Front(ops));
      if Replaces(op, LastStep(p, s, ops)) {
        ReplaceExtends(plain, p, before.secret, op, all);
      } else {
        assert Passwords(p, s, ops) == all;
      }
    }
  }

  /**
   The window is no wider: a change by an unlocked user goes through exactly
   when its plaintext is none of those remembered.
   */
  lemma ChangeAcceptedIffNotRemembered(plain: PasswordHash -> string, p: Policies, s: CredentialSnapshot, op: Op)
    requires p.Valid() && op.Change? && Honest(plain, op) && op.isReuse.Some? && !op.newHash.IsZero()
    requires !IsLocked(s.lock, op.now)
    ensures Apply(p, s, op).err.None? <==>
            && plain(op.newHash) != plain(s.secret.password)
            && forall i :: 0 <= i < |s.secret.history| ==> plain(op.newHash) != plain(s.secret.history[i].hash)
  {
    if Apply(p, s, op).err.None? {
      assert !Reuses(s.secret, op.isReuse.value);
    }
  }

  // ------------------------------------------------------------------------
  // Which replacements are refused, and why.
  // ------------------------------------------------------------------------

  /** The lock columns shut the account at `now`. */
  predicate Shut(l: Lockout, now: Time) {
    match l.status
    case Unlocked => false
    case LockedTemporary => l.lockedUntil.None? || now < l.lockedUntil.value
    case _ => true
  }

  /** The candidate matches the password in use or one of those remembered. */
  predicate Repeats(c: Secret, matches: PasswordHash -> bool) {
    matches(c.password) || exists e :: e in c.history && matches(e.hash)
  }

  /**
   A change is refused while the account is shut, a reset only under a permanent
   lock, which it leaves alone like any other; apart from that both need a
   password, a matcher, and a candidate that repeats nothing remembered.
   */
  lemma ReplacementRefusedIff(p: Policies, s: CredentialSnapshot, op: Op)
    requires p.Valid() && (op.Change? || op.Reset?)
    ensures Apply(p, s, op).err ==
            if op.Reset? && s.lock.status == LockedPermanent then Some(ErrAccountLocked)
            else if op.Change? && Shut(s.lock, op.now) then Some(ErrAccountLocked)
            else if op.newHash == PasswordHash("", "", "", 0) then Some(ErrInvalidPasswordHash)
            else if op.isReuse.None? then Some(ErrInvalidCredential)
            else if Repeats(s.secret, op.isReuse.value) then Some(ErrPasswordReused)
            else None
    ensures op.Reset? ==> Apply(p, s, op).next.lock == s.lock
  {
    if op.isReuse.Some? {
      var matches := op.isReuse.value;
      assert Reuses(s.secret, matches) <==> Repeats(s.secret, matches) by {
        forall i | 0 <= i < |s.secret.history|
          ensures s.secret.history[i] in s.secret.history
        {
        }
      }
    }
  }

  // ------------------------------------------------------------------------
  // How old passwords grow.
  // ------------------------------------------------------------------------

  /** When the passwords of a run were replaced, in order. */
  ghost function ReplacedAt(p: Policies, s: CredentialSnapshot, ops: seq<Op>): seq<Time> {
    if ops == [] then []
    else ReplacedAt(p, s, Front(ops)) + if Replaces(Last(ops), LastStep(p, s, ops)) then [Last(ops).now] else []
  }

  /** When the password in use was set: by the last replacement, or at creation. */
  ghost function SetAt(p: Policies, s: CredentialSnapshot, ops: seq<Op>): Time {
    var times := ReplacedAt(p, s, ops);
    if times == [] then s.secret.createdAt else Last(times)
  }

  /** The columns date the password in use and those remembered. */
  ghost predicate Dated(p: Policies, c: Secret, since: Time, times: seq<Time>) {
    && c.createdAt == since
    && c.expiresAt == (if p.credential.maxAge > 0 then Some(since + p.credential.maxAge) else None)
    && |c.history| <= |times| && forall i :: 0 <= i < |c.history| ==> c.history[i].createdAt == times[|times| - 1 - i]
  }

  lemma StepDated(p: Policies, s: CredentialSnapshot, op: Op, since: Time, times: seq<Time>)
    requires p.Valid() && Dated(p, s.secret, since, times)
    ensures var step := Apply(p, s, op);
            if Replaces(op, step) then Dated(p, step.next.secret, op.now, times + [op.now])
            else Dated(p, step.next.secret, since, times)
  {
  }

  /**
   In every run from a credential that NewCredential built, the password in use
   is to be changed exactly when a demand is open or, with a maximum age, it was
   set at least that long ago; and every remembered password carries the time at
   which it was replaced.
   */
  lemma {:induction false} PasswordsAge(p: Policies, s: CredentialSnapshot, ops: seq<Op>, now: Time)
    requires p.Valid() && Dated(p, s.secret, s.secret.createdAt, [])
    ensures var c := Exec(p, s, ops).final.secret;
            && Dated(p, c, SetAt(p, s, ops), ReplacedAt(p, s, ops))
            && (RequiresPasswordChange(c, now) <==>
                c.forceChange || (p.credential.maxAge > 0 && now >= SetAt(p, s, ops) + p.credential.maxAge))
  {
    if ops != [] {
      var before, op := Exec(p, s, Front(ops)).final, Last(ops);
      PasswordsAge(p, s, Front(ops), now);
      StepDated(p, before, op, SetAt(p, s, Front(ops)), ReplacedAt(p, s, Front(ops)));
      if !Replaces(op, LastStep(p, s, ops)) {
        assert ReplacedAt(p, s, ops) == ReplacedAt(p, s, Front(ops));
      }
    }
  }

  /** What NewCredential builds is such a credential. */
  lemma FreshIsDated(p: Policies, id: string, identity: string, password: PasswordHash, force: bool, now: Time)
    requires p.Valid()
    ensures var s := Fresh(id, identity, password, p.credential, force, now);
            && s.id == id && s.identity == identity && s.secret.password == password && s.secret.forceChange == force
            && s.secret.createdAt == now && Dated(p, s.secret, now, []) && IsNew(s)
  {
  }

  // ------------------------------------------------------------------------
  // Forced changes.
  // ------------------------------------------------------------------------

  /** MarkForcePasswordChange is idempotent: once it has been accepted, a second call changes and emits nothing. */
  lemma ForceChangeIsIdempotent(p: Policies, s: CredentialSnapshot, first: Op, second: Op)
    requires first.ForceChange? && second.ForceChange? && Apply(p, s, first).err.None?
    ensures var once := Apply(p, s, first).next;
            Apply(p, once, second).next == once && Apply(p, once, second).emitted == []
  {
  }

  /** What administrators are answered: who demands a change must be named, and only a lock can be lifted. */
  lemma AdministratorsAreAnswered(p: Policies, s: CredentialSnapshot, op: Op)
    requires op.ForceChange? || op.AdminUnlock?
    ensures var step := Apply(p, s, op);
            && (op.ForceChange? ==>
                && step.err == (if op.actor == "" then Some(ErrInvalidCredential) else None)
                && (step.err.None? ==> step.next == s.(secret := s.secret.(forceChange := true))))
            && (op.AdminUnlock? ==>
                && step.err == (if s.lock.status == Unlocked then Some(ErrAccountNotLocked) else None)
                && (step.err.None? ==>
                    && step.next == s.(lock := step.next.lock) && step.next.lock.status == Unlocked
                    && step.next.lock.lockoutHistoryCount == s.lock.lockoutHistoryCount
                    && step.next.lock.failedAttemptCount == 0 && step.next.lock.lastFailedAt == None
                    && step.next.lock.lockedAt == None && step.next.lock.lockedUntil == None))
            && (step.err.Some? ==> step.next == s && step.emitted == [])
  {
  }

  /** The forced changes administrators asked for, by the event each of them left. */
  function Demands(log: seq<CredentialEvent>): nat {
    if log == [] then 0 else Demands(Front(log)) + if Last(log).AdminInitiatedPasswordReset? then 1 else 0
  }

  lemma {:induction false} DemandsAppend(a: seq<CredentialEvent>, b: seq<CredentialEvent>)
    ensures Demands(a + b) == Demands(a) + Demands(b)
  {
    if b == [] {
      assert a + b == a;
    } else {
      assert Front(a + b) == a + Front(b);
      DemandsAppend(a, Front(b));
    }
  }

  function Flag(c: Secret): nat {
    if c.forceChange then 1 else 0
  }

  lemma NoDemands(events: seq<CredentialEvent>)
    requires forall i :: 0 <= i < |events| ==> !events[i].AdminInitiatedPasswordReset?
    ensures Demands(events) == 0
  {
  }

  /** A replacement of a password that was to be changed. */
  ghost predicate Answers(s: CredentialSnapshot, op: Op, step: Step) {
    Replaces(op, step) && s.secret.forceChange
  }

  ghost function Answered(p: Policies, s: CredentialSnapshot, ops: seq<Op>): nat {
    if ops == [] then 0
    else
      var before := Exec(p, s, Front(ops)).final;
      Answered(p, s, Front(ops)) + if Answers(before, Last(ops), LastStep(p, s, ops)) then 1 else 0
  }

  lemma OthersDemandNothing(p: Policies, s: CredentialSnapshot, op: Op)
    requires p.Valid() && !op.ForceChange?
    ensures var events := Apply(p, s, op).emitted;
            forall i :: 0 <= i < |events| ==> !events[i].AdminInitiatedPasswordReset?
  {
  }

  lemma FlagAfter(p: Policies, s: CredentialSnapshot, op: Op)
    requires p.Valid() && !op.ForceChange?
    ensures var step := Apply(p, s, op);
            Flag(s.secret) == Flag(step.next.secret) + if Answers(s, op, step) then 1 else 0
  {
  }

  lemma {:induction false} StepDemands(p: Policies, s: CredentialSnapshot, op: Op)
    requires p.Valid()
    ensures var step := Apply(p, s, op);
            Demands(step.emitted) + Flag(s.secret) == Flag(step.next.secret) + if Answers(s, op, step) then 1 else 0
  {
    var step := Apply(p, s, op);
    if op.ForceChange? {
      if step.emitted != [] {
        assert Front(step.emitted) == [];
      }
    } else {
      OthersDemandNothing(p, s, op);
      FlagAfter(p, s, op);
      NoDemands(step.emitted);
    }
  }

  /** In every run each demand for a new password was answered by a replacement of its own, or is the one still open. */
  lemma {:induction false} DemandsAreAnswered(p: Policies, s: CredentialSnapshot, ops: seq<Op>)
    requires p.Valid()
    ensures Demands(Exec(p, s, ops).log) + Flag(s.secret) == Flag(Exec(p, s, ops).final.secret) + Answered(p, s, ops)
  {
    if ops != [] {
      var before, op := Exec(p, s, Front(ops)), Last(ops);
      DemandsAreAnswered(p, s, Front(ops));
      StepDemands(p, before.final, op);
      DemandsAppend(before.log, Apply(p, before.final, op).emitted);
    }
  }
}
