/**
 What each event of a credential tells, in terms of the operation that recorded
 it and the columns before and after.
 */
module EventContents {
  import opened Types
  import opened CredentialSpec
  import opened CredentialRuns
  import opened PasswordHistory

  /** The password is to be changed, for a demand or for its age. */
  predicate DueForChange(c: Secret, now: Time) {
    c.forceChange || (c.expiresAt.Some? && c.expiresAt.value <= now)
  }

  /** Event `e` tells the truth about operation `op` between `before` and `after`. */
  predicate Truthful(p: Policies, before: CredentialSnapshot, op: Op, after: CredentialSnapshot, refused: bool,
                     e: CredentialEvent)
  {
    && e.credential == before.id && e.identity == before.identity
    && match e
       case LoginFailed(_, _, reason, count, attempt, at) =>
         && op.Fail? && attempt == op.attempt && at == op.now
         && reason == (if refused then LockedOut else InvalidCredentials) && count == after.lock.failedAttemptCount
       case AccountLocked(_, _, kind, until, ip, count, at) =>
         && op.Fail? && ip == op.attempt.ip && at == op.now
         && kind == after.lock.status && until == after.lock.lockedUntil && after.lock.lockedAt == Some(at)
         && count == after.lock.failedAttemptCount
       case AccountUnlocked(_, _, actor, previous, at) =>
         if op.AdminUnlock? then actor == op.actor && previous == before.lock.status && at == op.now
         else actor == "" && previous == LockedTemporary && before.lock.lockedUntil == Some(at) && at <= op.now
       case PasswordChanged(_, _, actor, kind, at) =>
         && op.Change? && actor == op.actor && at == op.now
         && (kind == Forced <==> DueForChange(before.secret, op.now))
       case PasswordResetCompleted(_, _, at) => op.Reset? && at == op.now
       case AdminInitiatedPasswordReset(_, _, actor, at) => op.ForceChange? && actor == op.actor && at == op.now
  }

  /** The lift of an elapsed lock tells the truth, whatever else the operation goes on to do. */
  lemma LiftTellsTheTruth(p: Policies, s: CredentialSnapshot, op: Op, after: CredentialSnapshot, refused: bool)
    requires !op.AdminUnlock? && EnsureStep(s, op.now).emitted != []
    ensures |EnsureStep(s, op.now).emitted| == 1
    ensures Truthful(p, s, op, after, refused, EnsureStep(s, op.now).emitted[0])
  {
  }

  lemma FailureTellsTheTruth(p: Policies, s: CredentialSnapshot, op: Op, i: nat)
    requires p.Valid() && op.Fail? && i < |Apply(p, s, op).emitted|
    ensures var step := Apply(p, s, op);
            Truthful(p, s, op, step.next, step.err.Some?, step.emitted[i])
  {
    var step, lift := Apply(p, s, op), EnsureStep(s, op.now).emitted;
    if step.err.None? && i < |lift| {
      LiftTellsTheTruth(p, s, op, step.next, false);
      assert step.emitted[i] == lift[0];
    }
  }

  lemma ChangeTellsTheTruth(p: Policies, s: CredentialSnapshot, op: Op, i: nat)
    requires p.Valid() && op.Change? && i < |Apply(p, s, op).emitted|
    ensures var step := Apply(p, s, op);
            Truthful(p, s, op, step.next, step.err.Some?, step.emitted[i])
  {
    var step, lift := Apply(p, s, op), EnsureStep(s, op.now).emitted;
    if i < |lift| {
      LiftTellsTheTruth(p, s, op, step.next, step.err.Some?);
      assert step.emitted[i] == lift[0];
    }
  }

  /** Every event of every operation tells the truth. */
  lemma EventsTellTheTruth(p: Policies, s: CredentialSnapshot, op: Op, i: nat)
    requires p.Valid() && i < |Apply(p, s, op).emitted|
    ensures var step := Apply(p, s, op);
            Truthful(p, s, op, step.next, step.err.Some?, step.emitted[i])
  {
    if op.Fail? {
      FailureTellsTheTruth(p, s, op, i);
    } else if op.Change? {
      ChangeTellsTheTruth(p, s, op, i);
    }
  }

  /** An attempt is always reported, as a failure that counted or as one against a locked account. */
  lemma EveryFailureIsReported(p: Policies, s: CredentialSnapshot, op: Op)
    requires p.Valid() && op.Fail?
    ensures exists i :: 0 <= i < |Apply(p, s, op).emitted| && Apply(p, s, op).emitted[i].LoginFailed?
  {
    var step := Apply(p, s, op);
    var i := |EnsureStep(s, op.now).emitted|;
    assert step.emitted[if step.err.Some? then 0 else i].LoginFailed?;
  }

  /** The event of a replaced password. */
  predicate Replaced(e: CredentialEvent) {
    e.PasswordChanged? || e.PasswordResetCompleted?
  }

  function CountReplaced(log: seq<CredentialEvent>): nat {
    if log == [] then 0 else CountReplaced(Front(log)) + if Replaced(Last(log)) then 1 else 0
  }

  lemma {:induction false} CountReplacedAppend(a: seq<CredentialEvent>, b: seq<CredentialEvent>)
    ensures CountReplaced(a + b) == CountReplaced(a) + CountReplaced(b)
  {
    if b == [] {
      assert a + b == a;
    } else {
      assert Front(a + b) == a + Front(b);
      CountReplacedAppend(a, Front(b));
    }
  }

  lemma {:induction false} NoneReplaced(events: seq<CredentialEvent>)
    requires forall i :: 0 <= i < |events| ==> !Replaced(events[i])
    ensures CountReplaced(events) == 0
  {
    if events != [] {
      NoneReplaced(Front(events));
    }
  }

  lemma StepReplaced(p: Policies, s: CredentialSnapshot, op: Op)
    requires p.Valid()
    ensures CountReplaced(Apply(p, s, op).emitted) == if Replaces(op, Apply(p, s, op)) then 1 else 0
  {
    var step := Apply(p, s, op);
    if Replaces(op, step) {
      var quiet := Front(step.emitted);
      assert forall i :: 0 <= i < |quiet| ==> !Replaced(quiet[i]);
      NoneReplaced(quiet);
    } else {
      assert forall i :: 0 <= i < |step.emitted| ==> !Replaced(step.emitted[i]);
      NoneReplaced(step.emitted);
    }
  }

  /** In every run, each password but the first has its event. */
  lemma {:induction false} ReplacementsAreReported(p: Policies, s: CredentialSnapshot, ops: seq<Op>)
    requires p.Valid()
    ensures CountReplaced(Exec(p, s, ops).log) == |Passwords(p, s, ops)| - 1
  {
    if ops != [] {
      var before, op := Exec(p, s, Front(ops)), Last(ops);
      ReplacementsAreReported(p, s, Front(ops));
      StepReplaced(p, before.final, op);
      CountReplacedAppend(before.log, Apply(p, before.final, op).emitted);
    }
  }
}
