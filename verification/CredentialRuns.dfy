/**
 Runs of a credential under fixed policies, and what every run keeps: the
 failure counter is the length of the trailing cluster of failures, locks fall
 exactly at the threshold, and no counted failure goes unaccounted for.
 */
module CredentialRuns {
  import opened Types
  import opened CredentialSpec

  datatype Policies = Policies(lockout: LockoutPolicy, credential: CredentialPolicy) {
    predicate Valid() {
      lockout.Valid() && credential.Valid()
    }
  }

  datatype Op =
    | Verify(now: Time)
    | Fail(attempt: AttemptContext, now: Time)
    | Succeed(now: Time)
    | AdminUnlock(actor: string, now: Time)
    | Change(newHash: PasswordHash, isReuse: Matcher, actor: string, now: Time)
    | Reset(newHash: PasswordHash, isReuse: Matcher, now: Time)
    | ForceChange(actor: string, now: Time)

  ghost function Apply(p: Policies, s: CredentialSnapshot, op: Op): Step {
    match op
    case Verify(now) => EnsureStep(s, now)
    case Fail(attempt, now) => FailStep(s, attempt, p.lockout, now)
    case Succeed(now) => SucceedStep(s, now)
    case AdminUnlock(actor, now) => AdminUnlockStep(s, actor, now)
    case Change(newHash, isReuse, actor, now) => ChangeStep(s, newHash, isReuse, actor, p.credential, now)
    case Reset(newHash, isReuse, now) => ResetStep(s, newHash, isReuse, p.credential, now)
    case ForceChange(actor, now) => ForceChangeStep(s, actor, now)
  }

  /** A finished run: the last state, everything ever emitted, and each operation's error. */
  datatype Trace = Trace(final: CredentialSnapshot, log: seq<CredentialEvent>, errs: seq<Option<CredentialError>>)

  ghost function Exec(p: Policies, s: CredentialSnapshot, ops: seq<Op>): (t: Trace)
    ensures |t.errs| == |ops|
  {
    if ops == [] then Trace(s, [], [])
    else
      var before := Exec(p, s, Front(ops));
      var step := Apply(p, before.final, Last(ops));
      Trace(step.next, before.log + step.emitted, before.errs + [step.err])
  }

  /** What the last operation of a run did. */
  ghost function LastStep(p: Policies, s: CredentialSnapshot, ops: seq<Op>): Step
    requires ops != []
  {
    Apply(p, Exec(p, s, Front(ops)).final, Last(ops))
  }

  /** A run one operation longer. */
  ghost function Extend(p: Policies, a: Trace, op: Op): Trace {
    var x := Apply(p, a.final, op);
    Trace(x.next, a.log + x.emitted, a.errs + [x.err])
  }

  lemma ExecSnoc(p: Policies, s: CredentialSnapshot, ops: seq<Op>, op: Op)
    ensures Exec(p, s, ops + [op]) == Extend(p, Exec(p, s, ops), op)
  {
    assert Front(ops + [op]) == ops;
  }

  /** A credential on which nothing has happened yet. */
  predicate IsNew(s: CredentialSnapshot) {
    s.lock == NO_LOCKOUT && s.secret.history == []
  }

  ghost predicate NonDecreasing(ops: seq<Op>) {
    forall i, j :: 0 <= i < j < |ops| ==> ops[i].now <= ops[j].now
  }

  ghost predicate NoAdminUnlock(ops: seq<Op>) {
    forall i :: 0 <= i < |ops| ==> !ops[i].AdminUnlock?
  }

  // ------------------------------------------------------------------------
  // The reference account of a run: marks left by failures and by clearings.
  // ------------------------------------------------------------------------

  datatype Mark = Failed(at: Time) | Cleared

  function EventMark(e: CredentialEvent): seq<Mark> {
    match e
    case LoginFailed(_, _, InvalidCredentials, _, _, at) => [Failed(at)]
    case AccountUnlocked(_, _, _, _, _) => [Cleared]
    case _ => []
  }

  function EventMarks(events: seq<CredentialEvent>): seq<Mark> {
    if events == [] then [] else EventMark(events[0]) + EventMarks(events[1..])
  }

  function StepMarks(op: Op, step: Step): seq<Mark> {
    EventMarks(step.emitted) + (if op.Succeed? && step.err.None? then [Cleared] else [])
  }

  ghost function Marks(p: Policies, s: CredentialSnapshot, ops: seq<Op>): seq<Mark>
  {
    if ops == [] then []
    else Marks(p, s, Front(ops)) + StepMarks(Last(ops), LastStep(p, s, ops))
  }

  /** The instants of the failures marked since the last clearing. */
  function SinceCleared(marks: seq<Mark>): seq<Time> {
    if marks == [] then []
    else match Last(marks)
      case Cleared => []
      case Failed(at) => SinceCleared(Front(marks)) + [at]
  }

  /** The last `k` instants follow each other by at most `window`. */
  predicate Clustered(ts: seq<Time>, k: int, window: Duration) {
    && 0 <= k <= |ts|
    && forall i :: |ts| - k < i < |ts| ==> ts[i] - ts[i - 1] <= window
  }

  /** `k` is the length of the longest trailing cluster of `ts`. */
  ghost predicate LongestCluster(ts: seq<Time>, k: int, window: Duration) {
    && Clustered(ts, k, window)
    && forall j :: k < j <= |ts| ==> !Clustered(ts, j, window)
  }

  lemma EventMarksAppend(a: seq<CredentialEvent>, b: seq<CredentialEvent>)
    ensures EventMarks(a + b) == EventMarks(a) + EventMarks(b)
  {
    if a == [] {
      assert a + b == b;
    } else {
      assert (a + b)[1..] == a[1..] + b;
      EventMarksAppend(a[1..], b);
    }
  }

  /** The mark of lifting an elapsed lock. */
  function SettleMarks(l: Lockout, now: Time): seq<Mark> {
    if Elapsed(l, now) then [Cleared] else []
  }

  /** A run's marks grow by what `MarksAfter` says of the lock alone, and its lock by `LockAfter`. */
  function MarksAfter(p: Policies, l: Lockout, op: Op): seq<Mark> {
    match op
    case Verify(now) => SettleMarks(l, now)
    case Fail(_, now) =>
      SettleMarks(l, now) + (if IsLocked(l, now) then [] else [Failed(now)])
    case Succeed(now) =>
      SettleMarks(l, now) + (if IsLocked(l, now) then [] else [Cleared])
    case AdminUnlock(_, _) => if l.status.Unlocked? then [] else [Cleared]
    case Change(_, _, _, now) => SettleMarks(l, now)
    case Reset(_, _, _) => []
    case ForceChange(_, _) => []
  }

  function LockAfter(p: Policies, l: Lockout, op: Op): Lockout {
    match op
    case Verify(now) => Settled(l, now)
    case Fail(_, now) => if IsLocked(l, now) then l else Struck(Settled(l, now), p.lockout, now)
    case Succeed(now) => if IsLocked(l, now) then l else Forgiven(Settled(l, now))
    case AdminUnlock(_, _) => if l.status.Unlocked? then l else Released(l)
    case Change(_, _, _, now) => Settled(l, now)
    case Reset(_, _, _) => l
    case ForceChange(_, _) => l
  }

  lemma EventMarksOne(e: CredentialEvent)
    ensures EventMarks([e]) == EventMark(e)
  {
    assert [e][1..] == [];
  }

  lemma EnsureMarks(s: CredentialSnapshot, now: Time)
    ensures EventMarks(EnsureStep(s, now).emitted) == SettleMarks(s.lock, now)
  {
    if Elapsed(s.lock, now) {
      EventMarksOne(AccountUnlocked(s.id, s.identity, "", s.lock.status, s.lock.lockedUntil.value));
    }
  }

  lemma FailMarks(p: Policies, s: CredentialSnapshot, op: Op)
    requires p.Valid() && op.Fail?
    ensures StepMarks(op, Apply(p, s, op)) == MarksAfter(p, s.lock, op)
  {
    var now := op.now;
    var e := EnsureStep(s, now);
    if e.err.Some? {
      EventMarksOne(FailedEvent(s, LockedOut, op.attempt, now));
    } else {
      var struck := s.(lock := Struck(e.next.lock, p.lockout, now));
      var failed := FailedEvent(struck, InvalidCredentials, op.attempt, now);
      var locked := LockedEvent(struck, op.attempt.ip, now);
      EnsureMarks(s, now);
      EventMarksOne(failed);
      EventMarksOne(locked);
      EventMarksAppend(e.emitted, [failed]);
      EventMarksAppend(e.emitted + [failed], if Trips(e.next.lock, p.lockout, now) then [locked] else []);
    }
  }

  lemma ChangeMarks(p: Policies, s: CredentialSnapshot, op: Op)
    requires p.Valid() && op.Change?
    ensures EventMarks(Apply(p, s, op).emitted) == MarksAfter(p, s.lock, op)
  {
    var e := EnsureStep(s, op.now);
    var step := Apply(p, s, op);
    EnsureMarks(s, op.now);
    if step.emitted != e.emitted {
      assert step.emitted == e.emitted + [Last(step.emitted)];
      EventMarksAppend(e.emitted, [Last(step.emitted)]);
      EventMarksOne(Last(step.emitted));
    }
  }

  lemma StepOnLock(p: Policies, s: CredentialSnapshot, op: Op)
    requires p.Valid()
    ensures Apply(p, s, op).next.lock == LockAfter(p, s.lock, op)
  {
  }

  lemma StepOnMarks(p: Policies, s: CredentialSnapshot, op: Op)
    requires p.Valid()
    ensures StepMarks(op, Apply(p, s, op)) == MarksAfter(p, s.lock, op)
  {
    var step := Apply(p, s, op);
    match op {
      case Verify(now) => EnsureMarks(s, now);
      case Fail(_, _) => FailMarks(p, s, op);
      case Succeed(now) => EnsureMarks(s, now);
      case Change(_, _, _, _) => ChangeMarks(p, s, op);
      case _ => if step.emitted != [] { EventMarksOne(step.emitted[0]); }
    }
  }

  lemma SinceClearedSnoc(marks: seq<Mark>, m: Mark)
    ensures SinceCleared(marks + [m]) == if m.Cleared? then [] else SinceCleared(marks) + [m.at]
  {
    assert Front(marks + [m]) == marks;
  }

  // ------------------------------------------------------------------------
  // The counter refines the log.
  // ------------------------------------------------------------------------

  /** The lock machine agrees with the instants of the failures since the last clearing. */
  ghost predicate CounterAgrees(p: Policies, l: Lockout, ts: seq<Time>) {
    && LockShape(l)
    && LongestCluster(ts, l.failedAttemptCount, p.lockout.window)
    && l.lastFailedAt == (if ts == [] then None else Some(Last(ts)))
    && (if l.status.Unlocked? then l.failedAttemptCount < p.lockout.threshold
        else l.failedAttemptCount == p.lockout.threshold)
    && l.lockoutHistoryCount >= 0
  }

  /** The last `j + 1` instants cluster when the last `j` did and the newest is close enough. */
  lemma ClusteredSnoc(ts: seq<Time>, j: nat, window: Duration, now: Time)
    requires j <= |ts|
    ensures Clustered(ts + [now], j + 1, window) <==> Clustered(ts, j, window) && (j == 0 || now - Last(ts) <= window)
  {
    var ext := ts + [now];
    assert forall i :: 0 < i < |ts| ==> ext[i] - ext[i - 1] == ts[i] - ts[i - 1];
    if j > 0 {
      assert ext[|ts|] - ext[|ts| - 1] == now - Last(ts);
    }
  }

  /** One more failure extends the cluster, or starts a new one after a gap wider than the window. */
  lemma ClusterSnoc(ts: seq<Time>, k: int, window: Duration, now: Time)
    requires LongestCluster(ts, k, window)
    ensures var broken := ts != [] && now - Last(ts) > window;
            LongestCluster(ts + [now], (if broken then 0 else k) + 1, window)
  {
    var k' := if ts != [] && now - Last(ts) > window then 0 else k;
    ClusteredSnoc(ts, k', window, now);
    forall j | k' + 1 < j <= |ts| + 1
      ensures !Clustered(ts + [now], j, window)
    {
      ClusteredSnoc(ts, j - 1, window, now);
    }
  }

  lemma StruckAgrees(p: Policies, l: Lockout, ts: seq<Time>, now: Time)
    requires p.Valid() && CounterAgrees(p, l, ts) && l.status.Unlocked?
    ensures CounterAgrees(p, Struck(l, p.lockout, now), ts + [now])
  {
    ClusterSnoc(ts, l.failedAttemptCount, p.lockout.window, now);
  }

  lemma EmptyCluster(window: Duration)
    ensures LongestCluster([], 0, window)
  {
    assert Clustered([], 0, window);
  }

  lemma ClearedAgrees(p: Policies, l: Lockout, marks: seq<Mark>)
    requires p.Valid() && l.lockoutHistoryCount >= 0
    ensures CounterAgrees(p, Released(l), SinceCleared(marks + [Cleared]))
    ensures LockShape(l) && l.status.Unlocked? ==> CounterAgrees(p, Forgiven(l), SinceCleared(marks + [Cleared]))
  {
    SinceClearedSnoc(marks, Cleared);
    EmptyCluster(p.lockout.window);
  }

  lemma SettledAgrees(p: Policies, l: Lockout, marks: seq<Mark>, now: Time)
    requires p.Valid() && CounterAgrees(p, l, SinceCleared(marks))
    ensures CounterAgrees(p, Settled(l, now), SinceCleared(marks + SettleMarks(l, now)))
    ensures Settled(l, now).status.Unlocked? <==> !IsLocked(l, now)
  {
    assert marks + [] == marks;
    ClearedAgrees(p, l, marks);
  }

  lemma LockAgrees(p: Policies, l: Lockout, marks: seq<Mark>, op: Op)
    requires p.Valid() && CounterAgrees(p, l, SinceCleared(marks))
    ensures CounterAgrees(p, LockAfter(p, l, op), SinceCleared(marks + MarksAfter(p, l, op)))
  {
    SettledAgrees(p, l, marks, op.now);
    var mid := marks + SettleMarks(l, op.now);
    assert marks + [] == marks;
    if op.Fail? && !IsLocked(l, op.now) {
      assert marks + MarksAfter(p, l, op) == mid + [Failed(op.now)];
      SinceClearedSnoc(mid, Failed(op.now));
      StruckAgrees(p, Settled(l, op.now), SinceCleared(mid), op.now);
    } else if op.Succeed? && !IsLocked(l, op.now) {
      assert marks + MarksAfter(p, l, op) == mid + [Cleared];
      ClearedAgrees(p, Settled(l, op.now), mid);
    } else if op.AdminUnlock? {
      ClearedAgrees(p, l, marks);
    } else {
      assert MarksAfter(p, l, op) == SettleMarks(l, op.now) || LockAfter(p, l, op) == l;
    }
  }

  /**
   In every run from a new credential, whatever the times, the counter is the
   length of the longest trailing cluster of failures since the last success or
   unlock, it stays below the threshold while unlocked, and it is the threshold
   while locked.
   */
  lemma {:induction false} CounterRefinesLog(p: Policies, s: CredentialSnapshot, ops: seq<Op>)
    requires p.Valid() && IsNew(s)
    ensures CounterAgrees(p, Exec(p, s, ops).final.lock, SinceCleared(Marks(p, s, ops)))
  {
    if ops == [] {
      EmptyCluster(p.lockout.window);
    } else {
      CounterRefinesLog(p, s, Front(ops));
      var before := Exec(p, s, Front(ops)).final;
      StepOnLock(p, before, Last(ops));
      StepOnMarks(p, before, Last(ops));
      LockAgrees(p, before.lock, Marks(p, s, Front(ops)), Last(ops));
    }
  }

  /** The last operation counted a failure. */
  ghost predicate CountsFailure(p: Policies, s: CredentialSnapshot, ops: seq<Op>)
    requires ops != []
  {
    Last(ops).Fail? && LastStep(p, s, ops).err.None?
  }

  predicate LocksIn(events: seq<CredentialEvent>) {
    exists i :: 0 <= i < |events| && events[i].AccountLocked?
  }

  /** The last operation locked the credential. */
  ghost predicate LocksNow(p: Policies, s: CredentialSnapshot, ops: seq<Op>)
    requires ops != []
  {
    LocksIn(LastStep(p, s, ops).emitted)
  }

  /** The steps of a cluster add up to at most one window each. */
  lemma {:induction false} ClusterSpan(ts: seq<Time>, k: nat, window: Duration, i: nat)
    requires Clustered(ts, k, window) && window > 0
    requires |ts| - k <= i < |ts|
    ensures Last(ts) - ts[i] <= (|ts| - 1 - i) * window
    decreases |ts| - i
  {
    if i < |ts| - 1 {
      ClusterSpan(ts, k, window, i + 1);
      assert ts[i + 1] - ts[i] <= window;
      assert (|ts| - 1 - i) * window == (|ts| - 1 - (i + 1)) * window + window;
    }
  }

  /** A step emits AccountLocked exactly when it counts the failure that trips the threshold. */
  lemma LockEmission(p: Policies, s: CredentialSnapshot, op: Op)
    requires p.Valid()
    ensures var step := Apply(p, s, op);
            LocksIn(step.emitted) <==>
            op.Fail? && step.err.None? && Trips(Settled(s.lock, op.now), p.lockout, op.now)
  {
    var step := Apply(p, s, op);
    if op.Fail? && step.err.None? && Trips(Settled(s.lock, op.now), p.lockout, op.now) {
      assert Last(step.emitted).AccountLocked?;
    }
  }

  /**
   An operation locks the credential exactly when it counts a failure that
   brings the trailing cluster to the threshold.
   */
  lemma LocksExactlyAtThreshold(p: Policies, s: CredentialSnapshot, ops: seq<Op>)
    requires p.Valid() && IsNew(s) && ops != []
    ensures LocksNow(p, s, ops) <==>
            CountsFailure(p, s, ops)
            && LongestCluster(SinceCleared(Marks(p, s, ops)), p.lockout.threshold, p.lockout.window)
  {
    var before := Exec(p, s, Front(ops)).final;
    CounterRefinesLog(p, s, ops);
    CounterRefinesLog(p, s, Front(ops));
    LockEmission(p, before, Last(ops));
    StepOnLock(p, before, Last(ops));
    FailureTrips(p, before, Last(ops), SinceCleared(Marks(p, s, ops)));
  }

  /** A counted failure trips the threshold exactly when the cluster it ends has that length. */
  lemma FailureTrips(p: Policies, s: CredentialSnapshot, op: Op, ts: seq<Time>)
    requires p.Valid() && LockShape(s.lock) && CounterAgrees(p, LockAfter(p, s.lock, op), ts)
    requires s.lock.status.Unlocked? ==> s.lock.failedAttemptCount < p.lockout.threshold
    ensures op.Fail? && Apply(p, s, op).err.None? ==>
            (Trips(Settled(s.lock, op.now), p.lockout, op.now) <==>
             LongestCluster(ts, p.lockout.threshold, p.lockout.window))
  {
    if op.Fail? && Apply(p, s, op).err.None? {
      assert LockAfter(p, s.lock, op) == Struck(Settled(s.lock, op.now), p.lockout, op.now);
      OneLongestCluster(ts, LockAfter(p, s.lock, op).failedAttemptCount, p.lockout.threshold, p.lockout.window);
    }
  }

  /** The last `k` instants lie within `k - 1` windows. */
  predicate Close(ts: seq<Time>, k: int, window: Duration) {
    1 <= k <= |ts| && Last(ts) - ts[|ts| - k] <= (k - 1) * window
  }

  lemma ClustersAreClose(ts: seq<Time>, k: int, window: Duration)
    requires k >= 1 && window > 0 && LongestCluster(ts, k, window)
    ensures Close(ts, k, window)
  {
    ClusterSpan(ts, k, window, |ts| - k);
  }

  /** The failures behind a lock lie within (threshold - 1) windows. */
  lemma {:induction false} LockingFailuresAreClose(p: Policies, s: CredentialSnapshot, ops: seq<Op>)
    requires p.Valid() && IsNew(s) && ops != [] && LocksNow(p, s, ops)
    ensures Close(SinceCleared(Marks(p, s, ops)), p.lockout.threshold, p.lockout.window)
  {
    LocksExactlyAtThreshold(p, s, ops);
    ClustersAreClose(SinceCleared(Marks(p, s, ops)), p.lockout.threshold, p.lockout.window);
  }

  lemma OneLongestCluster(ts: seq<Time>, j: int, k: int, window: Duration)
    requires LongestCluster(ts, j, window)
    ensures LongestCluster(ts, k, window) ==> j == k
  {
  }

  // ------------------------------------------------------------------------
  // No failure is lost.
  // ------------------------------------------------------------------------

  function CountFailed(marks: seq<Mark>): nat {
    if marks == [] then 0
    else CountFailed(Front(marks)) + if Last(marks).Failed? then 1 else 0
  }

  /** Failures a step throws away: a cluster outlived by the window, or ended by a success. */
  function StepDiscards(p: Policies, l: Lockout, op: Op): int {
    match op
    case Fail(_, now) =>
      if !IsLocked(l, now) && StreakBroken(Settled(l, now), p.lockout, now)
      then Settled(l, now).failedAttemptCount else 0
    case Succeed(now) => if IsLocked(l, now) then 0 else Settled(l, now).failedAttemptCount
    case _ => 0
  }

  ghost function Discarded(p: Policies, s: CredentialSnapshot, ops: seq<Op>): int {
    if ops == [] then 0
    else Discarded(p, s, Front(ops)) + StepDiscards(p, Exec(p, s, Front(ops)).final.lock, Last(ops))
  }

  lemma CountFailedSnoc(marks: seq<Mark>, m: Mark)
    ensures CountFailed(marks + [m]) == CountFailed(marks) + if m.Failed? then 1 else 0
  {
    assert Front(marks + [m]) == marks;
  }

  /** Failures counted towards the next lock. */
  function Pending(l: Lockout): int {
    if l.status.Unlocked? then l.failedAttemptCount else 0
  }

  /** How a counted failure enters the account. */
  lemma StruckAccounting(p: Policies, l: Lockout, now: Time)
    requires p.Valid() && l.status.Unlocked? && l.failedAttemptCount < p.lockout.threshold
    ensures var l' := Struck(l, p.lockout, now);
            var discarded := if StreakBroken(l, p.lockout, now) then l.failedAttemptCount else 0;
            if l'.lockoutHistoryCount == l.lockoutHistoryCount
            then Pending(l') == Pending(l) - discarded + 1
            else l'.lockoutHistoryCount == l.lockoutHistoryCount + 1 && Pending(l') == 0
                 && Pending(l) - discarded + 1 == p.lockout.threshold
  {
  }

  lemma SettleAccounting(l: Lockout, now: Time)
    requires LockShape(l)
    ensures Pending(Settled(l, now)) == Pending(l) && Settled(l, now).lockoutHistoryCount == l.lockoutHistoryCount
    ensures !IsLocked(l, now) ==> Settled(l, now).status.Unlocked?
    ensures Elapsed(l, now) ==> Settled(l, now).failedAttemptCount == 0
  {
  }

  /** What one step adds to the count of failures, in terms of the lock alone. */
  lemma StepAccounting(p: Policies, l: Lockout, marks: seq<Mark>, op: Op)
    requires p.Valid() && CounterAgrees(p, l, SinceCleared(marks))
    ensures var l' := LockAfter(p, l, op);
            && l.lockoutHistoryCount <= l'.lockoutHistoryCount <= l.lockoutHistoryCount + 1
            && CountFailed(marks + MarksAfter(p, l, op)) ==
               CountFailed(marks) + Pending(l') - Pending(l) + StepDiscards(p, l, op)
               + if l'.lockoutHistoryCount > l.lockoutHistoryCount then p.lockout.threshold else 0
  {
    assert marks + [] == marks;
    CountFailedSnoc(marks, Cleared);
    SettleAccounting(l, op.now);
    var mid := marks + SettleMarks(l, op.now);
    if op.Fail? && !IsLocked(l, op.now) {
      assert marks + MarksAfter(p, l, op) == mid + [Failed(op.now)];
      CountFailedSnoc(mid, Failed(op.now));
      StruckAccounting(p, Settled(l, op.now), op.now);
    } else if op.Succeed? && !IsLocked(l, op.now) {
      assert marks + MarksAfter(p, l, op) == mid + [Cleared];
      CountFailedSnoc(mid, Cleared);
    } else {
      assert MarksAfter(p, l, op) == [] || MarksAfter(p, l, op) == [Cleared];
    }
  }

  /** Counted failures = locks * threshold + failures pending + failures discarded. */
  predicate Balanced(p: Policies, l: Lockout, failed: int, discarded: int) {
    failed == l.lockoutHistoryCount * p.lockout.threshold + Pending(l) + discarded
  }

  lemma StepBalanced(p: Policies, l: Lockout, marks: seq<Mark>, discarded: int, op: Op)
    requires p.Valid() && CounterAgrees(p, l, SinceCleared(marks))
    requires Balanced(p, l, CountFailed(marks), discarded)
    ensures Balanced(p, LockAfter(p, l, op), CountFailed(marks + MarksAfter(p, l, op)),
                     discarded + StepDiscards(p, l, op))
  {
    var l' := LockAfter(p, l, op);
    StepAccounting(p, l, marks, op);
    BalanceArithmetic(l.lockoutHistoryCount, l'.lockoutHistoryCount, p.lockout.threshold);
  }

  lemma BalanceArithmetic(locks: int, locks': int, threshold: int)
    requires locks <= locks' <= locks + 1
    ensures locks' * threshold == locks * threshold + if locks' > locks then threshold else 0
  {
    if locks' > locks {
      assert locks' == locks + 1;
    }
  }

  /** In every run each counted failure went into a lock, is pending, or was discarded: none is lost. */
  lemma {:induction false} FailuresAccountedFor(p: Policies, s: CredentialSnapshot, ops: seq<Op>)
    requires p.Valid() && IsNew(s)
    ensures Balanced(p, Exec(p, s, ops).final.lock, CountFailed(Marks(p, s, ops)), Discarded(p, s, ops))
  {
    if ops != [] {
      var before := Exec(p, s, Front(ops)).final;
      FailuresAccountedFor(p, s, Front(ops));
      CounterRefinesLog(p, s, Front(ops));
      StepOnLock(p, before, Last(ops));
      StepOnMarks(p, before, Last(ops));
      StepBalanced(p, before.lock, Marks(p, s, Front(ops)), Discarded(p, s, Front(ops)), Last(ops));
    }
  }

  /** The lock machine never outgrows its tiers unless an administrator lifts a lock. */
  predicate WithinTiers(p: Policies, l: Lockout) {
    && LockShape(l)
    && 0 <= l.lockoutHistoryCount <= |p.lockout.temporary| + 1
    && (l.status.LockedPermanent? <==> l.lockoutHistoryCount == |p.lockout.temporary| + 1)
  }

  lemma StepWithinTiers(p: Policies, l: Lockout, op: Op)
    requires WithinTiers(p, l) && !op.AdminUnlock?
    ensures WithinTiers(p, LockAfter(p, l, op))
  {
  }

  /** Without administrators a credential is locked at most once past its last temporary tier. */
  lemma {:induction false} LocksAreBounded(p: Policies, s: CredentialSnapshot, ops: seq<Op>)
    requires p.Valid() && IsNew(s) && NoAdminUnlock(ops)
    ensures WithinTiers(p, Exec(p, s, ops).final.lock)
  {
    if ops != [] {
      LocksAreBounded(p, s, Front(ops));
      var before := Exec(p, s, Front(ops)).final;
      StepOnLock(p, before, Last(ops));
      StepWithinTiers(p, before.lock, Last(ops));
    }
  }

  /** Hence a bound on every guess that counts against a credential no administrator unlocks. */
  lemma GuessesAreBounded(p: Policies, s: CredentialSnapshot, ops: seq<Op>)
    requires p.Valid() && IsNew(s) && NoAdminUnlock(ops)
    ensures CountFailed(Marks(p, s, ops)) <=
            (|p.lockout.temporary| + 1) * p.lockout.threshold + Discarded(p, s, ops)
  {
    var l := Exec(p, s, ops).final.lock;
    FailuresAccountedFor(p, s, ops);
    LocksAreBounded(p, s, ops);
    CounterRefinesLog(p, s, ops);
    GuessArithmetic(l.lockoutHistoryCount, |p.lockout.temporary| + 1, p.lockout.threshold, Pending(l));
  }

  lemma {:induction false} GuessArithmetic(locks: int, most: int, threshold: int, pending: int)
    requires 0 <= locks <= most && threshold >= 1
    requires pending <= threshold && (locks == most ==> pending <= 0)
    ensures locks * threshold + pending <= most * threshold
    decreases most - locks
  {
    if locks < most {
      GuessArithmetic(locks + 1, most, threshold, 0);
      assert (locks + 1) * threshold == locks * threshold + threshold;
    }
  }
}
