/** How locks escalate over whole runs, read off the event log. */
module Escalation {
  import opened Types
  import opened CredentialSpec
  import opened CredentialRuns

  /** The AccountLocked events of a log, in order. */
  function Locks(log: seq<CredentialEvent>): (r: seq<CredentialEvent>)
    ensures forall i :: 0 <= i < |r| ==> r[i].AccountLocked?
  {
    if log == [] then []
    else Locks(Front(log)) + if Last(log).AccountLocked? then [Last(log)] else []
  }

  lemma LocksSnoc(log: seq<CredentialEvent>, e: CredentialEvent)
    ensures Locks(log + [e]) == Locks(log) + if e.AccountLocked? then [e] else []
  {
    assert Front(log + [e]) == log;
  }

  lemma {:induction false} LocksQuiet(log: seq<CredentialEvent>, more: seq<CredentialEvent>)
    requires !LocksIn(more)
    ensures Locks(log + more) == Locks(log)
  {
    if more == [] {
      assert log + more == log;
    } else {
      assert log + more == (log + Front(more)) + [Last(more)];
      LocksSnoc(log + Front(more), Last(more));
      assert forall i :: 0 <= i < |Front(more)| ==> Front(more)[i] == more[i];
      LocksQuiet(log, Front(more));
    }
  }

  /** The failure at `op.now` locks the credential. */
  predicate Trip(p: Policies, l: Lockout, op: Op) {
    op.Fail? && !IsLocked(l, op.now) && Trips(Settled(l, op.now), p.lockout, op.now)
  }

  /** What the lock event of a tripping failure says. */
  predicate Describes(e: CredentialEvent, l: Lockout, now: Time) {
    e.AccountLocked? && e.lockoutType == l.status && e.lockedUntil == l.lockedUntil && e.at == now
  }

  /** A step appends a lock event, describing the new lock, exactly when it trips. */
  lemma StepLocks(p: Policies, s: CredentialSnapshot, log: seq<CredentialEvent>, op: Op)
    requires p.Valid() && LockShape(s.lock)
    ensures var step := Apply(p, s, op);
            var locks := Locks(log + step.emitted);
            if Trip(p, s.lock, op)
            then locks != [] && Front(locks) == Locks(log) && Describes(Last(locks), step.next.lock, op.now)
            else locks == Locks(log)
  {
    var step := Apply(p, s, op);
    LockEmission(p, s, op);
    if Trip(p, s.lock, op) {
      var quiet := Front(step.emitted);
      assert step.emitted == quiet + [Last(step.emitted)];
      assert forall i :: 0 <= i < |quiet| ==> !quiet[i].AccountLocked?;
      assert log + step.emitted == (log + quiet) + [Last(step.emitted)];
      LocksSnoc(log + quiet, Last(step.emitted));
      LocksQuiet(log, quiet);
    } else {
      LocksQuiet(log, step.emitted);
    }
  }

  /**
   The `k`-th lock event (from 0) is temporary and lasts the `k`-th duration, or
   is permanent past the last of them.
   */
  predicate OnTier(p: Policies, locks: seq<CredentialEvent>, k: int)
    requires 0 <= k < |locks|
  {
    && locks[k].AccountLocked?
    && (if k < |p.lockout.temporary|
        then && locks[k].lockoutType == LockedTemporary
             && locks[k].lockedUntil == Some(locks[k].at + p.lockout.temporary[k])
        else locks[k].lockoutType == LockedPermanent && locks[k].lockedUntil == None)
  }

  ghost predicate Escalates(p: Policies, locks: seq<CredentialEvent>) {
    forall k :: 0 <= k < |locks| ==> OnTier(p, locks, k)
  }

  /**
   In every run, with any clock and any administrator, the k-th lock lasts the
   k-th temporary duration, every lock past those is permanent, and the stored
   count is the number of locks ever taken.
   */
  lemma {:induction false} LocksEscalate(p: Policies, s: CredentialSnapshot, ops: seq<Op>)
    requires p.Valid() && IsNew(s)
    ensures var t := Exec(p, s, ops);
            LockShape(t.final.lock) && |Locks(t.log)| == t.final.lock.lockoutHistoryCount && Escalates(p, Locks(t.log))
  {
    if ops != [] {
      var t, op := Exec(p, s, Front(ops)), Last(ops);
      LocksEscalate(p, s, Front(ops));
      StepOnLock(p, t.final, op);
      StepLocks(p, t.final, t.log, op);
      TripExtends(p, t.final.lock, op, Locks(t.log), Locks(Exec(p, s, ops).log));
    }
  }

  lemma TripExtends(p: Policies, l: Lockout, op: Op, locks: seq<CredentialEvent>, locks': seq<CredentialEvent>)
    requires p.Valid() && LockShape(l) && |locks| == l.lockoutHistoryCount && Escalates(p, locks)
    requires if Trip(p, l, op)
             then locks' != [] && Front(locks') == locks && Describes(Last(locks'), LockAfter(p, l, op), op.now)
             else locks' == locks
    ensures LockShape(LockAfter(p, l, op))
    ensures |locks'| == LockAfter(p, l, op).lockoutHistoryCount && Escalates(p, locks')
  {
    forall k | 0 <= k < |locks'|
      ensures OnTier(p, locks', k)
    {
      if k < |locks| {
        assert locks'[k] == locks[k];
        assert OnTier(p, locks, k);
      }
    }
  }

  // ------------------------------------------------------------------------
  // Lock intervals under a clock that does not run backwards.
  // ------------------------------------------------------------------------

  /** Every lock but the last is temporary and over before the next one begins. */
  ghost predicate Disjoint(locks: seq<CredentialEvent>) {
    && (forall k :: 0 <= k < |locks| ==> locks[k].AccountLocked?)
    && forall k :: 0 <= k < |locks| - 1 ==>
         locks[k].lockedUntil.Some? && locks[k].lockedUntil.value <= locks[k + 1].at
  }

  /** The current lock is the last one logged; once lifted, its deadline is behind the clock. */
  ghost predicate Current(l: Lockout, locks: seq<CredentialEvent>, clock: Time) {
    && LockShape(l)
    && (forall k :: 0 <= k < |locks| ==> locks[k].AccountLocked?)
    && (!l.status.Unlocked? ==> locks != [] && Last(locks).lockedUntil == l.lockedUntil)
    && (l.status.Unlocked? && locks != [] ==>
        Last(locks).lockedUntil.Some? && Last(locks).lockedUntil.value <= clock)
    && l.lockoutHistoryCount >= 0
  }

  lemma StepDisjoint(p: Policies, l: Lockout, op: Op, locks: seq<CredentialEvent>, locks': seq<CredentialEvent>,
                     clock: Time)
    requires p.Valid() && !op.AdminUnlock? && clock <= op.now
    requires Disjoint(locks) && Current(l, locks, clock)
    requires if Trip(p, l, op)
             then locks' != [] && Front(locks') == locks && Describes(Last(locks'), LockAfter(p, l, op), op.now)
             else locks' == locks
    ensures Disjoint(locks') && Current(LockAfter(p, l, op), locks', op.now)
  {
    if Trip(p, l, op) {
      assert forall k :: 0 <= k < |locks| ==> locks'[k] == locks[k];
      assert locks != [] ==> Last(locks).lockedUntil.Some? && Last(locks).lockedUntil.value <= op.now;
    }
  }

  ghost predicate RunsForward(ops: seq<Op>) {
    NonDecreasing(ops) && NoAdminUnlock(ops)
  }

  function Clock(ops: seq<Op>): Time {
    if ops == [] then 0 else Last(ops).now
  }

  lemma {:induction false} LocksAreDisjoint(p: Policies, s: CredentialSnapshot, ops: seq<Op>)
    requires p.Valid() && IsNew(s) && RunsForward(ops)
    ensures var t := Exec(p, s, ops);
            Disjoint(Locks(t.log)) && Current(t.final.lock, Locks(t.log), Clock(ops))
  {
    if ops != [] {
      var before, op := Front(ops), Last(ops);
      var t := Exec(p, s, before);
      LocksAreDisjoint(p, s, before);
      StepOnLock(p, t.final, op);
      StepLocks(p, t.final, t.log, op);
      var locks, locks' := Locks(t.log), Locks(Exec(p, s, ops).log);
      if before == [] {
        assert locks == [];
        StepDisjoint(p, t.final.lock, op, locks, locks', op.now);
      } else {
        assert Last(before) == ops[|ops| - 2];
        StepDisjoint(p, t.final.lock, op, locks, locks', Clock(before));
      }
    }
  }

  function Sum(ds: seq<Duration>): Duration {
    if ds == [] then 0 else Sum(Front(ds)) + Last(ds)
  }

  lemma {:induction false} LockStarts(p: Policies, locks: seq<CredentialEvent>, k: nat)
    requires Disjoint(locks) && Escalates(p, locks)
    requires k < |locks| && k <= |p.lockout.temporary|
    ensures locks[k].at >= locks[0].at + Sum(p.lockout.temporary[..k])
  {
    if k > 0 {
      LockStarts(p, locks, k - 1);
      assert OnTier(p, locks, k - 1);
      assert Front(p.lockout.temporary[..k]) == p.lockout.temporary[..k - 1];
    }
  }

  /**
   Without administrators and with a clock that never runs backwards, lock
   intervals do not overlap, there are at most as many locks as tiers, and the
   permanent lock comes no sooner than the first lock plus all the temporary
   durations.
   */
  lemma PermanentLockIsLate(p: Policies, s: CredentialSnapshot, ops: seq<Op>)
    requires p.Valid() && IsNew(s) && RunsForward(ops)
    ensures var locks := Locks(Exec(p, s, ops).log);
            var tiers := |p.lockout.temporary|;
            && Disjoint(locks)
            && |locks| <= tiers + 1
            && (|locks| == tiers + 1 ==>
                && locks[tiers].lockoutType == LockedPermanent
                && locks[tiers].at >= locks[0].at + Sum(p.lockout.temporary))
  {
    var locks := Locks(Exec(p, s, ops).log);
    var tiers := |p.lockout.temporary|;
    LocksAreDisjoint(p, s, ops);
    LocksEscalate(p, s, ops);
    LocksAreBounded(p, s, ops);
    if |locks| == tiers + 1 {
      assert OnTier(p, locks, tiers);
      LockStarts(p, locks, tiers);
      assert p.lockout.temporary[..tiers] == p.lockout.temporary;
    }
  }
}
