/**
 An elapsed lock is lifted lazily, by the next operation that looks. Looking
 earlier or more often makes no difference to the operations that look.
 */
module LazyUnlock {
  import opened Types
  import opened CredentialSpec
  import opened CredentialRuns

  /** The operations that begin with EnsureVerifiable. */
  predicate ChecksLock(op: Op) {
    op.Verify? || op.Fail? || op.Succeed? || op.Change?
  }

  ghost predicate AllCheckLock(ops: seq<Op>) {
    forall i :: 0 <= i < |ops| ==> ChecksLock(ops[i])
  }

  /** The operations, or results, whose mask bit is set. */
  function Keep<T>(xs: seq<T>, mask: seq<bool>): seq<T>
    requires |xs| == |mask|
  {
    if xs == [] then []
    else Keep(Front(xs), Front(mask)) + if Last(mask) then [Last(xs)] else []
  }

  /** Only EnsureVerifiable calls are masked out. */
  ghost predicate DropsOnlyVerify(ops: seq<Op>, mask: seq<bool>) {
    && |ops| == |mask|
    && forall i :: 0 <= i < |ops| && !mask[i] ==> ops[i].Verify?
  }

  /** The state a run ends in once elapsed locks are lifted, with the log that goes with it. */
  ghost function Seen(t: Trace, now: Time): (CredentialSnapshot, seq<CredentialEvent>) {
    var e := EnsureStep(t.final, now);
    (e.next, t.log + e.emitted)
  }

  /** Lifting at `now` and looking again later is the same as looking later. */
  lemma EnsureComposes(s: CredentialSnapshot, now: Time, later: Time)
    requires now <= later
    ensures var e := EnsureStep(s, now);
            var e' := EnsureStep(e.next, later);
            EnsureStep(s, later) == Step(e'.next, e.emitted + e'.emitted, e'.err)
  {
  }

  /** An operation that checks the lock does the same on a state whose elapsed lock is already lifted. */
  lemma EnsureAbsorbed(p: Policies, s: CredentialSnapshot, op: Op)
    requires p.Valid() && ChecksLock(op)
    ensures var e := EnsureStep(s, op.now);
            var r := Apply(p, e.next, op);
            && Apply(p, s, op).next == r.next
            && Apply(p, s, op).emitted == e.emitted + r.emitted
            && Apply(p, s, op).err == r.err
  {
    var e := EnsureStep(s, op.now);
    if !Elapsed(s.lock, op.now) {
      assert e.next == s;
      assert [] + Apply(p, s, op).emitted == Apply(p, s, op).emitted;
    }
  }

  lemma SeenLater(a: Trace, b: Trace, now: Time, later: Time)
    requires now <= later && Seen(a, now) == Seen(b, now)
    ensures Seen(a, later) == Seen(b, later)
  {
    EnsureComposes(a.final, now, later);
    EnsureComposes(b.final, now, later);
    var e := EnsureStep(EnsureStep(a.final, now).next, later).emitted;
    Associate(a.log, EnsureStep(a.final, now).emitted, e);
    Associate(b.log, EnsureStep(b.final, now).emitted, e);
  }

  lemma Associate<T>(a: seq<T>, b: seq<T>, c: seq<T>)
    ensures a + (b + c) == (a + b) + c
  {
  }

  /** A step from a trace is a step from what is seen of it. */
  lemma StepFromSeen(p: Policies, a: Trace, op: Op)
    requires p.Valid() && ChecksLock(op)
    ensures var r := Apply(p, Seen(a, op.now).0, op);
            Extend(p, a, op) == Trace(r.next, Seen(a, op.now).1 + r.emitted, a.errs + [r.err])
  {
    EnsureAbsorbed(p, a.final, op);
    Associate(a.log, EnsureStep(a.final, op.now).emitted, Apply(p, EnsureStep(a.final, op.now).next, op).emitted);
  }

  /** An extra look at `now` leaves what is seen at `now` as it was. */
  lemma ExtraLook(a: Trace, now: Time)
    ensures var e := EnsureStep(a.final, now);
            Seen(Trace(e.next, a.log + e.emitted, a.errs + [e.err]), now) == Seen(a, now)
  {
    EnsureComposes(a.final, now, now);
    var e := EnsureStep(a.final, now);
    assert (a.log + e.emitted) + [] == a.log + e.emitted;
  }

  /**
   From any state, insert EnsureVerifiable calls anywhere into a run of
   operations that check the lock, under a clock that never runs backwards:
   every other operation returns the same error, and at every later instant the
   state with elapsed locks lifted, and the event log, are the same.
   */
  lemma {:induction false} LazyUnlockIsUnobservable(p: Policies, s: CredentialSnapshot, ops: seq<Op>, mask: seq<bool>,
                                                    later: Time)
    requires p.Valid() && AllCheckLock(ops) && NonDecreasing(ops) && DropsOnlyVerify(ops, mask)
    requires ops == [] || Last(ops).now <= later
    ensures Seen(Exec(p, s, ops), later) == Seen(Exec(p, s, Keep(ops, mask)), later)
    ensures Keep(Exec(p, s, ops).errs, mask) == Exec(p, s, Keep(ops, mask)).errs
  {
    if ops != [] {
      var op := Last(ops);
      var a := Exec(p, s, Front(ops));
      var b := Exec(p, s, Keep(Front(ops), Front(mask)));
      LazyUnlockIsUnobservable(p, s, Front(ops), Front(mask), op.now);
      KeptErrors(p, s, ops, mask);
      assert Exec(p, s, ops) == Extend(p, a, op);
      if Last(mask) {
        assert Front(Keep(ops, mask)) == Keep(Front(ops), Front(mask));
        assert Exec(p, s, Keep(ops, mask)) == Extend(p, b, op);
        StepFromSeen(p, a, op);
        StepFromSeen(p, b, op);
      } else {
        assert Keep(ops, mask) == Keep(Front(ops), Front(mask));
        ExtraLook(a, op.now);
        SeenLater(Extend(p, a, op), b, op.now, later);
      }
    }
  }

  lemma KeptErrors(p: Policies, s: CredentialSnapshot, ops: seq<Op>, mask: seq<bool>)
    requires ops != [] && |ops| == |mask|
    ensures Keep(Exec(p, s, ops).errs, mask) ==
            Keep(Exec(p, s, Front(ops)).errs, Front(mask)) + if Last(mask) then [LastStep(p, s, ops).err] else []
  {
    assert Front(Exec(p, s, ops).errs) == Exec(p, s, Front(ops)).errs;
  }

  // ------------------------------------------------------------------------
  // Why the operations that do not check the lock are left out of that theorem.
  // ------------------------------------------------------------------------

  /** Unlock takes the stored status at its word, so an earlier look changes its answer. */
  lemma AdminUnlockObservesLaziness(p: Policies, s: CredentialSnapshot, actor: string, now: Time)
    requires p.Valid()
    ensures var late := Apply(p, s, AdminUnlock(actor, now));
            var early := Apply(p, EnsureStep(s, now).next, AdminUnlock(actor, now));
            late.err == early.err <==> !Elapsed(s.lock, now)
  {
  }

  /** What is emitted by `op` and a look after it. */
  ghost function LookAfter(p: Policies, s: CredentialSnapshot, op: Op): seq<CredentialEvent> {
    var step := Apply(p, s, op);
    step.emitted + EnsureStep(step.next, op.now).emitted
  }

  /** What is emitted by a look and `op` after it. */
  ghost function LookBefore(p: Policies, s: CredentialSnapshot, op: Op): seq<CredentialEvent> {
    var e := EnsureStep(s, op.now);
    e.emitted + Apply(p, e.next, op).emitted
  }

  /** An operation that neither reads nor changes the lock, and emits at most one event, none of a lift. */
  lemma OrderOfLook(p: Policies, s: CredentialSnapshot, op: Op)
    requires var step, e := Apply(p, s, op), EnsureStep(s, op.now);
             && step.next.lock == s.lock && step.next.id == s.id && step.next.identity == s.identity
             && Apply(p, e.next, op).emitted == step.emitted
             && (step.emitted == [] || (|step.emitted| == 1 && !step.emitted[0].AccountUnlocked?))
    ensures LookAfter(p, s, op) == LookBefore(p, s, op) <==> !Elapsed(s.lock, op.now) || Apply(p, s, op).emitted == []
  {
    var step, e := Apply(p, s, op), EnsureStep(s, op.now);
    assert EnsureStep(step.next, op.now).emitted == e.emitted;
    assert step.emitted + [] == step.emitted && [] + step.emitted == step.emitted;
    assert e.emitted + [] == e.emitted && [] + e.emitted == e.emitted;
    if Elapsed(s.lock, op.now) && step.emitted != [] {
      assert (step.emitted + e.emitted)[0] == step.emitted[0];
      assert (e.emitted + step.emitted)[0] == e.emitted[0];
    }
  }

  /** The reset is refused for its password. */
  predicate RefusesPassword(s: CredentialSnapshot, op: Op)
    requires op.Reset?
  {
    op.newHash.IsZero() || op.isReuse.None? || Reuses(s.secret, op.isReuse.value)
  }

  /**
   A reset leaves an elapsed lock in place, so an earlier look changes no state
   but reorders the log of one that goes through.
   */
  lemma ResetObservesLaziness(p: Policies, s: CredentialSnapshot, op: Op)
    requires p.Valid() && op.Reset?
    ensures var direct, settled := Apply(p, s, op), Apply(p, EnsureStep(s, op.now).next, op);
            EnsureStep(direct.next, op.now).next == EnsureStep(settled.next, op.now).next && direct.err == settled.err
    ensures LookAfter(p, s, op) == LookBefore(p, s, op) <==> !Elapsed(s.lock, op.now) || RefusesPassword(s, op)
  {
    OrderOfLook(p, s, op);
  }

  /** So does marking a credential for a forced change, exactly when the mark is new. */
  lemma ForceChangeObservesLaziness(p: Policies, s: CredentialSnapshot, actor: string, now: Time)
    ensures var op := ForceChange(actor, now);
            var direct, settled := Apply(p, s, op), Apply(p, EnsureStep(s, now).next, op);
            && EnsureStep(direct.next, now).next == EnsureStep(settled.next, now).next && direct.err == settled.err
            && (LookAfter(p, s, op) == LookBefore(p, s, op) <==>
                !Elapsed(s.lock, now) || actor == "" || s.secret.forceChange)
  {
    OrderOfLook(p, s, ForceChange(actor, now));
  }

  // ------------------------------------------------------------------------
  // Short of the order of the log, only Unlock can tell.
  // ------------------------------------------------------------------------

  /** The state a run ends in once elapsed locks are lifted, and the events that go with it in any order. */
  ghost function Gathered(t: Trace, now: Time): (CredentialSnapshot, multiset<CredentialEvent>) {
    var e := EnsureStep(t.final, now);
    (e.next, multiset(t.log) + multiset(e.emitted))
  }

  lemma GatheredLater(a: Trace, b: Trace, now: Time, later: Time)
    requires now <= later && Gathered(a, now) == Gathered(b, now)
    ensures Gathered(a, later) == Gathered(b, later)
  {
    GatheredFromGathered(a, now, later);
    GatheredFromGathered(b, now, later);
  }

  lemma Bag<T>(a: seq<T>, b: seq<T>)
    ensures multiset(a + b) == multiset(a) + multiset(b)
  {
  }

  lemma GatheredFromGathered(t: Trace, now: Time, later: Time)
    requires now <= later
    ensures var e := EnsureStep(Gathered(t, now).0, later);
            Gathered(t, later) == (e.next, Gathered(t, now).1 + multiset(e.emitted))
  {
    EnsureComposes(t.final, now, later);
    var e := EnsureStep(t.final, now);
    Bag(e.emitted, EnsureStep(e.next, later).emitted);
    assert Gathered(t, later).1 == Gathered(t, now).1 + multiset(EnsureStep(e.next, later).emitted);
  }

  /** The operations that leave the lock alone and never look at it, but for a permanent one. */
  lemma AsideOfLock(p: Policies, s: CredentialSnapshot, op: Op)
    requires op.Reset? || op.ForceChange?
    ensures var e, x := EnsureStep(s, op.now), Apply(p, s, op);
            var r := Apply(p, e.next, op);
            && x.err == r.err && x.emitted == r.emitted
            && EnsureStep(x.next, op.now) == Step(r.next, e.emitted, EnsureStep(x.next, op.now).err)
            && EnsureStep(r.next, op.now).next == r.next && EnsureStep(r.next, op.now).emitted == []
  {
  }

  /** An operation and a look after it come to the same whether or not a look came before. */
  lemma StepGathers(p: Policies, s: CredentialSnapshot, op: Op)
    requires p.Valid() && !op.AdminUnlock?
    ensures var e, x := EnsureStep(s, op.now), Apply(p, s, op);
            var r := Apply(p, e.next, op);
            var after, after' := EnsureStep(x.next, op.now), EnsureStep(r.next, op.now);
            && x.err == r.err && after.next == after'.next
            && multiset(x.emitted) + multiset(after.emitted) ==
               multiset(e.emitted) + multiset(r.emitted) + multiset(after'.emitted)
  {
    if ChecksLock(op) {
      EnsureAbsorbed(p, s, op);
      Bag(EnsureStep(s, op.now).emitted, Apply(p, EnsureStep(s, op.now).next, op).emitted);
    } else {
      AsideOfLock(p, s, op);
    }
  }

  /** The two ways of `StepGathers` add the same to what was gathered of `a`. */
  lemma GatherSteps(a: Trace, x: Step, r: Step, now: Time)
    requires var e, after, after' := EnsureStep(a.final, now), EnsureStep(x.next, now), EnsureStep(r.next, now);
             && after.next == after'.next
             && multiset(x.emitted) + multiset(after.emitted) ==
                multiset(e.emitted) + multiset(r.emitted) + multiset(after'.emitted)
    ensures Gathered(Trace(x.next, a.log + x.emitted, a.errs + [x.err]), now) ==
            (EnsureStep(r.next, now).next,
             Gathered(a, now).1 + multiset(r.emitted) + multiset(EnsureStep(r.next, now).emitted))
  {
    Bag(a.log, x.emitted);
    Regroup(multiset(a.log), multiset(x.emitted), multiset(EnsureStep(x.next, now).emitted),
            multiset(EnsureStep(a.final, now).emitted), multiset(r.emitted), multiset(EnsureStep(r.next, now).emitted));
  }

  lemma Regroup<T>(l: multiset<T>, x: multiset<T>, y: multiset<T>, e: multiset<T>, r: multiset<T>, z: multiset<T>)
    requires x + y == e + r + z
    ensures l + x + y == l + e + r + z
  {
    assert l + x + y == l + (x + y);
    assert l + e + r + z == l + (e + r + z);
  }

  /** What is gathered of a longer run follows from what was gathered before. */
  lemma ExtendGathers(p: Policies, a: Trace, op: Op)
    requires p.Valid() && !op.AdminUnlock?
    ensures var r := Apply(p, Gathered(a, op.now).0, op);
            var after := EnsureStep(r.next, op.now);
            && Gathered(Extend(p, a, op), op.now) ==
               (after.next, Gathered(a, op.now).1 + multiset(r.emitted) + multiset(after.emitted))
            && Extend(p, a, op).errs == a.errs + [r.err]
  {
    StepGathers(p, a.final, op);
    GatherSteps(a, Apply(p, a.final, op), Apply(p, EnsureStep(a.final, op.now).next, op), op.now);
  }

  lemma KeptStepGathers(p: Policies, a: Trace, b: Trace, op: Op, later: Time)
    requires p.Valid() && !op.AdminUnlock? && op.now <= later && Gathered(a, op.now) == Gathered(b, op.now)
    ensures Gathered(Extend(p, a, op), later) == Gathered(Extend(p, b, op), later)
    ensures Last(Extend(p, a, op).errs) == Last(Extend(p, b, op).errs)
  {
    ExtendGathers(p, a, op);
    ExtendGathers(p, b, op);
    GatheredLater(Extend(p, a, op), Extend(p, b, op), op.now, later);
  }

  lemma DroppedLookGathers(p: Policies, a: Trace, b: Trace, op: Op, later: Time)
    requires op.Verify? && op.now <= later && Gathered(a, op.now) == Gathered(b, op.now)
    ensures Gathered(Extend(p, a, op), later) == Gathered(b, later)
  {
    LookGathersNothing(p, a, op);
    GatheredLater(Extend(p, a, op), b, op.now, later);
  }

  lemma LookGathersNothing(p: Policies, a: Trace, op: Op)
    requires op.Verify?
    ensures Gathered(Extend(p, a, op), op.now) == Gathered(a, op.now)
  {
    EnsureComposes(a.final, op.now, op.now);
    Bag(a.log, EnsureStep(a.final, op.now).emitted);
    assert Gathered(Extend(p, a, op), op.now).1 == Gathered(a, op.now).1;
  }

  /** The same has been gathered of both runs, and `b` returned the errors that `mask` keeps of `a`'s. */
  ghost predicate Alike(a: Trace, b: Trace, mask: seq<bool>, now: Time) {
    |a.errs| == |mask| && Gathered(a, now) == Gathered(b, now) && Keep(a.errs, mask) == b.errs
  }

  lemma KeepSnoc<T>(xs: seq<T>, mask: seq<bool>, x: T, kept: bool)
    requires |xs| == |mask|
    ensures Keep(xs + [x], mask + [kept]) == Keep(xs, mask) + if kept then [x] else []
  {
    assert Front(xs + [x]) == xs && Front(mask + [kept]) == mask;
  }

  lemma KeptStaysAlike(p: Policies, a: Trace, b: Trace, mask: seq<bool>, op: Op, later: Time)
    requires p.Valid() && !op.AdminUnlock? && op.now <= later && Alike(a, b, mask, op.now)
    ensures Alike(Extend(p, a, op), Extend(p, b, op), mask + [true], later)
  {
    KeepSnoc(a.errs, mask, Last(Extend(p, a, op).errs), true);
    KeptStepGathers(p, a, b, op, later);
  }

  lemma DroppedStaysAlike(p: Policies, a: Trace, b: Trace, mask: seq<bool>, op: Op, later: Time)
    requires op.Verify? && op.now <= later && Alike(a, b, mask, op.now)
    ensures Alike(Extend(p, a, op), b, mask + [false], later)
  {
    KeepSnoc(a.errs, mask, Last(Extend(p, a, op).errs), false);
    assert Keep(a.errs, mask) + [] == Keep(a.errs, mask);
    DroppedLookGathers(p, a, b, op, later);
  }

  /** The theorem below for a run one operation longer. */
  lemma {:induction false} OneMoreAlike(p: Policies, s: CredentialSnapshot, ops: seq<Op>, mask: seq<bool>, op: Op,
                                        kept: bool, later: Time)
    requires p.Valid() && |ops| == |mask| && op.now <= later && !op.AdminUnlock? && (kept || op.Verify?)
    requires Alike(Exec(p, s, ops), Exec(p, s, Keep(ops, mask)), mask, op.now)
    ensures Alike(Exec(p, s, ops + [op]), Exec(p, s, Keep(ops + [op], mask + [kept])), mask + [kept], later)
  {
    ExecSnoc(p, s, ops, op);
    KeepSnoc(ops, mask, op, kept);
    if kept {
      ExecSnoc(p, s, Keep(ops, mask), op);
      KeptStaysAlike(p, Exec(p, s, ops), Exec(p, s, Keep(ops, mask)), mask, op, later);
    } else {
      assert Keep(ops, mask) + [] == Keep(ops, mask);
      DroppedStaysAlike(p, Exec(p, s, ops), Exec(p, s, Keep(ops, mask)), mask, op, later);
    }
  }

  /**
   Insert EnsureVerifiable calls anywhere into a run of any operations but
   Unlock: every other operation returns the same error, and at every later
   instant the settled state is the same and the same events have been emitted.
   */
  lemma {:induction false} LooksOnlyReorder(p: Policies, s: CredentialSnapshot, ops: seq<Op>, mask: seq<bool>,
                                            later: Time)
    requires p.Valid() && NoAdminUnlock(ops) && NonDecreasing(ops) && DropsOnlyVerify(ops, mask)
    requires ops == [] || Last(ops).now <= later
    ensures Alike(Exec(p, s, ops), Exec(p, s, Keep(ops, mask)), mask, later)
  {
    if ops != [] {
      var ops', mask' := Front(ops), Front(mask);
      assert ops == ops' + [Last(ops)] && mask == mask' + [Last(mask)];
      LooksOnlyReorder(p, s, ops', mask', Last(ops).now);
      OneMoreAlike(p, s, ops', mask', Last(ops), Last(mask), later);
    }
  }
}
