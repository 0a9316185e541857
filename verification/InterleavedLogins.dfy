/**
 Logins on one identity at the same time. The credential is read outside the
 transaction that saves it, so any number of logins may hold copies of the row
 while others save theirs.
 */
module InterleavedLogins {
  import opened Types
  import opened CredentialSpec
  import opened CredentialRuns
  import opened CredentialPersistence
  import opened LazyUnlock
  import opened LoginSpec
  import opened LoginRuns

  /** The credential a login works on, the events it has not yet committed, and whether the lock has refused it. */
  datatype Copy = Copy(state: CredentialSnapshot, pending: seq<CredentialEvent>, refused: bool)

  function Loaded(row: CredentialRow): Copy {
    Copy(RowSnapshot(row), [], false)
  }

  /** The stored row with the credential's events in the outbox, and the copy of each login in progress. */
  datatype Shared = Shared(row: CredentialRow, outbox: seq<CredentialEvent>, copies: map<int, Copy>)

  function Alone(row: CredentialRow): Shared {
    Shared(row, [], map[])
  }

  datatype LoginMove =
    | Read(login: int)
    | Work(login: int, op: Op)
    | Save(login: int)
    | Leave(login: int)

  /**
   A login reads before it works, works on login operations only, and once it
   has been refused neither works on nor saves: it can only leave.
   */
  predicate Allowed(s: Shared, m: LoginMove) {
    match m
    case Read(i) => i !in s.copies && Loadable(s.row)
    case Work(i, op) => i in s.copies && !s.copies[i].refused && LoginOp(op)
    case Save(i) => i in s.copies && !s.copies[i].refused
    case Leave(i) => i in s.copies
  }

  ghost function Worked(p: Policies, c: Copy, op: Op): Copy {
    var step := Apply(p, c.state, op);
    Copy(step.next, c.pending + step.emitted, step.err.Some?)
  }

  ghost function Moved(p: Policies, s: Shared, m: LoginMove): Shared
    requires Allowed(s, m)
  {
    match m
    case Read(i) => s.(copies := s.copies[i := Loaded(s.row)])
    case Work(i, op) => s.(copies := s.copies[i := Worked(p, s.copies[i], op)])
    case Save(i) => Shared(SaveColumns(s.row, s.copies[i].state), s.outbox + s.copies[i].pending, s.copies - {i})
    case Leave(i) => s.(copies := s.copies - {i})
  }

  ghost function Interleave(p: Policies, s: Shared, moves: seq<LoginMove>): Option<Shared> {
    if moves == [] then Some(s)
    else
      var before := Interleave(p, s, Front(moves));
      if before.Some? && Allowed(before.value, Last(moves)) then Some(Moved(p, before.value, Last(moves))) else None
  }

  /** The counter is below the threshold while unlocked and at the threshold while locked. */
  predicate LockInOrder(p: Policies, l: Lockout) {
    && LockShape(l) && l.failedAttemptCount >= 0 && l.lockoutHistoryCount >= 0
    && (if l.status.Unlocked? then l.failedAttemptCount < p.lockout.threshold
        else l.failedAttemptCount == p.lockout.threshold)
  }

  /** A copy differs from the row in its lock at most. */
  predicate CopyOf(p: Policies, row: CredentialRow, c: CredentialSnapshot) {
    c == RowSnapshot(row).(lock := c.lock) && LockInOrder(p, c.lock)
  }

  predicate InOrder(p: Policies, s: Shared) {
    && Loadable(s.row) && LockInOrder(p, s.row.lock)
    && forall i :: i in s.copies ==> CopyOf(p, s.row, s.copies[i].state)
  }

  lemma WorkKeepsCopy(p: Policies, row: CredentialRow, c: CredentialSnapshot, op: Op)
    requires p.Valid() && LoginOp(op) && CopyOf(p, row, c)
    ensures CopyOf(p, row, Apply(p, c, op).next)
  {
    LoginStepIgnoresSecret(p, c, c, op);
    StepOnLock(p, c, op);
    LockStaysInOrder(p, c.lock, op);
  }

  lemma LockStaysInOrder(p: Policies, l: Lockout, op: Op)
    requires p.Valid() && LockInOrder(p, l)
    ensures LockInOrder(p, LockAfter(p, l, op))
  {
  }

  lemma SaveKeepsOrder(p: Policies, row: CredentialRow, c: CredentialSnapshot, other: CredentialSnapshot)
    requires Loadable(row) && CopyOf(p, row, c)
    ensures Loadable(SaveColumns(row, c)) && LockInOrder(p, SaveColumns(row, c).lock)
    ensures CopyOf(p, row, other) ==> CopyOf(p, SaveColumns(row, c), other)
  {
    assert SaveColumns(row, c) == row.(lock := c.lock);
  }

  lemma MoveKeepsOrder(p: Policies, s: Shared, m: LoginMove)
    requires p.Valid() && InOrder(p, s) && Allowed(s, m)
    ensures InOrder(p, Moved(p, s, m))
  {
    if m.Work? {
      WorkKeepsCopy(p, s.row, s.copies[m.login].state, m.op);
    } else if m.Save? {
      SaveKeepsOrder(p, s.row, s.copies[m.login].state, s.copies[m.login].state);
      forall i | i in s.copies
        ensures CopyOf(p, SaveColumns(s.row, s.copies[m.login].state), s.copies[i].state)
      {
        SaveKeepsOrder(p, s.row, s.copies[m.login].state, s.copies[i].state);
      }
    }
  }

  /**
   In every interleaving of reads, checks, verifications and saves of any number
   of logins, the stored row can be rehydrated, with a count below the threshold
   when it is unlocked and at the threshold when it is locked.
   */
  lemma {:induction false} InterleavingKeepsRowsValid(p: Policies, row: CredentialRow, moves: seq<LoginMove>)
    requires p.Valid() && Loadable(row) && LockInOrder(p, row.lock)
    requires Interleave(p, Alone(row), moves).Some?
    ensures InOrder(p, Interleave(p, Alone(row), moves).value)
  {
    if moves != [] {
      InterleavingKeepsRowsValid(p, row, Front(moves));
      MoveKeepsOrder(p, Interleave(p, Alone(row), Front(moves)).value, Last(moves));
    }
  }

  // ------------------------------------------------------------------------
  // The moves are those of login.
  // ------------------------------------------------------------------------

  /**
   Login decides by one such operation on the loaded copy: it turns away, with
   nothing to commit, exactly when that is refused, and otherwise it has the
   state and the events to commit that the operation left in the copy.
   */
  lemma DecisionIsWork(cfg: Config, t: Tables, q: Request, identity: string, row: CredentialRow)
    requires cfg.lockout.Valid()
    ensures var d := DecideLoaded(cfg, t, q, identity, RowSnapshot(row));
            var c := Worked(PoliciesOf(cfg), Loaded(row), DecidingOp(q));
            if c.refused
            then d.RefuseLocked? && forall t' :: !Commits(cfg, t, q, d, t')
            else (d.Wrong? || d.Verified?) && d.next == c.state && d.events == c.pending
  {
    var p := PoliciesOf(cfg);
    RefusedIffLocked(p, RowSnapshot(row), DecidingOp(q));
    EnsureAbsorbed(p, RowSnapshot(row), DecidingOp(q));
    assert [] + Apply(p, RowSnapshot(row), DecidingOp(q)).emitted == Apply(p, RowSnapshot(row), DecidingOp(q)).emitted;
  }

  // ------------------------------------------------------------------------
  // When an interleaving is a serial run.
  // ------------------------------------------------------------------------

  /** The operations login `i` has done since it read the row. */
  function OpsSinceRead(moves: seq<LoginMove>, i: int): seq<Op> {
    if moves == [] then []
    else match Last(moves)
      case Read(j) => if i == j then [] else OpsSinceRead(Front(moves), i)
      case Work(j, op) => OpsSinceRead(Front(moves), i) + if i == j then [op] else []
      case _ => OpsSinceRead(Front(moves), i)
  }

  /** The operations behind the row login `i` read. */
  function OpsRead(moves: seq<LoginMove>, i: int): seq<Op>
    decreases |moves|, 0
  {
    if moves == [] then []
    else match Last(moves)
      case Read(j) => if i == j then Lineage(Front(moves)) else OpsRead(Front(moves), i)
      case _ => OpsRead(Front(moves), i)
  }

  /** The operations behind the copy of login `i`. */
  function CopyOps(moves: seq<LoginMove>, i: int): seq<Op>
    decreases |moves|, 1
  {
    OpsRead(moves, i) + OpsSinceRead(moves, i)
  }

  lemma {:induction false} CopyOpsAfter(moves: seq<LoginMove>, i: int)
    requires moves != []
    ensures CopyOps(moves, i) ==
            match Last(moves)
            case Read(j) => if i == j then Lineage(Front(moves)) else CopyOps(Front(moves), i)
            case Work(j, op) => CopyOps(Front(moves), i) + if i == j then [op] else []
            case _ => CopyOps(Front(moves), i)
  {
    var read, since := OpsRead(Front(moves), i), OpsSinceRead(Front(moves), i);
    assert since + [] == since && (read + since) + [] == read + since;
    assert Lineage(Front(moves)) + [] == Lineage(Front(moves));
    if Last(moves).Work? {
      assert read + (since + [Last(moves).op]) == (read + since) + [Last(moves).op];
    }
  }

  /** The operations behind the stored row: those of the last login that saved, on top of what it read. */
  function Lineage(moves: seq<LoginMove>): seq<Op>
    decreases |moves|, 0
  {
    if moves == [] then []
    else match Last(moves)
      case Save(i) => CopyOps(Front(moves), i)
      case _ => Lineage(Front(moves))
  }

  /** The operations of every login that saved, in the order of the saves. */
  function SavedOps(moves: seq<LoginMove>): seq<Op> {
    if moves == [] then []
    else match Last(moves)
      case Save(i) => SavedOps(Front(moves)) + OpsSinceRead(Front(moves), i)
      case _ => SavedOps(Front(moves))
  }

  /** Another login has saved since login `i` read the row. */
  predicate Stale(moves: seq<LoginMove>, i: int) {
    moves != []
    && match Last(moves)
       case Read(j) => i != j && Stale(Front(moves), i)
       case Save(_) => true
       case _ => Stale(Front(moves), i)
  }

  /** No save falls between a login's read and its own save. */
  predicate FreshSaves(moves: seq<LoginMove>) {
    moves == [] || (FreshSaves(Front(moves)) && (Last(moves).Save? ==> !Stale(Front(moves), Last(moves).login)))
  }

  ghost predicate Descends(p: Policies, s0: CredentialSnapshot, c: CredentialSnapshot, ops: seq<Op>) {
    LoginOps(ops) && c == Exec(p, s0, ops).final
  }

  /** The row and every copy are what the aggregate makes of the operations behind them. */
  ghost predicate FollowsLineage(p: Policies, s0: CredentialSnapshot, moves: seq<LoginMove>, s: Shared) {
    && Descends(p, s0, RowSnapshot(s.row), Lineage(moves))
    && forall i :: i in s.copies ==> Descends(p, s0, s.copies[i].state, CopyOps(moves, i))
  }

  lemma SavedSnapshot(p: Policies, row: CredentialRow, c: CredentialSnapshot)
    requires CopyOf(p, row, c)
    ensures RowSnapshot(SaveColumns(row, c)) == c
  {
  }

  lemma WorkDescends(p: Policies, s0: CredentialSnapshot, c: Copy, ops: seq<Op>, op: Op)
    requires LoginOp(op) && Descends(p, s0, c.state, ops)
    ensures Descends(p, s0, Worked(p, c, op).state, ops + [op])
  {
    ExecSnoc(p, s0, ops, op);
  }

  lemma {:induction false} CopyFollowsLineage(p: Policies, s0: CredentialSnapshot, moves: seq<LoginMove>, s: Shared,
                                              i: int)
    requires moves != [] && Allowed(s, Last(moves)) && FollowsLineage(p, s0, Front(moves), s)
    requires i in Moved(p, s, Last(moves)).copies
    ensures Descends(p, s0, Moved(p, s, Last(moves)).copies[i].state, CopyOps(moves, i))
  {
    var m, before := Last(moves), Front(moves);
    CopyOpsAfter(moves, i);
    if m.Work? && i == m.login {
      WorkDescends(p, s0, s.copies[i], CopyOps(before, i), m.op);
    } else if !(m.Read? && i == m.login) {
      assert Descends(p, s0, s.copies[i].state, CopyOps(before, i));
      assert CopyOps(before, i) + [] == CopyOps(before, i);
    }
  }

  lemma {:induction false} MoveFollowsLineage(p: Policies, s0: CredentialSnapshot, moves: seq<LoginMove>, s: Shared)
    requires moves != [] && InOrder(p, s) && Allowed(s, Last(moves)) && FollowsLineage(p, s0, Front(moves), s)
    ensures FollowsLineage(p, s0, moves, Moved(p, s, Last(moves)))
  {
    var m := Last(moves);
    if m.Save? {
      SavedSnapshot(p, s.row, s.copies[m.login].state);
    }
    forall i | i in Moved(p, s, m).copies
      ensures Descends(p, s0, Moved(p, s, m).copies[i].state, CopyOps(moves, i))
    {
      CopyFollowsLineage(p, s0, moves, s, i);
    }
  }

  /**
   In every interleaving the stored row is what the aggregate makes of its
   lineage: a chain of logins each of which read what the one before it saved.
   */
  lemma {:induction false} RowFollowsLineage(p: Policies, row: CredentialRow, moves: seq<LoginMove>)
    requires p.Valid() && Loadable(row) && LockInOrder(p, row.lock) && Interleave(p, Alone(row), moves).Some?
    ensures FollowsLineage(p, RowSnapshot(row), moves, Interleave(p, Alone(row), moves).value)
  {
    if moves != [] {
      var s := Interleave(p, Alone(row), Front(moves)).value;
      RowFollowsLineage(p, row, Front(moves));
      InterleavingKeepsRowsValid(p, row, Front(moves));
      MoveFollowsLineage(p, RowSnapshot(row), moves, s);
    }
  }

  /** As long as saves are fresh, nothing that was saved is missing from the lineage. */
  lemma {:induction false} FreshLineage(moves: seq<LoginMove>, i: int)
    requires FreshSaves(moves)
    ensures Lineage(moves) == SavedOps(moves)
    ensures !Stale(moves, i) ==> OpsRead(moves, i) == SavedOps(moves)
  {
    if moves != [] {
      FreshLineage(Front(moves), i);
      if Last(moves).Save? {
        FreshLineage(Front(moves), Last(moves).login);
      }
    }
  }

  /** The outbox, with the pending events of a login that is not stale, is the aggregate's log. */
  ghost predicate OutboxFollows(p: Policies, s0: CredentialSnapshot, moves: seq<LoginMove>, s: Shared) {
    && s.outbox == Exec(p, s0, Lineage(moves)).log
    && forall i :: i in s.copies && !Stale(moves, i) ==>
         s.outbox + s.copies[i].pending == Exec(p, s0, CopyOps(moves, i)).log
  }

  /** The work of one login extends the log that its pending events complete. */
  lemma WorkExtendsLog(p: Policies, s0: CredentialSnapshot, outbox: seq<CredentialEvent>, c: Copy, ops: seq<Op>, op: Op)
    requires c.state == Exec(p, s0, ops).final && outbox + c.pending == Exec(p, s0, ops).log
    ensures outbox + Worked(p, c, op).pending == Exec(p, s0, ops + [op]).log
  {
    var step := Apply(p, c.state, op);
    ExecSnoc(p, s0, ops, op);
    assert outbox + (c.pending + step.emitted) == (outbox + c.pending) + step.emitted;
  }

  lemma {:induction false} MoveExtendsOutbox(p: Policies, s0: CredentialSnapshot, moves: seq<LoginMove>, s: Shared,
                                             s': Shared)
    requires moves != [] && Allowed(s, Last(moves)) && s' == Moved(p, s, Last(moves))
    requires FreshSaves(moves) && FollowsLineage(p, s0, Front(moves), s) && OutboxFollows(p, s0, Front(moves), s)
    ensures OutboxFollows(p, s0, moves, s')
  {
    var m, before := Last(moves), Front(moves);
    forall i | i in s'.copies && !Stale(moves, i)
      ensures s'.outbox + s'.copies[i].pending == Exec(p, s0, CopyOps(moves, i)).log
    {
      CopyOpsAfter(moves, i);
      if m.Read? && i == m.login {
        assert s.outbox + [] == s.outbox;
      } else if m.Work? && i == m.login {
        assert Descends(p, s0, s.copies[i].state, CopyOps(before, i));
        WorkExtendsLog(p, s0, s.outbox, s.copies[i], CopyOps(before, i), m.op);
      } else {
        assert CopyOps(before, i) + [] == CopyOps(before, i);
      }
    }
  }

  lemma {:induction false} FreshOutbox(p: Policies, row: CredentialRow, moves: seq<LoginMove>)
    requires p.Valid() && Loadable(row) && LockInOrder(p, row.lock)
    requires Interleave(p, Alone(row), moves).Some? && FreshSaves(moves)
    ensures OutboxFollows(p, RowSnapshot(row), moves, Interleave(p, Alone(row), moves).value)
  {
    if moves != [] {
      var s := Interleave(p, Alone(row), Front(moves)).value;
      FreshOutbox(p, row, Front(moves));
      RowFollowsLineage(p, row, Front(moves));
      MoveExtendsOutbox(p, RowSnapshot(row), moves, s, Moved(p, s, Last(moves)));
    }
  }

  /**
   If no save falls between a login's read and its own save, the row and the
   outbox are those of the aggregate under the operations of the logins that
   saved, in the order of their saves: the interleaving is a serial run.
   */
  lemma FreshSavesAreSerial(p: Policies, row: CredentialRow, moves: seq<LoginMove>)
    requires p.Valid() && Loadable(row) && LockInOrder(p, row.lock)
    requires Interleave(p, Alone(row), moves).Some? && FreshSaves(moves)
    ensures var s := Interleave(p, Alone(row), moves).value;
            var t := Exec(p, RowSnapshot(row), SavedOps(moves));
            LoginOps(SavedOps(moves)) && RowSnapshot(s.row) == t.final && s.outbox == t.log
  {
    RowFollowsLineage(p, row, moves);
    FreshOutbox(p, row, moves);
    FreshLineage(moves, 0);
  }

  /**
   So the theorems about runs carry over: from a new credential the stored
   counter is the trailing cluster of the failures in the lineage, which with
   fresh saves are all that were saved; and then the outbox replays to the lock.
   */
  lemma InterleavedCounterRefinesLog(p: Policies, row: CredentialRow, moves: seq<LoginMove>)
    requires p.Valid() && Loadable(row) && row.lock == NO_LOCKOUT && Interleave(p, Alone(row), moves).Some?
    ensures var lock := Interleave(p, Alone(row), moves).value.row.lock;
            && CounterAgrees(p, lock, SinceCleared(Marks(p, RowSnapshot(row), Lineage(moves))))
            && (FreshSaves(moves) ==>
                && CounterAgrees(p, lock, SinceCleared(Marks(p, RowSnapshot(row), SavedOps(moves))))
                && Replay(View(NO_LOCKOUT), Interleave(p, Alone(row), moves).value.outbox) == View(lock))
  {
    var s0 := RowSnapshot(row);
    RowFollowsLineage(p, row, moves);
    CounterRefinesLog(p, s0, Lineage(moves));
    if FreshSaves(moves) {
      FreshLineage(moves, 0);
      FreshSavesAreSerial(p, row, moves);
      LogDeterminesLock(p, s0, SavedOps(moves));
    }
  }

  // ------------------------------------------------------------------------
  // Logins that all read before any of them saves.
  // ------------------------------------------------------------------------

  /** Logins 0, 1, ..., n - 1 read. */
  function ReadMoves(n: nat): seq<LoginMove> {
    if n == 0 then [] else ReadMoves(n - 1) + [Read(n - 1)]
  }

  /** As many logins as operations read, and the first `k` of them do their operation. */
  function WorkMoves(ops: seq<Op>, k: nat): seq<LoginMove>
    requires k <= |ops|
  {
    if k == 0 then ReadMoves(|ops|) else WorkMoves(ops, k - 1) + [Work(k - 1, ops[k - 1])]
  }

  /** How login `i` ends when it read lock `l`: the lock refuses it or it saves. */
  function EndMove(l: Lockout, op: Op, i: int): LoginMove {
    if IsLocked(l, op.now) then Leave(i) else Save(i)
  }

  /** All of them do, and the first `k` of them end. */
  function EndMoves(l: Lockout, ops: seq<Op>, k: nat): seq<LoginMove>
    requires k <= |ops|
  {
    if k == 0 then WorkMoves(ops, |ops|) else EndMoves(l, ops, k - 1) + [EndMove(l, ops[k - 1], k - 1)]
  }

  /** Logins that all read lock `l`, then all work, then end one after the other. */
  function Overlap(l: Lockout, ops: seq<Op>): seq<LoginMove> {
    EndMoves(l, ops, |ops|)
  }

  /** The operations that lock `l` does not refuse. */
  function Accepted(l: Lockout, ops: seq<Op>): seq<Op> {
    if ops == [] then [] else Accepted(l, Front(ops)) + if IsLocked(l, Last(ops).now) then [] else [Last(ops)]
  }

  /** A login operation is refused exactly while the lock holds. */
  lemma RefusedIffLocked(p: Policies, s: CredentialSnapshot, op: Op)
    requires p.Valid() && LoginOp(op)
    ensures Apply(p, s, op).err.Some? <==> IsLocked(s.lock, op.now)
  {
  }

  lemma InterleaveSnoc(p: Policies, s: Shared, moves: seq<LoginMove>, m: LoginMove)
    requires Interleave(p, s, moves).Some? && Allowed(Interleave(p, s, moves).value, m)
    ensures Interleave(p, s, moves + [m]) == Some(Moved(p, Interleave(p, s, moves).value, m))
  {
    assert Front(moves + [m]) == moves;
  }

  ghost function Mid(p: Policies, row: CredentialRow, op: Op): Copy {
    Worked(p, Loaded(row), op)
  }

  /** Logins `saved` to `n - 1` hold a copy: the first `k` of all have done their operation. */
  ghost predicate Holding(p: Policies, row: CredentialRow, ops: seq<Op>, copies: map<int, Copy>, saved: nat, k: nat,
                          n: nat) {
    && k <= |ops| && k <= n
    && (forall i :: i in copies <==> saved <= i < n)
    && (forall i :: saved <= i < n && i < k ==> copies[i] == Mid(p, row, ops[i]))
    && (forall i :: saved <= i < n && i >= k ==> copies[i] == Loaded(row))
  }

  /** What each of the operations emits on its own, one after the other. */
  ghost function EmittedAlone(p: Policies, s: CredentialSnapshot, ops: seq<Op>): seq<CredentialEvent> {
    if ops == [] then [] else EmittedAlone(p, s, Front(ops)) + Apply(p, s, Last(ops)).emitted
  }

  lemma {:induction false} AllRead(p: Policies, row: CredentialRow, n: nat)
    requires Loadable(row)
    ensures var after := Interleave(p, Alone(row), ReadMoves(n));
            && after.Some? && after.value == Shared(row, [], after.value.copies)
            && Holding(p, row, [], after.value.copies, 0, 0, n)
  {
    if n > 0 {
      AllRead(p, row, n - 1);
      InterleaveSnoc(p, Alone(row), ReadMoves(n - 1), Read(n - 1));
    }
  }

  lemma OneMoreWork(p: Policies, row: CredentialRow, ops: seq<Op>, s: Shared, k: nat)
    requires LoginOps(ops) && 1 <= k <= |ops| && Holding(p, row, ops, s.copies, 0, k - 1, |ops|)
    ensures Allowed(s, Work(k - 1, ops[k - 1]))
    ensures var s' := Moved(p, s, Work(k - 1, ops[k - 1]));
            s'.row == s.row && s'.outbox == s.outbox && Holding(p, row, ops, s'.copies, 0, k, |ops|)
  {
    assert s.copies[k - 1] == Loaded(row);
  }

  lemma {:induction false} AllWork(p: Policies, row: CredentialRow, ops: seq<Op>, k: nat)
    requires Loadable(row) && LoginOps(ops) && k <= |ops|
    ensures var after := Interleave(p, Alone(row), WorkMoves(ops, k));
            && after.Some? && after.value == Shared(row, [], after.value.copies)
            && Holding(p, row, ops, after.value.copies, 0, k, |ops|)
  {
    if k == 0 {
      AllRead(p, row, |ops|);
    } else {
      AllWork(p, row, ops, k - 1);
      OneMoreWork(p, row, ops, Interleave(p, Alone(row), WorkMoves(ops, k - 1)).value, k);
      InterleaveSnoc(p, Alone(row), WorkMoves(ops, k - 1), Work(k - 1, ops[k - 1]));
    }
  }

  lemma MidState(p: Policies, row: CredentialRow, row': CredentialRow, op: Op)
    requires LoginOp(op) && row' == row.(lock := row'.lock)
    ensures var lock := Apply(p, RowSnapshot(row), op).next.lock;
            SaveColumns(row', Mid(p, row, op).state) == row.(lock := lock)
    ensures Mid(p, row, op).pending == Apply(p, RowSnapshot(row), op).emitted
  {
    LoginStepIgnoresSecret(p, RowSnapshot(row), RowSnapshot(row), op);
  }

  /** The row when logins with these operations have saved, each having read `row`. */
  ghost function RowAfter(p: Policies, row: CredentialRow, saved: seq<Op>): CredentialRow {
    if saved == [] then row else row.(lock := Apply(p, RowSnapshot(row), Last(saved)).next.lock)
  }

  /** What the overlap has stored by the time the first `k` logins have ended. */
  ghost predicate Stores(p: Policies, row: CredentialRow, ops: seq<Op>, k: nat, s: Shared) {
    && k <= |ops| && s.row == RowAfter(p, row, Accepted(row.lock, ops[..k]))
    && s.outbox == EmittedAlone(p, RowSnapshot(row), Accepted(row.lock, ops[..k]))
    && Holding(p, row, ops, s.copies, k, |ops|, |ops|)
  }

  lemma AcceptedSnoc(l: Lockout, ops: seq<Op>, k: nat)
    requires 1 <= k <= |ops|
    ensures Accepted(l, ops[..k]) ==
            if IsLocked(l, ops[k - 1].now) then Accepted(l, ops[..k - 1]) else Accepted(l, ops[..k - 1]) + [ops[k - 1]]
  {
    assert Front(ops[..k]) == ops[..k - 1];
  }

  /** Ending a login takes its copy and no other. */
  lemma HoldingOneLess(p: Policies, row: CredentialRow, ops: seq<Op>, copies: map<int, Copy>, k: nat)
    requires 1 <= k <= |ops| && Holding(p, row, ops, copies, k - 1, |ops|, |ops|)
    ensures k - 1 in copies && copies[k - 1] == Mid(p, row, ops[k - 1])
    ensures Holding(p, row, ops, copies - {k - 1}, k, |ops|, |ops|)
  {
  }

  lemma OneMoreSave(p: Policies, row: CredentialRow, ops: seq<Op>, s: Shared, k: nat)
    requires p.Valid() && LoginOps(ops) && 1 <= k <= |ops| && Stores(p, row, ops, k - 1, s)
    requires !IsLocked(row.lock, ops[k - 1].now)
    ensures Allowed(s, Save(k - 1)) && Stores(p, row, ops, k, Moved(p, s, Save(k - 1)))
  {
    var op, saved := ops[k - 1], Accepted(row.lock, ops[..k - 1]);
    HoldingOneLess(p, row, ops, s.copies, k);
    AcceptedSnoc(row.lock, ops, k);
    RefusedIffLocked(p, RowSnapshot(row), op);
    MidState(p, row, s.row, op);
    assert Front(saved + [op]) == saved;
  }

  lemma OneMoreLeave(p: Policies, row: CredentialRow, ops: seq<Op>, s: Shared, k: nat)
    requires 1 <= k <= |ops| && Stores(p, row, ops, k - 1, s) && IsLocked(row.lock, ops[k - 1].now)
    ensures Allowed(s, Leave(k - 1)) && Stores(p, row, ops, k, Moved(p, s, Leave(k - 1)))
  {
    HoldingOneLess(p, row, ops, s.copies, k);
    AcceptedSnoc(row.lock, ops, k);
  }

  lemma {:induction false} AllEnd(p: Policies, row: CredentialRow, ops: seq<Op>, k: nat)
    requires p.Valid() && Loadable(row) && LoginOps(ops) && k <= |ops|
    ensures var after := Interleave(p, Alone(row), EndMoves(row.lock, ops, k));
            after.Some? && Stores(p, row, ops, k, after.value)
  {
    if k == 0 {
      AllWork(p, row, ops, |ops|);
    } else {
      var before := EndMoves(row.lock, ops, k - 1);
      AllEnd(p, row, ops, k - 1);
      var s := Interleave(p, Alone(row), before).value;
      if IsLocked(row.lock, ops[k - 1].now) {
        OneMoreLeave(p, row, ops, s, k);
      } else {
        OneMoreSave(p, row, ops, s, k);
      }
      InterleaveSnoc(p, Alone(row), before, EndMove(row.lock, ops[k - 1], k - 1));
    }
  }

  lemma NobodyLeft(p: Policies, row: CredentialRow, ops: seq<Op>, copies: map<int, Copy>)
    requires Holding(p, row, ops, copies, |ops|, |ops|, |ops|)
    ensures copies == map[]
  {
    assert forall i :: i !in copies;
  }

  /**
   However many logins overlap, the last save wins: of those the lock does not
   refuse, the row is what the last alone would have stored, while the outbox
   holds what each of them emitted.
   */
  lemma LastSaveWins(p: Policies, row: CredentialRow, ops: seq<Op>)
    requires p.Valid() && Loadable(row) && LoginOps(ops)
    ensures var saved := Accepted(row.lock, ops);
            Interleave(p, Alone(row), Overlap(row.lock, ops)) ==
            Some(Shared(RowAfter(p, row, saved), EmittedAlone(p, RowSnapshot(row), saved), map[]))
  {
    AllEnd(p, row, ops, |ops|);
    assert ops[..|ops|] == ops;
    NobodyLeft(p, row, ops, Interleave(p, Alone(row), Overlap(row.lock, ops)).value.copies);
  }

  // ------------------------------------------------------------------------
  // What overlapping costs.
  // ------------------------------------------------------------------------

  /** What a login that saves has done: a counted failure or a success. */
  predicate Decides(op: Op) {
    op.Fail? || op.Succeed?
  }

  /** Two decisions on an unlocked lock `l` whose overlap ends as they would have in sequence. */
  predicate Commutes(p: Policies, l: Lockout, first: Op, second: Op) {
    if first.Succeed? then
      second.Succeed? || l.failedAttemptCount == 0 || StreakBroken(l, p.lockout, second.now)
    else if second.Succeed? then
      !Trips(l, p.lockout, first.now)
    else if Trips(l, p.lockout, first.now) then
      first.now == second.now
    else if second.now - first.now > p.lockout.window then
      l.failedAttemptCount == 0 || StreakBroken(l, p.lockout, second.now)
    else
      l.failedAttemptCount == 1 && StreakBroken(l, p.lockout, first.now) && !StreakBroken(l, p.lockout, second.now)
  }

  /**
   Overlapping decisions lose nothing: the lock refuses the first; or it refuses
   only the second, whose clock is behind, and in sequence that one would have
   changed nothing; or it refuses neither and they commute.
   */
  predicate LosesNothing(p: Policies, l: Lockout, first: Op, second: Op) {
    if IsLocked(l, first.now) then true
    else if IsLocked(l, second.now) then (if first.Succeed? then second.Succeed? else p.lockout.threshold == 1)
    else Commutes(p, Settled(l, first.now), first, second)
  }

  /** The lock two overlapping logins leave, of which only those that are not refused save. */
  function OverlapLock(p: Policies, l: Lockout, first: Op, second: Op): Lockout {
    if !IsLocked(l, second.now) then LockAfter(p, l, second)
    else if !IsLocked(l, first.now) then LockAfter(p, l, first)
    else l
  }

  lemma UnlockedCommute(p: Policies, l: Lockout, first: Op, second: Op)
    requires p.Valid() && LockInOrder(p, l) && l.status.Unlocked? && Decides(first) && Decides(second)
    ensures LockAfter(p, l, second) == LockAfter(p, LockAfter(p, l, first), second) <==> Commutes(p, l, first, second)
  {
  }

  lemma LocksCommute(p: Policies, l: Lockout, first: Op, second: Op)
    requires p.Valid() && LockInOrder(p, l) && Decides(first) && Decides(second)
    ensures OverlapLock(p, l, first, second) == LockAfter(p, LockAfter(p, l, first), second)
            <==> LosesNothing(p, l, first, second)
  {
    if !IsLocked(l, first.now) && !IsLocked(l, second.now) {
      UnlockedCommute(p, Settled(l, first.now), first, second);
    }
  }

  lemma OverlapStoresLock(p: Policies, row: CredentialRow, first: Op, second: Op)
    requires p.Valid() && Loadable(row) && Decides(first) && Decides(second)
    ensures var after := Interleave(p, Alone(row), Overlap(row.lock, [first, second]));
            after.Some? && after.value.row.lock == OverlapLock(p, row.lock, first, second)
  {
    LastSaveWins(p, row, [first, second]);
    assert Front([first, second]) == [first] && Front([first]) == [];
    assert Accepted(row.lock, [first]) == if IsLocked(row.lock, first.now) then [] else [first];
    StepOnLock(p, RowSnapshot(row), first);
    StepOnLock(p, RowSnapshot(row), second);
  }

  lemma TwoSteps(p: Policies, s: CredentialSnapshot, first: Op, second: Op)
    requires p.Valid()
    ensures Exec(p, s, [first, second]).final.lock == LockAfter(p, LockAfter(p, s.lock, first), second)
  {
    assert Front([first, second]) == [first] && Front([first]) == [];
    assert Exec(p, s, []).final == s;
    assert Exec(p, s, [first]).final == Apply(p, s, first).next;
    StepOnLock(p, s, first);
    StepOnLock(p, Apply(p, s, first).next, second);
  }

  /** What one login on its own stores. */
  lemma OneLoginStores(p: Policies, row: CredentialRow, op: Op)
    requires p.Valid() && Loadable(row) && LockInOrder(p, row.lock) && Decides(op)
    ensures var after := Interleave(p, Alone(row), Overlap(row.lock, [op]));
            && after.Some? && after.value.row.lock == LockAfter(p, row.lock, op)
            && Loadable(after.value.row) && LockInOrder(p, after.value.row.lock)
  {
    LastSaveWins(p, row, [op]);
    assert Front([op]) == [];
    assert Accepted(row.lock, [op]) == if IsLocked(row.lock, op.now) then [] else [op];
    StepOnLock(p, RowSnapshot(row), op);
    InterleavingKeepsRowsValid(p, row, Overlap(row.lock, [op]));
  }

  /** Logins one after the other store what the aggregate makes of both operations, a refused one included. */
  lemma SequenceStores(p: Policies, row: CredentialRow, first: Op, second: Op)
    requires p.Valid() && Loadable(row) && LockInOrder(p, row.lock) && Decides(first) && Decides(second)
    ensures var once := Interleave(p, Alone(row), Overlap(row.lock, [first]));
            && once.Some?
            && var twice := Interleave(p, Alone(once.value.row), Overlap(once.value.row.lock, [second]));
               twice.Some? && twice.value.row.lock == Exec(p, RowSnapshot(row), [first, second]).final.lock
  {
    OneLoginStores(p, row, first);
    OneLoginStores(p, Interleave(p, Alone(row), Overlap(row.lock, [first])).value.row, second);
    TwoSteps(p, RowSnapshot(row), first, second);
  }

  /**
   Two overlapping logins store what they would have stored one after the other,
   exactly when the guard holds, whatever the lock and the times.
   */
  lemma OverlapAgreesIff(p: Policies, row: CredentialRow, first: Op, second: Op)
    requires p.Valid() && Loadable(row) && LockInOrder(p, row.lock) && Decides(first) && Decides(second)
    ensures var after := Interleave(p, Alone(row), Overlap(row.lock, [first, second]));
            && after.Some?
            && (after.value.row.lock == Exec(p, RowSnapshot(row), [first, second]).final.lock
                <==> LosesNothing(p, row.lock, first, second))
  {
    OverlapStoresLock(p, row, first, second);
    TwoSteps(p, RowSnapshot(row), first, second);
    LocksCommute(p, row.lock, first, second);
  }

  ghost predicate AllFail(ops: seq<Op>) {
    forall i :: 0 <= i < |ops| ==> ops[i].Fail?
  }

  lemma {:induction false} EachFailureReported(p: Policies, s: CredentialSnapshot, ops: seq<Op>)
    requires p.Valid() && AllFail(ops) && s.lock.status.Unlocked?
    ensures CountFailed(EventMarks(EmittedAlone(p, s, ops))) == |ops|
  {
    if ops != [] {
      EachFailureReported(p, s, Front(ops));
      FailMarks(p, s, Last(ops));
      var before, step := EmittedAlone(p, s, Front(ops)), Apply(p, s, Last(ops)).emitted;
      assert EventMarks(step) + [] == EventMarks(step);
      EventMarksAppend(before, step);
      CountFailedSnoc(EventMarks(before), Failed(Last(ops).now));
    }
  }

  lemma {:induction false} UnlockedAcceptsAll(l: Lockout, ops: seq<Op>)
    requires l.status.Unlocked?
    ensures Accepted(l, ops) == ops
  {
    if ops != [] {
      UnlockedAcceptsAll(l, Front(ops));
    }
  }

  /** However many failures overlap, all of them are reported and one is counted. */
  lemma OverlappingFailuresCountOnce(p: Policies, row: CredentialRow, fails: seq<Op>)
    requires p.Valid() && Loadable(row) && row.lock.status.Unlocked? && AllFail(fails) && fails != []
    ensures var after := Interleave(p, Alone(row), Overlap(row.lock, fails));
            && after.Some?
            && after.value.row.lock == Struck(row.lock, p.lockout, Last(fails).now)
            && CountFailed(EventMarks(after.value.outbox)) == |fails|
  {
    LastSaveWins(p, row, fails);
    UnlockedAcceptsAll(row.lock, fails);
    StepOnLock(p, RowSnapshot(row), Last(fails));
    EachFailureReported(p, RowSnapshot(row), fails);
  }

  /**
   So no bound on counted failures holds of overlapping attempts: against a new
   credential any number of them leave the account of a single failure, and the
   account balances only for one.
   */
  lemma OverlapEvadesAccount(p: Policies, row: CredentialRow, fails: seq<Op>)
    requires p.Valid() && Loadable(row) && row.lock == NO_LOCKOUT && AllFail(fails) && fails != []
    ensures var after := Interleave(p, Alone(row), Overlap(row.lock, fails));
            && after.Some?
            && CountFailed(EventMarks(after.value.outbox)) == |fails|
            && after.value.row.lock.failedAttemptCount == 1
            && after.value.row.lock.lockoutHistoryCount == (if p.lockout.threshold == 1 then 1 else 0)
            && (Balanced(p, after.value.row.lock, CountFailed(EventMarks(after.value.outbox)), 0) <==> |fails| == 1)
  {
    OverlappingFailuresCountOnce(p, row, fails);
  }

  /** And a success that read the row before another login's failure locked it stores the credential unlocked again. */
  lemma StaleSuccessUndoesLock(p: Policies, row: CredentialRow, attempt: AttemptContext, now: Time, later: Time)
    requires p.Valid() && Loadable(row) && row.lock.status.Unlocked? && Trips(row.lock, p.lockout, now)
    ensures !Apply(p, RowSnapshot(row), Fail(attempt, now)).next.lock.status.Unlocked?
    ensures var after := Interleave(p, Alone(row), Overlap(row.lock, [Fail(attempt, now), Succeed(later)]));
            after.Some? && after.value.row.lock == Forgiven(row.lock)
  {
    OverlapStoresLock(p, row, Fail(attempt, now), Succeed(later));
    StepOnLock(p, RowSnapshot(row), Fail(attempt, now));
  }
}
