/**
 The stored credential is a run of the aggregate. Every theorem about runs of a
 credential therefore holds of the credentials table and the outbox, over every
 run of serial logins with failures anywhere.
 */
module StoredCredentials {
  import opened Types
  import opened CredentialSpec
  import opened CredentialRuns
  import opened CredentialPersistence
  import SessionSpec
  import opened LoginSpec
  import opened LoginRuns
  import opened Escalation
  import opened LazyUnlock

  /** What a login does to the credential it loads: the lock check, then the outcome of the password. */
  function LoginOn(q: Request): seq<Op> {
    [Verify(q.now), DecidingOp(q)]
  }

  /** The operations a login has committed to credential `k`. */
  ghost function CommittedOps(cfg: Config, q: Request, t: Tables, t': Tables, k: string): seq<Op> {
    var d := Decide(cfg, t, q);
    if (d.Wrong? || d.Verified?) && d.identity == k && Commits(cfg, t, q, d, t') then LoginOn(q) else []
  }

  ghost function OpsOn(cfg: Config, ws: seq<World>, qs: seq<Request>, k: string): seq<Op>
    requires |ws| == |qs| + 1
  {
    if qs == [] then []
    else OpsOn(cfg, Front(ws), Front(qs), k) + CommittedOps(cfg, Last(qs), Last(Front(ws)).tables, Last(ws).tables, k)
  }

  /** The row of credential `k` and its outbox events since `past` are those of a run from `row`. */
  ghost predicate StoresRun(cfg: Config, row: CredentialRow, past: seq<CredentialEvent>, ops: seq<Op>, t: Tables,
                            k: string) {
    var run := Exec(PoliciesOf(cfg), RowSnapshot(row), ops);
    && LoginOps(ops)
    && k in t.credentials && t.credentials[k] == row.(lock := run.final.lock)
    && EventsOf(t.outbox, row.id) == past + run.log
  }

  /** What one login makes of a loaded credential. */
  ghost function LoginEffect(cfg: Config, s: CredentialSnapshot, q: Request): (CredentialSnapshot,
                                                                               seq<CredentialEvent>) {
    var x := Apply(PoliciesOf(cfg), s, LoginOn(q)[0]);
    var y := Apply(PoliciesOf(cfg), x.next, LoginOn(q)[1]);
    (y.next, x.emitted + y.emitted)
  }

  /** A run one login longer. */
  lemma ExecLogin(cfg: Config, s: CredentialSnapshot, ops: seq<Op>, q: Request)
    ensures var before := Exec(PoliciesOf(cfg), s, ops);
            var after := Exec(PoliciesOf(cfg), s, ops + LoginOn(q));
            var (next, events) := LoginEffect(cfg, before.final, q);
            after.final == next && after.log == before.log + events
  {
    var p, a, b := PoliciesOf(cfg), LoginOn(q)[0], LoginOn(q)[1];
    ExecSnoc(p, s, ops, a);
    ExecSnoc(p, s, ops + [a], b);
    assert ops + LoginOn(q) == (ops + [a]) + [b];
    var before := Exec(p, s, ops);
    var x := Apply(p, before.final, a);
    Associate(before.log, x.emitted, Apply(p, x.next, b).emitted);
  }

  /** What a writing decision stores is one login's effect on the credential it loaded. */
  lemma DecisionIsLogin(cfg: Config, t: Tables, q: Request)
    ensures var d := Decide(cfg, t, q);
            d.Wrong? || d.Verified? ==>
              && d.identity in t.credentials
              && (d.next, d.events) == LoginEffect(cfg, RowSnapshot(t.credentials[d.identity]), q)
  {
  }

  /** Reloading the row of a run and logging in continues the run. */
  lemma LoginContinuesRun(cfg: Config, q: Request, row: CredentialRow, ops: seq<Op>, current: CredentialRow)
    requires LoginOps(ops)
    requires current == row.(lock := Exec(PoliciesOf(cfg), RowSnapshot(row), ops).final.lock)
    ensures var (next, events) := LoginEffect(cfg, RowSnapshot(current), q);
            var run := Exec(PoliciesOf(cfg), RowSnapshot(row), ops);
            var run' := Exec(PoliciesOf(cfg), RowSnapshot(row), ops + LoginOn(q));
            run'.final == next && run'.log == run.log + events
  {
    SameOwner(PoliciesOf(cfg), RowSnapshot(row), ops);
    assert RowSnapshot(current) == Exec(PoliciesOf(cfg), RowSnapshot(row), ops).final;
    ExecLogin(cfg, RowSnapshot(row), ops, q);
  }

  /** A commit for `k` itself: the run grows by one login. */
  lemma OwnCommit(cfg: Config, q: Request, row: CredentialRow, past: seq<CredentialEvent>, ops: seq<Op>, t: Tables,
                  next: CredentialSnapshot,
                  events: seq<CredentialEvent>, extra: seq<OutboxEvent>, t': Tables, k: string)
    requires WellKept(t.credentials) && StoresRun(cfg, row, past, ops, t, k)
    requires (next, events) == LoginEffect(cfg, RowSnapshot(t.credentials[k]), q)
    requires Faithful(t.credentials[k], next, events) && forall i :: 0 <= i < |extra| ==> extra[i].FromSession?
    requires t'.credentials == SaveCredential(t.credentials, next) && t'.outbox == t.outbox + (Wrap(events) + extra)
    ensures StoresRun(cfg, row, past, ops + LoginOn(q), t', k)
  {
    var p := PoliciesOf(cfg);
    LoginContinuesRun(cfg, q, row, ops, t.credentials[k]);
    CommitStores(row, past, Exec(p, RowSnapshot(row), ops), Exec(p, RowSnapshot(row), ops + LoginOn(q)),
                 t, next, events, extra, t', k);
  }

  /** The row and the events a commit stores for its own credential. */
  lemma CommitStores(row: CredentialRow, past: seq<CredentialEvent>, run: Trace, run': Trace, t: Tables,
                     next: CredentialSnapshot,
                     events: seq<CredentialEvent>, extra: seq<OutboxEvent>, t': Tables, k: string)
    requires WellKept(t.credentials) && k in t.credentials
    requires t.credentials[k] == row.(lock := run.final.lock) && EventsOf(t.outbox, row.id) == past + run.log
    requires run'.final == next && run'.log == run.log + events
    requires Faithful(t.credentials[k], next, events) && forall i :: 0 <= i < |extra| ==> extra[i].FromSession?
    requires t'.credentials == SaveCredential(t.credentials, next) && t'.outbox == t.outbox + (Wrap(events) + extra)
    ensures k in t'.credentials && t'.credentials[k] == row.(lock := run'.final.lock)
    ensures EventsOf(t'.outbox, row.id) == past + run'.log
  {
    SaveIsLocal(t.credentials, k, next, events);
    AppendedEvents(t.outbox, events, extra, row.id, row.id);
    Associate(past, run.log, events);
  }

  lemma {:induction false} SameOwner(p: Policies, s: CredentialSnapshot, ops: seq<Op>)
    requires LoginOps(ops)
    ensures Exec(p, s, ops).final == s.(lock := Exec(p, s, ops).final.lock)
  {
    if ops != [] {
      SameOwner(p, s, Front(ops));
      LoginStepIgnoresSecret(p, Exec(p, s, Front(ops)).final, Exec(p, s, Front(ops)).final, Last(ops));
    }
  }

  /** A commit for another credential leaves the row and the events of `k` as they were. */
  lemma ForeignCommit(cfg: Config, row: CredentialRow, past: seq<CredentialEvent>, ops: seq<Op>, t: Tables,
                      d: Decision, extra: seq<OutboxEvent>, t': Tables, k: string)
    requires WellKept(t.credentials) && StoresRun(cfg, row, past, ops, t, k)
    requires (d.Wrong? || d.Verified?) && d.identity != k && d.identity in t.credentials
    requires Faithful(t.credentials[d.identity], d.next, d.events)
    requires forall i :: 0 <= i < |extra| ==> extra[i].FromSession?
    requires t'.credentials == SaveCredential(t.credentials, d.next) && t'.outbox == t.outbox + (Wrap(d.events) + extra)
    ensures StoresRun(cfg, row, past, ops, t', k)
  {
    SaveIsLocal(t.credentials, d.identity, d.next, d.events);
    assert t.credentials[k].id != t.credentials[d.identity].id;
    AppendedEvents(t.outbox, d.events, extra, t.credentials[d.identity].id, row.id);
  }

  /** The two writes of a commit that concern credentials. */
  lemma CommitShape(cfg: Config, q: Request, t: Tables, d: Decision, t': Tables) returns (extra: seq<OutboxEvent>)
    requires Commits(cfg, t, q, d, t')
    ensures forall i :: 0 <= i < |extra| ==> extra[i].FromSession?
    ensures d.Wrong? || d.Verified?
    ensures t'.credentials == SaveCredential(t.credentials, d.next) && t'.outbox == t.outbox + (Wrap(d.events) + extra)
  {
    if d.Verified? && d.branch.Opens? {
      extra := [FromSession(SessionSpec.CreatedEvent(TermsOf(cfg, q, d.identity).value))];
    } else {
      extra := [];
      assert Wrap(d.events) + [] == Wrap(d.events);
    }
  }

  lemma StepStoresRun(cfg: Config, q: Request, row: CredentialRow, past: seq<CredentialEvent>, ops: seq<Op>,
                      t: Tables, t': Tables, k: string)
    requires cfg.lockout.Valid() && WellKept(t.credentials) && StoresRun(cfg, row, past, ops, t, k)
    requires AllOrNothing(cfg, q, Decide(cfg, t, q), t, t')
    ensures StoresRun(cfg, row, past, ops + CommittedOps(cfg, q, t, t', k), t', k)
  {
    var d := Decide(cfg, t, q);
    assert ops + [] == ops;
    if Commits(cfg, t, q, d, t') {
      var extra := CommitShape(cfg, q, t, d, t');
      DecisionFaithful(cfg, t, q);
      if d.identity == k {
        DecisionIsLogin(cfg, t, q);
        OwnCommit(cfg, q, row, past, ops, t, d.next, d.events, extra, t', k);
      } else {
        ForeignCommit(cfg, row, past, ops, t, d, extra, t', k);
      }
    }
  }

  /** The events of credential `k` that were in the outbox before the run. */
  function PastOf(t: Tables, k: string): seq<CredentialEvent>
    requires k in t.credentials
  {
    EventsOf(t.outbox, t.credentials[k].id)
  }

  /**
   Over every run of serial logins, with failures anywhere, each stored
   credential is what the full sequence of its committed logins makes of the
   first row, and what the outbox has gained of its events is exactly what that
   sequence emits.
   */
  lemma {:induction false} StoredCredentialIsARun(cfg: Config, ws: seq<World>, qs: seq<Request>, outs: seq<Outcome>,
                                                  k: string)
    requires cfg.lockout.Valid() && LoginRun(cfg, ws, qs, outs)
    requires WellKept(ws[0].tables.credentials) && k in ws[0].tables.credentials
    ensures StoresRun(cfg, ws[0].tables.credentials[k], PastOf(ws[0].tables, k), OpsOn(cfg, ws, qs, k),
                      Last(ws).tables, k)
  {
    var row, past := ws[0].tables.credentials[k], PastOf(ws[0].tables, k);
    if qs == [] {
      assert past + [] == past;
    } else {
      ShorterRun(cfg, ws, qs, outs);
      StoredCredentialIsARun(cfg, Front(ws), Front(qs), Front(outs), k);
      RunsKeepRows(cfg, Front(ws), Front(qs), Front(outs));
      var w, w' := Last(Front(ws)), Last(ws);
      LoginIsAllOrNothing(cfg, Last(qs), false, w, w', Last(outs));
      StepStoresRun(cfg, Last(qs), row, past, OpsOn(cfg, Front(ws), Front(qs), k), w.tables, w'.tables, k);
    }
  }

  /** So the stored counter is the trailing cluster of the failures committed since the last success or unlock. */
  lemma StoredCounterRefinesLog(cfg: Config, ws: seq<World>, qs: seq<Request>, outs: seq<Outcome>, k: string)
    requires cfg.lockout.Valid() && LoginRun(cfg, ws, qs, outs)
    requires WellKept(ws[0].tables.credentials) && k in ws[0].tables.credentials
    requires ws[0].tables.credentials[k].lock == NO_LOCKOUT
    ensures k in Last(ws).tables.credentials
    ensures var marks := Marks(PoliciesOf(cfg), RowSnapshot(ws[0].tables.credentials[k]), OpsOn(cfg, ws, qs, k));
            CounterAgrees(PoliciesOf(cfg), Last(ws).tables.credentials[k].lock, SinceCleared(marks))
  {
    StoredCredentialIsARun(cfg, ws, qs, outs, k);
    CounterRefinesLog(PoliciesOf(cfg), RowSnapshot(ws[0].tables.credentials[k]), OpsOn(cfg, ws, qs, k));
  }

  /** And the lock events the outbox has gained escalate tier by tier, as many as the stored count says. */
  lemma OutboxLocksEscalate(cfg: Config, ws: seq<World>, qs: seq<Request>, outs: seq<Outcome>, k: string)
    requires cfg.lockout.Valid() && LoginRun(cfg, ws, qs, outs)
    requires WellKept(ws[0].tables.credentials) && k in ws[0].tables.credentials
    requires ws[0].tables.credentials[k].lock == NO_LOCKOUT
    ensures var past := PastOf(ws[0].tables, k);
            var events := EventsOf(Last(ws).tables.outbox, ws[0].tables.credentials[k].id);
            && past <= events
            && var locks := Locks(events[|past|..]);
               && Escalates(PoliciesOf(cfg), locks)
               && k in Last(ws).tables.credentials && |locks| == Last(ws).tables.credentials[k].lock.lockoutHistoryCount
               && |locks| <= |cfg.lockout.temporary| + 1
  {
    var p, s, ops := PoliciesOf(cfg), RowSnapshot(ws[0].tables.credentials[k]), OpsOn(cfg, ws, qs, k);
    StoredCredentialIsARun(cfg, ws, qs, outs, k);
    LocksEscalate(p, s, ops);
    assert NoAdminUnlock(ops);
    LocksAreBounded(p, s, ops);
    var past := PastOf(ws[0].tables, k);
    assert (past + Exec(p, s, ops).log)[|past|..] == Exec(p, s, ops).log;
  }
}
