/** What every run of logins keeps, whatever calls fail on the way. */
module LoginRuns {
  import opened Types
  import opened CredentialSpec
  import opened CredentialRuns
  import opened CredentialPersistence
  import opened SessionSpec
  import opened LoginSpec

  /** A run of logins, one after the other; any of their calls may have failed. */
  ghost predicate LoginRun(cfg: Config, ws: seq<World>, qs: seq<Request>, outs: seq<Outcome>) {
    && |ws| == |qs| + 1 && |outs| == |qs|
    && forall i :: 0 <= i < |qs| ==> LoginStep(cfg, qs[i], false, ws[i], ws[i + 1], outs[i])
  }

  /** A run without its last login. */
  lemma ShorterRun(cfg: Config, ws: seq<World>, qs: seq<Request>, outs: seq<Outcome>)
    requires LoginRun(cfg, ws, qs, outs) && qs != []
    ensures LoginRun(cfg, Front(ws), Front(qs), Front(outs))
    ensures LoginStep(cfg, Last(qs), false, Last(Front(ws)), Last(ws), Last(outs))
  {
    assert LoginStep(cfg, qs[|qs| - 1], false, ws[|qs| - 1], ws[|qs| - 1 + 1], outs[|qs| - 1]);
    forall i | 0 <= i < |qs| - 1
      ensures LoginStep(cfg, Front(qs)[i], false, Front(ws)[i], Front(ws)[i + 1], Front(outs)[i])
    {
      assert LoginStep(cfg, qs[i], false, ws[i], ws[i + 1], outs[i]);
    }
  }

  // ------------------------------------------------------------------------
  // All or nothing.
  // ------------------------------------------------------------------------

  /** An attempt row of a login that changed nothing else. */
  predicate IsAuditOnly(row: AttemptRow) {
    && (row.outcome.RateLimitedOutcome? || row.outcome.LockedOutcome? || row.outcome.FailedCredentials?)
    && row.session.None?
  }

  ghost predicate AuditOnly(t: Tables, t': Tables) {
    t'.attempts != [] && IsAuditOnly(Last(t'.attempts)) && t' == t.(attempts := t.attempts + [Last(t'.attempts)])
  }

  /** Nothing, one audit row, or the whole commit that decision `d` calls for. */
  ghost predicate AllOrNothing(cfg: Config, q: Request, d: Decision, t: Tables, t': Tables) {
    t' == t || AuditOnly(t, t') || Commits(cfg, t, q, d, t')
  }

  lemma LoginIsAllOrNothing(cfg: Config, q: Request, quiet: bool, w: World, w': World, out: Outcome)
    requires LoginStep(cfg, q, quiet, w, w', out)
    ensures AllOrNothing(cfg, q, Decide(cfg, w.tables, q), w.tables, w'.tables)
    ensures quiet && out.SystemError? ==>
            w' == w && (Decide(cfg, w.tables, q).Unreadable? || Blocked(cfg, w.tables, q, Decide(cfg, w.tables, q)))
    ensures out.Completed? || out.MfaRequired? || out.PasswordChangeRequired? ==>
            Commits(cfg, w.tables, q, Decide(cfg, w.tables, q), w'.tables)
  {
  }

  // ------------------------------------------------------------------------
  // Attempts, sessions, families and tokens stay in step.
  // ------------------------------------------------------------------------

  /** The sessions named by SUCCEEDED attempts, in order. */
  function SucceededIds(attempts: seq<AttemptRow>): seq<Option<string>> {
    if attempts == [] then []
    else SucceededIds(Front(attempts)) + if Last(attempts).outcome.Succeeded? then [Last(attempts).session] else []
  }

  /** SUCCEEDED attempts and sessions correspond one to one. */
  ghost predicate AttemptsMatchSessions(t: Tables) {
    var ids := SucceededIds(t.attempts);
    && NoDuplicates(ids)
    && (forall i :: 0 <= i < |ids| ==> ids[i].Some? && ids[i].value in t.sessions)
    && (forall id :: id in t.sessions ==> Some(id) in ids)
  }

  /** Sessions and token families correspond one to one. */
  ghost predicate FamiliesMatchSessions(t: Tables) {
    && (forall f :: f in t.families ==> t.families[f].session in t.sessions)
    && (forall f, g :: f in t.families && g in t.families && t.families[f].session == t.families[g].session ==> f == g)
    && (forall id :: id in t.sessions ==> exists f :: f in t.families && t.families[f].session == id)
  }

  /** Token families and refresh tokens correspond one to one. */
  ghost predicate TokensMatchFamilies(t: Tables) {
    && (forall h :: h in t.tokens ==> t.tokens[h].family in t.families)
    && (forall h, g :: h in t.tokens && g in t.tokens && t.tokens[h].family == t.tokens[g].family ==> h == g)
    && (forall f :: f in t.families ==> exists h :: h in t.tokens && t.tokens[h].family == f)
  }

  ghost predicate InStep(t: Tables) {
    AttemptsMatchSessions(t) && FamiliesMatchSessions(t) && TokensMatchFamilies(t)
  }

  lemma SucceededSnoc(attempts: seq<AttemptRow>, row: AttemptRow)
    ensures SucceededIds(attempts + [row]) ==
            SucceededIds(attempts) + if row.outcome.Succeeded? then [row.session] else []
  {
    assert Front(attempts + [row]) == attempts;
  }

  /** Which tables a whole commit of a session extends, and by what. */
  lemma SessionCommitKeys(cfg: Config, q: Request, d: Decision, t: Tables, t': Tables)
    requires CommitsSession(cfg, t, q, d, t')
    ensures t'.sessions.Keys == t.sessions.Keys + {q.sessionId}
    ensures t'.families == t.families[q.familyId := Family(q.sessionId, d.identity)]
    ensures q.tokenHash in t'.tokens && t'.tokens == t.tokens[q.tokenHash := t'.tokens[q.tokenHash]]
    ensures t'.tokens[q.tokenHash].family == q.familyId
    ensures t'.attempts == t.attempts + [AttemptOf(q, Some(d.identity), Succeeded, Some(q.sessionId))]
  {
    EvictionKeepsKeys(cfg, t.sessions, d.identity, q.client, q.now, t'.sessions - {q.sessionId});
  }

  lemma SessionCommitMatchesAttempts(q: Request, d: Decision, t: Tables, t': Tables)
    requires d.Verified? && AttemptsMatchSessions(t) && q.sessionId !in t.sessions
    requires t'.sessions.Keys == t.sessions.Keys + {q.sessionId}
    requires t'.attempts == t.attempts + [AttemptOf(q, Some(d.identity), Succeeded, Some(q.sessionId))]
    ensures AttemptsMatchSessions(t')
  {
    var ids := SucceededIds(t.attempts);
    SucceededSnoc(t.attempts, AttemptOf(q, Some(d.identity), Succeeded, Some(q.sessionId)));
    var ids' := SucceededIds(t'.attempts);
    assert ids' == ids + [Some(q.sessionId)];
    assert forall x :: x in t'.sessions ==> x in t.sessions || x == q.sessionId;
    assert ids'[|ids|] == Some(q.sessionId);
    assert forall x :: x in ids ==> x in ids';
  }

  lemma SessionCommitMatchesFamilies(q: Request, identity: string, t: Tables, t': Tables)
    requires FamiliesMatchSessions(t) && q.sessionId !in t.sessions && q.familyId !in t.families
    requires t'.sessions.Keys == t.sessions.Keys + {q.sessionId}
    requires t'.families == t.families[q.familyId := Family(q.sessionId, identity)]
    ensures FamiliesMatchSessions(t')
  {
    assert forall f :: f in t.families ==> f in t'.families && t'.families[f] == t.families[f];
    assert forall x :: x in t'.sessions ==> x in t.sessions || x == q.sessionId;
    assert q.familyId in t'.families && t'.families[q.familyId].session == q.sessionId;
  }

  lemma SessionCommitMatchesTokens(q: Request, identity: string, t: Tables, t': Tables)
    requires TokensMatchFamilies(t) && q.familyId !in t.families && q.tokenHash !in t.tokens
    requires t'.families == t.families[q.familyId := Family(q.sessionId, identity)]
    requires q.tokenHash in t'.tokens && t'.tokens == t.tokens[q.tokenHash := t'.tokens[q.tokenHash]]
    requires t'.tokens[q.tokenHash].family == q.familyId
    ensures TokensMatchFamilies(t')
  {
    assert forall h :: h in t.tokens ==> h in t'.tokens && t'.tokens[h] == t.tokens[h];
    assert q.tokenHash in t'.tokens && t'.tokens[q.tokenHash].family == q.familyId;
  }

  lemma OpeningStaysInStep(cfg: Config, q: Request, d: Decision, t: Tables, t': Tables)
    requires InStep(t) && CommitsSession(cfg, t, q, d, t')
    ensures InStep(t')
  {
    SessionCommitKeys(cfg, q, d, t, t');
    SessionCommitMatchesAttempts(q, d, t, t');
    SessionCommitMatchesFamilies(q, d.identity, t, t');
    SessionCommitMatchesTokens(q, d.identity, t, t');
  }

  /** A step that touches neither sessions nor tokens and records no success. */
  lemma AttemptStaysInStep(t: Tables, row: AttemptRow, t': Tables)
    requires InStep(t) && !row.outcome.Succeeded? && t'.attempts == t.attempts + [row]
    requires t'.sessions == t.sessions && t'.families == t.families && t'.tokens == t.tokens
    ensures InStep(t')
  {
    SucceededSnoc(t.attempts, row);
    assert SucceededIds(t'.attempts) == SucceededIds(t.attempts);
  }

  /** Short of opening a session, a step appends at most one attempt, and no success. */
  lemma NonOpeningStep(cfg: Config, q: Request, d: Decision, t: Tables, t': Tables)
    requires AllOrNothing(cfg, q, d, t, t') && t' != t && !CommitsSession(cfg, t, q, d, t')
    ensures t'.attempts != [] && t'.attempts == t.attempts + [Last(t'.attempts)]
    ensures !Last(t'.attempts).outcome.Succeeded?
    ensures t'.sessions == t.sessions && t'.families == t.families && t'.tokens == t.tokens
  {
    if !AuditOnly(t, t') {
      assert t' == Persisted(t, d.next, d.events, OutcomeRow(q, d));
    }
  }

  lemma TablesStayInStep(cfg: Config, q: Request, d: Decision, t: Tables, t': Tables)
    requires InStep(t) && AllOrNothing(cfg, q, d, t, t')
    ensures InStep(t')
  {
    if CommitsSession(cfg, t, q, d, t') {
      OpeningStaysInStep(cfg, q, d, t, t');
    } else if t' != t {
      NonOpeningStep(cfg, q, d, t, t');
      AttemptStaysInStep(t, Last(t'.attempts), t');
    }
  }

  /** Tables on which no login has worked yet are in step. */
  lemma EmptyInStep(w: World)
    requires w.tables.sessions == map[] && w.tables.families == map[] && w.tables.tokens == map[]
    requires w.tables.attempts == []
    requires w.mfa == map[]
    ensures InStep(w.tables) && MfaBacked(w)
  {
  }

  // ------------------------------------------------------------------------
  // MFA sessions follow their committed row.
  // ------------------------------------------------------------------------

  predicate Backs(row: AttemptRow, m: MfaState) {
    && row.outcome.MfaOutcome?
    && row.identity == Some(m.identity) && row.fingerprint == m.fingerprint && row.at == m.verifiedAt
  }

  /** Every MFA session has the committed MFA_REQUIRED row it was created after. */
  ghost predicate MfaBacked(w: World) {
    forall k :: k in w.mfa ==> exists i :: 0 <= i < |w.tables.attempts| && Backs(w.tables.attempts[i], w.mfa[k])
  }

  lemma AttemptsOnlyGrow(cfg: Config, q: Request, d: Decision, t: Tables, t': Tables)
    requires AllOrNothing(cfg, q, d, t, t')
    ensures t.attempts <= t'.attempts
  {
    if CommitsSession(cfg, t, q, d, t') {
      assert t'.attempts == t.attempts + [AttemptOf(q, Some(d.identity), Succeeded, Some(q.sessionId))];
    } else if t' != t {
      NonOpeningStep(cfg, q, d, t, t');
    }
  }

  /** MFA sessions change only by the one a committed MFA_REQUIRED outcome creates. */
  lemma MfaChange(cfg: Config, q: Request, d: Decision, w: World, w': World, out: Outcome)
    requires Takes(cfg, q, d, false, w, w', out)
    ensures || w'.mfa == w.mfa
            || (d.Verified? && d.branch.NeedsMfa? && w'.mfa == w.mfa[q.mfaToken := MfaStateOf(w.tables, q, d)]
                && w'.tables.attempts == w.tables.attempts + [OutcomeRow(q, d)])
  {
  }

  lemma MfaStaysBacked(cfg: Config, q: Request, d: Decision, w: World, w': World, out: Outcome)
    requires MfaBacked(w) && Takes(cfg, q, d, false, w, w', out) && AllOrNothing(cfg, q, d, w.tables, w'.tables)
    ensures MfaBacked(w')
  {
    AttemptsOnlyGrow(cfg, q, d, w.tables, w'.tables);
    MfaChange(cfg, q, d, w, w', out);
    forall k | k in w'.mfa
      ensures exists i :: 0 <= i < |w'.tables.attempts| && Backs(w'.tables.attempts[i], w'.mfa[k])
    {
      if k in w.mfa && w'.mfa[k] == w.mfa[k] {
        var i :| 0 <= i < |w.tables.attempts| && Backs(w.tables.attempts[i], w.mfa[k]);
        assert Backs(w'.tables.attempts[i], w'.mfa[k]);
      } else {
        assert d.Verified? && d.branch.NeedsMfa? && w'.mfa[k] == MfaStateOf(w.tables, q, d);
        assert Backs(Last(w'.tables.attempts), w'.mfa[k]);
      }
    }
  }

  /**
   Over every run of logins from tables in step, with failures anywhere: SUCCEEDED attempts,
   sessions, token families and refresh tokens stay in one-to-one
   correspondence, and every MFA session has its committed MFA_REQUIRED row.
   */
  lemma {:induction false} RunsStayInStep(cfg: Config, ws: seq<World>, qs: seq<Request>, outs: seq<Outcome>)
    requires LoginRun(cfg, ws, qs, outs)
    requires InStep(ws[0].tables) && MfaBacked(ws[0])
    ensures InStep(Last(ws).tables) && MfaBacked(Last(ws))
  {
    if qs != [] {
      ShorterRun(cfg, ws, qs, outs);
      RunsStayInStep(cfg, Front(ws), Front(qs), Front(outs));
      var w, w' := Last(Front(ws)), Last(ws);
      LoginIsAllOrNothing(cfg, Last(qs), false, w, w', Last(outs));
      TablesStayInStep(cfg, Last(qs), Decide(cfg, w.tables, Last(qs)), w.tables, w'.tables);
      MfaStaysBacked(cfg, Last(qs), Decide(cfg, w.tables, Last(qs)), w, w', Last(outs));
    }
  }

  // ------------------------------------------------------------------------
  // The outbox determines the stored lock.
  // ------------------------------------------------------------------------

  /** One row per identity, with ids of their own, and each row loadable. */
  ghost predicate WellKept(rows: map<string, CredentialRow>) {
    && (forall k :: k in rows ==> rows[k].identity == k && Loadable(rows[k]))
    && (forall k, k' :: k in rows && k' in rows && rows[k].id == rows[k'].id ==> k == k')
  }

  /** The events of credential `id` in the outbox, in order. */
  function EventsOf(outbox: seq<OutboxEvent>, id: string): seq<CredentialEvent> {
    if outbox == [] then []
    else
      EventsOf(Front(outbox), id)
      + if Last(outbox).FromCredential? && Last(outbox).event.credential == id then [Last(outbox).event] else []
  }

  predicate AllOf(events: seq<CredentialEvent>, id: string) {
    forall i :: 0 <= i < |events| ==> events[i].credential == id
  }

  lemma {:induction false} EventsAppend(outbox: seq<OutboxEvent>, more: seq<OutboxEvent>, id: string)
    ensures EventsOf(outbox + more, id) == EventsOf(outbox, id) + EventsOf(more, id)
  {
    if more == [] {
      assert outbox + more == outbox;
    } else {
      assert Front(outbox + more) == outbox + Front(more);
      EventsAppend(outbox, Front(more), id);
    }
  }

  lemma {:induction false} EventsOfWrapped(events: seq<CredentialEvent>, owner: string, id: string)
    requires AllOf(events, owner)
    ensures EventsOf(Wrap(events), id) == if owner == id then events else []
  {
    if events != [] {
      assert Front(Wrap(events)) == Wrap(Front(events)) && Last(Wrap(events)) == FromCredential(Last(events));
      EventsOfWrapped(Front(events), owner, id);
      assert Last(events).credential == owner;
      assert events == Front(events) + [Last(events)];
    }
  }

  /** What a decision that writes would store, in terms of the row it read. */
  ghost predicate Faithful(row: CredentialRow, next: CredentialSnapshot, events: seq<CredentialEvent>) {
    && next.id == row.id && next.identity == row.identity
    && next.secret == RowSnapshot(row).secret
    && AllOf(events, row.id)
    && Replay(View(row.lock), events) == View(next.lock)
    && LockShape(next.lock) && next.lock.failedAttemptCount >= 0 && next.lock.lockoutHistoryCount >= 0
  }

  /** A login operation leaves everything but the lock alone, and its events are the credential's own. */
  lemma LoginOpOwner(p: Policies, s: CredentialSnapshot, op: Op)
    requires LoginOp(op)
    ensures var step := Apply(p, s, op);
            && step.next.id == s.id && step.next.identity == s.identity && step.next.secret == s.secret
            && AllOf(step.emitted, s.id)
  {
  }

  /** One login operation on a loaded credential stays faithful to what it emits. */
  lemma LoginOpFaithful(p: Policies, s: CredentialSnapshot, op: Op)
    requires p.Valid() && LoginOp(op)
    requires LockShape(s.lock) && s.lock.failedAttemptCount >= 0 && s.lock.lockoutHistoryCount >= 0
    ensures var step := Apply(p, s, op);
            && step.next.id == s.id && step.next.identity == s.identity && step.next.secret == s.secret
            && AllOf(step.emitted, s.id)
            && Replay(View(s.lock), step.emitted) == View(step.next.lock)
            && LockShape(step.next.lock) && step.next.lock.failedAttemptCount >= 0
            && step.next.lock.lockoutHistoryCount >= 0
  {
    LoginOpOwner(p, s, op);
    ReplayStep(p, s, op);
    StepOnLock(p, s, op);
    SoundLock(p, s.lock, op);
  }

  /** The policies under which login works on a credential. */
  function PoliciesOf(cfg: Config): Policies {
    Policies(cfg.lockout, DEFAULT_CREDENTIAL_POLICY)
  }

  /** What a login does to the credential once it is not refused. */
  function DecidingOp(q: Request): Op {
    if q.passwordOk then Succeed(q.now) else Fail(AttemptContextOf(q), q.now)
  }

  lemma DecisionFaithful(cfg: Config, t: Tables, q: Request)
    requires cfg.lockout.Valid() && WellKept(t.credentials)
    ensures var d := Decide(cfg, t, q);
            d.Wrong? || d.Verified? ==>
              d.identity in t.credentials && Faithful(t.credentials[d.identity], d.next, d.events)
  {
    var d := Decide(cfg, t, q);
    if d.Wrong? || d.Verified? {
      var p := PoliciesOf(cfg);
      var s := RowSnapshot(t.credentials[d.identity]);
      var e := EnsureStep(s, q.now);
      LoginOpFaithful(p, s, Verify(q.now));
      var op := DecidingOp(q);
      LoginOpFaithful(p, e.next, op);
      ReplayAppend(View(s.lock), e.emitted, Apply(p, e.next, op).emitted);
    }
  }

  /** Folding the outbox over the first lock of each credential gives its stored lock. */
  ghost predicate OutboxReplays(first: map<string, LockView>, t: Tables) {
    forall k :: k in t.credentials ==>
      k in first && Replay(first[k], EventsOf(t.outbox, t.credentials[k].id)) == View(t.credentials[k].lock)
  }

  /** Rows after a save: the owner's columns are replaced, every other row stays. */
  lemma SaveIsLocal(rows: map<string, CredentialRow>, k: string, next: CredentialSnapshot, events: seq<CredentialEvent>)
    requires WellKept(rows) && k in rows && Faithful(rows[k], next, events)
    ensures SaveCredential(rows, next) == rows[k := rows[k].(lock := next.lock)]
    ensures WellKept(SaveCredential(rows, next))
  {
    var rows' := SaveCredential(rows, next);
    assert SaveColumns(rows[k], next) == rows[k].(lock := next.lock);
    assert forall x :: x in rows && x != k ==> rows'[x] == rows[x];
  }

  lemma CommitReplays(first: map<string, LockView>, t: Tables, k: string, next: CredentialSnapshot,
                      events: seq<CredentialEvent>,
                      extra: seq<OutboxEvent>, t': Tables)
    requires WellKept(t.credentials) && OutboxReplays(first, t)
    requires k in t.credentials && Faithful(t.credentials[k], next, events)
    requires forall i :: 0 <= i < |extra| ==> extra[i].FromSession?
    requires t'.credentials == SaveCredential(t.credentials, next) && t'.outbox == t.outbox + (Wrap(events) + extra)
    ensures WellKept(t'.credentials) && OutboxReplays(first, t')
  {
    SaveIsLocal(t.credentials, k, next, events);
    forall x | x in t'.credentials
      ensures x in first && Replay(first[x], EventsOf(t'.outbox, t'.credentials[x].id)) == View(t'.credentials[x].lock)
    {
      var id := t.credentials[x].id;
      AppendedEvents(t.outbox, events, extra, t.credentials[k].id, id);
      assert t'.credentials[x].id == id;
      if x == k {
        ReplayAppend(first[x], EventsOf(t.outbox, id), events);
      }
    }
  }

  /** What a commit adds to the events of one credential. */
  lemma AppendedEvents(outbox: seq<OutboxEvent>, events: seq<CredentialEvent>, extra: seq<OutboxEvent>, owner: string,
                       id: string)
    requires AllOf(events, owner) && forall i :: 0 <= i < |extra| ==> extra[i].FromSession?
    ensures EventsOf(outbox + (Wrap(events) + extra), id) ==
            if owner == id then EventsOf(outbox, id) + events else EventsOf(outbox, id)
  {
    EventsAppend(outbox, Wrap(events) + extra, id);
    EventsAppend(Wrap(events), extra, id);
    EventsOfWrapped(events, owner, id);
    SessionEventsAside(extra, id);
    assert events + [] == events;
    assert EventsOf(outbox, id) + [] == EventsOf(outbox, id);
  }

  lemma {:induction false} SessionEventsAside(extra: seq<OutboxEvent>, id: string)
    requires forall i :: 0 <= i < |extra| ==> extra[i].FromSession?
    ensures EventsOf(extra, id) == []
  {
    if extra != [] {
      SessionEventsAside(Front(extra), id);
    }
  }

  lemma TablesStayReplayable(cfg: Config, q: Request, d: Decision, first: map<string, LockView>, t: Tables, t': Tables)
    requires WellKept(t.credentials) && OutboxReplays(first, t)
    requires d.Wrong? || d.Verified? ==>
             d.identity in t.credentials && Faithful(t.credentials[d.identity], d.next, d.events)
    requires AllOrNothing(cfg, q, d, t, t')
    ensures WellKept(t'.credentials) && OutboxReplays(first, t')
  {
    if t' != t && !AuditOnly(t, t') {
      if d.Verified? && d.branch.Opens? {
        CommitReplays(first, t, d.identity, d.next, d.events,
                      [FromSession(CreatedEvent(TermsOf(cfg, q, d.identity).value))], t');
      } else {
        assert Wrap(d.events) + [] == Wrap(d.events);
        CommitReplays(first, t, d.identity, d.next, d.events, [], t');
      }
    }
  }

  /** Every step leaves rows that can be loaded, one per identity, with ids of their own. */
  lemma RowsStayWellKept(cfg: Config, q: Request, d: Decision, t: Tables, t': Tables)
    requires WellKept(t.credentials) && AllOrNothing(cfg, q, d, t, t')
    requires d.Wrong? || d.Verified? ==>
               d.identity in t.credentials && Faithful(t.credentials[d.identity], d.next, d.events)
    ensures WellKept(t'.credentials)
  {
    if t' != t && !AuditOnly(t, t') {
      SaveIsLocal(t.credentials, d.identity, d.next, d.events);
    }
  }

  lemma {:induction false} RunsKeepRows(cfg: Config, ws: seq<World>, qs: seq<Request>, outs: seq<Outcome>)
    requires cfg.lockout.Valid() && LoginRun(cfg, ws, qs, outs) && WellKept(ws[0].tables.credentials)
    ensures WellKept(Last(ws).tables.credentials)
  {
    if qs != [] {
      ShorterRun(cfg, ws, qs, outs);
      RunsKeepRows(cfg, Front(ws), Front(qs), Front(outs));
      var w, w' := Last(Front(ws)), Last(ws);
      LoginIsAllOrNothing(cfg, Last(qs), false, w, w', Last(outs));
      DecisionFaithful(cfg, w.tables, Last(qs));
      RowsStayWellKept(cfg, Last(qs), Decide(cfg, w.tables, Last(qs)), w.tables, w'.tables);
    }
  }

  /** An empty outbox replays to the locks as they are. */
  lemma EmptyOutboxReplays(t: Tables)
    requires t.outbox == []
    ensures OutboxReplays(map k | k in t.credentials :: View(t.credentials[k].lock), t)
  {
  }

  /**
   Over every run of serial logins, with failures anywhere, folding the
   AccountLocked and AccountUnlocked events of a credential in the outbox gives
   exactly its row's status, locked_at, locked_until and lockout count if it did
   so at the start, from whatever locks `first`; and every row stays one that can
   be loaded.
   */
  lemma {:induction false} OutboxDeterminesLock(cfg: Config, ws: seq<World>, qs: seq<Request>, outs: seq<Outcome>,
                                                first: map<string, LockView>)
    requires cfg.lockout.Valid() && LoginRun(cfg, ws, qs, outs)
    requires WellKept(ws[0].tables.credentials) && OutboxReplays(first, ws[0].tables)
    ensures WellKept(Last(ws).tables.credentials) && OutboxReplays(first, Last(ws).tables)
  {
    if qs != [] {
      ShorterRun(cfg, ws, qs, outs);
      OutboxDeterminesLock(cfg, Front(ws), Front(qs), Front(outs), first);
      var w, w' := Last(Front(ws)), Last(ws);
      LoginIsAllOrNothing(cfg, Last(qs), false, w, w', Last(outs));
      DecisionFaithful(cfg, w.tables, Last(qs));
      TablesStayReplayable(cfg, Last(qs), Decide(cfg, w.tables, Last(qs)), first, w.tables, w'.tables);
    }
  }
}
