/**
 What a login answers and what it leaves behind, column by column: from the
 tables it read and the request alone, without the functions login is built on.
 */
module LoginOutcomes {
  import opened Types
  import opened CredentialSpec
  import opened CredentialPersistence
  import opened SessionSpec
  import opened SessionPersistence
  import opened LoginSpec
  import opened LoginRuns

  // ------------------------------------------------------------------------
  // The facts that decide.
  // ------------------------------------------------------------------------

  /** The identity is active and has a credential. */
  predicate Found(t: Tables, q: Request) {
    q.resolution.Resolved? && q.resolution.active && q.resolution.identity in t.credentials
  }

  function RowFor(t: Tables, q: Request): CredentialRow
    requires Found(t, q)
  {
    t.credentials[q.resolution.identity]
  }

  /** The lock columns refuse every login at `now`. */
  predicate LockedOutAt(row: CredentialRow, now: Time) {
    || row.lock.status == LockedPermanent
    || (row.lock.status == LockedTemporary && row.lock.lockedUntil.Some? && now < row.lock.lockedUntil.value)
  }

  /** The password is to be changed before anything else. */
  predicate DueAt(row: CredentialRow, now: Time) {
    row.forceChange || (row.expiresAt.Some? && row.expiresAt.value <= now)
  }

  /** The identity has enrolled a second factor. */
  predicate Enrolled(t: Tables, identity: string) {
    identity in t.factors && t.factors[identity] != []
  }

  /** The device is registered and not revoked. */
  predicate Trusted(t: Tables, identity: string, fingerprint: string) {
    (identity, fingerprint) in t.devices && !t.devices[(identity, fingerprint)].revoked
  }

  /** The right password for a credential that is not locked. */
  predicate Admitted(t: Tables, q: Request) {
    Found(t, q) && Loadable(RowFor(t, q)) && !LockedOutAt(RowFor(t, q), q.now) && q.passwordOk
  }

  /** Nothing stands between an admitted login and its session. */
  predicate Unhindered(t: Tables, q: Request) {
    && Admitted(t, q) && !DueAt(RowFor(t, q), q.now)
    && !Enrolled(t, q.resolution.identity) && Trusted(t, q.resolution.identity, q.fingerprint)
  }

  // ------------------------------------------------------------------------
  // What is decided.
  // ------------------------------------------------------------------------

  lemma LockDecides(s: CredentialSnapshot, now: Time)
    requires LockShape(s.lock)
    ensures EnsureStep(s, now).err.Some? <==>
            s.lock.status == LockedPermanent || (s.lock.status == LockedTemporary && now < s.lock.lockedUntil.value)
    ensures EnsureStep(s, now).next.secret == s.secret
    ensures EnsureStep(s, now).err.None? ==> SucceedStep(EnsureStep(s, now).next, now).next.secret == s.secret
  {
  }

  /** The decision on a credential that loads. */
  lemma DecisionByColumns(cfg: Config, t: Tables, q: Request)
    requires Found(t, q) && Loadable(RowFor(t, q))
    ensures var d, row, identity := Decide(cfg, t, q), RowFor(t, q), q.resolution.identity;
            && (d.RefuseLocked? <==> LockedOutAt(row, q.now)) && (d.RefuseLocked? ==> d.until == row.lock.lockedUntil)
            && (d.Wrong? <==> !LockedOutAt(row, q.now) && !q.passwordOk)
            && (d.Verified? <==> Admitted(t, q)) && !d.Refuse? && !d.Unreadable? && d.identity == identity
            && (d.Verified? ==>
                && (d.branch == MustChange <==> DueAt(row, q.now))
                && (d.branch == NeedsMfa <==>
                    !DueAt(row, q.now) && (Enrolled(t, identity) || !Trusted(t, identity, q.fingerprint)))
                && (d.branch == Opens <==> Unhindered(t, q)))
  {
    LockDecides(RowSnapshot(RowFor(t, q)), q.now);
  }

  lemma DecisionOtherwise(cfg: Config, t: Tables, q: Request)
    ensures var d := Decide(cfg, t, q);
            && (!Found(t, q) <==> d.Refuse?)
            && (d.Refuse? ==>
                d.known == if q.resolution.Resolved? && q.resolution.active then Some(q.resolution.identity) else None)
            && (Found(t, q) && !Loadable(RowFor(t, q)) <==> d.Unreadable?)
  {
  }

  /**
   A login that gets past the limiter and meets no error answers by the columns
   alone: each answer is given exactly on its own facts.
   */
  lemma AnswersByColumns(cfg: Config, q: Request, quiet: bool, w: World, w': World, out: Outcome)
    requires LoginStep(cfg, q, quiet, w, w', out) && !out.SystemError? && !out.RateLimited?
    ensures var t := w.tables;
            && (out.InvalidLogin? <==> !Found(t, q) || (!LockedOutAt(RowFor(t, q), q.now) && !q.passwordOk))
            && (out.AccountIsLocked? <==> Found(t, q) && LockedOutAt(RowFor(t, q), q.now))
            && (out.AccountIsLocked? ==> out.until == RowFor(t, q).lock.lockedUntil)
            && (out.PasswordChangeRequired? <==> Admitted(t, q) && DueAt(RowFor(t, q), q.now))
            && (out.MfaRequired? <==>
                && Admitted(t, q) && !DueAt(RowFor(t, q), q.now)
                && (Enrolled(t, q.resolution.identity) || !Trusted(t, q.resolution.identity, q.fingerprint)))
            && (out.Completed? <==> Unhindered(t, q)) && (out.Completed? ==> out.session == q.sessionId)
  {
    DecisionOtherwise(cfg, w.tables, q);
    if Found(w.tables, q) && Loadable(RowFor(w.tables, q)) {
      DecisionByColumns(cfg, w.tables, q);
    }
  }

  // ------------------------------------------------------------------------
  // What is written.
  // ------------------------------------------------------------------------

  /** The name of an answer in login_attempts. */
  function OutcomeName(out: Outcome): AttemptOutcome
    requires !out.SystemError?
  {
    match out
    case Completed(_) => Succeeded
    case MfaRequired(_, _) => MfaOutcome
    case PasswordChangeRequired => PasswordChangeOutcome
    case InvalidLogin => FailedCredentials
    case AccountIsLocked(_) => LockedOutcome
    case RateLimited => RateLimitedOutcome
  }

  /** The row tells of this request and of its answer. */
  predicate TellsAttempt(q: Request, out: Outcome, row: AttemptRow)
    requires !out.SystemError?
  {
    && row.identifierHash == q.identifierHash && row.ip == q.ip && row.userAgent == q.userAgent && row.at == q.now
    && row.outcome == OutcomeName(out)
    && row.fingerprint == (if out.RateLimited? then "" else q.fingerprint)
    && row.session == (if out.Completed? then Some(q.sessionId) else None)
    && row.identity ==
       if !out.RateLimited? && q.resolution.Resolved? && q.resolution.active then Some(q.resolution.identity) else None
  }

  /** The row a decision that commits writes. */
  lemma CommittedRowTells(cfg: Config, t: Tables, q: Request, d: Decision, t': Tables, out: Outcome)
    requires Commits(cfg, t, q, d, t') && q.resolution == Resolved(d.identity, true)
    requires !out.SystemError? && !out.RateLimited? && !out.AccountIsLocked?
    requires d.Wrong? <==> out.InvalidLogin?
    requires d.Verified? ==>
               && (d.branch.MustChange? <==> out.PasswordChangeRequired?) && (d.branch.NeedsMfa? <==> out.MfaRequired?)
               && (d.branch.Opens? <==> out.Completed?)
    ensures t'.attempts != [] && t'.attempts == t.attempts + [Last(t'.attempts)]
    ensures TellsAttempt(q, out, Last(t'.attempts))
  {
  }

  /** Every answer leaves one row that tells of it; only rows written outside a transaction can be lost. */
  lemma AttemptsTell(cfg: Config, q: Request, quiet: bool, w: World, w': World, out: Outcome)
    requires LoginStep(cfg, q, quiet, w, w', out) && !out.SystemError?
    ensures || (&& w'.tables.attempts != [] && w'.tables.attempts == w.tables.attempts + [Last(w'.tables.attempts)]
                && TellsAttempt(q, out, Last(w'.tables.attempts)))
            || (&& !quiet && w' == w
                && (out.RateLimited? || out.AccountIsLocked? || (out.InvalidLogin? && !Found(w.tables, q))))
  {
    var t, t', d := w.tables, w'.tables, Decide(cfg, w.tables, q);
    DecisionOtherwise(cfg, t, q);
    if Found(t, q) && Loadable(RowFor(t, q)) {
      DecisionByColumns(cfg, t, q);
    }
    if (d.Wrong? || d.Verified?) && !out.RateLimited? {
      CommittedRowTells(cfg, t, q, d, t', out);
    } else if t'.attempts != t.attempts {
      assert t'.attempts == t.attempts + [Last(t'.attempts)];
    }
  }

  /** What an MFA session holds, and which factors are offered. */
  lemma MfaSessionTells(cfg: Config, q: Request, quiet: bool, w: World, w': World, out: Outcome)
    requires LoginStep(cfg, q, quiet, w, w', out) && out.MfaRequired?
    ensures out.token == q.mfaToken && q.mfaToken in w'.mfa
    ensures var m := w'.mfa[q.mfaToken];
            && q.resolution.Resolved? && m.identity == q.resolution.identity && m.verifiedAt == q.now
            && m.client == q.client && m.fingerprint == q.fingerprint && m.factors == out.factors
            && forall f :: f in out.factors <==>
                 Enrolled(w.tables, m.identity) && f in w.tables.factors[m.identity] && !f.OtherFactor?
  {
    DecisionOtherwise(cfg, w.tables, q);
    if Found(w.tables, q) && Loadable(RowFor(w.tables, q)) {
      DecisionByColumns(cfg, w.tables, q);
    }
  }

  /** The columns of a session row that has just been created. */
  predicate NewSessionColumns(cfg: Config, q: Request, identity: string, row: SessionRow) {
    && row.id == q.sessionId && row.identity == identity && row.client == q.client && row.device == None
    && row.status == Active && row.aal == Aal1 && row.factors == []
    && row.createdAt == q.now && row.lastActivityAt == q.now
    && row.absoluteExpiresAt == q.now + cfg.session.absoluteLifetime
    && row.idleSecs * SECOND <= cfg.session.idleTimeout < (row.idleSecs + 1) * SECOND
    && row.ip == q.ip && row.userAgent == q.userAgent && row.revokedAt == None && row.reason == None
  }

  /** What is committed beside the session row: its token family, its refresh token, the device and its event. */
  predicate NewSessionCompany(cfg: Config, t: Tables, q: Request, identity: string, t': Tables) {
    && q.familyId in t'.families && t'.families[q.familyId] == Family(q.sessionId, identity)
    && q.tokenHash in t'.tokens
    && t'.tokens[q.tokenHash].family == q.familyId && t'.tokens[q.tokenHash].client == q.client
    && t'.tokens[q.tokenHash].issuerIp == q.ip && t'.tokens[q.tokenHash].issuedAt == q.now
    && t'.tokens[q.tokenHash].expiresAt == q.now + cfg.refreshTtl
    && (var device := (identity, q.fingerprint);
        device in t.devices ==> t'.devices == t.devices[device := t.devices[device].(lastSeenAt := q.now)])
    && t'.factors == t.factors
    && t'.outbox != [] && Last(t'.outbox).FromSession? && CreationTold(cfg, q, identity, Last(t'.outbox).sessionEvent)
  }

  predicate CreationTold(cfg: Config, q: Request, identity: string, e: SessionEvent) {
    && e.SessionCreated? && e.session == q.sessionId && e.identity == identity && e.device == "" && e.aal == Aal1
    && e.ip == q.ip && e.at == q.now && e.idleTimeout == cfg.session.idleTimeout
    && e.absoluteExpiresAt == q.now + cfg.session.absoluteLifetime
  }

  /** A commit of a session was unhindered, and these are its columns. */
  lemma CommitColumns(cfg: Config, t: Tables, q: Request, t': Tables)
    requires CommitsSession(cfg, t, q, Decide(cfg, t, q), t')
    ensures Unhindered(t, q)
    ensures q.sessionId in t'.sessions && NewSessionColumns(cfg, q, q.resolution.identity, t'.sessions[q.sessionId])
    ensures NewSessionCompany(cfg, t, q, q.resolution.identity, t')
  {
    DecisionOtherwise(cfg, t, q);
    DecisionByColumns(cfg, t, q);
    SessionColumns(cfg, t, q, Decide(cfg, t, q), t');
    CompanyColumns(cfg, t, q, Decide(cfg, t, q), t');
  }

  lemma SessionColumns(cfg: Config, t: Tables, q: Request, d: Decision, t': Tables)
    requires CommitsSession(cfg, t, q, d, t')
    ensures q.sessionId in t'.sessions && NewSessionColumns(cfg, q, d.identity, t'.sessions[q.sessionId])
  {
    var idle := cfg.session.idleTimeout;
    assert idle == (idle / SECOND) * SECOND + idle % SECOND;
  }

  lemma CompanyColumns(cfg: Config, t: Tables, q: Request, d: Decision, t': Tables)
    requires CommitsSession(cfg, t, q, d, t')
    ensures NewSessionCompany(cfg, t, q, d.identity, t')
  {
    var told := FromSession(CreatedEvent(TermsOf(cfg, q, d.identity).value));
    assert t'.outbox == t.outbox + (Wrap(d.events) + [told]);
    assert Last(t'.outbox) == told;
  }

  // ------------------------------------------------------------------------
  // Over runs.
  // ------------------------------------------------------------------------

  /** Session `id` was opened by the `i`-th login of the run, unhindered, with these columns. */
  ghost predicate OpenedBy(cfg: Config, ws: seq<World>, qs: seq<Request>, id: string, i: nat)
    requires |ws| == |qs| + 1
  {
    && i < |qs| && qs[i].sessionId == id && id !in ws[i].tables.sessions && Unhindered(ws[i].tables, qs[i])
    && id in ws[i + 1].tables.sessions
    && NewSessionColumns(cfg, qs[i], qs[i].resolution.identity, ws[i + 1].tables.sessions[id])
    && NewSessionCompany(cfg, ws[i].tables, qs[i], qs[i].resolution.identity, ws[i + 1].tables)
  }

  lemma StepOpens(cfg: Config, q: Request, w: World, w': World, out: Outcome, id: string)
    requires LoginStep(cfg, q, false, w, w', out) && id in w'.tables.sessions && id !in w.tables.sessions
    ensures q.sessionId == id && Unhindered(w.tables, q)
    ensures NewSessionColumns(cfg, q, q.resolution.identity, w'.tables.sessions[id])
    ensures NewSessionCompany(cfg, w.tables, q, q.resolution.identity, w'.tables)
  {
    var t, t', d := w.tables, w'.tables, Decide(cfg, w.tables, q);
    LoginIsAllOrNothing(cfg, q, false, w, w', out);
    if CommitsSession(cfg, t, q, d, t') {
      SessionCommitKeys(cfg, q, d, t, t');
      CommitColumns(cfg, t, q, t');
    } else if t' != t {
      NonOpeningStep(cfg, q, d, t, t');
    }
  }

  lemma StillOpenedBy(cfg: Config, ws: seq<World>, qs: seq<Request>, id: string, i: nat)
    requires |ws| == |qs| + 1 && qs != [] && OpenedBy(cfg, Front(ws), Front(qs), id, i)
    ensures OpenedBy(cfg, ws, qs, id, i)
  {
    assert Front(ws)[i] == ws[i] && Front(ws)[i + 1] == ws[i + 1] && Front(qs)[i] == qs[i];
  }

  /** Every session a run has opened, whatever failed, was opened by an unhindered login, column by column. */
  lemma {:induction false} SessionsWereUnhindered(cfg: Config, ws: seq<World>, qs: seq<Request>, outs: seq<Outcome>,
                                                  id: string)
    requires LoginRun(cfg, ws, qs, outs) && id in Last(ws).tables.sessions && id !in ws[0].tables.sessions
    ensures exists i :: OpenedBy(cfg, ws, qs, id, i)
  {
    if qs != [] {
      ShorterRun(cfg, ws, qs, outs);
      if id in Last(Front(ws)).tables.sessions {
        SessionsWereUnhindered(cfg, Front(ws), Front(qs), Front(outs), id);
        var i :| OpenedBy(cfg, Front(ws), Front(qs), id, i);
        StillOpenedBy(cfg, ws, qs, id, i);
      } else {
        StepOpens(cfg, Last(qs), Last(Front(ws)), Last(ws), Last(outs), id);
        assert OpenedBy(cfg, ws, qs, id, |qs| - 1);
      }
    }
  }

  // ------------------------------------------------------------------------
  // Rows in plain columns.
  // ------------------------------------------------------------------------

  /** A stored session can be used exactly while it is ACTIVE and neither column of its timeouts has been reached. */
  lemma LiveByColumns(row: SessionRow, now: Time)
    ensures LiveRow(row, now) <==>
            row.status == Active && now < row.absoluteExpiresAt && now < row.lastActivityAt + row.idleSecs * SECOND
  {
  }
}
