/** The Login use case, call by call: whatever fails, it takes one step of LoginSpec. */
module LoginUsecase {
  import opened Types
  import opened CredentialSpec
  import CA = CredentialAggregate
  import opened SessionSpec
  import SA = SessionAggregate
  import opened SessionPersistence
  import opened LoginSpec
  import opened LoginStore
  import RL = RateLimit

  // ------------------------------------------------------------------------
  // The concurrent-session policy.
  // ------------------------------------------------------------------------

  /** The session table when the rows `done` have been evicted. */
  function EvictSome(sessions: Sessions, done: set<string>, now: Time): Sessions {
    map id | id in sessions :: if id in done then EvictRow(sessions[id], now) else sessions[id]
  }

  /** The ids of the first `n` sessions of a list. */
  function IdsOf(list: seq<SessionSnapshot>, n: nat): set<string>
    requires n <= |list|
  {
    set i | 0 <= i < n :: list[i].terms.id
  }

  /** Evicting one more row of the list. */
  lemma EvictOneMore(sessions: Sessions, list: seq<SessionSnapshot>, n: nat, now: Time)
    requires n < |list| && list[n].terms.id in sessions
    requires forall i, j :: 0 <= i < j < |list| ==> list[i].terms.id != list[j].terms.id
    ensures var id := list[n].terms.id;
            && id !in IdsOf(list, n)
            && EvictSome(sessions, IdsOf(list, n), now)[id] == sessions[id]
            && EvictSome(sessions, IdsOf(list, n + 1), now) ==
               EvictSome(sessions, IdsOf(list, n), now)[id := EvictRow(sessions[id], now)]
  {
    assert IdsOf(list, n + 1) == IdsOf(list, n) + {list[n].terms.id};
  }

  /** Evicting the whole list of a pair is evicting all its ACTIVE rows. */
  lemma EvictWholeList(sessions: Sessions, identity: string, client: string, list: seq<SessionSnapshot>, now: Time)
    requires Lists(sessions, ActiveIds(sessions, identity, client), list)
    ensures EvictSome(sessions, IdsOf(list, |list|), now) == EvictAll(sessions, identity, client, now)
    ensures forall id :: id in ActiveIds(sessions, identity, client) ==> LoadableSession(sessions[id])
  {
    assert IdsOf(list, |list|) == ActiveIds(sessions, identity, client);
  }

  lemma EvictedRowKeepsId(row: SessionRow, now: Time)
    ensures EvictRow(row, now).id == row.id
  {
  }

  /** Revokes one loaded session, and its row if that worked; returns false when the store fails. */
  method EvictOne(tx: Tx, snap: SessionSnapshot, now: Time) returns (ok: bool)
    requires snap.terms.id in tx.work.sessions && snap == SnapshotOfRow(tx.work.sessions[snap.terms.id])
    modifies tx, tx.oracle
    ensures ok ==> var row := EvictRow(old(tx.work.sessions[snap.terms.id]), now);
                   tx.work == old(tx.work).(sessions := old(tx.work.sessions)[snap.terms.id := row])
    ensures !ok ==> !tx.oracle.Quiet()
  {
    ghost var row := tx.work.sessions[snap.terms.id];
    var s := new SA.AuthenticationSession.Restore(snap, []);
    var err := s.Revoke(ConcurrentSessionLimit, "", now);
    if err.Some? {
      assert EvictRow(row, now) == row;
      assert tx.work.sessions[snap.terms.id := row] == tx.work.sessions;
      return true;
    }
    ok := tx.RevokeSession(s);
  }

  /** The SINGLE branch: the loop over all ACTIVE sessions of the pair. */
  method EvictEverySession(tx: Tx, identity: string, client: string, now: Time) returns (ok: bool)
    requires Keyed(tx.work.sessions)
    modifies tx, tx.oracle
    ensures ok ==> tx.work == old(tx.work).(sessions := EvictAll(old(tx.work.sessions), identity, client, now))
    ensures ok ==> forall id :: id in ActiveIds(old(tx.work.sessions), identity, client) ==>
                     LoadableSession(old(tx.work.sessions)[id])
    ensures !ok ==> !tx.oracle.Quiet() || BadRow(old(tx.work.sessions), identity, client)
  {
    ghost var sessions := tx.work.sessions;
    var listed, list := tx.ListActive(identity, client);
    if !listed {
      return false;
    }
    var i := 0;
    assert IdsOf(list, 0) == {};
    assert EvictSome(sessions, {}, now) == sessions;
    while i < |list|
      modifies tx, tx.oracle
      invariant 0 <= i <= |list|
      invariant tx.work == old(tx.work).(sessions := EvictSome(sessions, IdsOf(list, i), now))
    {
      EvictOneMore(sessions, list, i, now);
      var stored := EvictOne(tx, list[i], now);
      if !stored {
        return false;
      }
      i := i + 1;
    }
    EvictWholeList(sessions, identity, client, list, now);
    ok := true;
  }

  /** The LIMIT_N branch: at the limit, the oldest ACTIVE session goes. */
  method EvictOldestSession(tx: Tx, cfg: Config, identity: string, client: string, now: Time) returns (ok: bool)
    requires Keyed(tx.work.sessions) && cfg.concurrent.LimitN?
    modifies tx, tx.oracle
    ensures ok ==> tx.work == old(tx.work).(sessions := tx.work.sessions)
    ensures ok ==> Evicts(cfg, old(tx.work.sessions), identity, client, now, tx.work.sessions)
    ensures !ok ==> !tx.oracle.Quiet() || ReadsBadRow(cfg, old(tx.work.sessions), identity, client)
  {
    var count := tx.CountActive(identity, client);
    if count.None? {
      return false;
    }
    if count.value >= cfg.concurrentMax {
      var found, oldest := tx.FindOldestActive(identity, client);
      if !found {
        return false;
      }
      if oldest.Some? {
        ok := EvictOne(tx, oldest.value, now);
        return;
      }
    }
    ok := true;
  }

  /** applyConcurrentSessionPolicy. */
  method ApplyConcurrentSessionPolicy(tx: Tx, cfg: Config, identity: string, client: string,
                                      now: Time) returns (ok: bool)
    requires Keyed(tx.work.sessions)
    modifies tx, tx.oracle
    ensures ok ==> tx.work == old(tx.work).(sessions := tx.work.sessions)
    ensures ok ==> Evicts(cfg, old(tx.work.sessions), identity, client, now, tx.work.sessions)
    ensures !ok ==> !tx.oracle.Quiet() || ReadsBadRow(cfg, old(tx.work.sessions), identity, client)
  {
    match cfg.concurrent {
      case Single => ok := EvictEverySession(tx, identity, client, now);
      case LimitN => ok := EvictOldestSession(tx, cfg, identity, client, now);
      case AllowAll => ok := true;
      case OtherPolicy(_) => ok := true;
    }
  }

  lemma EvictionKeepsIds(cfg: Config, sessions: Sessions, identity: string, client: string, now: Time, after: Sessions)
    requires Keyed(sessions) && Evicts(cfg, sessions, identity, client, now, after)
    ensures Keyed(after)
  {
    EvictionKeepsKeys(cfg, sessions, identity, client, now, after);
    forall row: SessionRow
      ensures EvictRow(row, now).id == row.id
    {
      EvictedRowKeepsId(row, now);
    }
  }

  // ------------------------------------------------------------------------
  // Login.
  // ------------------------------------------------------------------------

  class Usecase {
    const cfg: Config
    const limits: RL.Limits
    const db: Postgres
    const mfa: MfaStore
    const limiter: RL.Limiter
    const oracle: Oracle

    constructor (cfg: Config, limits: RL.Limits, db: Postgres, mfa: MfaStore, limiter: RL.Limiter, oracle: Oracle)
      ensures this.cfg == cfg && this.limits == limits && this.db == db && this.mfa == mfa
      ensures this.limiter == limiter && this.oracle == oracle
    {
      this.cfg, this.limits, this.db, this.mfa, this.limiter, this.oracle := cfg, limits, db, mfa, limiter, oracle;
    }

    ghost function WorldNow(): World
      reads db, mfa
    {
      World(db.tables, mfa.entries)
    }

    /** The transaction shared by failCredential, completeForcedChange and completeMFARequired. */
    method Persist(cred: CA.Credential, events: seq<CredentialEvent>, row: AttemptRow) returns (ok: bool)
      modifies db, oracle
      ensures ok ==> db.tables == Persisted(old(db.tables), cred.Snapshot(), events, row)
      ensures !ok ==> !oracle.Quiet()
      ensures !ok ==>
              db.tables == old(db.tables) || db.tables == Persisted(old(db.tables), cred.Snapshot(), events, row)
    {
      var begun := db.Begin(oracle);
      if begun.None? {
        return false;
      }
      var tx := begun.value;
      ok := tx.SaveCredentialRow(cred);
      if !ok {
        return;
      }
      ok := tx.AppendOutbox(Wrap(events));
      if !ok {
        return;
      }
      ok := tx.RecordAttempt(row);
      if !ok {
        return;
      }
      ok := db.Commit(tx);
    }

    /** The writes of completeSession that follow the evictions. */
    method WriteSession(tx: Tx, q: Request, ghost d: Decision, cred: CA.Credential, session: SA.AuthenticationSession,
                        identity: string, credEvents: seq<CredentialEvent>) returns (ok: bool)
      requires d.Verified? && d.identity == identity && d.next == cred.Snapshot() && d.events == credEvents
      requires session.Snapshot() == Opened(session.terms) && session.terms.id == q.sessionId
      requires session.terms.idleTimeout >= 0
      requires session.events == [CreatedEvent(session.terms)]
      modifies tx, tx.oracle, session
      ensures ok ==> FreshIds(old(tx.work), q)
      ensures !ok ==> !tx.oracle.Quiet() || !FreshIds(old(tx.work), q)
      ensures ok ==> tx.work == OpenedTables(cfg, old(tx.work), q, d, session.terms, old(tx.work.sessions))
    {
      ok := tx.TouchDeviceRow((identity, q.fingerprint), q.now);
      if !ok {
        return;
      }
      ok := tx.SaveCredentialRow(cred);
      if !ok {
        return;
      }
      ok := tx.CreateSession(session, q.client);
      if !ok {
        return;
      }
      ok := tx.CreateFamily(q.familyId, Family(q.sessionId, identity));
      if !ok {
        return;
      }
      ok := tx.CreateToken(q.tokenHash, RefreshToken(q.familyId, q.client, q.ip, q.now, q.now + cfg.refreshTtl));
      if !ok {
        return;
      }
      var sessionEvents := session.PullEvents();
      ok := tx.AppendOutbox(Wrap(credEvents) + [FromSession(sessionEvents[0])]);
      if !ok {
        return;
      }
      ok := tx.RecordAttempt(AttemptOf(q, Some(identity), Succeeded, Some(q.sessionId)));
    }

    /** The closure completeSession hands to Execute. */
    method RunSessionWrites(tx: Tx, q: Request, ghost d: Decision, cred: CA.Credential,
                            session: SA.AuthenticationSession,
                            identity: string, credEvents: seq<CredentialEvent>) returns (ok: bool)
      requires Keyed(tx.work.sessions)
      requires d.Verified? && d.branch.Opens? && d.identity == identity && d.next == cred.Snapshot()
      requires d.events == credEvents
      requires TermsOf(cfg, q, identity).Ok? && session.Snapshot() == Opened(TermsOf(cfg, q, identity).value)
      requires session.events == [CreatedEvent(session.terms)]
      modifies tx, tx.oracle, session
      ensures ok ==> CommitsSession(cfg, old(tx.work), q, d, tx.work) && Keyed(tx.work.sessions)
      ensures !ok ==> !tx.oracle.Quiet() || Blocked(cfg, old(tx.work), q, d)
    {
      ghost var t := tx.work;
      ok := ApplyConcurrentSessionPolicy(tx, cfg, identity, q.client, q.now);
      if !ok {
        return;
      }
      ghost var evicted := tx.work.sessions;
      ghost var mid := tx.work;
      EvictionKeepsIds(cfg, t.sessions, identity, q.client, q.now, evicted);
      EvictionKeepsKeys(cfg, t.sessions, identity, q.client, q.now, evicted);
      ok := WriteSession(tx, q, d, cred, session, identity, credEvents);
      if ok {
        SessionWritten(cfg, t, mid, q, d, session.terms, evicted, tx.work);
      }
    }

    /** The transaction of completeSession. */
    method PersistSession(q: Request, ghost d: Decision, cred: CA.Credential, session: SA.AuthenticationSession,
                          identity: string, credEvents: seq<CredentialEvent>) returns (ok: bool)
      requires Keyed(db.tables.sessions)
      requires d.Verified? && d.branch.Opens? && d.identity == identity && d.next == cred.Snapshot()
      requires d.events == credEvents
      requires TermsOf(cfg, q, identity).Ok? && session.Snapshot() == Opened(TermsOf(cfg, q, identity).value)
      requires session.events == [CreatedEvent(session.terms)]
      modifies db, oracle, session
      ensures ok ==> CommitsSession(cfg, old(db.tables), q, d, db.tables)
      ensures !ok ==> || (db.tables == old(db.tables) && (!oracle.Quiet() || Blocked(cfg, old(db.tables), q, d)))
                      || (!oracle.Quiet() && CommitsSession(cfg, old(db.tables), q, d, db.tables))
      ensures Keyed(db.tables.sessions)
    {
      var begun := db.Begin(oracle);
      if begun.None? {
        return false;
      }
      var tx := begun.value;
      ok := RunSessionWrites(tx, q, d, cred, session, identity, credEvents);
      if ok {
        ok := db.Commit(tx);
      }
    }

    /** failCredential: a wrong password against a verifiable credential. */
    method FailCredential(q: Request, ghost d: Decision, identity: string, cred: CA.Credential) returns (out: Outcome)
      requires cred.Valid() && d.Wrong? && d.identity == identity
      requires var f := FailStep(cred.Snapshot(), AttemptContextOf(q), cfg.lockout, q.now);
               d.next == f.next && d.events == cred.events + f.emitted
      modifies db, oracle, cred
      ensures Takes(cfg, q, d, oracle.Quiet(), old(WorldNow()), WorldNow(), out) && !out.RateLimited?
      ensures db.tables.sessions == old(db.tables.sessions)
    {
      var _ := cred.RecordFailedAttempt(AttemptContextOf(q), cfg.lockout, q.now);
      var events := cred.PullEvents();
      var ok := Persist(cred, events, AttemptOf(q, Some(identity), FailedCredentials, None));
      out := if ok then InvalidLogin else SystemError;
    }

    /** completeForcedChange: a forced or expired password comes before any MFA requirement. */
    method CompleteForcedChange(q: Request, ghost d: Decision, identity: string,
                                cred: CA.Credential) returns (out: Outcome)
      requires d.Verified? && d.branch.MustChange? && d.identity == identity
      requires d.next == cred.Snapshot() && d.events == cred.events
      modifies db, oracle, cred
      ensures Takes(cfg, q, d, oracle.Quiet(), old(WorldNow()), WorldNow(), out) && !out.RateLimited?
      ensures db.tables.sessions == old(db.tables.sessions)
    {
      var unsigned := oracle.Ask();
      if unsigned {
        return SystemError;
      }
      var events := cred.PullEvents();
      var ok := Persist(cred, events, AttemptOf(q, Some(identity), PasswordChangeOutcome, None));
      out := if ok then PasswordChangeRequired else SystemError;
    }

    /** completeMFARequired: the MFA session is created only after the transaction has committed. */
    method CompleteMfaRequired(q: Request, ghost d: Decision, identity: string,
                               cred: CA.Credential) returns (out: Outcome)
      requires d.Verified? && d.branch.NeedsMfa? && d.identity == identity
      requires d.next == cred.Snapshot() && d.events == cred.events
      modifies db, oracle, cred, mfa
      ensures Takes(cfg, q, d, oracle.Quiet(), old(WorldNow()), WorldNow(), out) && !out.RateLimited?
      ensures db.tables.sessions == old(db.tables.sessions)
    {
      var listed, factors := db.ListActiveFactorTypes(identity, oracle);
      if !listed {
        return SystemError;
      }
      var noToken := oracle.Ask();
      if noToken {
        return SystemError;
      }
      var events := cred.PullEvents();
      ghost var t := db.tables;
      var ok := Persist(cred, events, AttemptOf(q, Some(identity), MfaOutcome, None));
      if !ok {
        return SystemError;
      }
      assert MfaState(identity, q.now, factors, q.client, q.fingerprint) == MfaStateOf(t, q, d);
      ok := mfa.Create(q.mfaToken, MfaState(identity, q.now, factors, q.client, q.fingerprint), oracle);
      out := if ok then MfaRequired(q.mfaToken, factors) else SystemError;
    }

    /** completeSession: no second factor is needed, so the session is opened in one transaction. */
    method CompleteSession(q: Request, ghost d: Decision, identity: string, cred: CA.Credential) returns (out: Outcome)
      requires Keyed(db.tables.sessions)
      requires d.Verified? && d.branch.Opens? && d.identity == identity
      requires d.next == cred.Snapshot() && d.events == cred.events
      modifies db, oracle, cred
      ensures Takes(cfg, q, d, oracle.Quiet(), old(WorldNow()), WorldNow(), out) && !out.RateLimited?
      ensures Keyed(db.tables.sessions)
    {
      var created := SA.AuthenticationSession.New(q.sessionId, identity, "", Aal1, [], ClientInfo(q.ip, q.userAgent),
                                                  cfg.session, q.now);
      if created.Err? {
        return SystemError;
      }
      var noToken := oracle.Ask();
      if noToken {
        return SystemError;
      }
      var unsigned := oracle.Ask();
      if unsigned {
        return SystemError;
      }
      var events := cred.PullEvents();
      var ok := PersistSession(q, d, cred, created.value, identity, events);
      out := if ok then Completed(q.sessionId) else SystemError;
    }

    /** The login of a loaded credential: lock check, password, decision tree. */
    method LoginWith(q: Request, identity: string, cred: CA.Credential) returns (out: Outcome)
      requires Keyed(db.tables.sessions)
      requires cred.Valid() && cred.events == []
      modifies db, oracle, cred, mfa
      ensures Takes(cfg, q, DecideLoaded(cfg, old(db.tables), q, identity, old(cred.Snapshot())), oracle.Quiet(),
                    old(WorldNow()), WorldNow(), out)
      ensures !out.RateLimited?
      ensures Keyed(db.tables.sessions)
    {
      ghost var d := DecideLoaded(cfg, db.tables, q, identity, cred.Snapshot());
      var locked := cred.EnsureVerifiable(q.now);
      if locked.Some? {
        db.RecordAttempt(AttemptOf(q, Some(identity), LockedOutcome, None), oracle);
        return AccountIsLocked(cred.lockedUntil);
      }
      if !q.passwordOk {
        out := FailCredential(q, d, identity, cred);
        return;
      }
      var refused := cred.RecordSuccessfulVerification(q.now);
      assert refused.None?;
      var noDevice := oracle.Ask();
      if noDevice {
        return SystemError;
      }
      var device := DeviceKnown(db.tables, identity, q.fingerprint);
      var noFactor := oracle.Ask();
      if noFactor {
        return SystemError;
      }
      var mfaRequired := ActiveFactors(db.tables, identity) != [] || !device;
      if RequiresPasswordChange(cred.SecretPart(), q.now) {
        out := CompleteForcedChange(q, d, identity, cred);
      } else if mfaRequired {
        out := CompleteMfaRequired(q, d, identity, cred);
      } else {
        out := CompleteSession(q, d, identity, cred);
      }
    }

    /** The login of an active identity: its credential is absent, unreadable or loaded. */
    method LoginAs(q: Request, identity: string) returns (out: Outcome)
      requires Keyed(db.tables.sessions) && q.resolution == Resolved(identity, true)
      modifies db, oracle, mfa
      ensures LoginStep(cfg, q, oracle.Quiet(), old(WorldNow()), WorldNow(), out) && !out.RateLimited?
      ensures Keyed(db.tables.sessions)
    {
      var loaded, cred := db.FindByIdentity(identity, oracle);
      if !loaded {
        return SystemError;
      }
      if cred.None? {
        db.RecordAttempt(AttemptOf(q, Some(identity), FailedCredentials, None), oracle);
        return InvalidLogin;
      }
      assert Decide(cfg, db.tables, q) == DecideLoaded(cfg, db.tables, q, identity, cred.value.Snapshot());
      out := LoginWith(q, identity, cred.value);
    }

    /** The login of a request the limiter has admitted. */
    method LoginAdmitted(q: Request) returns (out: Outcome)
      requires Keyed(db.tables.sessions)
      modifies db, oracle, mfa
      ensures LoginStep(cfg, q, oracle.Quiet(), old(WorldNow()), WorldNow(), out) && !out.RateLimited?
      ensures Keyed(db.tables.sessions)
    {
      var unresolved := oracle.Ask();
      if unresolved {
        return SystemError;
      }
      if q.resolution.NotFound? || !q.resolution.active {
        db.RecordAttempt(AttemptOf(q, None, FailedCredentials, None), oracle);
        return InvalidLogin;
      }
      out := LoginAs(q, q.resolution.identity);
    }

    /** No call of this login fails, to the limiter or to anything else. */
    ghost predicate Undisturbed(visit: RL.Visit) {
      oracle.Quiet() && visit.firstFate.Answered? && visit.secondFate.Answered?
    }

    ghost predicate Admits(store: RL.Store, visit: RL.Visit) {
      RL.PassesIp(limits, store, visit) && RL.PassesIdentity(limits, store, visit)
    }

    /**
     Login. Whatever the stores, the limiter and the identity service do, the
     world moves by one LoginStep, and the limiter by one visit.
     */
    method Login(q: Request, visit: RL.Visit) returns (out: Outcome)
      requires Keyed(db.tables.sessions)
      requires visit.ip == q.ip && visit.identifierHash == q.identifierHash
      modifies db, oracle, mfa, limiter
      ensures LoginStep(cfg, q, Undisturbed(visit), old(WorldNow()), WorldNow(), out)
      ensures Keyed(db.tables.sessions)
      ensures forall k :: RL.Lookup(limiter.store, k) == RL.Lookup(RL.VisitStore(limits, old(limiter.store), visit), k)
      ensures !out.SystemError? ==> (out.RateLimited? <==> !Admits(old(limiter.store), visit))
    {
      var verdict := RL.CheckRateLimit(limiter, limits, visit);
      if verdict.Unavailable? {
        return SystemError;
      }
      if verdict.Limited? {
        db.RecordAttempt(AttemptOf(q, None, RateLimitedOutcome, None), oracle);
        return RateLimited;
      }
      out := LoginAdmitted(q);
      QuieterStep(cfg, q, Decide(cfg, old(db.tables), q), oracle.Quiet(), Undisturbed(visit), old(WorldNow()),
                  WorldNow(), out);
    }
  }

  /** A step that is possible when fewer calls fail is possible when more do. */
  lemma QuieterStep(cfg: Config, q: Request, d: Decision, quiet: bool, quiet': bool, w: World, w': World, out: Outcome)
    requires Takes(cfg, q, d, quiet, w, w', out) && (quiet' ==> quiet)
    ensures Takes(cfg, q, d, quiet', w, w', out)
  {
  }

  /** Evictions followed by the new session's writes are the commit of a session. */
  lemma SessionWritten(cfg: Config, t: Tables, mid: Tables, q: Request, d: Decision, terms: Terms, evicted: Sessions,
                       t': Tables)
    requires d.Verified? && d.branch.Opens? && TermsOf(cfg, q, d.identity) == Ok(terms)
    requires mid == t.(sessions := evicted) && Evicts(cfg, t.sessions, d.identity, q.client, q.now, evicted)
    requires evicted.Keys == t.sessions.Keys && Keyed(evicted) && FreshIds(mid, q) && terms.idleTimeout >= 0
    requires t' == OpenedTables(cfg, mid, q, d, terms, evicted)
    ensures CommitsSession(cfg, t, q, d, t') && Keyed(t'.sessions)
  {
    assert t'.sessions - {q.sessionId} == evicted;
  }
}
