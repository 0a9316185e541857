/**
 Login over its tables: what one login decides from what it reads, and what its
 transaction writes if it commits. Module LoginUsecase carries it out call by
 call and is proved to do nothing else; module LoginRuns draws the conclusions.
 */
module LoginSpec {
  import opened Types
  import opened CredentialSpec
  import opened CredentialPersistence
  import opened SessionSpec
  import opened SessionPersistence

  // ------------------------------------------------------------------------
  // The tables.
  // ------------------------------------------------------------------------

  datatype AttemptOutcome =
    | RateLimitedOutcome
    | LockedOutcome
    | FailedCredentials
    | PasswordChangeOutcome
    | MfaOutcome
    | Succeeded

  /** A row of the INSERT-only login_attempts table. */
  datatype AttemptRow = AttemptRow(identity: Option<string>, identifierHash: string, outcome: AttemptOutcome,
                                   ip: string, userAgent: string, fingerprint: string, session: Option<string>,
                                   at: Time)

  datatype Family = Family(session: string, identity: string)

  datatype RefreshToken = RefreshToken(family: string, client: string, issuerIp: string, issuedAt: Time,
                                       expiresAt: Time)

  datatype Device = Device(id: string, revoked: bool, lastSeenAt: Time)

  datatype OutboxEvent = FromCredential(event: CredentialEvent) | FromSession(sessionEvent: SessionEvent)

  type Sessions = map<string, SessionRow>

  datatype Tables = Tables(
    credentials: map<string, CredentialRow>,        // by identity_id, which is unique
    sessions: Sessions,                             // by id
    families: map<string, Family>,                  // by id
    tokens: map<string, RefreshToken>,              // by token_hash, which is unique
    devices: map<(string, string), Device>,         // by identity_id and fingerprint_hash
    factors: map<string, seq<FactorType>>,          // ACTIVE rows by identity_id
    attempts: seq<AttemptRow>,
    outbox: seq<OutboxEvent>)

  // ------------------------------------------------------------------------
  // One login.
  // ------------------------------------------------------------------------

  datatype ConcurrentPolicy = AllowAll | LimitN | Single | OtherPolicy(raw: string)

  datatype Config = Config(lockout: LockoutPolicy, session: SessionPolicy, concurrent: ConcurrentPolicy,
                           concurrentMax: int, refreshTtl: Duration)

  datatype Resolution = NotFound | Resolved(identity: string, active: bool)

  /** What a login is given and what the world outside the database answers it. */
  datatype Request = Request(
    identifierHash: string,
    client: string,
    companyCode: string,
    ip: string,
    userAgent: string,
    fingerprint: string,
    now: Time,
    resolution: Resolution,
    passwordOk: bool,
    sessionId: string,
    familyId: string,
    tokenHash: string,
    mfaToken: string)

  function AttemptContextOf(q: Request): AttemptContext {
    AttemptContext(q.companyCode, q.ip, q.userAgent, q.fingerprint)
  }

  function AttemptOf(q: Request, identity: Option<string>, outcome: AttemptOutcome,
                     session: Option<string>): AttemptRow {
    AttemptRow(identity, q.identifierHash, outcome, q.ip, q.userAgent,
               if outcome.RateLimitedOutcome? then "" else q.fingerprint, session, q.now)
  }

  /** What a verified credential leads to. */
  datatype Branch = MustChange | NeedsMfa | Opens

  datatype Decision =
    | Refuse(known: Option<string>)
    | Unreadable
    | RefuseLocked(identity: string, until: Option<Time>)
    | Wrong(identity: string, next: CredentialSnapshot, events: seq<CredentialEvent>)
    | Verified(identity: string, next: CredentialSnapshot, events: seq<CredentialEvent>, branch: Branch)

  predicate DeviceKnown(t: Tables, identity: string, fingerprint: string) {
    (identity, fingerprint) in t.devices && !t.devices[(identity, fingerprint)].revoked
  }

  /** The ACTIVE rows of an identity in mfa_factors. */
  function ActiveFactors(t: Tables, identity: string): seq<FactorType> {
    if identity in t.factors then t.factors[identity] else []
  }

  /** ListActiveFactorTypes: the distinct types among them that the service recognises. */
  function Recognised(factors: seq<FactorType>): (r: seq<FactorType>)
    ensures NoDuplicates(r) && forall f :: f in r <==> f in factors && !f.OtherFactor?
  {
    if factors == [] then []
    else
      var rest := Recognised(Front(factors));
      assert factors == Front(factors) + [Last(factors)];
      if Last(factors).OtherFactor? || Last(factors) in rest then rest else rest + [Last(factors)]
  }

  /** The decision tree after a successful verification: forced change first, then MFA. */
  function BranchOf(t: Tables, q: Request, identity: string, c: Secret): Branch {
    if RequiresPasswordChange(c, q.now) then MustChange
    else if ActiveFactors(t, identity) != [] || !DeviceKnown(t, identity, q.fingerprint) then NeedsMfa
    else Opens
  }

  /** What a login that is not rate limited decides, from the tables as it reads them. */
  function Decide(cfg: Config, t: Tables, q: Request): Decision {
    match q.resolution
    case NotFound => Refuse(None)
    case Resolved(identity, active) =>
      if !active then Refuse(None)
      else if identity !in t.credentials then Refuse(Some(identity))
      else if !Loadable(t.credentials[identity]) then Unreadable
      else DecideLoaded(cfg, t, q, identity, RowSnapshot(t.credentials[identity]))
  }

  function DecideLoaded(cfg: Config, t: Tables, q: Request, identity: string, s: CredentialSnapshot): Decision {
    var e := EnsureStep(s, q.now);
    if e.err.Some? then RefuseLocked(identity, s.lock.lockedUntil)
    else if !q.passwordOk then
      var f := FailStep(e.next, AttemptContextOf(q), cfg.lockout, q.now);
      Wrong(identity, f.next, e.emitted + f.emitted)
    else
      var g := SucceedStep(e.next, q.now);
      Verified(identity, g.next, e.emitted + g.emitted, BranchOf(t, q, identity, g.next.secret))
  }

  // ------------------------------------------------------------------------
  // What commits write.
  // ------------------------------------------------------------------------

  /** UPDATE credentials ... WHERE id = $1. */
  function SaveCredential(rows: map<string, CredentialRow>, s: CredentialSnapshot): map<string, CredentialRow> {
    map k | k in rows :: if rows[k].id == s.id then SaveColumns(rows[k], s) else rows[k]
  }

  function Wrap(events: seq<CredentialEvent>): (r: seq<OutboxEvent>)
    ensures |r| == |events| && forall i :: 0 <= i < |r| ==> r[i] == FromCredential(events[i])
  {
    seq(|events|, i requires 0 <= i < |events| => FromCredential(events[i]))
  }

  /** The three writes shared by every outcome that stores a credential. */
  function Persisted(t: Tables, s: CredentialSnapshot, events: seq<CredentialEvent>, row: AttemptRow): Tables {
    t.(credentials := SaveCredential(t.credentials, s), outbox := t.outbox + Wrap(events),
       attempts := t.attempts + [row])
  }

  predicate Mine(row: SessionRow, identity: string, client: string) {
    row.identity == identity && row.client == client && row.status.Active?
  }

  function ActiveIds(sessions: Sessions, identity: string, client: string): set<string> {
    set id | id in sessions && Mine(sessions[id], identity, client)
  }

  predicate LiveRow(row: SessionRow, now: Time) {
    IsActive(SnapshotOfRow(row), now)
  }

  /** Revoking a loaded session in memory and, if that worked, in the table. */
  function EvictRow(row: SessionRow, now: Time): SessionRow {
    var r := RevokeStep(SnapshotOfRow(row), ConcurrentSessionLimit, "", now);
    if r.err.None? then RevokeColumns(row, r.next) else row
  }

  function EvictAll(sessions: Sessions, identity: string, client: string, now: Time): Sessions {
    map id | id in sessions ::
      if Mine(sessions[id], identity, client) then EvictRow(sessions[id], now) else sessions[id]
  }

  ghost predicate OldestActive(sessions: Sessions, identity: string, client: string, id: string) {
    && id in ActiveIds(sessions, identity, client)
    && forall x :: x in ActiveIds(sessions, identity, client) ==> sessions[id].createdAt <= sessions[x].createdAt
  }

  /** applyConcurrentSessionPolicy: which session tables it can leave behind without an error. */
  ghost predicate Evicts(cfg: Config, sessions: Sessions, identity: string, client: string, now: Time,
                         after: Sessions) {
    var active := ActiveIds(sessions, identity, client);
    match cfg.concurrent
    case Single =>
      && (forall id :: id in active ==> LoadableSession(sessions[id]))
      && after == EvictAll(sessions, identity, client, now)
    case LimitN =>
      if |active| < cfg.concurrentMax || active == {} then after == sessions
      else exists id :: OldestActive(sessions, identity, client, id) && LoadableSession(sessions[id])
                        && after == sessions[id := EvictRow(sessions[id], now)]
    case _ => after == sessions
  }

  /** Evicting sessions removes none of them. */
  lemma EvictionKeepsKeys(cfg: Config, sessions: Sessions, identity: string, client: string, now: Time, after: Sessions)
    requires Evicts(cfg, sessions, identity, client, now, after)
    ensures after.Keys == sessions.Keys
  {
  }

  function TouchDevice(devices: map<(string, string), Device>, key: (string, string),
                       now: Time): map<(string, string), Device> {
    if key in devices then devices[key := devices[key].(lastSeenAt := now)] else devices
  }

  function TermsOf(cfg: Config, q: Request, identity: string): Result<Terms, SessionError> {
    NewTerms(q.sessionId, identity, "", Aal1, [], ClientInfo(q.ip, q.userAgent), cfg.session, q.now)
  }

  /** Everything a completed login writes, given the session table its evictions left. */
  function OpenedTables(cfg: Config, t: Tables, q: Request, d: Decision, terms: Terms, evicted: Sessions): Tables
    requires d.Verified? && terms.idleTimeout >= 0
  {
    Tables(
      SaveCredential(t.credentials, d.next),
      evicted[q.sessionId := RowOfSession(Opened(terms), q.client)],
      t.families[q.familyId := Family(q.sessionId, d.identity)],
      t.tokens[q.tokenHash := RefreshToken(q.familyId, q.client, q.ip, q.now, q.now + cfg.refreshTtl)],
      TouchDevice(t.devices, (d.identity, q.fingerprint), q.now),
      t.factors,
      t.attempts + [AttemptOf(q, Some(d.identity), Succeeded, Some(q.sessionId))],
      t.outbox + (Wrap(d.events) + [FromSession(CreatedEvent(terms))]))
  }

  /** No primary key or unique column is taken yet. */
  predicate FreshIds(t: Tables, q: Request) {
    q.sessionId !in t.sessions && q.familyId !in t.families && q.tokenHash !in t.tokens
  }

  ghost predicate CommitsSession(cfg: Config, t: Tables, q: Request, d: Decision, t': Tables) {
    && d.Verified? && d.branch.Opens?
    && TermsOf(cfg, q, d.identity).Ok? && TermsOf(cfg, q, d.identity).value.idleTimeout >= 0
    && FreshIds(t, q)
    && var evicted := t'.sessions - {q.sessionId};
       && Evicts(cfg, t.sessions, d.identity, q.client, q.now, evicted)
       && t' == OpenedTables(cfg, t, q, d, TermsOf(cfg, q, d.identity).value, evicted)
  }

  function OutcomeRow(q: Request, d: Decision): AttemptRow
    requires d.Wrong? || d.Verified?
  {
    AttemptOf(q, Some(d.identity),
              if d.Wrong? then FailedCredentials
              else match d.branch
                case MustChange => PasswordChangeOutcome
                case NeedsMfa => MfaOutcome
                case Opens => Succeeded,
              None)
  }

  /** The whole commit a decision calls for. */
  ghost predicate Commits(cfg: Config, t: Tables, q: Request, d: Decision, t': Tables) {
    match d
    case Refuse(_) => false
    case Unreadable => false
    case RefuseLocked(_, _) => false
    case Wrong(_, next, events) => t' == Persisted(t, next, events, OutcomeRow(q, d))
    case Verified(_, next, events, branch) =>
      if branch.Opens? then CommitsSession(cfg, t, q, d, t')
      else t' == Persisted(t, next, events, OutcomeRow(q, d))
  }

  /** A login_attempts row written outside any transaction; it is lost only when a call fails. */
  predicate BestEffort(quiet: bool, t: Tables, row: AttemptRow, t': Tables) {
    t' == t.(attempts := t.attempts + [row]) || (!quiet && t' == t)
  }

  /** An ACTIVE row of the pair cannot be loaded. */
  ghost predicate BadRow(sessions: Sessions, identity: string, client: string) {
    exists id :: id in ActiveIds(sessions, identity, client) && !LoadableSession(sessions[id])
  }

  /** An oldest ACTIVE row of the pair cannot be loaded. */
  ghost predicate BadOldest(sessions: Sessions, identity: string, client: string) {
    exists id :: OldestActive(sessions, identity, client, id) && !LoadableSession(sessions[id])
  }

  /** The configured policy reads a row that cannot be loaded. */
  ghost predicate ReadsBadRow(cfg: Config, sessions: Sessions, identity: string, client: string) {
    match cfg.concurrent
    case Single => BadRow(sessions, identity, client)
    case LimitN => |ActiveIds(sessions, identity, client)| >= cfg.concurrentMax && BadOldest(sessions, identity, client)
    case _ => false
  }

  /** What can stop a session from being opened although no call fails. */
  ghost predicate Blocked(cfg: Config, t: Tables, q: Request, d: Decision) {
    && d.Verified? && d.branch.Opens?
    && (TermsOf(cfg, q, d.identity).Err? || !FreshIds(t, q) || ReadsBadRow(cfg, t.sessions, d.identity, q.client))
  }

  // ------------------------------------------------------------------------
  // The whole step.
  // ------------------------------------------------------------------------

  datatype MfaState = MfaState(identity: string, verifiedAt: Time, factors: seq<FactorType>, client: string,
                               fingerprint: string)

  /** The database, and the MFA sessions held in Redis. */
  datatype World = World(tables: Tables, mfa: map<string, MfaState>)

  datatype Outcome =
    | Completed(session: string)
    | MfaRequired(token: string, factors: seq<FactorType>)
    | PasswordChangeRequired
    | InvalidLogin
    | AccountIsLocked(until: Option<Time>)
    | RateLimited
    | SystemError

  function MfaStateOf(t: Tables, q: Request, d: Decision): MfaState
    requires d.Verified?
  {
    MfaState(d.identity, q.now, Recognised(ActiveFactors(t, d.identity)), q.client, q.fingerprint)
  }

  /**
   Everything one login can do on its decision, and what it answers when it does
   so. `quiet` says that no call failed: then a system error means an unreadable
   row or a blocked session, and it leaves the world as it was.
   */
  ghost predicate Takes(cfg: Config, q: Request, d: Decision, quiet: bool, w: World, w': World, out: Outcome) {
    match out
    case RateLimited =>
      BestEffort(quiet, w.tables, AttemptOf(q, None, RateLimitedOutcome, None), w'.tables) && w'.mfa == w.mfa
    case InvalidLogin =>
      && w'.mfa == w.mfa
      && (d.Refuse? || d.Wrong?)
      && (d.Refuse? ==> BestEffort(quiet, w.tables, AttemptOf(q, d.known, FailedCredentials, None), w'.tables))
      && (d.Wrong? ==> Commits(cfg, w.tables, q, d, w'.tables))
    case AccountIsLocked(until) =>
      && w'.mfa == w.mfa
      && d.RefuseLocked? && until == d.until
      && BestEffort(quiet, w.tables, AttemptOf(q, Some(d.identity), LockedOutcome, None), w'.tables)
    case PasswordChangeRequired =>
      w'.mfa == w.mfa && d.Verified? && d.branch.MustChange? && Commits(cfg, w.tables, q, d, w'.tables)
    case MfaRequired(token, factors) =>
      && d.Verified? && d.branch.NeedsMfa? && Commits(cfg, w.tables, q, d, w'.tables)
      && token == q.mfaToken && factors == Recognised(ActiveFactors(w.tables, d.identity))
      && w'.mfa == w.mfa[token := MfaStateOf(w.tables, q, d)]
    case Completed(session) =>
      && w'.mfa == w.mfa && session == q.sessionId
      && d.Verified? && d.branch.Opens? && Commits(cfg, w.tables, q, d, w'.tables)
    case SystemError =>
      || (w' == w && (!quiet || d.Unreadable? || Blocked(cfg, w.tables, q, d)))
      || (!quiet && Commits(cfg, w.tables, q, d, w'.tables)
          && (w'.mfa == w.mfa
              || (d.Verified? && d.branch.NeedsMfa? && w'.mfa == w.mfa[q.mfaToken := MfaStateOf(w.tables, q, d)])))
  }

  /** One login, from the decision it reads off the tables. */
  ghost predicate LoginStep(cfg: Config, q: Request, quiet: bool, w: World, w': World, out: Outcome) {
    Takes(cfg, q, Decide(cfg, w.tables, q), quiet, w, w', out)
  }
}
