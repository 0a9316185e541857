/** What the concurrent-session policy guarantees about the session table. */
module ConcurrentSessions {
  import opened Types
  import opened SessionSpec
  import opened SessionPersistence
  import opened LoginSpec
  import opened LoginRuns

  predicate SamePair(row: SessionRow, identity: string, client: string) {
    row.identity == identity && row.client == client
  }

  /** Evicting a row ends it exactly when it was live. */
  lemma EvictedRow(row: SessionRow, now: Time)
    requires row.status.Active?
    ensures var row' := EvictRow(row, now);
            if LiveRow(row, now)
            then row' == row.(status := Revoked, revokedAt := Some(now), reason := Some(ConcurrentSessionLimit))
            else row' == row
  {
  }

  /** A new row can be loaded, and is live, exactly when the idle timeout is at least a second. */
  lemma NewRow(cfg: Config, q: Request, identity: string)
    requires TermsOf(cfg, q, identity).Ok?
    ensures var terms := TermsOf(cfg, q, identity).value;
            && terms.idleTimeout > 0
            && var row := RowOfSession(Opened(terms), q.client);
               && Mine(row, identity, q.client)
               && (LiveRow(row, q.now) <==> cfg.session.idleTimeout >= SECOND)
               && (LoadableSession(row) <==> cfg.session.idleTimeout >= SECOND)
  {
  }

  /** The session table of a commit: what the evictions left, and the new row. */
  lemma CommittedSessions(cfg: Config, t: Tables, q: Request, d: Decision, t': Tables)
    requires CommitsSession(cfg, t, q, d, t')
    ensures var evicted := t'.sessions - {q.sessionId};
            && q.sessionId !in t.sessions && q.sessionId in t'.sessions
            && Evicts(cfg, t.sessions, d.identity, q.client, q.now, evicted)
            && t'.sessions == evicted[q.sessionId := t'.sessions[q.sessionId]]
            && evicted.Keys == t.sessions.Keys
            && TermsOf(cfg, q, d.identity).Ok?
            && t'.sessions[q.sessionId] == RowOfSession(Opened(TermsOf(cfg, q, d.identity).value), q.client)
  {
  }

  /** Whatever the policy, rows of other identities and clients, and rows that have ended, are untouched. */
  lemma OthersUntouched(cfg: Config, t: Tables, q: Request, d: Decision, t': Tables, id: string)
    requires CommitsSession(cfg, t, q, d, t') && id in t.sessions
    requires !Mine(t.sessions[id], d.identity, q.client)
    ensures id in t'.sessions && t'.sessions[id] == t.sessions[id]
  {
    CommittedSessions(cfg, t, q, d, t');
    var evicted := t'.sessions - {q.sessionId};
    assert evicted[id] == t.sessions[id];
  }

  // ------------------------------------------------------------------------
  // Other pairs.
  // ------------------------------------------------------------------------

  /** A commit moves no row to another pair. */
  lemma CommitKeepsPairs(cfg: Config, t: Tables, q: Request, d: Decision, t': Tables, id: string)
    requires CommitsSession(cfg, t, q, d, t') && id in t'.sessions && id != q.sessionId
    ensures id in t.sessions && SamePair(t'.sessions[id], t.sessions[id].identity, t.sessions[id].client)
  {
    CommittedSessions(cfg, t, q, d, t');
    var evicted := t'.sessions - {q.sessionId};
    assert t'.sessions[id] == evicted[id];
    if Mine(t.sessions[id], d.identity, q.client) {
      EvictedRow(t.sessions[id], q.now);
      assert evicted[id] == t.sessions[id] || evicted[id] == EvictRow(t.sessions[id], q.now);
    } else {
      OthersUntouched(cfg, t, q, d, t', id);
    }
  }

  /** The rows of one pair. */
  function PairRows(sessions: Sessions, identity: string, client: string): Sessions {
    map id | id in sessions && SamePair(sessions[id], identity, client) :: sessions[id]
  }

  predicate HoldsPair(sessions: Sessions, id: string, identity: string, client: string) {
    id in sessions && SamePair(sessions[id], identity, client)
  }

  lemma SamePairRows(a: Sessions, b: Sessions, identity: string, client: string)
    requires forall id :: HoldsPair(a, id, identity, client) <==> HoldsPair(b, id, identity, client)
    requires forall id :: HoldsPair(a, id, identity, client) && HoldsPair(b, id, identity, client) ==> a[id] == b[id]
    ensures PairRows(a, identity, client) == PairRows(b, identity, client)
  {
    var rows, rows' := PairRows(a, identity, client), PairRows(b, identity, client);
    assert forall id :: id in rows <==> HoldsPair(a, id, identity, client);
    assert forall id :: id in rows' <==> HoldsPair(b, id, identity, client);
  }

  lemma OtherPairKeepsRow(cfg: Config, t: Tables, q: Request, d: Decision, t': Tables, identity: string,
                          client: string, id: string)
    requires CommitsSession(cfg, t, q, d, t') && (identity, client) != (d.identity, q.client)
    ensures HoldsPair(t.sessions, id, identity, client) <==> HoldsPair(t'.sessions, id, identity, client)
    ensures HoldsPair(t.sessions, id, identity, client) ==> t.sessions[id] == t'.sessions[id]
  {
    CommittedSessions(cfg, t, q, d, t');
    NewRow(cfg, q, d.identity);
    if id in t'.sessions && id != q.sessionId {
      CommitKeepsPairs(cfg, t, q, d, t', id);
      if SamePair(t.sessions[id], identity, client) {
        OthersUntouched(cfg, t, q, d, t', id);
      }
    }
  }

  /** A commit of one pair leaves the rows of every other pair as they were. */
  lemma OtherPairsKeepRows(cfg: Config, t: Tables, q: Request, d: Decision, t': Tables, identity: string,
                           client: string)
    requires CommitsSession(cfg, t, q, d, t') && (identity, client) != (d.identity, q.client)
    ensures PairRows(t'.sessions, identity, client) == PairRows(t.sessions, identity, client)
  {
    forall id
      ensures HoldsPair(t.sessions, id, identity, client) <==> HoldsPair(t'.sessions, id, identity, client)
      ensures HoldsPair(t.sessions, id, identity, client) ==> t.sessions[id] == t'.sessions[id]
    {
      OtherPairKeepsRow(cfg, t, q, d, t', identity, client, id);
    }
    SamePairRows(t.sessions, t'.sessions, identity, client);
  }

  /** The ACTIVE rows of a pair are among its rows. */
  lemma ActiveOfPair(a: Sessions, b: Sessions, identity: string, client: string)
    requires PairRows(a, identity, client) == PairRows(b, identity, client)
    ensures ActiveIds(a, identity, client) == ActiveIds(b, identity, client)
    ensures forall id :: id in ActiveIds(a, identity, client) ==> a[id] == b[id]
  {
    var rows, rows' := PairRows(a, identity, client), PairRows(b, identity, client);
    forall id
      ensures id in ActiveIds(a, identity, client) <==> id in ActiveIds(b, identity, client)
      ensures id in ActiveIds(a, identity, client) ==> a[id] == b[id]
    {
      assert id in rows <==> id in rows';
      if id in rows {
        assert rows[id] == rows'[id];
      }
    }
  }

  // ------------------------------------------------------------------------
  // SINGLE.
  // ------------------------------------------------------------------------

  /**
   Under SINGLE, a committed login leaves its own session as the only one of
   that identity and client that can be live; and it is live exactly when the
   idle timeout survives being stored in whole seconds.
   */
  lemma SingleLeavesOnlyTheNewSession(cfg: Config, t: Tables, q: Request, d: Decision, t': Tables, id: string)
    requires cfg.concurrent.Single? && CommitsSession(cfg, t, q, d, t')
    requires id in t'.sessions && SamePair(t'.sessions[id], d.identity, q.client)
    ensures LiveRow(t'.sessions[id], q.now) <==> id == q.sessionId && cfg.session.idleTimeout >= SECOND
  {
    CommittedSessions(cfg, t, q, d, t');
    NewRow(cfg, q, d.identity);
    var evicted := t'.sessions - {q.sessionId};
    if id != q.sessionId {
      assert evicted[id] == t'.sessions[id];
      if Mine(t.sessions[id], d.identity, q.client) {
        EvictedRow(t.sessions[id], q.now);
      }
    }
  }

  /** No two sessions of one identity and client are live. */
  ghost predicate OneLivePerPair(sessions: Sessions, now: Time) {
    forall a, b ::
      (a in sessions && b in sessions && SamePair(sessions[a], sessions[b].identity, sessions[b].client)
       && LiveRow(sessions[a], now) && LiveRow(sessions[b], now)) ==> a == b
  }

  lemma LiveBefore(row: SessionRow, now: Time, later: Time)
    requires now <= later && LiveRow(row, later)
    ensures LiveRow(row, now)
  {
  }

  lemma OneLiveLater(sessions: Sessions, now: Time, later: Time)
    requires OneLivePerPair(sessions, now) && now <= later
    ensures OneLivePerPair(sessions, later)
  {
    forall id | id in sessions && LiveRow(sessions[id], later)
      ensures LiveRow(sessions[id], now)
    {
      LiveBefore(sessions[id], now, later);
    }
  }

  /** A row that is live after a commit is the new one, or was there before as it is. */
  lemma LiveAfterCommit(cfg: Config, t: Tables, q: Request, d: Decision, t': Tables, id: string)
    requires cfg.concurrent.Single? && CommitsSession(cfg, t, q, d, t')
    requires id in t'.sessions && LiveRow(t'.sessions[id], q.now)
    ensures SamePair(t'.sessions[id], d.identity, q.client) <==> id == q.sessionId
    ensures id != q.sessionId ==> id in t.sessions && t'.sessions[id] == t.sessions[id]
  {
    CommittedSessions(cfg, t, q, d, t');
    NewRow(cfg, q, d.identity);
    if SamePair(t'.sessions[id], d.identity, q.client) {
      SingleLeavesOnlyTheNewSession(cfg, t, q, d, t', id);
    } else {
      CommitKeepsPairs(cfg, t, q, d, t', id);
      OthersUntouched(cfg, t, q, d, t', id);
    }
  }

  lemma StepKeepsOneLive(cfg: Config, t: Tables, q: Request, d: Decision, t': Tables)
    requires cfg.concurrent.Single? && AllOrNothing(cfg, q, d, t, t') && OneLivePerPair(t.sessions, q.now)
    ensures OneLivePerPair(t'.sessions, q.now)
  {
    if CommitsSession(cfg, t, q, d, t') {
      forall id | id in t'.sessions && LiveRow(t'.sessions[id], q.now)
        ensures SamePair(t'.sessions[id], d.identity, q.client) <==> id == q.sessionId
        ensures id != q.sessionId ==> id in t.sessions && t'.sessions[id] == t.sessions[id]
      {
        LiveAfterCommit(cfg, t, q, d, t', id);
      }
    } else if t' != t {
      NonOpeningStep(cfg, q, d, t, t');
    }
  }

  /** The logins of a run come in order, none before `start`. */
  ghost predicate InOrderFrom(qs: seq<Request>, start: Time) {
    && (forall i :: 0 <= i < |qs| ==> start <= qs[i].now)
    && forall i, j :: 0 <= i < j < |qs| ==> qs[i].now <= qs[j].now
  }

  function LastNow(qs: seq<Request>, start: Time): Time {
    if qs == [] then start else Last(qs).now
  }

  /** Under SINGLE, over every run of logins in order, at most one session of a pair is live at any later instant. */
  lemma {:induction false} SingleHoldsOverRuns(cfg: Config, ws: seq<World>, qs: seq<Request>, outs: seq<Outcome>,
                                               start: Time, later: Time)
    requires cfg.concurrent.Single? && LoginRun(cfg, ws, qs, outs)
    requires InOrderFrom(qs, start) && LastNow(qs, start) <= later && OneLivePerPair(ws[0].tables.sessions, start)
    ensures OneLivePerPair(Last(ws).tables.sessions, later)
  {
    if qs == [] {
      OneLiveLater(ws[0].tables.sessions, start, later);
    } else {
      var w, w', q := Last(Front(ws)), Last(ws), Last(qs);
      ShorterRun(cfg, ws, qs, outs);
      assert LastNow(Front(qs), start) <= q.now;
      SingleHoldsOverRuns(cfg, Front(ws), Front(qs), Front(outs), start, q.now);
      LoginIsAllOrNothing(cfg, q, false, w, w', Last(outs));
      StepKeepsOneLive(cfg, w.tables, q, Decide(cfg, w.tables, q), w'.tables);
      OneLiveLater(w'.tables.sessions, q.now, later);
    }
  }

  // ------------------------------------------------------------------------
  // LIMIT_N.
  // ------------------------------------------------------------------------

  function CountActive(sessions: Sessions, identity: string, client: string): nat {
    |ActiveIds(sessions, identity, client)|
  }

  /** The one row LIMIT_N evicted: the oldest ACTIVE one, live until now. */
  ghost predicate EvictsOldest(cfg: Config, t: Tables, q: Request, d: Decision, t': Tables, id: string)
    requires d.Verified?
  {
    && OldestActive(t.sessions, d.identity, q.client, id) && LiveRow(t.sessions[id], q.now)
    && t'.sessions - {q.sessionId} ==
       t.sessions[id := t.sessions[id].(status := Revoked, revokedAt := Some(q.now),
                                        reason := Some(ConcurrentSessionLimit))]
  }

  lemma CountAfterInsert(before: Sessions, after: Sessions, id: string, identity: string, client: string)
    requires id !in before && id in after && after == before[id := after[id]]
    ensures CountActive(after, identity, client) ==
            CountActive(before, identity, client) + if Mine(after[id], identity, client) then 1 else 0
  {
    var were, are := ActiveIds(before, identity, client), ActiveIds(after, identity, client);
    if Mine(after[id], identity, client) {
      assert are == were + {id};
    } else {
      assert are == were;
    }
  }

  lemma CountAfterEnd(sessions: Sessions, id: string, row: SessionRow, identity: string, client: string)
    requires id in sessions && !row.status.Active?
    ensures CountActive(sessions[id := row], identity, client) ==
            CountActive(sessions, identity, client) - if Mine(sessions[id], identity, client) then 1 else 0
  {
    var were := ActiveIds(sessions, identity, client);
    assert ActiveIds(sessions[id := row], identity, client) == were - {id};
  }

  /**
   Under LIMIT_N below the limit nothing is evicted; at the limit, either the
   oldest ACTIVE row was live and it alone is evicted, which keeps the count, or
   it was already expired and stays ACTIVE, which lets the count grow.
   */
  lemma LimitNEffect(cfg: Config, t: Tables, q: Request, d: Decision, t': Tables)
    requires cfg.concurrent.LimitN? && CommitsSession(cfg, t, q, d, t')
    ensures var n, n' := CountActive(t.sessions, d.identity, q.client), CountActive(t'.sessions, d.identity, q.client);
            || (n < cfg.concurrentMax && t'.sessions - {q.sessionId} == t.sessions && n' == n + 1)
            || (n >= cfg.concurrentMax && n' == n && exists id :: EvictsOldest(cfg, t, q, d, t', id))
            || (n >= cfg.concurrentMax && n' == n + 1 && t'.sessions - {q.sessionId} == t.sessions
                && (n == 0
                    || exists id ::
                         OldestActive(t.sessions, d.identity, q.client, id) && !LiveRow(t.sessions[id], q.now)))
  {
    CommittedSessions(cfg, t, q, d, t');
    NewRow(cfg, q, d.identity);
    var evicted := t'.sessions - {q.sessionId};
    var active := ActiveIds(t.sessions, d.identity, q.client);
    CountAfterInsert(evicted, t'.sessions, q.sessionId, d.identity, q.client);
    if !(|active| < cfg.concurrentMax || active == {}) {
      var id :| OldestActive(t.sessions, d.identity, q.client, id) && LoadableSession(t.sessions[id])
                && evicted == t.sessions[id := EvictRow(t.sessions[id], q.now)];
      EvictedRow(t.sessions[id], q.now);
      if LiveRow(t.sessions[id], q.now) {
        CountAfterEnd(t.sessions, id, EvictRow(t.sessions[id], q.now), d.identity, q.client);
        assert EvictsOldest(cfg, t, q, d, t', id);
      } else {
        assert evicted == t.sessions;
      }
    }
  }

  /** Every ACTIVE row is live: what enforcing expiry on the whole table establishes. */
  predicate Swept(sessions: Sessions, now: Time) {
    forall id :: id in sessions && sessions[id].status.Active? ==> LiveRow(sessions[id], now)
  }

  function SweepRow(row: SessionRow, now: Time): SessionRow {
    RevokeColumns(row, EnforceStep(SnapshotOfRow(row), now).next)
  }

  /** EnforceExpiry applied to every row that has run out. */
  function Sweep(sessions: Sessions, now: Time): Sessions {
    map id | id in sessions ::
      if Expires(SnapshotOfRow(sessions[id]), now) then SweepRow(sessions[id], now) else sessions[id]
  }

  ghost predicate WithinLimit(sessions: Sessions, max: int) {
    forall identity, client :: CountActive(sessions, identity, client) <= max
  }

  lemma SweepEstablishes(sessions: Sessions, now: Time, max: int)
    requires WithinLimit(sessions, max)
    ensures Swept(Sweep(sessions, now), now) && WithinLimit(Sweep(sessions, now), max)
  {
    forall identity, client
      ensures CountActive(Sweep(sessions, now), identity, client) <= max
    {
      assert ActiveIds(Sweep(sessions, now), identity, client) <= ActiveIds(sessions, identity, client);
      SubsetSize(ActiveIds(Sweep(sessions, now), identity, client), ActiveIds(sessions, identity, client));
      assert CountActive(sessions, identity, client) <= max;
    }
  }

  lemma SubsetSize(a: set<string>, b: set<string>)
    requires a <= b
    ensures |a| <= |b|
  {
    assert b == a + (b - a);
  }

  lemma LoginKeepsLimit(cfg: Config, t: Tables, q: Request, d: Decision, t': Tables)
    requires cfg.concurrent.LimitN? && cfg.concurrentMax >= 1
    requires WithinLimit(t.sessions, cfg.concurrentMax) && Swept(t.sessions, q.now) && CommitsSession(cfg, t, q, d, t')
    ensures WithinLimit(t'.sessions, cfg.concurrentMax)
  {
    forall identity, client
      ensures CountActive(t'.sessions, identity, client) <= cfg.concurrentMax
    {
      assert CountActive(t.sessions, identity, client) <= cfg.concurrentMax;
      if (identity, client) == (d.identity, q.client) {
        LimitNEffect(cfg, t, q, d, t');
      } else {
        OtherPairsKeepRows(cfg, t, q, d, t', identity, client);
        ActiveOfPair(t.sessions, t'.sessions, identity, client);
      }
    }
  }

  /** A run of logins, each of which meets a table whose expired rows have been swept. */
  ghost predicate SweptRun(cfg: Config, ts: seq<Tables>, ts': seq<Tables>, qs: seq<Request>) {
    && |ts| == |qs| + 1 && |ts'| == |qs|
    && forall i :: 0 <= i < |qs| ==>
         && ts'[i] == ts[i].(sessions := Sweep(ts[i].sessions, qs[i].now))
         && AllOrNothing(cfg, qs[i], Decide(cfg, ts'[i], qs[i]), ts'[i], ts[i + 1])
  }

  /** With expired rows swept before each login, LIMIT_N never exceeds its limit, for any pair, over any run. */
  lemma {:induction false} LimitHoldsOverRuns(cfg: Config, ts: seq<Tables>, ts': seq<Tables>, qs: seq<Request>)
    requires cfg.concurrent.LimitN? && cfg.concurrentMax >= 1 && SweptRun(cfg, ts, ts', qs)
    requires WithinLimit(ts[0].sessions, cfg.concurrentMax)
    ensures WithinLimit(Last(ts).sessions, cfg.concurrentMax)
  {
    if qs != [] {
      var n := |qs| - 1;
      LimitHoldsOverRuns(cfg, Front(ts), Front(ts'), Front(qs));
      SweepEstablishes(ts[n].sessions, qs[n].now, cfg.concurrentMax);
      assert ts'[n] == ts[n].(sessions := Sweep(ts[n].sessions, qs[n].now));
      var d := Decide(cfg, ts'[n], qs[n]);
      assert AllOrNothing(cfg, qs[n], d, ts'[n], ts[n + 1]);
      if CommitsSession(cfg, ts'[n], qs[n], d, ts[n + 1]) {
        LoginKeepsLimit(cfg, ts'[n], qs[n], d, ts[n + 1]);
      } else if ts[n + 1] != ts'[n] {
        NonOpeningStep(cfg, qs[n], d, ts'[n], ts[n + 1]);
      }
    }
  }

  /** Every session this login can commit leaves the pair within the limit. */
  ghost predicate EveryCommitWithinLimit(cfg: Config, t: Tables, q: Request, d: Decision)
    requires d.Verified?
  {
    forall t' :: CommitsSession(cfg, t, q, d, t') ==>
      CountActive(t'.sessions, d.identity, q.client) <= cfg.concurrentMax
  }

  /** A row that LIMIT_N may pick at the limit: one of the oldest, and loadable. */
  ghost predicate Candidate(t: Tables, q: Request, d: Decision, id: string)
    requires d.Verified?
  {
    OldestActive(t.sessions, d.identity, q.client, id) && LoadableSession(t.sessions[id])
  }

  /** The session can be opened as far as ids and terms go. */
  predicate CanOpen(cfg: Config, t: Tables, q: Request, d: Decision) {
    d.Verified? && d.branch.Opens? && TermsOf(cfg, q, d.identity).Ok? && FreshIds(t, q)
  }

  /** The commit that picks candidate `id`: it evicts the row if it is live and leaves it if it has expired. */
  lemma CandidateCommits(cfg: Config, t: Tables, q: Request, d: Decision, id: string) returns (t': Tables)
    requires cfg.concurrent.LimitN? && CanOpen(cfg, t, q, d) && Candidate(t, q, d, id)
    requires CountActive(t.sessions, d.identity, q.client) >= cfg.concurrentMax
    ensures CommitsSession(cfg, t, q, d, t')
    ensures CountActive(t'.sessions, d.identity, q.client) ==
            CountActive(t.sessions, d.identity, q.client) + if LiveRow(t.sessions[id], q.now) then 0 else 1
  {
    NewRow(cfg, q, d.identity);
    var row := EvictRow(t.sessions[id], q.now);
    var evicted := t.sessions[id := row];
    t' := OpenedTables(cfg, t, q, d, TermsOf(cfg, q, d.identity).value, evicted);
    assert t'.sessions - {q.sessionId} == evicted;
    assert Evicts(cfg, t.sessions, d.identity, q.client, q.now, evicted);
    CountAfterInsert(evicted, t'.sessions, q.sessionId, d.identity, q.client);
    EvictedRow(t.sessions[id], q.now);
    if LiveRow(t.sessions[id], q.now) {
      CountAfterEnd(t.sessions, id, row, d.identity, q.client);
    } else {
      assert evicted == t.sessions;
    }
  }

  /** What a commit at the limit does to the count, by the candidate it picked. */
  lemma CommitPicksCandidate(cfg: Config, t: Tables, q: Request, d: Decision, t': Tables) returns (id: string)
    requires cfg.concurrent.LimitN? && cfg.concurrentMax >= 1 && CommitsSession(cfg, t, q, d, t')
    requires CountActive(t.sessions, d.identity, q.client) >= cfg.concurrentMax
    ensures Candidate(t, q, d, id)
    ensures CountActive(t'.sessions, d.identity, q.client) ==
            CountActive(t.sessions, d.identity, q.client) + if LiveRow(t.sessions[id], q.now) then 0 else 1
  {
    CommittedSessions(cfg, t, q, d, t');
    NewRow(cfg, q, d.identity);
    var evicted := t'.sessions - {q.sessionId};
    id :| OldestActive(t.sessions, d.identity, q.client, id) && LoadableSession(t.sessions[id])
          && evicted == t.sessions[id := EvictRow(t.sessions[id], q.now)];
    CountAfterInsert(evicted, t'.sessions, q.sessionId, d.identity, q.client);
    EvictedRow(t.sessions[id], q.now);
    if LiveRow(t.sessions[id], q.now) {
      CountAfterEnd(t.sessions, id, EvictRow(t.sessions[id], q.now), d.identity, q.client);
    } else {
      assert evicted == t.sessions;
    }
  }

  /**
   Without the sweep, a login is sure to leave the pair within the limit exactly
   when the pair is below it, or is at it and every candidate for eviction is
   live; past the limit, only when there is no candidate and nothing commits.
   */
  lemma StaleRowsBreakLimit(cfg: Config, t: Tables, q: Request, d: Decision)
    requires cfg.concurrent.LimitN? && cfg.concurrentMax >= 1 && CanOpen(cfg, t, q, d)
    ensures var n := CountActive(t.sessions, d.identity, q.client);
            EveryCommitWithinLimit(cfg, t, q, d) <==>
            n < cfg.concurrentMax
            || forall id :: Candidate(t, q, d, id) ==> n == cfg.concurrentMax && LiveRow(t.sessions[id], q.now)
  {
    var n := CountActive(t.sessions, d.identity, q.client);
    if n < cfg.concurrentMax {
      forall t' | CommitsSession(cfg, t, q, d, t')
        ensures CountActive(t'.sessions, d.identity, q.client) <= cfg.concurrentMax
      {
        LimitNEffect(cfg, t, q, d, t');
      }
    } else {
      forall t' | CommitsSession(cfg, t, q, d, t')
        ensures exists id :: Candidate(t, q, d, id)
                  && CountActive(t'.sessions, d.identity, q.client) ==
                     n + if LiveRow(t.sessions[id], q.now) then 0 else 1
      {
        var id := CommitPicksCandidate(cfg, t, q, d, t');
      }
      forall id | Candidate(t, q, d, id)
        ensures exists t' :: CommitsSession(cfg, t, q, d, t')
                  && CountActive(t'.sessions, d.identity, q.client) ==
                     n + if LiveRow(t.sessions[id], q.now) then 0 else 1
      {
        var t' := CandidateCommits(cfg, t, q, d, id);
      }
    }
  }

  /** So a pair at the limit whose oldest row has expired goes past it with the next login. */
  lemma ExpiredRowExceedsLimit(cfg: Config, t: Tables, q: Request, d: Decision, id: string) returns (t': Tables)
    requires cfg.concurrent.LimitN? && CanOpen(cfg, t, q, d) && Candidate(t, q, d, id)
    requires !LiveRow(t.sessions[id], q.now)
    requires CountActive(t.sessions, d.identity, q.client) >= cfg.concurrentMax
    ensures CommitsSession(cfg, t, q, d, t')
    ensures CountActive(t'.sessions, d.identity, q.client) == CountActive(t.sessions, d.identity, q.client) + 1
    ensures CountActive(t'.sessions, d.identity, q.client) > cfg.concurrentMax
  {
    t' := CandidateCommits(cfg, t, q, d, id);
  }

  // ------------------------------------------------------------------------
  // Past the limit for good.
  // ------------------------------------------------------------------------

  /** The pair is at the limit, and whichever row LIMIT_N picks has expired by `now`. */
  ghost predicate Overrun(cfg: Config, sessions: Sessions, identity: string, client: string, now: Time) {
    && ActiveIds(sessions, identity, client) != {} && CountActive(sessions, identity, client) >= cfg.concurrentMax
    && forall id :: OldestActive(sessions, identity, client, id) ==>
         LoadableSession(sessions[id]) && !LiveRow(sessions[id], now)
  }

  lemma OverrunLater(cfg: Config, sessions: Sessions, identity: string, client: string, now: Time, later: Time)
    requires Overrun(cfg, sessions, identity, client, now) && now <= later
    ensures Overrun(cfg, sessions, identity, client, later)
  {
    forall id | OldestActive(sessions, identity, client, id)
      ensures !LiveRow(sessions[id], later)
    {
      if LiveRow(sessions[id], later) {
        LiveBefore(sessions[id], now, later);
      }
    }
  }

  lemma {:induction false} SomeOldest(sessions: Sessions, ids: set<string>) returns (oldest: string)
    requires ids != {} && ids <= sessions.Keys
    ensures oldest in ids && forall id :: id in ids ==> sessions[oldest].createdAt <= sessions[id].createdAt
    decreases |ids|
  {
    oldest :| oldest in ids;
    if ids != {oldest} {
      var other := SomeOldest(sessions, ids - {oldest});
      if sessions[other].createdAt < sessions[oldest].createdAt {
        oldest := other;
      }
    }
  }

  /** A row that can be loaded and has expired was created before. */
  lemma ExpiredIsOlder(row: SessionRow, now: Time)
    requires row.status.Active? && LoadableSession(row) && !LiveRow(row, now)
    ensures row.createdAt < now
  {
  }

  /** A row created now beside expired ones is not among the oldest. */
  lemma NewcomerIsNotOldest(cfg: Config, sessions: Sessions, identity: string, client: string, now: Time,
                            newcomer: string, row: SessionRow, after: Sessions)
    requires Overrun(cfg, sessions, identity, client, now) && newcomer !in sessions
    requires after == sessions[newcomer := row]
    requires Mine(row, identity, client) && row.createdAt == now
    ensures Overrun(cfg, after, identity, client, now)
    ensures CountActive(after, identity, client) == CountActive(sessions, identity, client) + 1
  {
    CountAfterInsert(sessions, after, newcomer, identity, client);
    var were := ActiveIds(sessions, identity, client);
    assert ActiveIds(after, identity, client) == were + {newcomer};
    var oldest := SomeOldest(sessions, were);
    assert OldestActive(sessions, identity, client, oldest);
    ExpiredIsOlder(sessions[oldest], now);
    forall id | OldestActive(after, identity, client, id)
      ensures OldestActive(sessions, identity, client, id) && after[id] == sessions[id]
    {
      assert after[oldest].createdAt < after[newcomer].createdAt;
    }
  }

  /** The session a login of the pair opens then: nothing is evicted. */
  lemma OverrunCommit(cfg: Config, t: Tables, q: Request, d: Decision, t': Tables)
    requires cfg.concurrent.LimitN? && CommitsSession(cfg, t, q, d, t')
    requires Overrun(cfg, t.sessions, d.identity, q.client, q.now)
    ensures t'.sessions - {q.sessionId} == t.sessions
    ensures Overrun(cfg, t'.sessions, d.identity, q.client, q.now)
    ensures CountActive(t'.sessions, d.identity, q.client) == CountActive(t.sessions, d.identity, q.client) + 1
  {
    CommittedSessions(cfg, t, q, d, t');
    NewRow(cfg, q, d.identity);
    var evicted := t'.sessions - {q.sessionId};
    var id :| OldestActive(t.sessions, d.identity, q.client, id) && LoadableSession(t.sessions[id])
              && evicted == t.sessions[id := EvictRow(t.sessions[id], q.now)];
    EvictedRow(t.sessions[id], q.now);
    assert evicted == t.sessions;
    var row := t'.sessions[q.sessionId];
    NewcomerIsNotOldest(cfg, t.sessions, d.identity, q.client, q.now, q.sessionId, row, t'.sessions);
  }

  /** The step opens a session of the pair. */
  ghost predicate OpensFor(cfg: Config, t: Tables, q: Request, t': Tables, identity: string, client: string) {
    var d := Decide(cfg, t, q);
    CommitsSession(cfg, t, q, d, t') && d.identity == identity && q.client == client
  }

  /** How many sessions of the pair a run opens. */
  ghost function OpenedBy(cfg: Config, ws: seq<World>, qs: seq<Request>, identity: string, client: string): nat
    requires |ws| == |qs| + 1
  {
    if qs == [] then 0
    else
      OpenedBy(cfg, Front(ws), Front(qs), identity, client)
      + if OpensFor(cfg, Last(Front(ws)).tables, Last(qs), Last(ws).tables, identity, client) then 1 else 0
  }

  lemma OverrunDependsOnPair(cfg: Config, a: Sessions, b: Sessions, identity: string, client: string, now: Time)
    requires PairRows(a, identity, client) == PairRows(b, identity, client) && Overrun(cfg, a, identity, client, now)
    ensures Overrun(cfg, b, identity, client, now)
  {
    ActiveOfPair(a, b, identity, client);
    forall id | OldestActive(b, identity, client, id)
      ensures OldestActive(a, identity, client, id) && a[id] == b[id]
    {
    }
  }

  /** Every row of the pair is kept as it is. */
  ghost predicate KeepsPair(before: Sessions, after: Sessions, identity: string, client: string) {
    forall id :: HoldsPair(before, id, identity, client) ==> id in after && after[id] == before[id]
  }

  lemma OverrunStep(cfg: Config, t: Tables, q: Request, t': Tables, identity: string, client: string)
    requires cfg.concurrent.LimitN? && Overrun(cfg, t.sessions, identity, client, q.now)
    requires AllOrNothing(cfg, q, Decide(cfg, t, q), t, t')
    ensures Overrun(cfg, t'.sessions, identity, client, q.now) && KeepsPair(t.sessions, t'.sessions, identity, client)
    ensures CountActive(t'.sessions, identity, client) ==
            CountActive(t.sessions, identity, client) + if OpensFor(cfg, t, q, t', identity, client) then 1 else 0
  {
    var d := Decide(cfg, t, q);
    if OpensFor(cfg, t, q, t', identity, client) {
      OverrunCommit(cfg, t, q, d, t');
      forall id | HoldsPair(t.sessions, id, identity, client)
        ensures id in t'.sessions && t'.sessions[id] == t.sessions[id]
      {
        assert (t'.sessions - {q.sessionId})[id] == t.sessions[id];
      }
    } else if CommitsSession(cfg, t, q, d, t') {
      OtherPairsKeepRows(cfg, t, q, d, t', identity, client);
      OverrunDependsOnPair(cfg, t.sessions, t'.sessions, identity, client, q.now);
      ActiveOfPair(t.sessions, t'.sessions, identity, client);
      forall id | HoldsPair(t.sessions, id, identity, client)
        ensures id in t'.sessions && t'.sessions[id] == t.sessions[id]
      {
        OtherPairKeepsRow(cfg, t, q, d, t', identity, client, id);
      }
    } else if t' != t {
      NonOpeningStep(cfg, q, d, t, t');
    }
  }

  /**
   Once a pair is at the limit and its oldest ACTIVE rows have expired, LIMIT_N
   never evicts a session of the pair again: over every run of logins in order,
   its rows all stay as they are and each session opened adds one to the count.
   */
  lemma {:induction false} OverrunForGood(cfg: Config, ws: seq<World>, qs: seq<Request>, outs: seq<Outcome>,
                                          start: Time,
                                          later: Time, identity: string, client: string)
    requires cfg.concurrent.LimitN? && LoginRun(cfg, ws, qs, outs)
    requires InOrderFrom(qs, start) && LastNow(qs, start) <= later
    requires Overrun(cfg, ws[0].tables.sessions, identity, client, start)
    ensures Overrun(cfg, Last(ws).tables.sessions, identity, client, later)
    ensures KeepsPair(ws[0].tables.sessions, Last(ws).tables.sessions, identity, client)
    ensures CountActive(Last(ws).tables.sessions, identity, client) ==
            CountActive(ws[0].tables.sessions, identity, client) + OpenedBy(cfg, ws, qs, identity, client)
  {
    if qs == [] {
      OverrunLater(cfg, ws[0].tables.sessions, identity, client, start, later);
    } else {
      var w, w', q := Last(Front(ws)), Last(ws), Last(qs);
      ShorterRun(cfg, ws, qs, outs);
      assert LastNow(Front(qs), start) <= q.now;
      OverrunForGood(cfg, Front(ws), Front(qs), Front(outs), start, q.now, identity, client);
      LoginIsAllOrNothing(cfg, q, false, w, w', Last(outs));
      OverrunStep(cfg, w.tables, q, w'.tables, identity, client);
      OverrunLater(cfg, w'.tables.sessions, identity, client, q.now, later);
    }
  }

  // ------------------------------------------------------------------------
  // Idle timeouts below one second.
  // ------------------------------------------------------------------------

  /** The policy cannot get past the ACTIVE rows of the pair: it would have to load one that it cannot. */
  ghost predicate Stuck(cfg: Config, sessions: Sessions, identity: string, client: string) {
    match cfg.concurrent
    case Single => BadRow(sessions, identity, client)
    case LimitN =>
      var active := ActiveIds(sessions, identity, client);
      active != {} && |active| >= cfg.concurrentMax && forall id :: id in active ==> !LoadableSession(sessions[id])
    case _ => false
  }

  lemma StuckPairOpensNothing(cfg: Config, t: Tables, q: Request, d: Decision, t': Tables)
    requires CommitsSession(cfg, t, q, d, t')
    ensures !Stuck(cfg, t.sessions, d.identity, q.client)
  {
    CommittedSessions(cfg, t, q, d, t');
  }

  lemma StuckDependsOnPair(cfg: Config, sessions: Sessions, sessions': Sessions, identity: string, client: string)
    requires PairRows(sessions, identity, client) == PairRows(sessions', identity, client)
    requires Stuck(cfg, sessions, identity, client)
    ensures Stuck(cfg, sessions', identity, client)
  {
    ActiveOfPair(sessions, sessions', identity, client);
    if cfg.concurrent.Single? {
      var id :| id in ActiveIds(sessions, identity, client) && !LoadableSession(sessions[id]);
      assert id in ActiveIds(sessions', identity, client) && !LoadableSession(sessions'[id]);
    }
  }

  lemma StuckStep(cfg: Config, t: Tables, q: Request, d: Decision, t': Tables, identity: string, client: string)
    requires Stuck(cfg, t.sessions, identity, client) && AllOrNothing(cfg, q, d, t, t')
    ensures PairRows(t'.sessions, identity, client) == PairRows(t.sessions, identity, client)
    ensures Stuck(cfg, t'.sessions, identity, client)
  {
    if CommitsSession(cfg, t, q, d, t') {
      StuckPairOpensNothing(cfg, t, q, d, t');
      OtherPairsKeepRows(cfg, t, q, d, t', identity, client);
    } else if t' != t {
      NonOpeningStep(cfg, q, d, t, t');
    }
    StuckDependsOnPair(cfg, t.sessions, t'.sessions, identity, client);
  }

  /** A pair that is stuck stays so: none of its sessions is ever ended by a login, and none is opened. */
  lemma {:induction false} StuckForGood(cfg: Config, ws: seq<World>, qs: seq<Request>, outs: seq<Outcome>, k: nat,
                                        identity: string, client: string)
    requires LoginRun(cfg, ws, qs, outs) && k < |ws| && Stuck(cfg, ws[k].tables.sessions, identity, client)
    ensures PairRows(Last(ws).tables.sessions, identity, client) == PairRows(ws[k].tables.sessions, identity, client)
    ensures Stuck(cfg, Last(ws).tables.sessions, identity, client)
  {
    if k < |qs| {
      var w, w', q := Last(Front(ws)), Last(ws), Last(qs);
      ShorterRun(cfg, ws, qs, outs);
      StuckForGood(cfg, Front(ws), Front(qs), Front(outs), k, identity, client);
      LoginIsAllOrNothing(cfg, q, false, w, w', Last(outs));
      StuckStep(cfg, w.tables, q, Decide(cfg, w.tables, q), w'.tables, identity, client);
    }
  }

  /** Under SINGLE with an idle timeout below one second, a pair for which a session was opened never gets another. */
  lemma SubSecondIdleBlocksLogin(cfg: Config, ws: seq<World>, qs: seq<Request>, outs: seq<Outcome>, k: nat)
    requires cfg.concurrent.Single? && cfg.session.idleTimeout < SECOND && LoginRun(cfg, ws, qs, outs) && k < |qs|
    requires CommitsSession(cfg, ws[k].tables, qs[k], Decide(cfg, ws[k].tables, qs[k]), ws[k + 1].tables)
    ensures var identity := Decide(cfg, ws[k].tables, qs[k]).identity;
            PairRows(Last(ws).tables.sessions, identity, qs[k].client) ==
            PairRows(ws[k + 1].tables.sessions, identity, qs[k].client)
  {
    var d := Decide(cfg, ws[k].tables, qs[k]);
    var sessions := ws[k + 1].tables.sessions;
    CommittedSessions(cfg, ws[k].tables, qs[k], d, ws[k + 1].tables);
    NewRow(cfg, qs[k], d.identity);
    assert qs[k].sessionId in ActiveIds(sessions, d.identity, qs[k].client)
           && !LoadableSession(sessions[qs[k].sessionId]);
    StuckForGood(cfg, ws, qs, outs, k + 1, d.identity, qs[k].client);
  }

  /** Every ACTIVE row can be loaded, or none can. */
  ghost predicate ActiveRowsLoad(sessions: Sessions, loadable: bool) {
    forall id :: id in sessions && sessions[id].status.Active? ==> (LoadableSession(sessions[id]) <==> loadable)
  }

  lemma StepKeepsLoading(cfg: Config, t: Tables, q: Request, d: Decision, t': Tables)
    requires ActiveRowsLoad(t.sessions, cfg.session.idleTimeout >= SECOND) && AllOrNothing(cfg, q, d, t, t')
    ensures ActiveRowsLoad(t'.sessions, cfg.session.idleTimeout >= SECOND)
  {
    if CommitsSession(cfg, t, q, d, t') {
      CommittedSessions(cfg, t, q, d, t');
      NewRow(cfg, q, d.identity);
      var evicted := t'.sessions - {q.sessionId};
      forall id | id in t'.sessions && id != q.sessionId && t'.sessions[id].status.Active?
        ensures id in t.sessions && t'.sessions[id] == t.sessions[id]
      {
        assert t'.sessions[id] == evicted[id];
        if Mine(t.sessions[id], d.identity, q.client) {
          EvictedRow(t.sessions[id], q.now);
          assert evicted[id] == t.sessions[id] || evicted[id] == EvictRow(t.sessions[id], q.now);
        } else {
          OthersUntouched(cfg, t, q, d, t', id);
        }
      }
    } else if t' != t {
      NonOpeningStep(cfg, q, d, t, t');
    }
  }

  /**
   Over every run, the ACTIVE rows all stay loadable from one second on, and all
   unloadable below. So from one second on no policy ever meets a bad row.
   */
  lemma {:induction false} LoadingOverRuns(cfg: Config, ws: seq<World>, qs: seq<Request>, outs: seq<Outcome>)
    requires LoginRun(cfg, ws, qs, outs) && ActiveRowsLoad(ws[0].tables.sessions, cfg.session.idleTimeout >= SECOND)
    ensures ActiveRowsLoad(Last(ws).tables.sessions, cfg.session.idleTimeout >= SECOND)
    ensures cfg.session.idleTimeout >= SECOND ==>
            forall identity, client :: !ReadsBadRow(cfg, Last(ws).tables.sessions, identity, client)
  {
    if qs != [] {
      var w, w', q := Last(Front(ws)), Last(ws), Last(qs);
      ShorterRun(cfg, ws, qs, outs);
      LoadingOverRuns(cfg, Front(ws), Front(qs), Front(outs));
      LoginIsAllOrNothing(cfg, q, false, w, w', Last(outs));
      StepKeepsLoading(cfg, w.tables, q, Decide(cfg, w.tables, q), w'.tables);
    }
  }

  /** Below one second LIMIT_N never evicts: a pair whose rows have reached the limit never gets another session. */
  lemma SubSecondIdleFillsLimit(cfg: Config, ws: seq<World>, qs: seq<Request>, outs: seq<Outcome>, k: nat,
                                identity: string, client: string)
    requires cfg.concurrent.LimitN? && cfg.session.idleTimeout < SECOND && LoginRun(cfg, ws, qs, outs) && k < |ws|
    requires ActiveRowsLoad(ws[0].tables.sessions, false)
    requires CountActive(ws[k].tables.sessions, identity, client) >= cfg.concurrentMax
    requires CountActive(ws[k].tables.sessions, identity, client) >= 1
    ensures PairRows(Last(ws).tables.sessions, identity, client) == PairRows(ws[k].tables.sessions, identity, client)
  {
    RunPrefix(cfg, ws, qs, outs, k);
    LoadingOverRuns(cfg, ws[..k + 1], qs[..k], outs[..k]);
    StuckForGood(cfg, ws, qs, outs, k, identity, client);
  }

  lemma RunPrefix(cfg: Config, ws: seq<World>, qs: seq<Request>, outs: seq<Outcome>, k: nat)
    requires LoginRun(cfg, ws, qs, outs) && k < |ws|
    ensures LoginRun(cfg, ws[..k + 1], qs[..k], outs[..k]) && Last(ws[..k + 1]) == ws[k]
  {
    forall i | 0 <= i < k
      ensures LoginStep(cfg, qs[..k][i], false, ws[..k + 1][i], ws[..k + 1][i + 1], outs[..k][i])
    {
      assert LoginStep(cfg, qs[i], false, ws[i], ws[i + 1], outs[i]);
    }
  }
}
