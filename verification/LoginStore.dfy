/** The database behind login: reads, and transactions that work on a copy and install it on commit. */
module LoginStore {
  import opened Types
  import opened CredentialSpec
  import opened CredentialPersistence
  import CA = CredentialAggregate
  import opened SessionSpec
  import SA = SessionAggregate
  import opened SessionPersistence
  import opened LoginSpec

  /** Decides, call by call, what fails outside the program. */
  class Oracle {
    const fails: nat -> bool
    var calls: nat

    constructor (fails: nat -> bool)
      ensures this.fails == fails && calls == 0
    {
      this.fails := fails;
      calls := 0;
    }

    /** Nothing ever fails. */
    ghost predicate Quiet() {
      forall n :: !fails(n)
    }

    method Ask() returns (failed: bool)
      modifies this
      ensures calls == old(calls) + 1 && failed == fails(old(calls))
      ensures failed ==> !Quiet()
    {
      failed := fails(calls);
      calls := calls + 1;
    }
  }

  /** The primary key of a session row is its id. */
  predicate Keyed(sessions: Sessions) {
    forall id :: id in sessions ==> sessions[id].id == id
  }

  /** A transaction: its writes stay in `work` until it commits. */
  class Tx {
    var work: Tables
    const oracle: Oracle

    constructor (tables: Tables, oracle: Oracle)
      ensures work == tables && this.oracle == oracle
    {
      work := tables;
      this.oracle := oracle;
    }

    method SaveCredentialRow(c: CA.Credential) returns (ok: bool)
      modifies this, oracle
      ensures ok ==> work == old(work).(credentials := SaveCredential(old(work.credentials), c.Snapshot()))
      ensures !ok ==> !oracle.Quiet()
    {
      var failed := oracle.Ask();
      if failed {
        return false;
      }
      work := work.(credentials := SaveCredential(work.credentials, c.Snapshot()));
      ok := true;
    }

    method AppendOutbox(events: seq<OutboxEvent>) returns (ok: bool)
      modifies this, oracle
      ensures ok ==> work == old(work).(outbox := old(work.outbox) + events)
      ensures !ok ==> !oracle.Quiet()
    {
      var rows := work.outbox;
      for i := 0 to |events|
        modifies this, oracle
        invariant rows == old(work.outbox) + events[..i] && work == old(work)
      {
        var failed := oracle.Ask();
        if failed {
          return false;
        }
        rows := rows + [events[i]];
      }
      work := work.(outbox := rows);
      ok := true;
    }

    method RecordAttempt(row: AttemptRow) returns (ok: bool)
      modifies this, oracle
      ensures ok ==> work == old(work).(attempts := old(work.attempts) + [row])
      ensures !ok ==> !oracle.Quiet()
    {
      var failed := oracle.Ask();
      if failed {
        return false;
      }
      work := work.(attempts := work.attempts + [row]);
      ok := true;
    }

    method TouchDeviceRow(key: (string, string), now: Time) returns (ok: bool)
      modifies this, oracle
      ensures ok ==> work == old(work).(devices := TouchDevice(old(work.devices), key, now))
      ensures !ok ==> !oracle.Quiet()
    {
      var failed := oracle.Ask();
      if failed {
        return false;
      }
      work := work.(devices := TouchDevice(work.devices, key, now));
      ok := true;
    }

    /** INSERT INTO authentication_sessions. */
    method CreateSession(s: SA.AuthenticationSession, client: string) returns (ok: bool)
      requires s.terms.idleTimeout >= 0
      modifies this, oracle
      ensures ok ==> s.terms.id !in old(work.sessions)
      ensures !ok ==> !oracle.Quiet() || s.terms.id in old(work.sessions)
      ensures ok ==>
                work == old(work).(sessions := old(work.sessions)[s.terms.id := RowOfSession(s.Snapshot(), client)])
    {
      var failed := oracle.Ask();
      if failed || s.terms.id in work.sessions {
        return false;
      }
      work := work.(sessions := work.sessions[s.terms.id := RowOfSession(s.Snapshot(), client)]);
      ok := true;
    }

    /** UPDATE authentication_sessions SET status, revoked_at, revoke_reason WHERE id. */
    method RevokeSession(s: SA.AuthenticationSession) returns (ok: bool)
      modifies this, oracle
      ensures ok && s.terms.id in old(work.sessions) ==>
                var row := RevokeColumns(old(work.sessions[s.terms.id]), s.Snapshot());
                work == old(work).(sessions := old(work.sessions)[s.terms.id := row])
      ensures ok && s.terms.id !in old(work.sessions) ==> work == old(work)
      ensures !ok ==> !oracle.Quiet()
    {
      var failed := oracle.Ask();
      if failed {
        return false;
      }
      if s.terms.id in work.sessions {
        var row := RevokeColumns(work.sessions[s.terms.id], s.Snapshot());
        work := work.(sessions := work.sessions[s.terms.id := row]);
      }
      ok := true;
    }

    method CreateFamily(id: string, family: Family) returns (ok: bool)
      modifies this, oracle
      ensures ok ==> id !in old(work.families) && work == old(work).(families := old(work.families)[id := family])
      ensures !ok ==> !oracle.Quiet() || id in old(work.families)
    {
      var failed := oracle.Ask();
      if failed || id in work.families {
        return false;
      }
      work := work.(families := work.families[id := family]);
      ok := true;
    }

    method CreateToken(hash: string, token: RefreshToken) returns (ok: bool)
      modifies this, oracle
      ensures ok ==> hash !in old(work.tokens) && work == old(work).(tokens := old(work.tokens)[hash := token])
      ensures !ok ==> !oracle.Quiet() || hash in old(work.tokens)
    {
      var failed := oracle.Ask();
      if failed || hash in work.tokens {
        return false;
      }
      work := work.(tokens := work.tokens[hash := token]);
      ok := true;
    }

    /** SELECT COUNT(*). */
    method CountActive(identity: string, client: string) returns (count: Option<nat>)
      modifies oracle
      ensures count.Some? ==> count.value == |ActiveIds(work.sessions, identity, client)|
      ensures count.None? ==> !oracle.Quiet()
    {
      var failed := oracle.Ask();
      count := if failed then None else Some(|ActiveIds(work.sessions, identity, client)|);
    }

    /** The row an ORDER BY created_at puts first among `ids`. */
    method First(ids: set<string>) returns (first: string)
      requires ids != {} && forall id :: id in ids ==> id in work.sessions
      ensures first in ids && forall id :: id in ids ==> work.sessions[first].createdAt <= work.sessions[id].createdAt
    {
      first :| first in ids;
      var rest := ids - {first};
      while rest != {}
        invariant rest <= ids && first in ids
        invariant forall id :: id in ids - rest ==> work.sessions[first].createdAt <= work.sessions[id].createdAt
        decreases |rest|
      {
        var id :| id in rest;
        if work.sessions[id].createdAt < work.sessions[first].createdAt {
          first := id;
        }
        rest := rest - {id};
      }
    }

    /** FindOldestActive: no row, the loaded session of an oldest one, or an error. */
    method FindOldestActive(identity: string, client: string) returns (ok: bool, found: Option<SessionSnapshot>)
      requires Keyed(work.sessions)
      modifies oracle
      ensures ok && found.None? ==> ActiveIds(work.sessions, identity, client) == {}
      ensures ok && found.Some? ==>
                var id := found.value.terms.id;
                && OldestActive(work.sessions, identity, client, id) && LoadableSession(work.sessions[id])
                && found.value == SnapshotOfRow(work.sessions[id])
      ensures !ok ==> !oracle.Quiet() || BadOldest(work.sessions, identity, client)
    {
      var failed := oracle.Ask();
      if failed {
        return false, None;
      }
      var active := ActiveIds(work.sessions, identity, client);
      if active == {} {
        return true, None;
      }
      var id := First(active);
      if !LoadableSession(work.sessions[id]) {
        assert OldestActive(work.sessions, identity, client, id);
        return false, None;
      }
      return true, Some(SnapshotOfRow(work.sessions[id]));
    }

    /** ListActive: the loaded ACTIVE sessions of a pair, each once, oldest first; one bad row fails the whole list. */
    method ListActive(identity: string, client: string) returns (ok: bool, list: seq<SessionSnapshot>)
      requires Keyed(work.sessions)
      modifies oracle
      ensures ok ==> Lists(work.sessions, ActiveIds(work.sessions, identity, client), list)
      ensures !ok ==> !oracle.Quiet() || BadRow(work.sessions, identity, client)
    {
      list := [];
      var failed := oracle.Ask();
      if failed {
        return false, [];
      }
      var active := ActiveIds(work.sessions, identity, client);
      var left := active;
      while left != {}
        modifies {}
        invariant left <= active && Lists(work.sessions, active - left, list)
        invariant forall i, id :: 0 <= i < |list| && id in left ==>
                  list[i].terms.createdAt <= work.sessions[id].createdAt
        decreases |left|
      {
        var id := First(left);
        if !LoadableSession(work.sessions[id]) {
          return false, [];
        }
        ListsSnoc(work.sessions, active - left, list, id);
        list := list + [SnapshotOfRow(work.sessions[id])];
        assert active - (left - {id}) == active - left + {id};
        left := left - {id};
      }
      assert active - left == active;
      ok := true;
    }
  }

  /** `list` loads exactly the rows `ids`, each once and in order of creation. */
  ghost predicate Lists(sessions: Sessions, ids: set<string>, list: seq<SessionSnapshot>) {
    && ids <= sessions.Keys
    && (forall i :: 0 <= i < |list| ==>
          && list[i].terms.id in ids
          && LoadableSession(sessions[list[i].terms.id]) && list[i] == SnapshotOfRow(sessions[list[i].terms.id]))
    && (forall i, j :: 0 <= i < j < |list| ==> list[i].terms.id != list[j].terms.id)
    && (forall i, j :: 0 <= i < j < |list| ==> list[i].terms.createdAt <= list[j].terms.createdAt)
    && (forall id :: id in ids ==> exists i :: 0 <= i < |list| && list[i].terms.id == id)
  }

  lemma ListsSnoc(sessions: Sessions, ids: set<string>, list: seq<SessionSnapshot>, id: string)
    requires Keyed(sessions) && Lists(sessions, ids, list)
    requires id in sessions && id !in ids && LoadableSession(sessions[id])
    requires forall i :: 0 <= i < |list| ==> list[i].terms.createdAt <= sessions[id].createdAt
    ensures Lists(sessions, ids + {id}, list + [SnapshotOfRow(sessions[id])])
  {
    var s := SnapshotOfRow(sessions[id]);
    var list' := list + [s];
    assert s.terms.id == id && s.terms.createdAt == sessions[id].createdAt;
    forall i | 0 <= i < |list'|
      ensures var x := list'[i].terms.id;
              x in ids + {id} && LoadableSession(sessions[x]) && list'[i] == SnapshotOfRow(sessions[x])
    {
      assert i < |list| ==> list'[i] == list[i];
    }
    forall i, j | 0 <= i < j < |list'|
      ensures list'[i].terms.id != list'[j].terms.id && list'[i].terms.createdAt <= list'[j].terms.createdAt
    {
      assert list'[i] == list[i] && (j < |list| ==> list'[j] == list[j]);
    }
    forall x | x in ids + {id}
      ensures exists i :: 0 <= i < |list'| && list'[i].terms.id == x
    {
      if x in ids {
        var i :| 0 <= i < |list| && list[i].terms.id == x;
        assert list'[i].terms.id == x;
      } else {
        assert list'[|list|].terms.id == x;
      }
    }
  }

  class Postgres {
    var tables: Tables

    constructor (tables: Tables)
      ensures this.tables == tables
    {
      this.tables := tables;
    }

    method Begin(oracle: Oracle) returns (tx: Option<Tx>)
      modifies oracle
      ensures tx.Some? ==> fresh(tx.value) && tx.value.work == tables && tx.value.oracle == oracle
      ensures tx.None? ==> !oracle.Quiet()
    {
      var failed := oracle.Ask();
      if failed {
        return None;
      }
      var t := new Tx(tables, oracle);
      tx := Some(t);
    }

    /** Installs the transaction's work; a commit that reports an error may have been applied all the same. */
    method Commit(tx: Tx) returns (ok: bool)
      modifies this, tx.oracle
      ensures ok ==> tables == tx.work
      ensures !ok ==> !tx.oracle.Quiet() && (tables == old(tables) || tables == tx.work)
    {
      var failed := tx.oracle.Ask();
      if failed {
        var lost := tx.oracle.Ask();
        if lost {
          tables := tx.work;
        }
        return false;
      }
      tables := tx.work;
      ok := true;
    }

    /** The standalone, best-effort write of a login attempt; an error is logged and dropped. */
    method RecordAttempt(row: AttemptRow, oracle: Oracle)
      modifies this, oracle
      ensures BestEffort(oracle.Quiet(), old(tables), row, tables)
    {
      var failed := oracle.Ask();
      if !failed {
        tables := tables.(attempts := tables.attempts + [row]);
      }
    }

    /** ListActiveFactorTypes: the loop over the ACTIVE rows that keeps the recognised types. */
    method ListActiveFactorTypes(identity: string, oracle: Oracle) returns (ok: bool, factors: seq<FactorType>)
      modifies oracle
      ensures ok ==> factors == Recognised(ActiveFactors(tables, identity))
      ensures !ok ==> !oracle.Quiet()
    {
      factors := [];
      var failed := oracle.Ask();
      if failed {
        return false, [];
      }
      var rows := ActiveFactors(tables, identity);
      for i := 0 to |rows|
        invariant factors == Recognised(rows[..i])
      {
        assert Front(rows[..i + 1]) == rows[..i];
        if !rows[i].OtherFactor? && rows[i] !in factors {
          factors := factors + [rows[i]];
        }
      }
      assert rows[..|rows|] == rows;
      ok := true;
    }

    /** FindByIdentity: absent, unreadable or failed, or a credential without its history. */
    method FindByIdentity(identity: string, oracle: Oracle) returns (ok: bool, cred: Option<CA.Credential>)
      modifies oracle
      ensures ok && cred.None? ==> identity !in tables.credentials
      ensures ok && cred.Some? ==>
                && identity in tables.credentials && Loadable(tables.credentials[identity])
                && fresh(cred.value) && cred.value.Valid() && cred.value.events == []
                && cred.value.Snapshot() == RowSnapshot(tables.credentials[identity])
      ensures !ok ==> !oracle.Quiet() || (identity in tables.credentials && !Loadable(tables.credentials[identity]))
    {
      var failed := oracle.Ask();
      if failed {
        return false, None;
      }
      if identity !in tables.credentials {
        return true, None;
      }
      var row := tables.credentials[identity];
      if !RowPassword(row).WellFormed() {
        return false, None;
      }
      var r := CA.Credential.Rehydrate(RowSnapshot(row), DEFAULT_CREDENTIAL_POLICY);
      if r.Err? {
        return false, None;
      }
      return true, Some(r.value);
    }
  }

  /** The MFA sessions in Redis. */
  class MfaStore {
    var entries: map<string, MfaState>

    constructor ()
      ensures entries == map[]
    {
      entries := map[];
    }

    method Create(token: string, state: MfaState, oracle: Oracle) returns (ok: bool)
      modifies this, oracle
      ensures ok ==> entries == old(entries)[token := state]
      ensures !ok ==> !oracle.Quiet() && (entries == old(entries) || entries == old(entries)[token := state])
    {
      var failed := oracle.Ask();
      if failed {
        var lost := oracle.Ask();
        if lost {
          entries := entries[token := state];
        }
        return false;
      }
      entries := entries[token := state];
      ok := true;
    }
  }
}
