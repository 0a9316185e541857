/** Rows of authentication_sessions: what a session loses on its way to the table and back. */
module SessionPersistence {
  import opened Types
  import opened SessionSpec
  import opened SessionRuns

  /** A row; the idle timeout is stored in whole seconds and absent columns are NULL. */
  datatype SessionRow = SessionRow(
    id: string,
    identity: string,
    device: Option<string>,
    client: string,
    status: SessionStatus,
    aal: AssuranceLevel,
    factors: seq<FactorType>,
    createdAt: Time,
    lastActivityAt: Time,
    idleSecs: int,
    absoluteExpiresAt: Time,
    ip: string,
    userAgent: string,
    revokedAt: Option<Time>,
    reason: Option<RevokeReason>)

  function NullIfEmpty(s: string): Option<string> {
    if s == "" then None else Some(s)
  }

  function OrEmpty(s: Option<string>): string {
    if s.Some? then s.value else ""
  }

  function ReasonColumn(r: RevokeReason): Option<RevokeReason> {
    if r.NoReason? then None else Some(r)
  }

  /** The row that stores a session in full. */
  function RowOfSession(s: SessionSnapshot, client: string): SessionRow
    requires s.terms.idleTimeout >= 0
  {
    SessionRow(s.terms.id, s.terms.identity, NullIfEmpty(s.terms.device), client, s.status, s.terms.aal,
               s.terms.factors, s.terms.createdAt, s.lastActivityAt, s.terms.idleTimeout / SECOND,
               s.terms.absoluteExpiresAt, s.terms.client.ip, s.terms.client.userAgent, s.revokedAt,
               ReasonColumn(s.revokeReason))
  }

  /** The snapshot scanSessionRow builds from a row. */
  function SnapshotOfRow(row: SessionRow): SessionSnapshot {
    SessionSnapshot(
      Terms(row.id, row.identity, OrEmpty(row.device), row.aal, row.factors, row.createdAt, row.idleSecs * SECOND,
            row.absoluteExpiresAt, ClientInfo(row.ip, row.userAgent)),
      row.status, row.lastActivityAt, row.revokedAt, if row.reason.Some? then row.reason.value else NoReason)
  }

  /** The rows scanSessionRow turns into a session. */
  predicate LoadableSession(row: SessionRow) {
    row.ip != "" && AcceptsSession(SnapshotOfRow(row))
  }

  /** The three columns that Revoke updates. */
  function RevokeColumns(row: SessionRow, s: SessionSnapshot): SessionRow {
    row.(status := s.status, revokedAt := s.revokedAt, reason := ReasonColumn(s.revokeReason))
  }

  /** No NULLable column holds the empty value that NULL stands for. */
  predicate Canonical(row: SessionRow) {
    row.device != Some("") && row.reason != Some(NoReason)
  }

  /** What is written is canonical, and loading and writing again changes nothing. */
  lemma RowRoundTrip(row: SessionRow)
    requires row.idleSecs >= 0
    ensures RowOfSession(SnapshotOfRow(row), row.client) == row <==> Canonical(row)
  {
  }

  /** However a loaded session ends, updating three columns equals writing it in full. */
  lemma ThreeColumnRevoke(row: SessionRow, op: SessionOp)
    requires row.idleSecs >= 0 && Canonical(row) && !op.Touch?
    ensures var s := ApplySession(SnapshotOfRow(row), op).next;
            RevokeColumns(row, s) == RowOfSession(s, row.client)
  {
    RowRoundTrip(row);
  }

  /** A session that went through its row. */
  function Reloaded(s: SessionSnapshot): SessionSnapshot
    requires s.terms.idleTimeout >= 0
  {
    SnapshotOfRow(RowOfSession(s, ""))
  }

  /**
   A reloaded session is never live when the original is not; it is the original
   exactly when the idle timeout is a whole number of seconds; and it can be
   loaded at all exactly when that timeout is at least a second.
   */
  lemma ReloadIsConservative(s: SessionSnapshot, now: Time)
    requires AcceptsSession(s) && s.terms.client.ip != ""
    ensures IsActive(Reloaded(s), now) ==> IsActive(s, now)
    ensures Reloaded(s) == s <==> s.terms.idleTimeout % SECOND == 0
    ensures LoadableSession(RowOfSession(s, "")) <==> s.terms.idleTimeout >= SECOND
  {
    var idle := s.terms.idleTimeout;
    assert idle == (idle / SECOND) * SECOND + idle % SECOND;
    assert Reloaded(s).terms.factors == s.terms.factors && Reloaded(s).terms.aal == s.terms.aal;
  }
}
