# Verified model of the authentication service

A Dafny model of the service's login core: the credential aggregate with its
lockout machine, the session aggregate with its two timeouts, the login use case
over its transactional store, the fixed-window rate limiter, and the outbox
relay. `dafny verify dfyconfig.toml` checks the whole project.

Where the source updates an object in place, the model has a class with the same
fields and methods, and each method is proved to take one step of a pure state
machine; the theorems about whole runs are proved about those machines.

| file | what it holds |
|---|---|
| CredentialSpec, Credential | the credential as a state machine, and the class that refines it |
| CredentialRuns | counter and log, the threshold, the account of failures |
| Escalation, LockDurations, LazyUnlock | lock tiers, how long locks last, lazy unlocking |
| PasswordHistory, EventContents | the reuse window, the age of passwords, what events tell |
| CredentialPersistence | replay of the log, rehydration, login's partial load and save |
| SessionSpec, Session, SessionRuns, SessionPersistence | the same for sessions |
| RateLimit | the limiter, its bound, and login's two checks |
| OutboxProtocol, Publisher | the relay protocol under interleaving and crash, and publishBatch |
| LoginSpec, LoginStore, Login | what a login decides and commits, the store, the use case |
| LoginOutcomes | what a login answers and writes, column by column |
| LoginRuns, StoredCredentials, ConcurrentSessions | what runs of serial logins keep |
| InterleavedLogins | logins on one identity at the same time |

Conventions. Instants are integers (nanoseconds since Go's zero time; conversion
to UTC is the identity; the limiter counts Redis milliseconds). A run has one
valid lockout policy and one valid credential policy. Calls to stores, to the
identity service and to the token signer may fail at any point: an oracle
decides, and a commit or an MFA write that reports an error may have been
applied all the same. The outcome of password verification, identity resolution,
new ids and tokens are inputs of a login.

## What the code does not keep, and exactly when it does

- internal/domain/authentication_session.go:377-379 says the outcome of expiry is
  the same however late it is detected. `DetectionTimeTheorem`: that is so
  exactly when idle expiry is not before absolute expiry.
- internal/features/login/repository/db/credential.go:71 says Save persists every
  mutable field. It leaves out the algorithm and version of the password.
  `SaveIsFullOnlyForSameAlgorithm` gives the exact condition;
  `SaveLosesMigration` shows a change from bcrypt to argon2id stored wrongly.
- LIMIT_N counts ACTIVE rows, but an expired row is not evicted
  (internal/features/login/usecase/login.go:417). `StaleRowsBreakLimit`: a login
  is sure to stay within the limit exactly when the pair is below it, or at it
  with every row that may be evicted still live; `ExpiredRowExceedsLimit` is the
  commit that goes past it, and `OverrunForGood`: from then on, as long as the
  oldest rows are expired, no session of the pair is ever evicted again and every
  login adds one. `LimitHoldsOverRuns`: with expired rows swept before each login
  no run goes past the limit.
- The idle timeout is stored in whole seconds. `ReloadIsConservative`: a reloaded
  session never outlives the original, and can be loaded exactly when the timeout
  is at least a second. Below a second, a pair for which SINGLE opened a session
  never gets another (`SubSecondIdleBlocksLogin`), nor does a pair that has
  filled its LIMIT_N (`SubSecondIdleFillsLimit`); from a second on, no row ever
  blocks a login (`LoadingOverRuns`).
- A rate-limit window below one second limits nothing
  (`SubSecondWindowLimitsNothing`); from one second on the bound is 2 * max - 1
  and is reached. Only whole seconds of the window are stored, so the bound holds
  of intervals as long as the configured window exactly when that is a whole
  number of seconds, to the millisecond (`BoundHoldsOfWindowIff`).
- internal/platform/ratelimit/redis.go:40 says retryAfter is the time until the
  window resets. It is that rounded to whole seconds (`Allow`): exact, or too
  little, exactly under the conditions of `ToldExactlyIff`, with an input in
  `ToldTooLittle`. `BackWhenTold` says exactly when coming back as told is not
  too early, and `RetryOpensWindow` what wait always is long enough.
- Login reads the credential outside the transaction that saves it. Under every
  interleaving the row stays valid (`InterleavingKeepsRowsValid`) and is what the
  aggregate makes of a chain of logins each of which read what the one before it
  saved (`RowFollowsLineage`). If no save falls between a login's read and its
  own save, the interleaving is a serial run (`FreshSavesAreSerial`). A login the
  lock refuses saves nothing (`DecisionIsWork`). Two logins that overlap store
  what they would have stored in sequence exactly under the guard of
  `OverlapAgreesIff`; any number of overlapping failures is reported in
  full and counted once (`OverlappingFailuresCountOnce`), so the account of
  failures balances for one attempt only and no bound on guesses holds of
  overlapping ones (`OverlapEvadesAccount`); and a stale success undoes a lock
  (`StaleSuccessUndoesLock`).
- Unlock, ResetPassword and MarkForcePasswordChange show whether an elapsed lock
  was lifted already: `AdminUnlockObservesLaziness`, `ResetObservesLaziness`,
  `ForceChangeObservesLaziness` say exactly when; short of the order of the log,
  only Unlock does (`LooksOnlyReorder`).

## Model

| member | source | states |
|---|---|---|
| CredentialAggregate.Credential.New | internal/domain/credential.go:307-331 | builds a fresh unlocked credential exactly when id, identity, password, time and policy are usable; which error otherwise |
| CredentialAggregate.Credential.Rehydrate | internal/domain/credential.go:620-675 | accepts exactly the snapshots that keep the aggregate's invariants, rebuilds the same state and records nothing |
| CredentialAggregate.Credential.EnsureVerifiable | internal/domain/credential.go:376-388 | refuses exactly while IsLocked; lifts an elapsed lock as of its deadline |
| CredentialAggregate.Credential.RecordFailedAttempt | internal/domain/credential.go:395-417 | takes the failure step: state, emitted events and error |
| CredentialAggregate.Credential.CountFailure | internal/domain/credential.go:405-416 | the counted part: window reset, count, LoginFailed, and the lock with AccountLocked at the threshold |
| CredentialAggregate.Credential.RecordSuccessfulVerification | internal/domain/credential.go:420-427 | takes the success step |
| CredentialAggregate.Credential.Unlock | internal/domain/credential.go:431-437 | lifts any lock, refuses when there is none |
| CredentialAggregate.Credential.ChangePassword | internal/domain/credential.go:442-465 | takes the change step, with the forced or user-initiated event |
| CredentialAggregate.Credential.ResetPassword | internal/domain/credential.go:470-483 | takes the reset step; a temporary lock stays |
| CredentialAggregate.Credential.MarkForcePasswordChange | internal/domain/credential.go:487-497 | takes the force-change step: refuses an empty actor, records a demand unless one is open |
| PasswordHistory.ForceChangeIsIdempotent | internal/domain/credential.go:485-497 | a call after an accepted one changes and emits nothing |
| PasswordHistory.DemandsAreAnswered | internal/domain/credential.go:485-526 | in every run each demand for a new password was answered by a replacement of its own, or is the one still open |
| PasswordHistory.AdministratorsAreAnswered | internal/domain/credential.go:431-497 | whom Unlock and MarkForcePasswordChange refuse, with which error, and what they change otherwise |
| CredentialAggregate.Credential.ReplacePassword | internal/domain/credential.go:506-526 | searches password and history for reuse, then shifts and truncates the history; the lock is untouched |
| CredentialAggregate.Credential.Lock | internal/domain/credential.go:528-548 | the k-th lock lasts the k-th duration from now, and is permanent past the last of them |
| CredentialAggregate.Credential.UnlockBy | internal/domain/credential.go:550-564 | clears lock and counter, keeps the number of locks |
| CredentialRuns.CounterRefinesLog | internal/domain/credential.go:395-427 | in every run, with any clock, the counter is the longest trailing cluster of failures since the last success or unlock, below the threshold while unlocked and at it while locked |
| CredentialRuns.LocksExactlyAtThreshold | internal/domain/credential.go:405-416 | an operation locks if and only if it counts the failure that brings the cluster to the threshold |
| CredentialRuns.LockingFailuresAreClose | internal/domain/credential.go:405-416 | the failures behind a lock span at most (threshold - 1) windows |
| CredentialRuns.FailuresAccountedFor | internal/domain/credential.go:395-437 | counted failures = locks * threshold + pending + discarded, in every run |
| CredentialRuns.LocksAreBounded | internal/domain/credential.go:528-548 | without administrators, at most one lock past the temporary tiers, and it is permanent |
| CredentialRuns.GuessesAreBounded | internal/domain/credential.go:395-437 | hence a bound on all counted failures of a run without administrators |
| Escalation.LocksEscalate | internal/domain/credential.go:528-548 | the k-th AccountLocked of any run ends the k-th configured duration after its instant, later ones are permanent, and the stored count is their number |
| Escalation.LocksAreDisjoint | internal/domain/credential.go:376-388 | with a forward clock and no administrators, each lock is over before the next begins |
| Escalation.PermanentLockIsLate | internal/domain/credential.go:376-417 | the permanent lock comes no sooner than the first lock plus all temporary durations |
| LockDurations.RefusedExactlyWhileShut | internal/domain/credential.go:376-388 | after any run, an operation is refused exactly when the last lock in the log was not lifted and its configured duration has not passed since |
| LockDurations.UnusablePolicyRefused | internal/domain/credential.go:130-161 | a policy with a bad threshold, window, duration, depth or age is refused with its own error, and nothing happens |
| EventContents.EventsTellTheTruth | internal/domain/credential.go:395-564 | every event carries the operation's own actor, attempt, address and time, and the counter, lock and reason as the columns show them |
| EventContents.EveryFailureIsReported | internal/domain/credential.go:395-417 | a failed attempt always leaves a LoginFailed |
| EventContents.ReplacementsAreReported | internal/domain/credential.go:442-483 | in every run each password but the first has its event |
| LazyUnlock.LazyUnlockIsUnobservable | internal/domain/credential.go:376-465 | from any state, EnsureVerifiable calls inserted anywhere change no other result, no later settled state and no event log |
| LazyUnlock.LooksOnlyReorder | internal/domain/credential.go:376-497 | with resets and demands in the run as well, the calls still change no result, no settled state and no event, only the order of the log |
| LazyUnlock.EnsureAbsorbed | internal/domain/credential.go:395-465 | an operation that checks the lock does the same after an earlier lift, and emits what the lift would have |
| LazyUnlock.AdminUnlockObservesLaziness | internal/domain/credential.go:431-437 | Unlock answers the same with and without an earlier look exactly when no lock has elapsed |
| LazyUnlock.ResetObservesLaziness | internal/domain/credential.go:470-483 | an earlier look changes neither state nor result of a reset, and reorders the log exactly when a lock has elapsed and the new password is not refused |
| LazyUnlock.ForceChangeObservesLaziness | internal/domain/credential.go:487-497 | the same for a demand, exactly when a lock has elapsed and the demand is new |
| PasswordHistory.ReuseWindow | internal/domain/credential.go:506-526 | the history is the most recent former passwords, newest first, and any depth + 2 consecutive passwords have different plaintexts |
| PasswordHistory.ChangeAcceptedIffNotRemembered | internal/domain/credential.go:442-465 | a change goes through exactly when its plaintext is none of those remembered |
| PasswordHistory.ReplacementRefusedIff | internal/domain/credential.go:442-526 | which error a change or a reset returns, by lock, password, matcher and history; a reset is stopped by a permanent lock only |
| PasswordHistory.PasswordsAge | internal/domain/credential.go:506-526 | in every run the password is due exactly when a demand is open or the maximum age has passed since it was set; the history carries the times of replacement |
| PasswordHistory.FreshIsDated | internal/domain/credential.go:307-331 | a new credential starts with these dates and no history |
| CredentialPersistence.ReplayStep | internal/domain/credential.go:528-564 | folding the events of any operation over the old lock columns gives the new ones |
| CredentialPersistence.LogDeterminesLock | internal/domain/credential.go:528-564 | over every run the log replays to the lock the credential ends with |
| CredentialPersistence.ReachableSnapshotsRehydrate | internal/domain/credential.go:600-675 | the snapshot of a reachable state is accepted exactly when its password was not set at the zero time |
| CredentialPersistence.AcceptedCredentialIff | internal/domain/credential.go:620-675 | the snapshots accepted, in plain columns |
| CredentialPersistence.PartialPersistence | internal/features/login/repository/db/credential.go:22-99 | loading without history, running login operations and saving Save's columns gives the row, events and errors of the full aggregate |
| CredentialPersistence.StoredRowsLoad | internal/features/login/repository/db/credential.go:22-67 | a stored credential loads exactly when hash and salt are there, the algorithm is known and the version positive |
| CredentialPersistence.SaveIsFullOnlyForSameAlgorithm | internal/features/login/repository/db/credential.go:71-99 | Save stores a credential in full exactly when algorithm and version did not change |
| CredentialPersistence.SaveLosesMigration | internal/features/login/repository/db/credential.go:71-99 | an argon2id password saved over a bcrypt one is stored under the old algorithm and version |
| SessionAggregate.AuthenticationSession.New | internal/domain/authentication_session.go:212-257 | an ACTIVE session with the policy's own timeout and lifetime and one SessionCreated, or the first error of the checks |
| SessionAggregate.AuthenticationSession.Rehydrate | internal/domain/authentication_session.go:445-497 | accepts exactly the coherent snapshots and says which check failed |
| SessionAggregate.AuthenticationSession.EnforceExpiry | internal/domain/authentication_session.go:319-329 | transitions exactly when an ACTIVE session has run out, at the exact expiry instant |
| SessionAggregate.AuthenticationSession.EnsureActive | internal/domain/authentication_session.go:364-375 | the error by status, after enforcing expiry |
| SessionAggregate.AuthenticationSession.Touch | internal/domain/authentication_session.go:333-342 | never moves the idle timer backwards |
| SessionAggregate.AuthenticationSession.Revoke | internal/domain/authentication_session.go:345-354 | manual reasons only; an expired session expires instead |
| SessionRuns.AgreedIffNew | internal/domain/authentication_session.go:212-257 | under a given policy exactly those terms can be set that carry its idle timeout and, from creation, its lifetime |
| SessionRuns.NewKeepsItsWord | internal/domain/authentication_session.go:212-277 | when a session is created, by level and factors, and that its terms are those asked for |
| SessionRuns.SessionRunsAreCoherent | internal/domain/authentication_session.go:212-401 | terms never change, activity lies within the lifetime, no end after absolute expiry, and the log is SessionCreated plus one SessionRevoked exactly when ended |
| SessionRuns.EndsAreFinal | internal/domain/authentication_session.go:319-375 | ended sessions never change again; activity is monotone |
| SessionRuns.ReachableSessionsRehydrate | internal/domain/authentication_session.go:425-497 | every reachable snapshot is accepted |
| SessionRuns.LivenessRefinesActivity | internal/domain/authentication_session.go:303-342 | usable at t exactly when t is before absolute expiry and no gap between activities, up to t, reaches the idle timeout |
| SessionRuns.CreatedSessionLiveness | internal/domain/authentication_session.go:212-342 | a session created under a policy is usable exactly until the policy's lifetime has passed or a gap reaches its idle timeout |
| SessionRuns.AnswersByStatus | internal/domain/authentication_session.go:319-375 | what touching, revoking and enforcing answer and do, by status, timeouts and reason |
| SessionRuns.EndsHaveCauses | internal/domain/authentication_session.go:345-401 | in every run a revoked session has the reason, time and actor of one of its operations, an expired one a timeout that one of them found passed |
| SessionRuns.AcceptedSessionIff | internal/domain/authentication_session.go:445-497 | the snapshots accepted, in plain columns |
| SessionRuns.DetectionDependsOnSide | internal/domain/authentication_session.go:380-388 | two detections record the same end exactly when they fall on the same side of absolute expiry |
| SessionRuns.DetectionTimeTheorem | internal/domain/authentication_session.go:377-388 | detection time never matters exactly when idle expiry is not first |
| SessionRuns.NewSessionDetection | internal/domain/authentication_session.go:377-388 | for a new session, exactly when its idle timeout equals its lifetime |
| SessionPersistence.RowRoundTrip | internal/features/login/repository/db/session.go:137-189 | loading a row and writing it back gives the row, exactly for canonical rows |
| SessionPersistence.ThreeColumnRevoke | internal/features/login/repository/db/session.go:54-71 | however a loaded session ends, the three-column update equals a full write |
| SessionPersistence.ReloadIsConservative | internal/features/login/repository/db/session.go:21-49 | a reloaded session is live only if the original is; equal exactly for whole seconds; loadable exactly from one second |
| RateLimit.Limiter.AllowScript | internal/platform/ratelimit/redis.go:21-28 | INCR, EXPIRE on the first hit and TTL on one key; every other key is untouched; the TTL is the time left to the nearest second |
| RateLimit.WholeSecondsOf | internal/platform/ratelimit/redis.go:42 | the seconds stored are the whole seconds of the window |
| RateLimit.Limiter.Allow | internal/platform/ratelimit/redis.go:38-67 | allowed exactly when the new count is within the maximum; a refusal tells the time to the reset in whole seconds, within half a second |
| RateLimit.ToldExactlyIff | internal/platform/ratelimit/redis.go:38-66 | what is told is exact if and only if whole seconds are left, too little if and only if the rest is below half a second |
| RateLimit.ToldTooLittle | internal/platform/ratelimit/redis.go:38-66 | with 1.3 seconds left the caller is told one second, and is then still counted in the old window |
| RateLimit.BackWhenTold | internal/platform/ratelimit/redis.go:38-66 | coming back as told opens the next window exactly when that was not too early |
| RateLimit.RetryOpensWindow | internal/platform/ratelimit/redis.go:38-40 | who waits half a second longer than told, and is first, opens the next window |
| RateLimit.CheckRateLimit | internal/features/login/usecase/login.go:430-449 | passes exactly when both counters do; the identity counter is reached only past the address; a refusal tells the reset of the counter that refused |
| RateLimit.RateBound | internal/platform/ratelimit/redis.go:14-67 | every half-open interval of window length holds at most 2 * max - 1 passed attempts per key |
| RateLimit.RateBoundIsSharp | internal/platform/ratelimit/redis.go:14-20 | the bound is reached, for every maximum and window |
| RateLimit.BoundHoldsIff | internal/platform/ratelimit/redis.go:14-67 | the bound holds of intervals as long as the stored window and of no longer ones |
| RateLimit.BoundHoldsOfWindowIff | internal/platform/ratelimit/redis.go:41-42 | and of intervals as long as the configured window exactly when that is whole seconds |
| RateLimit.SubSecondWindowLimitsNothing | internal/platform/ratelimit/redis.go:42 | a window that truncates to zero seconds refuses nobody |
| RateLimit.AddressRateBound | internal/features/login/usecase/login.go:36-48 | over every run of logins from any addresses, the bound holds of logins from one address |
| RateLimit.IdentityRateBound | internal/features/login/usecase/login.go:36-48 | and of logins that pass both checks for one identity at one address |
| RateLimit.AddressWindowBound | internal/features/login/usecase/login.go:430-438 | the bound for one address, in intervals as long as the configured address window |
| RateLimit.IdentityWindowBound | internal/features/login/usecase/login.go:441-447 | the bound for one identity at one address, in intervals as long as the configured identity window |
| RateLimit.IdentityKeysAreDistinct | internal/features/login/usecase/login.go:441 | identities and addresses each have a counter of their own |
| RateLimit.AddressRefusalSparesIdentities | internal/features/login/usecase/login.go:430-449 | a refusal by address leaves every identity counter as it was |
| OutboxProtocol.RelaysAreSafe | internal/platform/outbox/publisher.go:71-142 | for any relays and batch sizes, under every interleaving, crash and lost session: claims disjoint and unpublished, every message keyed by the aggregate of a committed row with its payload, published rows sent, copies at most one more than wasted rounds |
| OutboxProtocol.PublicationIsFinal | internal/platform/outbox/publisher.go:116-142 | no row is lost, no message changes, no publication is taken back |
| OutboxProtocol.ExactlyOnceWithoutWaste | internal/platform/outbox/publisher.go:71-124 | with no wasted round, one copy if published and none if unclaimed |
| OutboxProtocol.FailuresAreCounted | internal/platform/outbox/publisher.go:126-142 | along every path the attempts column is the number of committed failed rounds |
| Publisher.RoundPublishes | internal/platform/outbox/publisher.go:71-124 | with nobody else at work, an undisturbed round publishes as many rows as are waiting, up to the batch size |
| Publisher.Relay.Poll | internal/platform/outbox/publisher.go:47-61 | so as many ticks as batches waiting leave nothing unpublished, and at any time none newer went before one still waiting |
| Publisher.EnoughRounds | internal/platform/outbox/publisher.go:47-61 | and how many rows are left after fewer |
| Publisher.Outbox.SelectForUpdate | internal/platform/outbox/publisher.go:78-103 | a batch of the oldest unlocked unpublished rows, or nothing when there are none |
| Publisher.Relay.constructor | internal/platform/outbox/publisher.go:34-42 | a batch size or poll interval that is not positive becomes 100 rows or two seconds |
| Publisher.Relay.BuildMessages | internal/platform/outbox/publisher.go:105-111 | for each row of the batch, in order, a message keyed by its aggregate with its payload |
| Publisher.Relay.Finish | internal/platform/outbox/publisher.go:116-142 | marks and commits, or rolls back, along a path of the protocol on which others move too |
| Publisher.Relay.PublishBatch | internal/platform/outbox/publisher.go:71-124 | whatever other relays and writers do between its calls, the outbox stays on a path of the protocol; success exactly when nothing failed and a row was waiting, and then the oldest rows were claimed, written, marked and are published |
| LoginStore.Postgres.Commit | internal/features/login/repository/db/db.go:39-61 | installs the whole working copy, or on an error either nothing or all of it |
| LoginStore.Postgres.FindByIdentity | internal/features/login/repository/db/credential.go:18-67 | absent, loaded without history, or an error exactly for a failed call or an unreadable row |
| LoginStore.Postgres.ListActiveFactorTypes | internal/features/login/repository/db/mfa_factor.go:10-35 | the distinct recognised types among the ACTIVE factors |
| LoginStore.Tx.SaveCredentialRow | internal/features/login/repository/db/credential.go:74-99 | updates the saved columns of the row with that id and no other |
| LoginStore.Tx.CreateSession | internal/features/login/repository/db/session.go:21-49 | inserts the row unless the id is taken |
| LoginStore.Tx.RevokeSession | internal/features/login/repository/db/session.go:54-71 | updates three columns of the row with that id, and nothing when there is none |
| LoginStore.Tx.CountActive | internal/features/login/repository/db/session.go:73-83 | the number of ACTIVE rows of the pair |
| LoginStore.Tx.FindOldestActive | internal/features/login/repository/db/session.go:85-100 | an ACTIVE row of the pair with none older, loaded; fails only on a failed call or when such a row cannot be loaded |
| LoginStore.Tx.ListActive | internal/features/login/repository/db/session.go:102-124 | every ACTIVE row of the pair once, oldest first; one unreadable row fails the list |
| LoginUsecase.EvictEverySession | internal/features/login/usecase/login.go:393-405 | the loop ends with exactly the live ACTIVE rows of the pair revoked |
| LoginUsecase.EvictOldestSession | internal/features/login/usecase/login.go:406-423 | at the limit, only an oldest row is evicted, and only if live; fails only on a failed call or an unreadable oldest row at the limit |
| LoginUsecase.ApplyConcurrentSessionPolicy | internal/features/login/usecase/login.go:391-428 | the session table each policy leaves; fails only on a failed call or a row the policy reads and cannot load |
| LoginUsecase.Usecase.Persist | internal/features/login/usecase/login.go:160-176 | credential, outbox and attempt commit together or not at all |
| LoginUsecase.Usecase.PersistSession | internal/features/login/usecase/login.go:314-370 | everything a completed login writes commits together or not at all |
| LoginUsecase.Usecase.FailCredential | internal/features/login/usecase/login.go:156-181 | commits the counted failure |
| LoginUsecase.Usecase.CompleteForcedChange | internal/features/login/usecase/login.go:185-218 | commits the outcome of a forced or expired password |
| LoginUsecase.Usecase.CompleteMfaRequired | internal/features/login/usecase/login.go:224-271 | commits the outcome, and only then creates the MFA session |
| LoginUsecase.Usecase.CompleteSession | internal/features/login/usecase/login.go:276-385 | opens the session |
| LoginUsecase.Usecase.Login | internal/features/login/usecase/login.go:29-132 | whatever fails, one LoginStep of the world and one visit to the limiter; rate limited exactly when not admitted |
| LoginOutcomes.AnswersByColumns | internal/features/login/usecase/login.go:57-132 | which answer is given exactly on which columns: resolution, lock, password, demand and expiry, enrolled factors, device |
| LoginOutcomes.AttemptsTell | internal/features/login/usecase/login.go:39-88 | every answer leaves one login_attempts row that tells of the request and the answer; only rows outside a transaction can be lost |
| LoginOutcomes.MfaSessionTells | internal/features/login/usecase/login.go:224-271 | what the MFA session holds and that exactly the recognised enrolled factors are offered |
| LoginOutcomes.CommitColumns | internal/features/login/usecase/login.go:276-370 | the columns of a new session, its family, refresh token, device and event |
| LoginOutcomes.SessionsWereUnhindered | internal/features/login/usecase/login.go:90-132 | over every run, each session opened came from a login with the right password, no lock, no due change, no enrolled factor and a trusted device |
| LoginOutcomes.LiveByColumns | internal/features/login/repository/db/session.go:137-189 | when a stored session can be used, in plain columns |
| LoginRuns.LoginIsAllOrNothing | internal/features/login/usecase/login.go:29-132 | the tables gain nothing, one audit row, or the whole commit; when no call fails an error changes nothing and means an unreadable row or a blocked session |
| LoginRuns.RunsStayInStep | internal/features/login/usecase/login.go:235-373 | over every run from tables in step, SUCCEEDED attempts, sessions, families and tokens correspond one to one, and every MFA session has its committed row |
| LoginRuns.OutboxDeterminesLock | internal/features/login/usecase/login.go:73-218 | over every run that starts with an outbox that replays to the locks, it goes on doing so, and every row stays loadable |
| StoredCredentials.StoredCredentialIsARun | internal/features/login/usecase/login.go:63-181 | over every run, each stored row, and what the outbox gained of its events, are those of the aggregate under the committed logins |
| StoredCredentials.StoredCounterRefinesLog | internal/features/login/usecase/login.go:73-181 | so the stored counter is the trailing cluster of committed failures |
| StoredCredentials.OutboxLocksEscalate | internal/features/login/usecase/login.go:73-181 | and the lock events the outbox gained each end their configured duration after their instant, as many as the stored count, at most one past the durations |
| ConcurrentSessions.SingleLeavesOnlyTheNewSession | internal/features/login/usecase/login.go:393-405 | after a SINGLE login only the new session of the pair is live, and it is exactly when the idle timeout is at least a second |
| ConcurrentSessions.SingleHoldsOverRuns | internal/features/login/usecase/login.go:393-405 | over every run in order of time, at most one session of a pair is live at any later instant |
| ConcurrentSessions.SubSecondIdleBlocksLogin | internal/features/login/usecase/login.go:393-397 | below a second, over every run, a pair for which SINGLE opened a session never gets another |
| ConcurrentSessions.SubSecondIdleFillsLimit | internal/features/login/usecase/login.go:406-423 | below a second, over every run, a pair that has filled its limit never gets another |
| ConcurrentSessions.LoadingOverRuns | internal/features/login/repository/db/session.go:137-189 | over every run ACTIVE rows all load from one second on, so that no policy meets a bad row, and none loads below |
| ConcurrentSessions.StuckForGood | internal/features/login/usecase/login.go:391-423 | a pair whose rows the policy cannot get past keeps its rows for the rest of every run |
| ConcurrentSessions.OthersUntouched | internal/features/login/usecase/login.go:391-428 | rows of other pairs, and ended rows, never change |
| ConcurrentSessions.LimitNEffect | internal/features/login/usecase/login.go:406-423 | what a LIMIT_N login evicts and what becomes of the count |
| ConcurrentSessions.LimitHoldsOverRuns | internal/features/login/usecase/login.go:406-423 | with expired rows swept before each login, no pair ever exceeds the limit |
| ConcurrentSessions.StaleRowsBreakLimit | internal/features/login/usecase/login.go:411-421 | without a sweep, every possible commit stays within the limit exactly when the pair is below it, or at it with every loadable oldest row live, or nothing can commit |
| ConcurrentSessions.ExpiredRowExceedsLimit | internal/features/login/usecase/login.go:411-421 | at the limit, an expired oldest row lets a commit go past it |
| ConcurrentSessions.OverrunForGood | internal/features/login/usecase/login.go:406-423 | once the oldest rows of a pair at the limit have expired, over every run in order of time none of its sessions is evicted and each one opened adds to the count |
| InterleavedLogins.DecisionIsWork | internal/features/login/usecase/login.go:63-106 | a login the lock refuses has nothing to commit; any other commits the state and the events its operation left in the copy it read |
| InterleavedLogins.InterleavingKeepsRowsValid | internal/features/login/usecase/login.go:63-181 | in every interleaving the stored row can be rehydrated and its counter agrees with its lock |
| InterleavedLogins.RowFollowsLineage | internal/features/login/usecase/login.go:63-181 | in every interleaving the row is what the aggregate makes of a chain of logins, each having read what the one before it saved |
| InterleavedLogins.FreshSavesAreSerial | internal/features/login/usecase/login.go:63-181 | if no save falls between a login's read and its own save, row and outbox are those of the saved operations run in save order |
| InterleavedLogins.InterleavedCounterRefinesLog | internal/features/login/usecase/login.go:63-181 | so the counter is the trailing cluster of the lineage's failures, and with fresh saves of all saved ones, and the outbox replays to the lock |
| InterleavedLogins.LastSaveWins | internal/features/login/usecase/login.go:63-181 | of any number of overlapping logins that the lock does not refuse, the last save alone survives in the row, while the outbox gets the events of all |
| InterleavedLogins.OverlapAgreesIff | internal/features/login/usecase/login.go:63-181 | two overlapping logins, refused ones saving nothing, store what they would have stored in sequence exactly under a guard on lock, policy and times |
| InterleavedLogins.SequenceStores | internal/features/login/usecase/login.go:63-181 | two logins one after the other store the lock the aggregate makes of both operations |
| InterleavedLogins.OverlappingFailuresCountOnce | internal/features/login/usecase/login.go:63-161 | any number of overlapping failures are all reported and counted once |
| InterleavedLogins.OverlapEvadesAccount | internal/features/login/usecase/login.go:63-161 | against a new credential any number of them is reported while one is counted, and the account of failures balances for a single one only |
| InterleavedLogins.StaleSuccessUndoesLock | internal/features/login/usecase/login.go:63-161 | a success read before a lock stores the credential unlocked |

## Left out

- Password hashing, token signing, SHA-256 and random tokens: their results are inputs of a login.
- Fingerprint hashing, device-name inference, identifier normalisation and password truncation: string handling before the modelled decisions.
- Device registration during login: MFA is required whenever no device is known, so that branch of completeSession is never reached.
- gRPC and REST delivery, mappers, validators, error codes, configuration, wiring, telemetry and migrations: no state of their own.
- Ordering of published messages: rows of one transaction share a creation time, so the relay promises none; replay is stated of the outbox in the order of insertion.
- Events of evicted sessions: the code never pulls them, so neither does the model.
- Timestamps are stored exactly; the microsecond rounding of the database is not modelled.
- SessionPersistence.ReloadIsConservative: seconds are an exact division; the code's float64 can round a fraction just below a second up for timeouts of about 97 days and more.
- RateLimit.RateBound: likewise takes the window in whole seconds, as an exact division of its duration.
- CredentialRuns.CounterRefinesLog: durations are unbounded integers; the saturation of Go's time subtraction after about 292 years is not modelled.
- OutboxProtocol.RelaysAreSafe: one write call delivers each message at most once; retries inside the Kafka client that duplicate a message are not modelled, and last_error is not stored.
- ConcurrentSessions.LimitHoldsOverRuns: the sweep is EnforceExpiry on every row; the repository itself has no sweeper.
- LoginUsecase.EvictEverySession: loaded sessions travel as snapshots and become objects one at a time in the loop, so aliasing within the list is not modelled.
- RateLimit.Limiter.AllowScript: whether a key is gone in the exact millisecond of its deadline is left open, and the bounds hold either way.
