/**
 The outbox relay as a protocol among any number of relays: claim rows under a
 row lock, write them to Kafka, mark them, commit. Every step may be followed
 by a crash, which rolls the relay's transaction back, and a relay may lose its
 database session and write all the same.
 */
module OutboxProtocol {
  import opened Types

  /** A row of outbox_events. */
  datatype OutboxRow = OutboxRow(aggregateId: string, payload: string, createdAt: Time, published: bool, attempts: nat)

  /** A Kafka message, and the row it was made from. */
  datatype Message = Message(origin: string, key: string, value: string)

  /**
   How far a relay's round has come. It holds the locks of its batch from
   Claimed on, except when it is Severed: then the database has lost its
   session and released them, and the relay does not know it yet.
   */
  datatype Phase =
    | Idle
    | Claimed(batch: seq<string>)
    | Severed(batch: seq<string>)
    | Written(batch: seq<string>)
    | Rejected(batch: seq<string>)
    | MarkedPublished(batch: seq<string>)
    | MarkedFailed(batch: seq<string>)

  /** The rows a relay holds locked. */
  function Batch(phase: Phase): seq<string> {
    if phase.Idle? || phase.Severed? then [] else phase.batch
  }

  /** `wasted` counts, per row, the rounds that claimed it and ended without committing it as published. */
  datatype State = State(rows: map<string, OutboxRow>, kafka: seq<Message>, relays: map<string, Phase>,
                         wasted: multiset<string>)

  function PhaseOf(s: State, r: string): Phase {
    if r in s.relays then s.relays[r] else Idle
  }

  datatype RelayStep =
    | Insert(id: string, row: OutboxRow)
    | Claim(relay: string, batch: seq<string>)
    | WriteOk(relay: string)
    | WriteFail(relay: string, delivered: seq<bool>)
    | Mark(relay: string)
    | Commit(relay: string)
    | Abort(relay: string)
    | Sever(relay: string)
    | LateWrite(relay: string, delivered: seq<bool>)

  predicate Locked(s: State, id: string) {
    exists r :: r in s.relays && id in Batch(s.relays[r])
  }

  /** Rows the SELECT ... FOR UPDATE SKIP LOCKED may return. */
  predicate Eligible(s: State, id: string) {
    id in s.rows && !s.rows[id].published && !Locked(s, id)
  }

  /** What one undisturbed scan returns: a batch of the oldest eligible rows, at most `limit` of them. */
  ghost predicate Claimable(s: State, limit: nat, batch: seq<string>) {
    && batch != [] && |batch| <= limit
    && NoDuplicates(batch)
    && (forall i :: 0 <= i < |batch| ==> Eligible(s, batch[i]))
    && (forall i, j :: 0 <= i < j < |batch| ==> s.rows[batch[i]].createdAt <= s.rows[batch[j]].createdAt)
    && (forall id :: Eligible(s, id) && id !in batch ==>
          |batch| == limit && forall i :: 0 <= i < |batch| ==> s.rows[batch[i]].createdAt <= s.rows[id].createdAt)
  }

  /**
   A claim may take any eligible rows: batch sizes differ between relays, and a
   scan that skips locks can miss rows that appear or are unlocked meanwhile.
   */
  predicate MayClaim(s: State, batch: seq<string>) {
    batch != [] && NoDuplicates(batch) && forall i :: 0 <= i < |batch| ==> Eligible(s, batch[i])
  }

  predicate Enabled(s: State, step: RelayStep) {
    match step
    case Insert(id, row) => id !in s.rows && !row.published && row.attempts == 0
    case Claim(r, batch) => PhaseOf(s, r).Idle? && MayClaim(s, batch)
    case WriteOk(r) => PhaseOf(s, r).Claimed?
    case WriteFail(r, delivered) => PhaseOf(s, r).Claimed? && |delivered| == |PhaseOf(s, r).batch|
    case Mark(r) => PhaseOf(s, r).Written? || PhaseOf(s, r).Rejected?
    case Commit(r) => PhaseOf(s, r).MarkedPublished? || PhaseOf(s, r).MarkedFailed?
    case Abort(r) => !PhaseOf(s, r).Idle?
    case Sever(r) => PhaseOf(s, r).Claimed?
    case LateWrite(r, delivered) => PhaseOf(s, r).Severed? && |delivered| == |PhaseOf(s, r).batch|
  }

  function MessageOf(rows: map<string, OutboxRow>, id: string): Message {
    if id in rows then Message(id, rows[id].aggregateId, rows[id].payload) else Message(id, "", "")
  }

  /** The messages of the rows whose bit is set, in batch order. */
  function Delivered(rows: map<string, OutboxRow>, batch: seq<string>, delivered: seq<bool>): seq<Message>
    requires |batch| == |delivered|
  {
    if batch == [] then []
    else
      Delivered(rows, Front(batch), Front(delivered)) + if Last(delivered) then [MessageOf(rows, Last(batch))] else []
  }

  function All(n: nat): (r: seq<bool>)
    ensures |r| == n && forall i :: 0 <= i < n ==> r[i]
  {
    seq(n, i => true)
  }

  function Publish(rows: map<string, OutboxRow>, batch: seq<string>): map<string, OutboxRow> {
    map id | id in rows :: if id in batch then rows[id].(published := true) else rows[id]
  }

  function CountFailure(rows: map<string, OutboxRow>, batch: seq<string>): map<string, OutboxRow> {
    map id | id in rows :: if id in batch then rows[id].(attempts := rows[id].attempts + 1) else rows[id]
  }

  function Next(s: State, step: RelayStep): State
    requires Enabled(s, step)
  {
    match step
    case Insert(id, row) => s.(rows := s.rows[id := row])
    case Claim(r, batch) => s.(relays := s.relays[r := Claimed(batch)])
    case WriteOk(r) =>
      var batch := s.relays[r].batch;
      s.(kafka := s.kafka + Delivered(s.rows, batch, All(|batch|)), relays := s.relays[r := Written(batch)])
    case WriteFail(r, delivered) =>
      var batch := s.relays[r].batch;
      s.(kafka := s.kafka + Delivered(s.rows, batch, delivered), relays := s.relays[r := Rejected(batch)])
    case Mark(r) =>
      var batch := s.relays[r].batch;
      s.(relays := s.relays[r := if s.relays[r].Written? then MarkedPublished(batch) else MarkedFailed(batch)])
    case Commit(r) =>
      var batch := s.relays[r].batch;
      if s.relays[r].MarkedPublished?
      then s.(rows := Publish(s.rows, batch), relays := s.relays[r := Idle])
      else s.(rows := CountFailure(s.rows, batch), relays := s.relays[r := Idle], wasted := s.wasted + multiset(batch))
    case Abort(r) =>
      s.(relays := s.relays[r := Idle], wasted := s.wasted + multiset(s.relays[r].batch))
    case Sever(r) =>
      s.(relays := s.relays[r := Severed(s.relays[r].batch)])
    case LateWrite(r, delivered) =>
      var batch := s.relays[r].batch;
      s.(kafka := s.kafka + Delivered(s.rows, batch, delivered), relays := s.relays[r := Idle],
         wasted := s.wasted + multiset(batch))
  }

  /** Follow the steps from `s`; `None` if one of them is not enabled. */
  ghost function Follow(s: State, steps: seq<RelayStep>): Option<State> {
    if steps == [] then Some(s)
    else
      var before := Follow(s, Front(steps));
      if before.Some? && Enabled(before.value, Last(steps)) then Some(Next(before.value, Last(steps))) else None
  }

  const EMPTY := State(map[], [], map[], multiset{})

  // ------------------------------------------------------------------------
  // The protocol's invariant.
  // ------------------------------------------------------------------------

  /** How many messages on Kafka came from row `id`. */
  function Copies(kafka: seq<Message>, id: string): nat {
    if kafka == [] then 0 else Copies(Front(kafka), id) + if Last(kafka).origin == id then 1 else 0
  }

  /** The relay has handed its batch to Kafka, in whole or in part. */
  predicate Sent(phase: Phase) {
    !phase.Idle? && !phase.Claimed? && !phase.Severed?
  }

  predicate FullySent(phase: Phase) {
    phase.Written? || phase.MarkedPublished?
  }

  /** `id` is in flight past the write. */
  ghost predicate InFlight(s: State, id: string) {
    exists r :: r in s.relays && Sent(s.relays[r]) && id in s.relays[r].batch
  }

  predicate Published(s: State, id: string) {
    id in s.rows && s.rows[id].published
  }

  /** In-flight claims have no duplicates, hold unpublished committed rows, and are disjoint. */
  ghost predicate ClaimsDisjoint(s: State) {
    && (forall r :: r in s.relays ==> NoDuplicates(Batch(s.relays[r])))
    && (forall r, id :: r in s.relays && id in Batch(s.relays[r]) ==> id in s.rows && !s.rows[id].published)
    && (forall r, r', id ::
          r in s.relays && r' in s.relays && id in Batch(s.relays[r]) && id in Batch(s.relays[r']) ==> r == r')
  }

  /** A severed relay still knows its batch: committed rows, each once. */
  ghost predicate SeveredSound(s: State) {
    forall r :: r in s.relays && s.relays[r].Severed? ==>
      NoDuplicates(s.relays[r].batch) && forall i :: 0 <= i < |s.relays[r].batch| ==> s.relays[r].batch[i] in s.rows
  }

  /** The message carries the row it was made from: keyed by its aggregate, with its payload. */
  predicate Carries(rows: map<string, OutboxRow>, m: Message) {
    m.origin in rows && m.key == rows[m.origin].aggregateId && m.value == rows[m.origin].payload
  }

  /** Every message carries a committed row. */
  ghost predicate MessagesGenuine(s: State) {
    forall i :: 0 <= i < |s.kafka| ==> Carries(s.rows, s.kafka[i])
  }

  /** What is marked published, or about to be, has reached Kafka. */
  ghost predicate PublishedIsSent(s: State) {
    && (forall id :: Published(s, id) ==> Copies(s.kafka, id) >= 1)
    && (forall r, id :: r in s.relays && FullySent(s.relays[r]) && id in s.relays[r].batch ==> Copies(s.kafka, id) >= 1)
  }

  /** Each copy is paid for by a wasted round, the publication, or the round in flight. */
  ghost predicate Accounted(s: State, id: string) {
    Copies(s.kafka, id) <= s.wasted[id] + (if Published(s, id) || InFlight(s, id) then 1 else 0)
  }

  ghost predicate CopiesAccounted(s: State) {
    forall id :: Accounted(s, id)
  }

  ghost predicate Inv(s: State) {
    ClaimsDisjoint(s) && SeveredSound(s) && MessagesGenuine(s) && PublishedIsSent(s) && CopiesAccounted(s)
  }

  lemma {:induction false} CopiesAppend(a: seq<Message>, b: seq<Message>, id: string)
    ensures Copies(a + b, id) == Copies(a, id) + Copies(b, id)
  {
    if b == [] {
      assert a + b == a;
    } else {
      assert Front(a + b) == a + Front(b);
      CopiesAppend(a, Front(b), id);
    }
  }

  /** One write sends at most one copy of each row of a batch, and none of any other row. */
  lemma {:induction false} DeliveredCopies(rows: map<string, OutboxRow>, batch: seq<string>, delivered: seq<bool>,
                                           id: string)
    requires |batch| == |delivered| && NoDuplicates(batch)
    ensures Copies(Delivered(rows, batch, delivered), id) <= if id in batch then 1 else 0
  {
    if batch != [] {
      var rest := Delivered(rows, Front(batch), Front(delivered));
      DeliveredCopies(rows, Front(batch), Front(delivered), id);
      assert Last(batch) !in Front(batch);
      assert forall x :: x in Front(batch) ==> x in batch;
      if Last(delivered) {
        assert Front(rest + [MessageOf(rows, Last(batch))]) == rest;
      } else {
        assert Delivered(rows, batch, delivered) == rest;
      }
    }
  }

  /** A write that goes through sends every row of the batch. */
  lemma {:induction false} AllDelivered(rows: map<string, OutboxRow>, batch: seq<string>, id: string)
    requires id in batch
    ensures Copies(Delivered(rows, batch, All(|batch|)), id) >= 1
  {
    var rest := Delivered(rows, Front(batch), All(|batch| - 1));
    assert Front(All(|batch|)) == All(|batch| - 1);
    assert Front(rest + [MessageOf(rows, Last(batch))]) == rest;
    if id != Last(batch) {
      assert batch == Front(batch) + [Last(batch)];
      AllDelivered(rows, Front(batch), id);
    }
  }

  lemma {:induction false} DeliveredGenuine(rows: map<string, OutboxRow>, batch: seq<string>, delivered: seq<bool>)
    requires |batch| == |delivered|
    ensures forall i :: 0 <= i < |Delivered(rows, batch, delivered)| ==>
              var m := Delivered(rows, batch, delivered)[i]; m.origin in batch && m == MessageOf(rows, m.origin)
  {
    if batch != [] {
      DeliveredGenuine(rows, Front(batch), Front(delivered));
      assert batch == Front(batch) + [Last(batch)];
    }
  }

  /** Claims stay disjoint when relays only keep or drop their batches. */
  lemma KeptOrDropped(s: State, s': State)
    requires ClaimsDisjoint(s)
    requires forall r :: r in s'.relays ==>
               Batch(s'.relays[r]) == [] || (r in s.relays && Batch(s'.relays[r]) == Batch(s.relays[r]))
    requires forall r, id :: r in s'.relays && id in Batch(s'.relays[r]) ==> id in s'.rows && !s'.rows[id].published
    ensures ClaimsDisjoint(s')
  {
  }

  /** A commit publishes only rows of the batch it lets go of. */
  lemma CommitKeepsDisjoint(s: State, step: RelayStep)
    requires ClaimsDisjoint(s) && Enabled(s, step) && step.Commit?
    ensures ClaimsDisjoint(Next(s, step))
  {
    var s' := Next(s, step);
    forall r, id | r in s'.relays && id in Batch(s'.relays[r])
      ensures id in s'.rows && !s'.rows[id].published
    {
      assert r in s.relays && id in Batch(s.relays[r]);
      assert id !in Batch(s.relays[step.relay]);
    }
    KeptOrDropped(s, s');
  }

  /** A claim takes only rows that nobody holds. */
  lemma ClaimKeepsDisjoint(s: State, step: RelayStep)
    requires ClaimsDisjoint(s) && Enabled(s, step) && step.Claim?
    ensures ClaimsDisjoint(Next(s, step))
  {
    forall r, id | r in s.relays && id in Batch(s.relays[r])
      ensures id !in step.batch
    {
      assert Locked(s, id);
    }
  }

  lemma BatchesKeptOrDropped(s: State, step: RelayStep)
    requires Enabled(s, step) && !step.Claim?
    ensures var s' := Next(s, step);
            forall r :: r in s'.relays ==>
              Batch(s'.relays[r]) == [] || (r in s.relays && Batch(s'.relays[r]) == Batch(s.relays[r]))
  {
  }

  /** The steps that neither claim nor commit publish nothing. */
  lemma OtherStepsKeepDisjoint(s: State, step: RelayStep)
    requires ClaimsDisjoint(s) && Enabled(s, step) && !step.Claim? && !step.Commit?
    ensures ClaimsDisjoint(Next(s, step))
  {
    var s' := Next(s, step);
    BatchesKeptOrDropped(s, step);
    assert forall id :: id in s.rows ==> id in s'.rows && s'.rows[id] == s.rows[id];
    forall r, id | r in s'.relays && id in Batch(s'.relays[r])
      ensures id in s'.rows && !s'.rows[id].published
    {
      assert r in s.relays && id in Batch(s.relays[r]);
    }
    KeptOrDropped(s, s');
  }

  lemma ClaimsStayDisjoint(s: State, step: RelayStep)
    requires ClaimsDisjoint(s) && Enabled(s, step)
    ensures ClaimsDisjoint(Next(s, step))
  {
    if step.Claim? {
      ClaimKeepsDisjoint(s, step);
    } else if step.Commit? {
      CommitKeepsDisjoint(s, step);
    } else {
      OtherStepsKeepDisjoint(s, step);
    }
  }

  lemma SeveredStaysSound(s: State, step: RelayStep)
    requires ClaimsDisjoint(s) && SeveredSound(s) && Enabled(s, step)
    ensures SeveredSound(Next(s, step))
  {
    if step.Sever? {
      assert NoDuplicates(Batch(s.relays[step.relay]));
      assert forall id :: id in Batch(s.relays[step.relay]) ==> id in s.rows;
    }
  }

  /** A step that writes to Kafka, and which messages of its relay's batch arrive. */
  predicate Writes(step: RelayStep) {
    step.WriteOk? || step.WriteFail? || step.LateWrite?
  }

  function Arriving(s: State, step: RelayStep): seq<bool>
    requires Enabled(s, step) && Writes(step)
  {
    if step.WriteOk? then All(|s.relays[step.relay].batch|) else step.delivered
  }

  lemma MessagesStayGenuine(s: State, step: RelayStep)
    requires Inv(s) && Enabled(s, step)
    ensures MessagesGenuine(Next(s, step))
  {
    if Writes(step) {
      var phase := s.relays[step.relay];
      DeliveredGenuine(s.rows, phase.batch, Arriving(s, step));
      assert !phase.Severed? ==> phase.batch == Batch(phase);
    }
  }

  /** What a write step adds for one row. */
  lemma WriteCopies(s: State, step: RelayStep, id: string)
    requires Inv(s) && Enabled(s, step) && Writes(step)
    ensures var batch := s.relays[step.relay].batch;
            var added := Copies(Next(s, step).kafka, id) - Copies(s.kafka, id);
            0 <= added <= (if id in batch then 1 else 0) && (step.WriteOk? && id in batch ==> added == 1)
  {
    var batch := s.relays[step.relay].batch;
    CopiesAppend(s.kafka, Delivered(s.rows, batch, Arriving(s, step)), id);
    assert NoDuplicates(Batch(s.relays[step.relay]));
    DeliveredCopies(s.rows, batch, Arriving(s, step), id);
    if step.WriteOk? && id in batch {
      AllDelivered(s.rows, batch, id);
    }
  }

  lemma CopiesGrow(s: State, step: RelayStep, id: string)
    requires Inv(s) && Enabled(s, step)
    ensures Copies(Next(s, step).kafka, id) >= Copies(s.kafka, id)
  {
    if Writes(step) {
      WriteCopies(s, step, id);
    }
  }

  /** A row is published by the commit of a batch that was written. */
  lemma PublishedWasSent(s: State, step: RelayStep, id: string)
    requires Inv(s) && Enabled(s, step) && Published(Next(s, step), id)
    ensures Copies(s.kafka, id) >= 1
  {
    if !Published(s, id) {
      assert step.Commit? && FullySent(s.relays[step.relay]) && id in s.relays[step.relay].batch;
    }
  }

  /** Only its own write makes a relay's batch fully sent. */
  lemma BecomesFullySent(s: State, step: RelayStep, r: string)
    requires Enabled(s, step)
    requires var s' := Next(s, step); r in s'.relays && FullySent(s'.relays[r])
    ensures r in s.relays && !s.relays[r].Idle? && s.relays[r].batch == Next(s, step).relays[r].batch
    ensures (step.WriteOk? && step.relay == r) || FullySent(s.relays[r])
  {
    var s' := Next(s, step);
    if step.Insert? || step.relay != r {
      assert r in s.relays && s'.relays[r] == s.relays[r];
    }
  }

  lemma FullySentWasSent(s: State, step: RelayStep, r: string, id: string)
    requires Inv(s) && Enabled(s, step)
    requires var s' := Next(s, step); r in s'.relays && FullySent(s'.relays[r]) && id in s'.relays[r].batch
    ensures Copies(Next(s, step).kafka, id) >= 1
  {
    BecomesFullySent(s, step, r);
    if step.WriteOk? && r == step.relay {
      WriteCopies(s, step, id);
    } else {
      CopiesGrow(s, step, id);
    }
  }

  lemma PublishedStaysSent(s: State, step: RelayStep)
    requires Inv(s) && Enabled(s, step)
    ensures PublishedIsSent(Next(s, step))
  {
    var s' := Next(s, step);
    forall id | Published(s', id)
      ensures Copies(s'.kafka, id) >= 1
    {
      PublishedWasSent(s, step, id);
      CopiesGrow(s, step, id);
    }
    forall r, id | r in s'.relays && FullySent(s'.relays[r]) && id in s'.relays[r].batch
      ensures Copies(s'.kafka, id) >= 1
    {
      FullySentWasSent(s, step, r, id);
    }
  }

  /** A relay's own step leaves every other relay's rows where they were. */
  lemma InFlightKept(s: State, step: RelayStep, id: string)
    requires Inv(s) && Enabled(s, step) && InFlight(s, id)
    ensures InFlight(Next(s, step), id) || ((step.Commit? || step.Abort?) && id in s.relays[step.relay].batch)
  {
    var s' := Next(s, step);
    var r :| r in s.relays && Sent(s.relays[r]) && id in s.relays[r].batch;
    if !step.Insert? && r == step.relay {
      if !(step.Commit? || step.Abort?) {
        assert Sent(s'.relays[r]) && id in s'.relays[r].batch;
      }
    } else {
      assert s'.relays[r] == s.relays[r];
    }
  }

  lemma WriteStartsFlight(s: State, step: RelayStep, id: string)
    requires Inv(s) && Enabled(s, step) && (step.WriteOk? || step.WriteFail?) && id in s.relays[step.relay].batch
    ensures InFlight(Next(s, step), id)
    ensures !InFlight(s, id) && !Published(s, id)
  {
    var r := step.relay;
    var s' := Next(s, step);
    assert r in s'.relays && Sent(s'.relays[r]) && id in s'.relays[r].batch;
    assert id in Batch(s.relays[r]);
    assert forall r' :: r' in s.relays && Sent(s.relays[r']) ==> s.relays[r'].batch == Batch(s.relays[r']);
  }

  /** A write under lock is paid for by the round in flight. */
  lemma WriteAccounted(s: State, step: RelayStep, id: string)
    requires Inv(s) && Enabled(s, step) && (step.WriteOk? || step.WriteFail?) && Accounted(s, id)
    ensures Accounted(Next(s, step), id)
  {
    WriteCopies(s, step, id);
    if id in s.relays[step.relay].batch {
      WriteStartsFlight(s, step, id);
    } else if InFlight(s, id) {
      InFlightKept(s, step, id);
    }
  }

  /** A write without a lock is paid for by the round it wastes. */
  lemma LateWriteAccounted(s: State, step: RelayStep, id: string)
    requires Inv(s) && Enabled(s, step) && step.LateWrite? && Accounted(s, id)
    ensures Accounted(Next(s, step), id)
  {
    WriteCopies(s, step, id);
    if InFlight(s, id) {
      InFlightKept(s, step, id);
    }
  }

  /** A round that ends turns its flight into a publication or a wasted round. */
  lemma EndAccounted(s: State, step: RelayStep, id: string)
    requires Inv(s) && Enabled(s, step) && (step.Commit? || step.Abort?) && Accounted(s, id)
    ensures Accounted(Next(s, step), id)
  {
    if InFlight(s, id) {
      InFlightKept(s, step, id);
    }
    if step.Commit? && id in s.relays[step.relay].batch {
      assert id in Batch(s.relays[step.relay]);
    }
  }

  lemma CopyAccounted(s: State, step: RelayStep, id: string)
    requires Inv(s) && Enabled(s, step)
    ensures Accounted(Next(s, step), id)
  {
    assert Accounted(s, id);
    if step.WriteOk? || step.WriteFail? {
      WriteAccounted(s, step, id);
    } else if step.LateWrite? {
      LateWriteAccounted(s, step, id);
    } else if step.Commit? || step.Abort? {
      EndAccounted(s, step, id);
    } else if InFlight(s, id) {
      InFlightKept(s, step, id);
    }
  }

  /** Every step of every relay keeps the invariant. */
  lemma StepKeepsInv(s: State, step: RelayStep)
    requires Inv(s) && Enabled(s, step)
    ensures Inv(Next(s, step))
  {
    ClaimsStayDisjoint(s, step);
    SeveredStaysSound(s, step);
    MessagesStayGenuine(s, step);
    PublishedStaysSent(s, step);
    forall id
      ensures Accounted(Next(s, step), id)
    {
      CopyAccounted(s, step, id);
    }
  }

  /**
   In every interleaving of any number of relays, whatever their batch sizes,
   with crashes and lost sessions anywhere: claims in flight are disjoint and unpublished, every message comes from a
   committed row, a row marked published is on Kafka, and a row has at most one
   copy more than the rounds that claimed it in vain.
   */
  lemma {:induction false} RelaysAreSafe(steps: seq<RelayStep>)
    requires Follow(EMPTY, steps).Some?
    ensures var s := Follow(EMPTY, steps).value;
            Inv(s) && forall id :: Copies(s.kafka, id) <= 1 + s.wasted[id]
  {
    if steps != [] {
      RelaysAreSafe(Front(steps));
      StepKeepsInv(Follow(EMPTY, Front(steps)).value, Last(steps));
    }
    var s := Follow(EMPTY, steps).value;
    assert forall id :: Accounted(s, id) ==> Copies(s.kafka, id) <= 1 + s.wasted[id];
  }

  /** A step never loses a row, changes its message, or takes a publication back. */
  ghost predicate Preserves(s: State, s': State) {
    && s.kafka <= s'.kafka
    && forall id :: id in s.rows ==>
         && id in s'.rows && s'.rows[id].createdAt == s.rows[id].createdAt
         && s'.rows[id].aggregateId == s.rows[id].aggregateId && s'.rows[id].payload == s.rows[id].payload
         && (s.rows[id].published ==> s'.rows[id].published)
  }

  lemma StepPreserves(s: State, step: RelayStep)
    requires Enabled(s, step)
    ensures Preserves(s, Next(s, step))
  {
  }

  lemma {:induction false} PublicationIsFinal(s: State, steps: seq<RelayStep>)
    requires Follow(s, steps).Some?
    ensures Preserves(s, Follow(s, steps).value)
  {
    if steps != [] {
      PublicationIsFinal(s, Front(steps));
      StepPreserves(Follow(s, Front(steps)).value, Last(steps));
    }
  }

  /** When no round was wasted on a row, it is on Kafka exactly once if published and never if still unclaimed. */
  lemma ExactlyOnceWithoutWaste(steps: seq<RelayStep>, id: string)
    requires Follow(EMPTY, steps).Some?
    requires var s := Follow(EMPTY, steps).value; id in s.rows && s.wasted[id] == 0
    ensures var s := Follow(EMPTY, steps).value;
            && (Published(s, id) ==> Copies(s.kafka, id) == 1)
            && (Eligible(s, id) ==> Copies(s.kafka, id) == 0)
  {
    RelaysAreSafe(steps);
    var s := Follow(EMPTY, steps).value;
    assert Accounted(s, id);
    assert forall r :: r in s.relays && Sent(s.relays[r]) ==> s.relays[r].batch == Batch(s.relays[r]);
  }

  // ------------------------------------------------------------------------
  // Failed rounds are counted.
  // ------------------------------------------------------------------------

  /** The step commits a round whose write failed, with row `id` in its batch. */
  predicate RecordsFailure(s: State, step: RelayStep, id: string) {
    step.Commit? && PhaseOf(s, step.relay).MarkedFailed? && id in PhaseOf(s, step.relay).batch
  }

  /** How many rounds with row `id` failed to write and committed that. */
  ghost function FailedRounds(steps: seq<RelayStep>, id: string): nat
    requires Follow(EMPTY, steps).Some?
  {
    if steps == [] then 0
    else
      var before := Follow(EMPTY, Front(steps)).value;
      FailedRounds(Front(steps), id) + if RecordsFailure(before, Last(steps), id) then 1 else 0
  }

  function AttemptsOf(s: State, id: string): nat {
    if id in s.rows then s.rows[id].attempts else 0
  }

  lemma StepCountsFailure(s: State, step: RelayStep, id: string)
    requires ClaimsDisjoint(s) && Enabled(s, step)
    ensures AttemptsOf(Next(s, step), id) == AttemptsOf(s, id) + if RecordsFailure(s, step, id) then 1 else 0
  {
    if RecordsFailure(s, step, id) {
      assert id in Batch(s.relays[step.relay]);
    }
  }

  /** Along every path the attempts column of a row is the number of its failed rounds that were committed. */
  lemma {:induction false} FailuresAreCounted(steps: seq<RelayStep>, id: string)
    requires Follow(EMPTY, steps).Some?
    ensures AttemptsOf(Follow(EMPTY, steps).value, id) == FailedRounds(steps, id)
  {
    if steps != [] {
      FailuresAreCounted(Front(steps), id);
      RelaysAreSafe(Front(steps));
      StepCountsFailure(Follow(EMPTY, Front(steps)).value, Last(steps), id);
    }
  }
}
