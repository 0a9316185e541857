/** Relay.publishBatch, carried out step by step; every path through it is a path of the protocol. */
module Publisher {
  import opened Types
  import opened OutboxProtocol

  const DEFAULT_BATCH_SIZE := 100
  const DEFAULT_POLL_INTERVAL: Duration := 2 * SECOND

  /**
   What goes wrong in a round: which calls fail, which messages a failed write
   still delivered, whether the database session is lost before the write, and
   whether a failed commit took effect all the same. `elsewhere` is what the
   rest of the world tries to do between the calls of the round.
   */
  datatype Faults = Faults(begin: bool, select: bool, scan: bool, severed: bool, write: bool, delivered: nat -> bool,
                           mark: bool, commit: bool, committedAnyway: bool, elsewhere: nat -> seq<RelayStep>)

  predicate Undisturbed(f: Faults) {
    !f.begin && !f.select && !f.scan && !f.severed && !f.write && !f.mark && !f.commit
  }

  /** The step is relay `r`'s own. */
  predicate Own(r: string, step: RelayStep) {
    !step.Insert? && step.relay == r
  }

  /** The steps of relay `r` among `steps`. */
  function OwnSteps(r: string, steps: seq<RelayStep>): seq<RelayStep> {
    if steps == [] then [] else OwnSteps(r, Front(steps)) + if Own(r, Last(steps)) then [Last(steps)] else []
  }

  /** A path of the protocol one step longer. */
  lemma PathSnoc(past: seq<RelayStep>, s: State, step: RelayStep, r: string)
    requires Follow(EMPTY, past) == Some(s) && Enabled(s, step)
    ensures Follow(EMPTY, past + [step]) == Some(Next(s, step))
    ensures OwnSteps(r, past + [step]) == OwnSteps(r, past) + if Own(r, step) then [step] else []
    ensures Preserves(s, Next(s, step))
  {
    assert Front(past + [step]) == past;
    StepPreserves(s, step);
  }

  /** Others leave a relay's phase alone. */
  lemma OthersKeepPhase(s: State, step: RelayStep, r: string)
    requires Enabled(s, step) && !Own(r, step)
    ensures PhaseOf(Next(s, step), r) == PhaseOf(s, r)
  {
  }

  /** What a batch is turned into does not change while others work. */
  lemma {:induction false} SameMessages(s: State, s': State, batch: seq<string>, delivered: seq<bool>)
    requires Preserves(s, s') && |batch| == |delivered| && forall i :: 0 <= i < |batch| ==> batch[i] in s.rows
    ensures Delivered(s'.rows, batch, delivered) == Delivered(s.rows, batch, delivered)
  {
    if batch != [] {
      SameMessages(s, s', Front(batch), Front(delivered));
      assert Last(batch) in s.rows;
    }
  }

  /** The rows of a relay that is at work are there. */
  lemma BatchIsThere(past: seq<RelayStep>, s: State, r: string)
    requires Follow(EMPTY, past) == Some(s) && !PhaseOf(s, r).Idle?
    ensures forall i :: 0 <= i < |PhaseOf(s, r).batch| ==> PhaseOf(s, r).batch[i] in s.rows
  {
    RelaysAreSafe(past);
    var phase := s.relays[r];
    assert !phase.Severed? ==> phase.batch == Batch(phase);
  }

  /** A commit of a written batch publishes all of it. */
  lemma CommitPublishes(past: seq<RelayStep>, s: State, r: string)
    requires Follow(EMPTY, past) == Some(s) && PhaseOf(s, r).MarkedPublished?
    ensures AllPublished(Next(s, Commit(r)), s.relays[r].batch)
  {
    BatchIsThere(past, s, r);
  }

  /** Nobody else does anything during the round. */
  predicate Undistracted(f: Faults) {
    f.elsewhere(0) == [] && f.elsewhere(1) == [] && f.elsewhere(2) == []
  }

  /** All the round did to the table: it published the batch and let go of it. */
  ghost predicate JustPublished(r: string, s: State, batch: seq<string>, s': State) {
    s'.rows == Publish(s.rows, batch) && s'.relays == s.relays[r := Idle]
  }

  /** All the round put on Kafka: for each row of the batch, in order, a message that carries it. */
  ghost predicate JustSent(s: State, batch: seq<string>, s': State) {
    && |s'.kafka| == |s.kafka| + |batch| && s.kafka <= s'.kafka
    && forall i :: 0 <= i < |batch| ==>
         s'.kafka[|s.kafka| + i].origin == batch[i] && Carries(s.rows, s'.kafka[|s.kafka| + i])
  }

  /** Claiming neither publishes nor sends anything. */
  lemma SinceClaim(r: string, s: State, batch: seq<string>, claimed: State, s': State)
    requires claimed == s.(relays := s.relays[r := Claimed(batch)])
    requires JustPublished(r, claimed, batch, s') && JustSent(claimed, batch, s')
    ensures JustPublished(r, s, batch, s') && JustSent(s, batch, s')
  {
    assert claimed.relays[r := Idle] == s.relays[r := Idle];
  }

  lemma MessagesSent(s: State, batch: seq<string>, messages: seq<Message>, s': State)
    requires forall i :: 0 <= i < |batch| ==> batch[i] in s.rows
    requires messages == Delivered(s.rows, batch, All(|batch|)) && s'.kafka == s.kafka + messages
    ensures JustSent(s, batch, s')
  {
    AllMessages(s.rows, batch);
  }

  datatype Round = Nothing | Done | Failed

  /** The outbox table with its row locks, and the topic; `past` is everything that ever happened to them. */
  class Outbox {
    var state: State
    ghost var past: seq<RelayStep>

    /** The state was reached along a path of the protocol. */
    ghost predicate Valid()
      reads this
    {
      Follow(EMPTY, past) == Some(state)
    }

    constructor ()
      ensures Valid() && state == EMPTY && past == []
    {
      state := EMPTY;
      past := [];
    }

    /** One step of the protocol has been taken. */
    ghost method Record(step: RelayStep, before: State)
      requires Follow(EMPTY, past) == Some(before) && Enabled(before, step) && state == Next(before, step)
      modifies this`past
      ensures Valid() && past == old(past) + [step]
      ensures forall r :: OwnSteps(r, past) == OwnSteps(r, old(past)) + if Own(r, step) then [step] else []
    {
      forall r
        ensures OwnSteps(r, past + [step]) == OwnSteps(r, past) + if Own(r, step) then [step] else []
      {
        PathSnoc(past, before, step, r);
      }
      PathSnoc(past, before, step, "");
      past := past + [step];
    }

    /** The steps of one relay so far. */
    ghost function StepsOf(relay: string): seq<RelayStep>
      reads this
    {
      OwnSteps(relay, past)
    }

    /** The rows no relay has locked and nobody has published. */
    function EligibleRows(): (ids: set<string>)
      reads this
      ensures forall id :: id in ids <==> Eligible(state, id)
    {
      set id | id in state.rows && Eligible(state, id)
    }

    method Oldest(ids: set<string>) returns (oldest: string)
      requires ids != {} && forall id :: id in ids ==> id in state.rows
      ensures oldest in ids && forall id :: id in ids ==> state.rows[oldest].createdAt <= state.rows[id].createdAt
    {
      oldest :| oldest in ids;
      var rest := ids - {oldest};
      while rest != {}
        invariant rest <= ids && oldest in ids
        invariant forall id :: id in ids - rest ==> state.rows[oldest].createdAt <= state.rows[id].createdAt
        decreases |rest|
      {
        var id :| id in rest;
        if state.rows[id].createdAt < state.rows[oldest].createdAt {
          oldest := id;
        }
        rest := rest - {id};
      }
    }

    /** SELECT ... WHERE published_at IS NULL ORDER BY created_at LIMIT ... FOR UPDATE SKIP LOCKED. */
    method SelectForUpdate(limit: nat) returns (batch: seq<string>)
      requires limit >= 1
      ensures if exists id :: Eligible(state, id) then Claimable(state, limit, batch) else batch == []
    {
      var eligible := EligibleRows();
      var left := eligible;
      batch := [];
      while left != {} && |batch| < limit
        invariant |batch| <= limit && Taken(state.rows, eligible, left, batch)
        decreases |left|
      {
        var id := Oldest(left);
        TakeOldest(state.rows, eligible, left, batch, id);
        left := left - {id};
        batch := batch + [id];
      }
      if batch == [] {
        assert forall id :: id in eligible ==> id in eligible - left;
      } else {
        assert Eligible(state, batch[0]);
        OldestFirst(state, limit, eligible, left, batch);
      }
    }

    /** FOR UPDATE: the rows stay locked until the relay's transaction ends. */
    method Lock(relay: string, batch: seq<string>)
      requires Valid() && Enabled(state, Claim(relay, batch))
      modifies this
      ensures state == Next(old(state), Claim(relay, batch))
      ensures Valid() && StepsOf(relay) == old(StepsOf(relay)) + [Claim(relay, batch)] && old(past) <= past
    {
      state := state.(relays := state.relays[relay := Claimed(batch)]);
      Record(Claim(relay, batch), old(state));
    }

    /** The database loses the relay's session: its transaction is rolled back and its locks are gone. */
    method Disconnect(relay: string)
      requires Valid() && Enabled(state, Sever(relay))
      modifies this
      ensures state == Next(old(state), Sever(relay))
      ensures Valid() && StepsOf(relay) == old(StepsOf(relay)) + [Sever(relay)] && old(past) <= past
    {
      state := state.(relays := state.relays[relay := Severed(state.relays[relay].batch)]);
      Record(Sever(relay), old(state));
    }

    /** The rest of the world moves: every wanted step that is possible by now and not the relay's own. */
    method Elsewhere(relay: string, wanted: seq<RelayStep>)
      requires Valid()
      modifies this
      ensures Valid() && StepsOf(relay) == old(StepsOf(relay)) && old(past) <= past
      ensures PhaseOf(state, relay) == PhaseOf(old(state), relay) && Preserves(old(state), state)
      ensures wanted == [] ==> state == old(state)
    {
      for i := 0 to |wanted|
        invariant Valid() && StepsOf(relay) == old(StepsOf(relay)) && old(past) <= past
        invariant PhaseOf(state, relay) == PhaseOf(old(state), relay) && Preserves(old(state), state)
        invariant i == 0 ==> state == old(state)
      {
        if Enabled(state, wanted[i]) && !Own(relay, wanted[i]) {
          OthersKeepPhase(state, wanted[i], relay);
          PathSnoc(past, state, wanted[i], relay);
          ghost var before := state;
          state := Next(state, wanted[i]);
          Record(wanted[i], before);
        }
      }
    }

    /** Which messages of a batch a failing write delivers. */
    method Deliver(batch: seq<string>, messages: seq<Message>, mask: seq<bool>) returns (sent: seq<Message>)
      requires |batch| == |mask| && messages == Delivered(state.rows, batch, All(|batch|))
      ensures sent == Delivered(state.rows, batch, mask)
    {
      AllMessages(state.rows, batch);
      sent := [];
      for i := 0 to |batch|
        invariant sent == Delivered(state.rows, batch[..i], mask[..i])
      {
        if mask[i] {
          sent := sent + [messages[i]];
        }
        assert Front(batch[..i + 1]) == batch[..i] && Front(mask[..i + 1]) == mask[..i];
        assert sent + [] == sent;
      }
      assert batch[..|batch|] == batch && mask[..|batch|] == mask;
    }

    /** WriteMessages: all of the batch, or an error after some of it. */
    method Write(relay: string, messages: seq<Message>, fails: bool, delivered: nat -> bool) returns (step: RelayStep)
      requires Valid() && PhaseOf(state, relay).Claimed?
      requires messages == Delivered(state.rows, state.relays[relay].batch, All(|state.relays[relay].batch|))
      modifies this
      ensures step == if fails
                      then WriteFail(relay, Mask(|old(state.relays)[relay].batch|, delivered))
                      else WriteOk(relay)
      ensures Enabled(old(state), step) && state == Next(old(state), step)
      ensures Valid() && StepsOf(relay) == old(StepsOf(relay)) + [step] && old(past) <= past
    {
      var batch := state.relays[relay].batch;
      if fails {
        var sent := Deliver(batch, messages, Mask(|batch|, delivered));
        step := WriteFail(relay, Mask(|batch|, delivered));
        state := state.(kafka := state.kafka + sent, relays := state.relays[relay := Rejected(batch)]);
      } else {
        step := WriteOk(relay);
        state := state.(kafka := state.kafka + messages, relays := state.relays[relay := Written(batch)]);
      }
      Record(step, old(state));
    }

    /** The same write by a relay that has lost its session; what follows it fails. */
    method WriteWithoutSession(relay: string, messages: seq<Message>, fails: bool,
                               delivered: nat -> bool) returns (step: RelayStep)
      requires Valid() && PhaseOf(state, relay).Severed?
      requires messages == Delivered(state.rows, state.relays[relay].batch, All(|state.relays[relay].batch|))
      modifies this
      ensures step.LateWrite? && Own(relay, step)
      ensures Enabled(old(state), step) && state == Next(old(state), step)
      ensures Valid() && StepsOf(relay) == old(StepsOf(relay)) + [step] && old(past) <= past
    {
      var batch := state.relays[relay].batch;
      var mask := if fails then Mask(|batch|, delivered) else All(|batch|);
      var sent := Deliver(batch, messages, mask);
      step := LateWrite(relay, mask);
      state := state.(kafka := state.kafka + sent, relays := state.relays[relay := Idle],
                      wasted := state.wasted + multiset(batch));
      Record(step, old(state));
    }

    /** The UPDATE inside the transaction, which nobody else sees before the commit. */
    method Update(relay: string, ids: seq<string>)
      requires Valid() && Enabled(state, Mark(relay)) && ids == state.relays[relay].batch
      modifies this
      ensures state == Next(old(state), Mark(relay))
      ensures Valid() && StepsOf(relay) == old(StepsOf(relay)) + [Mark(relay)] && old(past) <= past
    {
      var marked := if state.relays[relay].Written? then MarkedPublished(ids) else MarkedFailed(ids);
      state := state.(relays := state.relays[relay := marked]);
      Record(Mark(relay), old(state));
    }

    method Commit(relay: string)
      requires Valid() && Enabled(state, RelayStep.Commit(relay))
      modifies this
      ensures state == Next(old(state), RelayStep.Commit(relay))
      ensures Valid() && StepsOf(relay) == old(StepsOf(relay)) + [RelayStep.Commit(relay)] && old(past) <= past
    {
      var batch := state.relays[relay].batch;
      if state.relays[relay].MarkedPublished? {
        state := state.(rows := Publish(state.rows, batch), relays := state.relays[relay := Idle]);
      } else {
        state := state.(rows := CountFailure(state.rows, batch), relays := state.relays[relay := Idle],
                        wasted := state.wasted + multiset(batch));
      }
      Record(RelayStep.Commit(relay), old(state));
    }

    method Rollback(relay: string)
      requires Valid() && Enabled(state, Abort(relay))
      modifies this
      ensures state == Next(old(state), Abort(relay))
      ensures Valid() && StepsOf(relay) == old(StepsOf(relay)) + [Abort(relay)] && old(past) <= past
    {
      var batch := state.relays[relay].batch;
      state := state.(relays := state.relays[relay := Idle], wasted := state.wasted + multiset(batch));
      Record(Abort(relay), old(state));
    }
  }

  function Mask(n: nat, delivered: nat -> bool): (r: seq<bool>)
    ensures |r| == n
  {
    seq(n, i requires i >= 0 => delivered(i))
  }

  lemma {:induction false} AllMessages(rows: map<string, OutboxRow>, batch: seq<string>)
    ensures var messages := Delivered(rows, batch, All(|batch|));
            |messages| == |batch| && forall i :: 0 <= i < |batch| ==> messages[i] == MessageOf(rows, batch[i])
  {
    if batch != [] {
      AllMessages(rows, Front(batch));
      assert Front(All(|batch|)) == All(|batch| - 1);
    }
  }

  /** `batch` holds, oldest first, what was taken from `eligible`; nothing left is older. */
  ghost predicate Taken(rows: map<string, OutboxRow>, eligible: set<string>, left: set<string>, batch: seq<string>) {
    && left <= eligible <= rows.Keys && NoDuplicates(batch)
    && (forall i :: 0 <= i < |batch| ==> batch[i] in eligible && batch[i] !in left)
    && (forall id :: id in eligible ==> id in left || id in batch)
    && (forall i, j :: 0 <= i < j < |batch| ==> rows[batch[i]].createdAt <= rows[batch[j]].createdAt)
    && (forall id, i :: id in left && 0 <= i < |batch| ==> rows[batch[i]].createdAt <= rows[id].createdAt)
  }

  lemma TakeOldest(rows: map<string, OutboxRow>, eligible: set<string>, left: set<string>, batch: seq<string>,
                   id: string)
    requires Taken(rows, eligible, left, batch)
    requires id in left && forall x :: x in left ==> rows[id].createdAt <= rows[x].createdAt
    ensures Taken(rows, eligible, left - {id}, batch + [id])
  {
    assert forall x :: x in batch ==> x in batch + [id];
    assert (batch + [id])[|batch|] == id;
  }

  /** Taking the oldest eligible row until none is left or the limit is reached gives a claimable batch. */
  lemma OldestFirst(s: State, limit: nat, eligible: set<string>, left: set<string>, batch: seq<string>)
    requires forall id :: id in eligible <==> Eligible(s, id)
    requires batch != [] && |batch| <= limit && Taken(s.rows, eligible, left, batch)
    requires left == {} || |batch| == limit
    ensures Claimable(s, limit, batch)
  {
  }

  class Relay {
    const name: string
    const batchSize: nat
    const pollInterval: Duration

    /** NewRelay: a batch size or a poll interval that is not positive becomes the default. */
    constructor (name: string, batchSize: int, pollInterval: Duration)
      ensures this.name == name && this.batchSize == (if batchSize <= 0 then 100 else batchSize)
      ensures this.pollInterval == if pollInterval <= 0 then 2 * SECOND else pollInterval
      ensures this.batchSize >= 1 && this.pollInterval > 0
    {
      this.name := name;
      this.batchSize := if batchSize <= 0 then DEFAULT_BATCH_SIZE else batchSize;
      this.pollInterval := if pollInterval <= 0 then DEFAULT_POLL_INTERVAL else pollInterval;
    }

    /** The loop that turns a batch into Kafka messages. */
    method BuildMessages(outbox: Outbox, batch: seq<string>) returns (messages: seq<Message>)
      ensures messages == Delivered(outbox.state.rows, batch, All(|batch|))
      ensures |messages| == |batch| && forall i :: 0 <= i < |batch| ==> messages[i].origin == batch[i]
      ensures forall i :: 0 <= i < |batch| && batch[i] in outbox.state.rows ==> Carries(outbox.state.rows, messages[i])
    {
      messages := [];
      for i := 0 to |batch|
        invariant messages == Delivered(outbox.state.rows, batch[..i], All(i))
      {
        messages := messages + [MessageOf(outbox.state.rows, batch[i])];
        assert Front(batch[..i + 1]) == batch[..i] && Front(All(i + 1)) == All(i);
      }
      assert batch[..|batch|] == batch;
      AllMessages(outbox.state.rows, batch);
    }

    /** The loop that collects the ids of a batch. */
    method CollectIds(batch: seq<string>) returns (ids: seq<string>)
      ensures ids == batch
    {
      ids := [];
      for i := 0 to |batch|
        invariant ids == batch[..i]
      {
        ids := ids + [batch[i]];
      }
    }

    /** Marks the rows as the write went, and commits; on any error the transaction is rolled back. */
    method Finish(outbox: Outbox, batch: seq<string>, f: Faults) returns (ok: bool)
      requires outbox.Valid() && Enabled(outbox.state, Mark(name)) && outbox.state.relays[name].batch == batch
      modifies outbox
      ensures outbox.Valid() && old(outbox.past) <= outbox.past && PhaseOf(outbox.state, name).Idle?
      ensures ok <==> !f.mark && !f.commit
      ensures ok ==> outbox.StepsOf(name) == old(outbox.StepsOf(name)) + [Mark(name), Commit(name)]
      ensures ok && old(outbox.state).relays[name].Written? ==> AllPublished(outbox.state, batch)
      ensures ok && old(outbox.state).relays[name].Written? && Undistracted(f) ==>
                JustPublished(name, old(outbox.state), batch, outbox.state)
      ensures ok && Undistracted(f) ==> outbox.state.kafka == old(outbox.state).kafka
    {
      var ids := CollectIds(batch);
      if f.mark {
        outbox.Rollback(name);
        return false;
      }
      outbox.Update(name, ids);
      outbox.Elsewhere(name, f.elsewhere(2));
      if f.commit && !f.committedAnyway {
        outbox.Rollback(name);
        return false;
      }
      if outbox.state.relays[name].MarkedPublished? {
        CommitPublishes(outbox.past, outbox.state, name);
      }
      outbox.Commit(name);
      ok := !f.commit;
    }

    /** The rest of a round whose session is lost before the write: others may claim its rows, and still it writes. */
    method WriteInVain(outbox: Outbox, batch: seq<string>, messages: seq<Message>, f: Faults)
      requires outbox.Valid() && PhaseOf(outbox.state, name) == Claimed(batch)
      requires messages == Delivered(outbox.state.rows, batch, All(|batch|))
      modifies outbox
      ensures outbox.Valid() && old(outbox.past) <= outbox.past && PhaseOf(outbox.state, name).Idle?
    {
      BatchIsThere(outbox.past, outbox.state, name);
      outbox.Disconnect(name);
      ghost var before := outbox.state;
      outbox.Elsewhere(name, f.elsewhere(1));
      SameMessages(before, outbox.state, batch, All(|batch|));
      var _ := outbox.WriteWithoutSession(name, messages, f.write, f.delivered);
    }

    /** The rest of a round that still has its session. */
    method WriteAndFinish(outbox: Outbox, batch: seq<string>, messages: seq<Message>, f: Faults) returns (ok: bool)
      requires outbox.Valid() && PhaseOf(outbox.state, name) == Claimed(batch)
      requires messages == Delivered(outbox.state.rows, batch, All(|batch|))
      modifies outbox
      ensures outbox.Valid() && old(outbox.past) <= outbox.past && PhaseOf(outbox.state, name).Idle?
      ensures ok <==> !f.write && !f.mark && !f.commit
      ensures ok ==> outbox.StepsOf(name) == old(outbox.StepsOf(name)) + [WriteOk(name), Mark(name), Commit(name)]
      ensures ok ==> AllPublished(outbox.state, batch)
      ensures ok && Undistracted(f) ==> JustPublished(name, old(outbox.state), batch, outbox.state)
      ensures ok && Undistracted(f) ==> outbox.state.kafka == old(outbox.state).kafka + messages
    {
      var _ := outbox.Write(name, messages, f.write, f.delivered);
      outbox.Elsewhere(name, f.elsewhere(1));
      ok := Finish(outbox, batch, f);
      ok := ok && !f.write;
    }

    /** The round from the moment its rows are locked. */
    method PublishRows(outbox: Outbox, rows: seq<string>, f: Faults) returns (ok: bool)
      requires outbox.Valid() && PhaseOf(outbox.state, name) == Claimed(rows)
      modifies outbox
      ensures outbox.Valid() && old(outbox.past) <= outbox.past && PhaseOf(outbox.state, name).Idle?
      ensures ok <==> !f.scan && !f.severed && !f.write && !f.mark && !f.commit
      ensures ok ==> outbox.StepsOf(name) == old(outbox.StepsOf(name)) + [WriteOk(name), Mark(name), Commit(name)]
      ensures ok ==> AllPublished(outbox.state, rows)
      ensures ok && Undistracted(f) ==> JustPublished(name, old(outbox.state), rows, outbox.state)
      ensures ok && Undistracted(f) ==> JustSent(old(outbox.state), rows, outbox.state)
    {
      if f.scan {
        outbox.Rollback(name);
        return false;
      }
      var messages := BuildMessages(outbox, rows);
      ghost var before := outbox.state;
      BatchIsThere(outbox.past, before, name);
      outbox.Elsewhere(name, f.elsewhere(0));
      SameMessages(before, outbox.state, rows, All(|rows|));
      if f.severed {
        WriteInVain(outbox, rows, messages, f);
        return false;
      }
      ok := WriteAndFinish(outbox, rows, messages, f);
      if ok && Undistracted(f) {
        MessagesSent(before, rows, messages, outbox.state);
      }
    }

    /**
     publishBatch, with markFailed, while others do what they like between its
     calls: the outbox goes on along a path of the protocol. The round reports
     success exactly when nothing went wrong and there was a row to publish, and
     then its own part of the path was to claim the oldest rows, write, mark and
     commit, and all of them are published.
     */
    method PublishBatch(outbox: Outbox, f: Faults) returns (round: Round, ghost batch: seq<string>)
      requires outbox.Valid() && batchSize >= 1 && PhaseOf(outbox.state, name).Idle?
      modifies outbox
      ensures outbox.Valid() && old(outbox.past) <= outbox.past && PhaseOf(outbox.state, name).Idle?
      ensures round.Done? <==> Undisturbed(f) && exists id :: Eligible(old(outbox.state), id)
      ensures round.Done? ==>
                && Claimable(old(outbox.state), batchSize, batch)
                && outbox.StepsOf(name) ==
                   old(outbox.StepsOf(name)) + [Claim(name, batch), WriteOk(name), Mark(name), Commit(name)]
                && AllPublished(outbox.state, batch)
      ensures round.Done? && Undistracted(f) ==>
                && JustPublished(name, old(outbox.state), batch, outbox.state)
                && JustSent(old(outbox.state), batch, outbox.state)
      ensures round.Nothing? <==> !f.begin && !f.select && !exists id :: Eligible(old(outbox.state), id)
      ensures round.Nothing? ==> outbox.state == old(outbox.state)
    {
      batch := [];
      if f.begin || f.select {
        return Failed, [];
      }
      var rows := outbox.SelectForUpdate(batchSize);
      batch := rows;
      if rows == [] {
        return Nothing, [];
      }
      assert MayClaim(outbox.state, rows);
      ghost var before := outbox.state;
      outbox.Lock(name, rows);
      ghost var claimed := outbox.state;
      var ok := PublishRows(outbox, rows, f);
      if ok && Undistracted(f) {
        SinceClaim(name, before, rows, claimed, outbox.state);
      }
      round := if ok then Done else Failed;
    }

    /**
     Run's loop, for so many ticks on which nothing goes wrong and nobody else is
     at work: the oldest rows go first.
     */
    method Poll(outbox: Outbox, rounds: nat, f: Faults)
      requires outbox.Valid() && batchSize >= 1 && NobodyAtWork(outbox.state)
      requires Undisturbed(f) && Undistracted(f)
      modifies outbox
      ensures outbox.Valid() && NobodyAtWork(outbox.state)
      ensures |Waiting(outbox.state)| == Remaining(|Waiting(old(outbox.state))|, batchSize, rounds)
      ensures |Waiting(old(outbox.state))| <= rounds * batchSize ==> Waiting(outbox.state) == {}
      ensures OldestGone(old(outbox.state), outbox.state)
    {
      for i := 0 to rounds
        invariant outbox.Valid() && NobodyAtWork(outbox.state)
        invariant |Waiting(outbox.state)| == Remaining(|Waiting(old(outbox.state))|, batchSize, i)
        invariant OldestGone(old(outbox.state), outbox.state)
      {
        ghost var before := outbox.state;
        var round, batch := PublishBatch(outbox, f);
        RoundPublishes(name, batchSize, before, round, batch, outbox.state);
        if round.Done? {
          OldestGoFirst(name, batchSize, old(outbox.state), before, batch, outbox.state);
        }
      }
      EnoughRounds(|Waiting(old(outbox.state))|, batchSize, rounds);
    }
  }

  ghost predicate AllPublished(s: State, batch: seq<string>) {
    forall i :: 0 <= i < |batch| ==> Published(s, batch[i])
  }

  // ------------------------------------------------------------------------
  // Progress.
  // ------------------------------------------------------------------------

  /** No relay holds a row. */
  ghost predicate NobodyAtWork(s: State) {
    forall r :: r in s.relays ==> s.relays[r].Idle?
  }

  /** The rows still to be published. */
  function Waiting(s: State): set<string> {
    set id | id in s.rows && !s.rows[id].published
  }

  /** How many rows are left of `waiting` after so many rounds of `size`. */
  function Remaining(waiting: nat, size: nat, rounds: nat): nat {
    if rounds == 0 then waiting
    else
      var before := Remaining(waiting, size, rounds - 1);
      before - Min(size, before)
  }

  lemma WaitingIsEligible(s: State, id: string)
    requires NobodyAtWork(s)
    ensures Eligible(s, id) <==> id in Waiting(s)
  {
  }

  lemma {:induction false} SizeOfBatch(batch: seq<string>)
    requires NoDuplicates(batch)
    ensures |set id | id in batch| == |batch|
  {
    if batch != [] {
      SizeOfBatch(Front(batch));
      var rest := set id | id in Front(batch);
      assert Last(batch) !in rest;
      assert (set id | id in batch) == rest + {Last(batch)} by {
        assert batch == Front(batch) + [Last(batch)];
      }
    }
  }

  lemma WaitingAfter(r: string, s: State, batch: seq<string>, s': State)
    requires JustPublished(r, s, batch, s')
    ensures Waiting(s') == Waiting(s) - set id | id in batch
  {
  }

  /** A claimable batch is as large as the limit allows. */
  lemma BatchIsFull(s: State, limit: nat, batch: seq<string>)
    requires NobodyAtWork(s) && Claimable(s, limit, batch)
    ensures (set id | id in batch) <= Waiting(s) && |batch| == Min(limit, |Waiting(s)|)
  {
    var taken := set id | id in batch;
    forall id
      ensures Eligible(s, id) <==> id in Waiting(s)
    {
      WaitingIsEligible(s, id);
    }
    SizeOfBatch(batch);
    assert Waiting(s) == taken + (Waiting(s) - taken);
    if |batch| < limit {
      assert Waiting(s) - taken == {};
    }
  }

  lemma NothingWaiting(s: State)
    requires NobodyAtWork(s) && !exists id :: Eligible(s, id)
    ensures Waiting(s) == {}
  {
    forall id
      ensures id !in Waiting(s)
    {
      WaitingIsEligible(s, id);
    }
  }

  lemma BatchPublished(r: string, limit: nat, s: State, batch: seq<string>, s': State)
    requires NobodyAtWork(s) && Claimable(s, limit, batch) && JustPublished(r, s, batch, s')
    ensures |Waiting(s')| == |Waiting(s)| - Min(limit, |Waiting(s)|)
  {
    var taken := set id | id in batch;
    BatchIsFull(s, limit, batch);
    WaitingAfter(r, s, batch, s');
    SizeOfBatch(batch);
    assert Waiting(s) == taken + Waiting(s');
  }

  /** An undisturbed round with nobody else at work publishes as many rows as are waiting, up to the batch size. */
  lemma RoundPublishes(r: string, limit: nat, s: State, round: Round, batch: seq<string>, s': State)
    requires NobodyAtWork(s)
    requires round.Done? ==> Claimable(s, limit, batch) && JustPublished(r, s, batch, s')
    requires !round.Done? ==> s' == s && !exists id :: Eligible(s, id)
    ensures NobodyAtWork(s') && |Waiting(s')| == |Waiting(s)| - Min(limit, |Waiting(s)|)
  {
    if round.Done? {
      BatchPublished(r, limit, s, batch, s');
    } else {
      NothingWaiting(s);
    }
  }

  /** Of the rows that were waiting in `s0`, those gone by `s` are none newer than those still waiting. */
  ghost predicate OldestGone(s0: State, s: State) {
    && Waiting(s) <= Waiting(s0)
    && (forall id :: id in s0.rows ==> id in s.rows && s.rows[id].createdAt == s0.rows[id].createdAt)
    && forall a, b :: a in Waiting(s0) && a !in Waiting(s) && b in Waiting(s) ==>
         s0.rows[a].createdAt <= s0.rows[b].createdAt
  }

  lemma OldestGoFirst(r: string, limit: nat, s0: State, s: State, batch: seq<string>, s': State)
    requires NobodyAtWork(s) && OldestGone(s0, s) && Claimable(s, limit, batch) && JustPublished(r, s, batch, s')
    ensures OldestGone(s0, s')
  {
    WaitingAfter(r, s, batch, s');
    forall a, b | a in Waiting(s0) && a !in Waiting(s') && b in Waiting(s')
      ensures s0.rows[a].createdAt <= s0.rows[b].createdAt
    {
      WaitingIsEligible(s, b);
      if a in Waiting(s) {
        assert a in batch && b !in batch;
        var i :| 0 <= i < |batch| && batch[i] == a;
        assert s.rows[batch[i]].createdAt <= s.rows[b].createdAt;
      }
    }
  }

  /** So with `size` rows a round, enough rounds leave nothing waiting, and no fewer do. */
  lemma {:induction false} EnoughRounds(waiting: nat, size: nat, rounds: nat)
    ensures Remaining(waiting, size, rounds) == if waiting <= rounds * size then 0 else waiting - rounds * size
  {
    if rounds > 0 {
      EnoughRounds(waiting, size, rounds - 1);
      assert rounds * size == (rounds - 1) * size + size;
    }
  }
}
