// What one worker does from start to end is a run of the protocol.
module IndexerRefinement {
  import opened Wrappers
  import opened PoolTables
  import opened IndexerQueue
  import opened IndexerService
  import opened IndexerProtocol

  lemma {:induction false} RunInParts(env: Env, s: State, first: seq<Step>, rest: seq<Step>)
    ensures Run(env, s, first + rest) == Run(env, Run(env, s, first), rest)
    decreases |rest|
  {
    hide Apply;
    if rest == [] {
      assert first + rest == first;
    } else {
      var front, last := rest[..|rest| - 1], rest[|rest| - 1];
      RunInParts(env, s, first, front);
      assert (first + rest)[..|first + rest| - 1] == first + front;
    }
  }

  lemma RunOne(env: Env, s: State, step: Step)
    ensures Run(env, s, [step]) == Apply(env, s, step)
  {
    hide Apply;
    assert [step][..0] == [];
  }

  // ---- A discovery ----

  function DiscoverySteps(id: nat, limit: nat): seq<Step> {
    [ReadWatermark(id)] + ([FetchNew(id, limit)] + ([InsertFound(id)] + [StoreWatermark(id)]))
  }

  /** A discovery that is not interrupted. */
  lemma {:induction false} DiscoveryIsARun(env: Env, s: State, id: nat, limit: nat, state: Option<Watermark>)
    requires id !in s.discoveries && s.watermark == SignatureOf(state)
    ensures var t, found := Run(env, s, DiscoverySteps(id, limit)), NewestSince(s.log, SignatureOf(state), limit);
      && t.queue == InsertNew(s.queue, env.programId, found)
      && t.watermark == SignatureOf(NewestOr(found, state))
      && t.log == s.log && t.workers == s.workers && t.tables == s.tables
  {
    hide NewestSince, InsertNew, Run;
    var read, fetch, insert, store := ReadWatermark(id), FetchNew(id, limit), InsertFound(id), StoreWatermark(id);
    RunInParts(env, s, [read], [fetch] + ([insert] + [store]));
    RunOne(env, s, read);
    var s1 := Apply(env, s, read);
    RunInParts(env, s1, [fetch], [insert] + [store]);
    RunOne(env, s1, fetch);
    var s2 := Apply(env, s1, fetch);
    RunInParts(env, s2, [insert], [store]);
    RunOne(env, s2, insert);
    RunOne(env, Apply(env, s2, insert), store);
  }

  // ---- A batch ----

  function ItemSteps(env: Env, worker: nat, signature: string): seq<Step> {
    match env.outcome(signature)
    case Skipped => [Finish(worker, signature)]
    case Unusable => [GiveUp(worker, signature)]
    case Parsed(_) =>
      [Begin(worker, signature)]
      + ([Put(worker, signature, OutputsTable)]
         + ([Put(worker, signature, RootsTable)]
            + ([Put(worker, signature, NullifiersTable)] + [Finish(worker, signature)])))
  }

  // The state after one item that was worked through: its row is settled, its rows are stored, and
  // the worker holds the others.
  ghost predicate ItemSettled(env: Env, s: State, t: State, worker: nat, signature: string)
    requires Holds(s, worker, signature)
  {
    && t.queue == WithStatus(s.queue, signature, StatusAfter(env.outcome(signature), s.workers[worker][signature].attempts))
    && t.tables == StoreOutcome(s.tables, env.outcome(signature))
    && t.workers == s.workers[worker := s.workers[worker] - {signature}]
  }

  lemma ItemIsARun(env: Env, s: State, worker: nat, signature: string)
    requires Holds(s, worker, signature)
    ensures ItemSettled(env, s, Run(env, s, ItemSteps(env, worker, signature)), worker, signature)
  {
    hide Run, InsertAll, OutputsClash, RootsClash, NullifiersClash;
    match env.outcome(signature)
    case Skipped => RunOne(env, s, Finish(worker, signature));
    case Unusable => RunOne(env, s, GiveUp(worker, signature));
    case Parsed(parsed) => ParsedItemIsARun(env, s, worker, signature);
  }

  lemma {:induction false} ParsedItemIsARun(env: Env, s: State, worker: nat, signature: string)
    requires Holds(s, worker, signature) && env.outcome(signature).Parsed?
    ensures ItemSettled(env, s, Run(env, s, ItemSteps(env, worker, signature)), worker, signature)
  {
    hide Run, Apply, StoreRows, WithStatus;
    var begin, finish := Begin(worker, signature), Finish(worker, signature);
    var outputs, roots, nullifiers := Put(worker, signature, OutputsTable), Put(worker, signature, RootsTable), Put(worker, signature, NullifiersTable);
    RunInParts(env, s, [begin], [outputs] + ([roots] + ([nullifiers] + [finish])));
    RunOne(env, s, begin);
    var s1 := Apply(env, s, begin);
    BeginOne(env, s, worker, signature);
    RunInParts(env, s1, [outputs], [roots] + ([nullifiers] + [finish]));
    RunOne(env, s1, outputs);
    var s2 := Apply(env, s1, outputs);
    PutOne(env, s1, worker, signature, OutputsTable);
    RunInParts(env, s2, [roots], [nullifiers] + [finish]);
    RunOne(env, s2, roots);
    var s3 := Apply(env, s2, roots);
    PutOne(env, s2, worker, signature, RootsTable);
    RunInParts(env, s3, [nullifiers], [finish]);
    RunOne(env, s3, nullifiers);
    var s4 := Apply(env, s3, nullifiers);
    PutOne(env, s3, worker, signature, NullifiersTable);
    RunOne(env, s4, finish);
    FinishOne(env, s4, worker, signature);
    assert s4.workers[worker] - {signature} == s.workers[worker] - {signature};
    assert Apply(env, s4, finish).workers == s.workers[worker := s.workers[worker] - {signature}];
    ThreePuts(s.tables, env.outcome(signature));
  }

  lemma BeginOne(env: Env, s: State, worker: nat, signature: string)
    requires Holds(s, worker, signature) && env.outcome(signature).Parsed?
    ensures Apply(env, s, Begin(worker, signature)) == s.(begun := s.begun + {signature})
  {
  }

  lemma PutOne(env: Env, s: State, worker: nat, signature: string, target: Target)
    requires Holds(s, worker, signature) && signature in s.begun && env.outcome(signature).Parsed?
    ensures Apply(env, s, Put(worker, signature, target))
            == s.(tables := StoreRows(s.tables, env.outcome(signature).parsed, target),
                  workers := s.workers[worker := s.workers[worker][signature := Flag(s.workers[worker][signature], target)]])
  {
    hide StoreRows, Flag;
  }

  lemma FinishOne(env: Env, s: State, worker: nat, signature: string)
    requires Holds(s, worker, signature) && Finishable(env, signature, s.workers[worker][signature])
    ensures Apply(env, s, Finish(worker, signature)) == Release(s, worker, signature, Done)
  {
  }

  lemma ThreePuts(tables: Tables, outcome: Outcome)
    requires outcome.Parsed?
    ensures StoreRows(StoreRows(StoreRows(tables, outcome.parsed, OutputsTable), outcome.parsed, RootsTable), outcome.parsed, NullifiersTable)
            == StoreOutcome(tables, outcome)
  {
    hide InsertAll;
  }

  function BatchSteps(env: Env, worker: nat, items: seq<WorkItem>, n: nat): seq<Step>
    requires n <= |items|
  {
    if n == 0 then [] else BatchSteps(env, worker, items, n - 1) + ItemSteps(env, worker, items[n - 1].signature)
  }

  // The protocol and the source agree on what each item comes to.
  predicate SameOutcomes(env: Env, source: Source, items: seq<WorkItem>) {
    forall i :: 0 <= i < |items| ==> env.outcome(items[i].signature) == ItemOutcome(source, items[i])
  }

  // The worker holds exactly the items from position n on.
  ghost predicate HoldsFrom(s: State, worker: nat, items: seq<WorkItem>, n: nat) {
    && worker in s.workers
    && (forall i :: n <= i < |items| ==> items[i].signature in s.workers[worker])
    && (forall i :: n <= i < |items| ==> s.workers[worker][items[i].signature].attempts == items[i].attempts)
  }

  lemma {:induction false} ItemsAreARun(env: Env, source: Source, s: State, worker: nat, items: seq<WorkItem>, n: nat)
    requires n <= |items| && HoldsFrom(s, worker, items, 0) && SameOutcomes(env, source, items)
    requires forall i, j :: 0 <= i < j < |items| ==> items[i].signature != items[j].signature
    ensures var t := Run(env, s, BatchSteps(env, worker, items, n));
      && t.queue == Settled(source, s.queue, items, n)
      && t.tables == TablesAfter(source, s.tables, items, n)
      && HoldsFrom(t, worker, items, n)
    decreases n
  {
    hide Apply, ItemSteps, StatusAfter, StoreOutcome, WithStatus, ItemOutcome;
    if n > 0 {
      ItemsAreARun(env, source, s, worker, items, n - 1);
      var before, signature := Run(env, s, BatchSteps(env, worker, items, n - 1)), items[n - 1].signature;
      RunInParts(env, s, BatchSteps(env, worker, items, n - 1), ItemSteps(env, worker, signature));
      ItemIsARun(env, before, worker, signature);
    }
  }

  /** A processing batch that is not interrupted is a run of the protocol: what holds in every run
      holds of it, and of any number of them interleaved. */
  lemma {:induction false} BatchIsARun(env: Env, source: Source, s: State, worker: nat, limit: nat, locked: set<string>, batch: set<string>, items: seq<WorkItem>)
    requires (worker in s.workers ==> s.workers[worker] == map[]) && SameOutcomes(env, source, items)
    requires IsBatch(env.collate, s.queue, env.programId, limit, locked, batch)
    requires forall x :: x in batch ==> x in s.queue
    requires forall i :: 0 <= i < |items| ==> items[i].signature in batch && items[i] == ItemOf(Claimed(s.queue, batch), items[i].signature)
    requires forall i, j :: 0 <= i < j < |items| ==> items[i].signature != items[j].signature
    ensures var t := Run(env, s, [ClaimBatch(worker, limit, locked, batch)] + BatchSteps(env, worker, items, |items|));
      && t.queue == Settled(source, Claimed(s.queue, batch), items, |items|)
      && t.tables == TablesAfter(source, s.tables, items, |items|)
  {
    hide Run, IsBatch, Settled, TablesAfter, BatchSteps, SameOutcomes;
    var claim := ClaimBatch(worker, limit, locked, batch);
    RunInParts(env, s, [claim], BatchSteps(env, worker, items, |items|));
    RunOne(env, s, claim);
    ItemsAreARun(env, source, Apply(env, s, claim), worker, items, |items|);
  }
}
