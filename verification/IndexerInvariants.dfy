// What holds in every run of the indexer.
module IndexerInvariants {
  import opened Wrappers
  import opened PoolParser
  import opened PoolTables
  import opened IndexerQueue
  import opened IndexerService
  import opened IndexerProtocol

  // ---- The queue ----

  // Attempts and status.
  predicate RowFits(row: QueueRow) {
    match row.status
    case Pending => row.attempts == 0
    case FailedTransient => 1 <= row.attempts < MAX_PROCESSING_ATTEMPTS
    case FailedTerminal => row.attempts == MAX_PROCESSING_ATTEMPTS
    case _ => 1 <= row.attempts <= MAX_PROCESSING_ATTEMPTS
  }

  predicate QueueFits(programId: string, queue: Queue, log: ChainLog) {
    forall s :: s in queue ==> RowFits(queue[s]) && queue[s].programId == programId && EntryOf(log, s)
  }

  predicate ClaimsHeld(queue: Queue, workers: map<nat, map<string, Claim>>) {
    forall w, s :: w in workers && s in workers[w] ==>
      s in queue && queue[s].status == Processing && queue[s].attempts == workers[w][s].attempts
  }

  predicate OneClaimant(workers: map<nat, map<string, Claim>>) {
    forall v, w, s :: v in workers && w in workers && s in workers[v] && s in workers[w] ==> v == w
  }

  predicate FoundInLog(log: ChainLog, discovery: Discovery) {
    !discovery.Reading? ==> forall i :: 0 <= i < |discovery.found| ==> EntryOf(log, discovery.found[i].signature)
  }

  predicate DiscoveriesInLog(log: ChainLog, discoveries: map<nat, Discovery>) {
    forall id :: id in discoveries ==> FoundInLog(log, discoveries[id])
  }

  function SumAttempts(log: ChainLog, queue: Queue, n: nat): nat
    requires n <= |log|
  {
    if n == 0 then 0
    else SumAttempts(log, queue, n - 1) + if log[n - 1].signature in queue then queue[log[n - 1].signature].attempts else 0
  }

  ghost predicate QueueInv(env: Env, s: State) {
    && DistinctLog(s.log)
    && QueueFits(env.programId, s.queue, s.log)
    && ClaimsHeld(s.queue, s.workers)
    && OneClaimant(s.workers)
    && DiscoveriesInLog(s.log, s.discoveries)
    && s.claims == SumAttempts(s.log, s.queue, |s.log|)
  }

  // ---- Sums ----

  lemma {:induction false} SumSame(log: ChainLog, longer: ChainLog, q: Queue, r: Queue, n: nat)
    requires n <= |log| && log <= longer
    requires forall i :: 0 <= i < n ==>
               (if log[i].signature in q then q[log[i].signature].attempts else 0)
               == (if log[i].signature in r then r[log[i].signature].attempts else 0)
    ensures SumAttempts(log, q, n) == SumAttempts(longer, r, n)
  {
    if n > 0 {
      SumSame(log, longer, q, r, n - 1);
    }
  }

  function Signatures(log: ChainLog, n: nat): set<string>
    requires n <= |log|
  {
    set i | 0 <= i < n :: log[i].signature
  }

  lemma {:induction false} SumClaimed(log: ChainLog, q: Queue, batch: set<string>, n: nat)
    requires n <= |log| && DistinctLog(log) && forall s :: s in batch ==> s in q
    ensures SumAttempts(log, Claimed(q, batch), n) == SumAttempts(log, q, n) + |batch * Signatures(log, n)|
  {
    if n == 0 {
      assert batch * Signatures(log, 0) == {};
    } else {
      hide Claimed;
      SumClaimed(log, q, batch, n - 1);
      OneMore(log, batch, n - 1);
      ClaimedAt(q, batch, log[n - 1].signature);
    }
  }

  lemma OneMore(log: ChainLog, batch: set<string>, n: nat)
    requires n < |log| && DistinctLog(log)
    ensures |batch * Signatures(log, n + 1)| == |batch * Signatures(log, n)| + if log[n].signature in batch then 1 else 0
  {
    var s, before := log[n].signature, batch * Signatures(log, n);
    assert s !in Signatures(log, n);
    assert Signatures(log, n + 1) == Signatures(log, n) + {s};
    if s in batch {
      assert batch * Signatures(log, n + 1) == before + {s};
    } else {
      assert batch * Signatures(log, n + 1) == before;
    }
  }

  lemma ClaimedAt(q: Queue, batch: set<string>, s: string)
    requires forall x :: x in batch ==> x in q
    ensures s in Claimed(q, batch) <==> s in q
    ensures s in q ==> Claimed(q, batch)[s].attempts == q[s].attempts + if s in batch then 1 else 0
  {
  }

  lemma {:induction false} SumBounded(programId: string, log: ChainLog, q: Queue, n: nat)
    requires n <= |log| && QueueFits(programId, q, log)
    ensures SumAttempts(log, q, n) <= MAX_PROCESSING_ATTEMPTS * n
  {
    if n > 0 {
      SumBounded(programId, log, q, n - 1);
    }
  }

  // ---- Every step keeps the queue invariant ----

  lemma LogGrows(env: Env, s: State, entry: ProgramSignature)
    requires QueueInv(env, s)
    ensures QueueInv(env, Apply(env, s, Append(entry)))
  {
    hide SumAttempts, RowFits, ClaimsHeld, OneClaimant;
    if !EntryOf(s.log, entry.signature) {
      var log := s.log + [entry];
      forall x | EntryOf(s.log, x)
        ensures EntryOf(log, x)
      {
        EntryStays(s.log, entry, x);
      }
      SumAppend(s.log, entry, s.queue);
    }
  }

  lemma EntryStays(log: ChainLog, entry: ProgramSignature, x: string)
    requires EntryOf(log, x)
    ensures EntryOf(log + [entry], x)
  {
    var i :| 0 <= i < |log| && log[i].signature == x;
    assert (log + [entry])[i].signature == x;
  }

  lemma SumAppend(log: ChainLog, entry: ProgramSignature, q: Queue)
    requires !EntryOf(log, entry.signature) && forall s :: s in q ==> EntryOf(log, s)
    ensures SumAttempts(log + [entry], q, |log| + 1) == SumAttempts(log, q, |log|)
  {
    SumSame(log, log + [entry], q, q, |log|);
  }

  lemma InsertKeepsQueueInv(env: Env, s: State, id: nat)
    requires QueueInv(env, s) && id in s.discoveries && s.discoveries[id].Fetched?
    ensures QueueInv(env, Apply(env, s, InsertFound(id)))
  {
    hide InsertNew, EntryOf, SumAttempts;
    var found := s.discoveries[id].found;
    var queue := InsertNew(s.queue, env.programId, found);
    SumSame(s.log, s.log, s.queue, queue, |s.log|);
    assert FoundInLog(s.log, s.discoveries[id]);
  }

  lemma FetchKeepsQueueInv(env: Env, s: State, id: nat, limit: nat)
    requires QueueInv(env, s) && id in s.discoveries && s.discoveries[id].Reading?
    ensures QueueInv(env, Apply(env, s, FetchNew(id, limit)))
  {
    hide QueueFits, ClaimsHeld, OneClaimant, SumAttempts, After;
    var found := NewestSince(s.log, s.discoveries[id].until, limit);
    forall i | 0 <= i < |found|
      ensures EntryOf(s.log, found[i].signature)
    {
      assert s.log[|s.log| - 1 - i].signature == found[i].signature;
    }
  }

  lemma ClaimKeepsQueueInv(env: Env, s: State, worker: nat, limit: nat, locked: set<string>, batch: set<string>)
    requires QueueInv(env, s)
    ensures QueueInv(env, Apply(env, s, ClaimBatch(worker, limit, locked, batch)))
  {
    hide SumAttempts, EntryOf, DistinctLog, DiscoveriesInLog, NotAfter, QueueFits, ClaimsHeld, OneClaimant, Claimed, NewClaims, Signatures, IsBatch;
    if !(worker in s.workers && s.workers[worker] != map[]) && IsBatch(env.collate, s.queue, env.programId, limit, locked, batch) {
      BatchIsEligible(env, s.queue, s.log, limit, locked, batch);
      SumClaimed(s.log, s.queue, batch, |s.log|);
      assert batch * Signatures(s.log, |s.log|) == batch;
      ClaimKeepsRows(env.programId, s, worker, batch);
    }
  }

  lemma BatchIsEligible(env: Env, queue: Queue, log: ChainLog, limit: nat, locked: set<string>, batch: set<string>)
    requires IsBatch(env.collate, queue, env.programId, limit, locked, batch) && QueueFits(env.programId, queue, log)
    ensures forall x :: x in batch ==> x in queue && (queue[x].status == Pending || queue[x].status == FailedTransient)
    ensures batch <= Signatures(log, |log|)
  {
    hide NotAfter, RowFits;
    assert forall x :: x in batch ==> Eligible(queue, env.programId, x) && EntryOf(log, x);
  }

  lemma ClaimKeepsRows(programId: string, s: State, worker: nat, batch: set<string>)
    requires QueueFits(programId, s.queue, s.log) && ClaimsHeld(s.queue, s.workers) && OneClaimant(s.workers)
    requires worker in s.workers ==> s.workers[worker] == map[]
    requires forall x :: x in batch ==> x in s.queue && (s.queue[x].status == Pending || s.queue[x].status == FailedTransient)
    ensures var workers := s.workers[worker := NewClaims(s.queue, batch)];
      && QueueFits(programId, Claimed(s.queue, batch), s.log)
      && ClaimsHeld(Claimed(s.queue, batch), workers)
      && OneClaimant(workers)
  {
    hide EntryOf;
  }

  lemma ReleaseKeepsQueueInv(env: Env, s: State, worker: nat, signature: string, status: Status)
    requires QueueInv(env, s) && Holds(s, worker, signature)
    requires status == Done || status == StatusAfter(Unusable, s.workers[worker][signature].attempts)
    ensures QueueInv(env, Release(s, worker, signature, status))
  {
    hide SumAttempts, EntryOf, DistinctLog, DiscoveriesInLog;
    SumSame(s.log, s.log, s.queue, WithStatus(s.queue, signature, status), |s.log|);
  }

  lemma WorkerStepKeepsQueueInv(env: Env, s: State, step: Step)
    requires QueueInv(env, s) && (step.Put? || step.Crash?)
    ensures QueueInv(env, Apply(env, s, step))
  {
    hide QueueFits, DistinctLog, SumAttempts, EntryOf, FoundInLog, StoreRows;
  }

  lemma StepKeepsQueueInv(env: Env, s: State, step: Step)
    requires QueueInv(env, s)
    ensures QueueInv(env, Apply(env, s, step))
  {
    hide QueueFits, DistinctLog, SumAttempts, EntryOf, InsertNew, IsBatch, Finishable, StatusAfter, FoundInLog, ClaimsHeld, OneClaimant;
    match step
    case Append(entry) => LogGrows(env, s, entry);
    case FetchNew(id, limit) =>
      if id in s.discoveries && s.discoveries[id].Reading? {
        FetchKeepsQueueInv(env, s, id, limit);
      }
    case InsertFound(id) =>
      if id in s.discoveries && s.discoveries[id].Fetched? {
        InsertKeepsQueueInv(env, s, id);
      }
    case ReadWatermark(id) => ReadingIsInLog(s.log, s.watermark);
    case ClaimBatch(worker, limit, locked, batch) => ClaimKeepsQueueInv(env, s, worker, limit, locked, batch);
    case Put(worker, signature, target) => WorkerStepKeepsQueueInv(env, s, step);
    case Crash(worker) => WorkerStepKeepsQueueInv(env, s, step);
    case Finish(worker, signature) =>
      if Holds(s, worker, signature) {
        ReleaseKeepsQueueInv(env, s, worker, signature, Done);
      }
    case GiveUp(worker, signature) =>
      if Holds(s, worker, signature) {
        ReleaseKeepsQueueInv(env, s, worker, signature, StatusAfter(Unusable, s.workers[worker][signature].attempts));
      }
    case _ =>
  }

  lemma ReadingIsInLog(log: ChainLog, until: Option<string>)
    ensures FoundInLog(log, Reading(until))
  {
  }

  lemma {:induction false} EveryRunKeepsQueueInv(env: Env, steps: seq<Step>)
    ensures QueueInv(env, Run(env, Start(), steps))
    decreases |steps|
  {
    if steps != [] {
      hide QueueInv, Apply;
      EveryRunKeepsQueueInv(env, steps[..|steps| - 1]);
      StepKeepsQueueInv(env, Run(env, Start(), steps[..|steps| - 1]), steps[|steps| - 1]);
    }
  }

  /** In every run: a row that is being processed has at most one live claimant; its attempts agree
      with its status and never exceed five; and the claims made so far are the attempts of all
      rows, so at most 5 times the rows' number in all. */
  lemma ClaimsAreBounded(env: Env, steps: seq<Step>)
    ensures var s := Run(env, Start(), steps);
      && (forall v, w, x :: Holds(s, v, x) && Holds(s, w, x) ==> v == w)
      && (forall w, x :: Holds(s, w, x) ==> x in s.queue && s.queue[x].status == Processing)
      && (forall x :: x in s.queue ==> RowFits(s.queue[x]))
      && s.claims == SumAttempts(s.log, s.queue, |s.log|) <= MAX_PROCESSING_ATTEMPTS * |s.log|
  {
    hide Run, Apply, SumAttempts, RowFits;
    var s := Run(env, Start(), steps);
    EveryRunKeepsQueueInv(env, steps);
    SumBounded(env.programId, s.log, s.queue, |s.log|);
  }

  // ---- What is left to claim ----

  // The attempts that the queued rows have left.
  function AttemptsLeft(log: ChainLog, queue: Queue, n: nat): int
    requires n <= |log|
  {
    if n == 0 then 0
    else
      AttemptsLeft(log, queue, n - 1)
      + if log[n - 1].signature in queue then MAX_PROCESSING_ATTEMPTS - queue[log[n - 1].signature].attempts else 0
  }

  function Queued(log: ChainLog, queue: Queue, n: nat): nat
    requires n <= |log|
  {
    if n == 0 then 0 else Queued(log, queue, n - 1) + if log[n - 1].signature in queue then 1 else 0
  }

  lemma {:induction false} LeftAndUsed(log: ChainLog, queue: Queue, n: nat)
    requires n <= |log|
    ensures AttemptsLeft(log, queue, n) + SumAttempts(log, queue, n) == MAX_PROCESSING_ATTEMPTS * Queued(log, queue, n)
  {
    if n > 0 {
      LeftAndUsed(log, queue, n - 1);
    }
  }

  lemma {:induction false} LeftIsNatural(programId: string, log: ChainLog, queue: Queue, n: nat)
    requires n <= |log| && QueueFits(programId, queue, log)
    ensures AttemptsLeft(log, queue, n) >= 0
  {
    if n > 0 {
      LeftIsNatural(programId, log, queue, n - 1);
    }
  }

  lemma {:induction false} QueuedSame(log: ChainLog, longer: ChainLog, q: Queue, r: Queue, n: nat)
    requires n <= |log| && log <= longer && q.Keys == r.Keys
    ensures Queued(log, q, n) == Queued(longer, r, n)
  {
    if n > 0 {
      QueuedSame(log, longer, q, r, n - 1);
      assert log[n - 1].signature in q.Keys <==> log[n - 1].signature in r.Keys;
    }
  }

  // A step that inserts no rows changes neither which rows there are nor what they have left and
  // used together.
  lemma StepKeepsRows(env: Env, s: State, step: Step)
    requires QueueInv(env, s) && !step.InsertFound?
    ensures var t := Apply(env, s, step);
      t.queue.Keys == s.queue.Keys && Queued(t.log, t.queue, |t.log|) == Queued(s.log, s.queue, |s.log|)
  {
    hide StoreRows, Finishable, StatusAfter, NewestSince, IsBatch, EntryOf, RowFits;
    var t := Apply(env, s, step);
    assert t.queue.Keys == s.queue.Keys;
    QueuedSame(s.log, t.log, s.queue, t.queue, |s.log|);
    if step.Append? && !EntryOf(s.log, step.entry.signature) {
      assert step.entry.signature !in s.queue;
    }
  }

  predicate InsertsNothing(steps: seq<Step>) {
    forall k :: 0 <= k < |steps| ==> !steps[k].InsertFound?
  }

  lemma {:induction false} RunKeepsRows(env: Env, s: State, steps: seq<Step>)
    requires QueueInv(env, s) && InsertsNothing(steps)
    ensures var t := Run(env, s, steps);
      QueueInv(env, t) && Queued(t.log, t.queue, |t.log|) == Queued(s.log, s.queue, |s.log|)
    decreases |steps|
  {
    if steps != [] {
      hide QueueInv, Apply, Queued;
      var front := steps[..|steps| - 1];
      RunKeepsRows(env, s, front);
      StepKeepsQueueInv(env, Run(env, s, front), steps[|steps| - 1]);
      StepKeepsRows(env, Run(env, s, front), steps[|steps| - 1]);
    }
  }

  /** Claims come to an end: as long as no further rows are inserted, whatever workers do, crash or
      fail to do, the claims still to come are exactly what the rows' attempts lose, so at most the
      attempts that the queued rows have left now. */
  lemma {:induction false} ClaimsRunOut(env: Env, s: State, steps: seq<Step>)
    requires QueueInv(env, s) && InsertsNothing(steps)
    ensures var t := Run(env, s, steps);
      && t.claims - s.claims == AttemptsLeft(s.log, s.queue, |s.log|) - AttemptsLeft(t.log, t.queue, |t.log|)
      && t.claims - s.claims <= AttemptsLeft(s.log, s.queue, |s.log|)
  {
    hide Run, QueueFits, AttemptsLeft, SumAttempts, Queued;
    var t := Run(env, s, steps);
    RunKeepsRows(env, s, steps);
    LeftAndUsed(s.log, s.queue, |s.log|);
    LeftAndUsed(t.log, t.queue, |t.log|);
    LeftIsNatural(env.programId, t.log, t.queue, |t.log|);
  }
}
