// What a crash leaves behind, and what becomes of all other rows.
module IndexerStranding {
  import opened Wrappers
  import opened IndexerQueue
  import opened IndexerService
  import opened IndexerProtocol
  import opened IndexerInvariants
  import opened IndexerRefinement

  // In processing, and in nobody's hands.
  ghost predicate Stranded(s: State, x: string) {
    x in s.queue && s.queue[x].status == Processing && forall w :: !Holds(s, w, x)
  }

  lemma CrashStrands(env: Env, s: State, worker: nat, x: string)
    requires QueueInv(env, s) && Holds(s, worker, x)
    ensures Stranded(Apply(env, s, Crash(worker)), x)
  {
    hide SumAttempts, QueueFits;
  }

  lemma StepKeepsStranded(env: Env, s: State, step: Step, x: string)
    requires Stranded(s, x)
    ensures Stranded(Apply(env, s, step), x)
  {
    hide InsertNew, StoreRows, EntryOf, StatusAfter, Finishable, NewestSince, IsBatch;
    var t := Apply(env, s, step);
    if step.ClaimBatch? && IsBatch(env.collate, s.queue, env.programId, step.limit, step.locked, step.batch) {
      NotInBatch(env, s.queue, step.limit, step.locked, step.batch, x);
      assert x !in NewClaims(s.queue, step.batch) && Claimed(s.queue, step.batch)[x] == s.queue[x];
    }
    forall w
      ensures !Holds(t, w, x)
    {
      assert !Holds(s, w, x);
    }
  }

  lemma NotInBatch(env: Env, queue: Queue, limit: nat, locked: set<string>, batch: set<string>, x: string)
    requires IsBatch(env.collate, queue, env.programId, limit, locked, batch) && x in queue && queue[x].status == Processing
    ensures x !in batch && forall y :: y in batch ==> y in queue
  {
    hide NotAfter;
    assert x in batch ==> Eligible(queue, env.programId, x);
  }

  /** Nothing ever takes up a stranded row again, so after a crash in the middle of a batch the
      queue is never done. */
  lemma {:induction false} StrandedForever(env: Env, s: State, steps: seq<Step>, x: string)
    requires Stranded(s, x)
    ensures Stranded(Run(env, s, steps), x) && Run(env, s, steps).queue[x].status == Processing
    decreases |steps|
  {
    hide Apply;
    if steps != [] {
      StrandedForever(env, s, steps[..|steps| - 1], x);
      StepKeepsStranded(env, Run(env, s, steps[..|steps| - 1]), steps[|steps| - 1], x);
    }
  }

  // ---- Nothing else strands a row ----

  lemma OnlyCrashStrands(env: Env, s: State, step: Step, x: string)
    requires QueueInv(env, s) && !Stranded(s, x) && Stranded(Apply(env, s, step), x)
    ensures step.Crash? && Holds(s, step.worker, x)
  {
    hide StoreRows, EntryOf, Finishable, NewestSince, IsBatch, SumAttempts, DistinctLog, DiscoveriesInLog;
    var t := Apply(env, s, step);
    if x in s.queue && s.queue[x].status == Processing {
      var w :| Holds(s, w, x);
      assert !Holds(t, w, x);
      ReleasedOrCrashed(env, s, step, x, w);
    } else {
      ProcessingIsClaimed(env, s, step, x);
    }
  }

  // A row gets into processing only by being claimed.
  lemma ProcessingIsClaimed(env: Env, s: State, step: Step, x: string)
    requires ClaimsHeld(s.queue, s.workers)
    requires !(x in s.queue && s.queue[x].status == Processing)
    requires x in Apply(env, s, step).queue && Apply(env, s, step).queue[x].status == Processing
    ensures step.ClaimBatch? && Holds(Apply(env, s, step), step.worker, x)
  {
    hide StoreRows, EntryOf, Finishable, NewestSince, IsBatch;
  }

  // A worker loses a row only by settling it or by crashing.
  lemma ReleasedOrCrashed(env: Env, s: State, step: Step, x: string, w: nat)
    requires Holds(s, w, x) && !Holds(Apply(env, s, step), w, x)
    requires x in s.queue
    ensures (step.Crash? && step.worker == w) || !(x in Apply(env, s, step).queue && Apply(env, s, step).queue[x].status == Processing)
  {
    hide StoreRows, EntryOf, Finishable, NewestSince, IsBatch, InsertNew;
  }

  // The k-th step is the crash of a worker that holds the row.
  ghost predicate CrashedHolding(env: Env, steps: seq<Step>, k: nat, x: string)
    requires k < |steps|
  {
    steps[k].Crash? && Holds(Run(env, Start(), steps[..k]), steps[k].worker, x)
  }

  lemma {:induction false} StrandedWasHeld(env: Env, steps: seq<Step>, x: string)
    requires Stranded(Run(env, Start(), steps), x)
    ensures exists k :: 0 <= k < |steps| && CrashedHolding(env, steps, k, x)
    decreases |steps|
  {
    hide Apply, QueueInv;
    if steps != [] {
      var n := |steps| - 1;
      var front := steps[..n];
      if Stranded(Run(env, Start(), front), x) {
        StrandedWasHeld(env, front, x);
        var k :| 0 <= k < |front| && CrashedHolding(env, front, k, x);
        assert steps[..k] == front[..k] && steps[k] == front[k];
        assert CrashedHolding(env, steps, k, x);
      } else {
        EveryRunKeepsQueueInv(env, front);
        OnlyCrashStrands(env, Run(env, Start(), front), steps[n], x);
        assert CrashedHolding(env, steps, n, x);
      }
    }
  }

  /** In every run, a row is stranded if and only if some worker crashed while it held the row. */
  lemma {:induction false} StrandedIffCrashed(env: Env, steps: seq<Step>, x: string)
    ensures Stranded(Run(env, Start(), steps), x) <==> exists k :: 0 <= k < |steps| && CrashedHolding(env, steps, k, x)
  {
    hide Apply, QueueInv, Run, Stranded;
    if Stranded(Run(env, Start(), steps), x) {
      StrandedWasHeld(env, steps, x);
    }
    if k :| 0 <= k < |steps| && CrashedHolding(env, steps, k, x) {
      var before := Run(env, Start(), steps[..k]);
      EveryRunKeepsQueueInv(env, steps[..k]);
      CrashStrands(env, before, steps[k].worker, x);
      RunInParts(env, Start(), steps[..k], [steps[k]]);
      RunOne(env, before, steps[k]);
      RunInParts(env, Start(), steps[..k] + [steps[k]], steps[k + 1..]);
      assert steps == steps[..k] + [steps[k]] + steps[k + 1..];
      StrandedForever(env, Apply(env, before, steps[k]), steps[k + 1..], x);
    }
  }

  // ---- Every other row can be settled ----

  predicate SettledIn(t: State, x: string) {
    x in t.queue && (t.queue[x].status == Done || t.queue[x].status == FailedTerminal)
  }

  ghost predicate CanSettle(env: Env, s: State, x: string) {
    exists steps: seq<Step> :: SettledIn(Run(env, s, steps), x)
  }

  lemma SettlesAfter(env: Env, s: State, first: seq<Step>, x: string)
    requires CanSettle(env, Run(env, s, first), x)
    ensures CanSettle(env, s, x)
  {
    hide Run, SettledIn;
    var rest: seq<Step> :| SettledIn(Run(env, Run(env, s, first), rest), x);
    RunInParts(env, s, first, rest);
    assert SettledIn(Run(env, s, first + rest), x);
  }

  predicate Above(w: nat, taken: set<nat>) {
    forall v :: v in taken ==> v < w
  }

  lemma {:induction false} FreshWorker(taken: set<nat>)
    ensures exists w: nat :: Above(w, taken)
    decreases |taken|
  {
    if taken == {} {
      assert Above(0, taken);
    } else {
      var v :| v in taken;
      FreshWorker(taken - {v});
      var w: nat :| Above(w, taken - {v});
      assert forall u :: u in taken ==> u == v || u in taken - {v};
      assert Above(if v < w then w else v + 1, taken);
    }
  }

  lemma SettledNow(env: Env, s: State, x: string)
    requires SettledIn(s, x)
    ensures CanSettle(env, s, x)
  {
    assert SettledIn(Run(env, s, []), x);
  }

  lemma {:induction false} HeldSettles(env: Env, s: State, w: nat, x: string)
    requires QueueInv(env, s) && Holds(s, w, x) && x in s.queue
    ensures CanSettle(env, s, x)
    decreases MAX_PROCESSING_ATTEMPTS - s.queue[x].attempts, 1
  {
    hide Run, CanSettle, SumAttempts, EntryOf, DistinctLog, DiscoveriesInLog, OneClaimant;
    if env.outcome(x).Unusable? {
      var giveUp := GiveUp(w, x);
      RunOne(env, s, giveUp);
      StepKeepsQueueInv(env, s, giveUp);
      var t := Apply(env, s, giveUp);
      if s.queue[x].attempts >= MAX_PROCESSING_ATTEMPTS {
        SettledNow(env, t, x);
      } else {
        EligibleSettles(env, t, x);
      }
      SettlesAfter(env, s, [giveUp], x);
    } else {
      ItemIsARun(env, s, w, x);
      SettledNow(env, Run(env, s, ItemSteps(env, w, x)), x);
      SettlesAfter(env, s, ItemSteps(env, w, x), x);
    }
  }

  lemma {:induction false} EligibleSettles(env: Env, s: State, x: string)
    requires QueueInv(env, s) && Eligible(s.queue, env.programId, x)
    ensures CanSettle(env, s, x)
    decreases MAX_PROCESSING_ATTEMPTS - s.queue[x].attempts, 0
  {
    hide Run, CanSettle, SumAttempts, EntryOf, DistinctLog, DiscoveriesInLog, OneClaimant, ClaimsHeld;
    FreshWorker(s.workers.Keys);
    var w: nat :| Above(w, s.workers.Keys);
    assert w !in s.workers.Keys && w !in s.workers;
    var locked := Free(s.queue, env.programId, {}) - {x};
    assert Free(s.queue, env.programId, locked) == {x};
    var claim := ClaimBatch(w, 1, locked, {x});
    RunOne(env, s, claim);
    StepKeepsQueueInv(env, s, claim);
    HeldSettles(env, Apply(env, s, claim), w, x);
    SettlesAfter(env, s, [claim], x);
  }

  /** From every state that a run reaches: a queued row can still be settled, as done or as failed
      five times, if and only if it is not stranded. */
  lemma {:induction false} SettlesIffNotStranded(env: Env, steps: seq<Step>, x: string)
    requires x in Run(env, Start(), steps).queue
    ensures CanSettle(env, Run(env, Start(), steps), x) <==> !Stranded(Run(env, Start(), steps), x)
  {
    hide Run, SumAttempts, EntryOf, DistinctLog, DiscoveriesInLog, OneClaimant, ClaimsHeld;
    EveryRunKeepsQueueInv(env, steps);
    var s := Run(env, Start(), steps);
    if Stranded(s, x) {
      forall rest: seq<Step>
        ensures !SettledIn(Run(env, s, rest), x)
      {
        StrandedForever(env, s, rest, x);
      }
    } else if s.queue[x].status == Processing {
      var w :| Holds(s, w, x);
      HeldSettles(env, s, w, x);
    } else if s.queue[x].status == Pending || s.queue[x].status == FailedTransient {
      EligibleSettles(env, s, x);
    } else {
      SettledNow(env, s, x);
    }
  }

  /** So when no row is stranded, none is held and none can be claimed, every row is done or has
      failed five times. */
  lemma {:induction false} SettledQueue(env: Env, steps: seq<Step>, x: string)
    requires var s := Run(env, Start(), steps);
      && x in s.queue && !Stranded(s, x)
      && (forall w :: !Holds(s, w, x)) && !Eligible(s.queue, env.programId, x)
    ensures var row := Run(env, Start(), steps).queue[x];
      row.status == Done || (row.status == FailedTerminal && row.attempts == MAX_PROCESSING_ATTEMPTS)
  {
    hide Run, Apply, SumAttempts, EntryOf;
    EveryRunKeepsQueueInv(env, steps);
  }
}
