// At-least-once processing with exactly-once effect.
module IndexerEffects {
  import opened Wrappers
  import opened Sorting
  import opened PoolParser
  import opened PoolTables
  import opened IndexerQueue
  import opened IndexerService
  import opened IndexerProtocol
  import opened MerkleService

  // ---- Rows in the tables ----

  // The rows of a parsed transaction are in the target table, or kept out by rows with their keys.
  ghost predicate Landed(env: Env, tables: Tables, signature: string, target: Target) {
    var outcome := env.outcome(signature);
    outcome.Parsed? ==>
      match target
      case OutputsTable => AllTaken(OutputsClash, tables.outputs, outcome.parsed.outputs)
      case RootsTable => AllTaken(RootsClash, tables.roots, outcome.parsed.observedRoots)
      case NullifiersTable => AllTaken(NullifiersClash, tables.nullifiers, outcome.parsed.spentNullifiers)
  }

  predicate Extends(tables: Tables, larger: Tables) {
    tables.outputs <= larger.outputs && tables.roots <= larger.roots && tables.nullifiers <= larger.nullifiers
  }

  lemma LandedGrows(env: Env, tables: Tables, larger: Tables, signature: string, target: Target)
    requires Landed(env, tables, signature, target) && Extends(tables, larger)
    ensures Landed(env, larger, signature, target)
  {
    hide AllTaken, OutputsClash, RootsClash, NullifiersClash;
    var outcome := env.outcome(signature);
    if outcome.Parsed? {
      match target
      case OutputsTable => AllTakenGrows(OutputsClash, tables.outputs, larger.outputs, outcome.parsed.outputs);
      case RootsTable => AllTakenGrows(RootsClash, tables.roots, larger.roots, outcome.parsed.observedRoots);
      case NullifiersTable => AllTakenGrows(NullifiersClash, tables.nullifiers, larger.nullifiers, outcome.parsed.spentNullifiers);
    }
  }

  lemma StoreLands(env: Env, tables: Tables, signature: string, target: Target)
    requires env.outcome(signature).Parsed?
    ensures var larger := StoreRows(tables, env.outcome(signature).parsed, target);
      Extends(tables, larger) && Landed(env, larger, signature, target)
  {
    hide AllTaken, InsertAll;
    ClashesAreReflexive();
    var parsed := env.outcome(signature).parsed;
    InsertLands(OutputsClash, tables.outputs, parsed.outputs);
    InsertLands(RootsClash, tables.roots, parsed.observedRoots);
    InsertLands(NullifiersClash, tables.nullifiers, parsed.spentNullifiers);
  }

  /** An insert may land after its worker gave the row up: the rows are then in the table although
      the row is not done. */
  lemma LateInsertLands(env: Env, s: State, worker: nat, signature: string, target: Target)
    requires Holds(s, worker, signature) && signature in s.queue && signature in s.begun && env.outcome(signature).Parsed?
    ensures var t := Apply(env, Apply(env, s, GiveUp(worker, signature)), LatePut(signature, target));
      && Landed(env, t.tables, signature, target)
      && !Holds(t, worker, signature)
      && signature in t.queue && t.queue[signature].status in {FailedTransient, FailedTerminal}
  {
    hide Landed, StoreRows;
    StoreLands(env, s.tables, signature, target);
  }

  // ---- The invariant ----

  ghost predicate FlagsTrue(env: Env, tables: Tables, workers: map<nat, map<string, Claim>>) {
    forall w, x, target :: w in workers && x in workers[w] && Flagged(workers[w][x], target) ==> Landed(env, tables, x, target)
  }

  ghost predicate DoneLanded(env: Env, tables: Tables, queue: Queue) {
    && (forall x :: x in queue && queue[x].status == Done ==> !env.outcome(x).Unusable?)
    && (forall x, target :: x in queue && queue[x].status == Done ==> Landed(env, tables, x, target))
  }

  // Every stored row comes from a transaction that was begun.
  ghost predicate FromBegun(env: Env, tables: Tables, begun: set<string>) {
    && (forall row :: row in tables.outputs ==> exists x :: x in begun && env.outcome(x).Parsed? && row in env.outcome(x).parsed.outputs)
    && (forall row :: row in tables.roots ==> exists x :: x in begun && env.outcome(x).Parsed? && row in env.outcome(x).parsed.observedRoots)
    && (forall row :: row in tables.nullifiers ==> exists x :: x in begun && env.outcome(x).Parsed? && row in env.outcome(x).parsed.spentNullifiers)
  }

  predicate ClaimsQueued(queue: Queue, workers: map<nat, map<string, Claim>>, begun: set<string>) {
    && (forall w, x :: w in workers && x in workers[w] ==> x in queue)
    && (forall x :: x in begun ==> x in queue)
  }

  predicate KeysUnique(tables: Tables) {
    && UniqueKeys(OutputsClash, tables.outputs)
    && UniqueKeys(RootsClash, tables.roots)
    && UniqueKeys(NullifiersClash, tables.nullifiers)
  }

  ghost predicate EffectInv(env: Env, s: State) {
    && FlagsTrue(env, s.tables, s.workers)
    && DoneLanded(env, s.tables, s.queue)
    && FromBegun(env, s.tables, s.begun)
    && ClaimsQueued(s.queue, s.workers, s.begun)
    && KeysUnique(s.tables)
  }

  lemma StoreKeepsInv(env: Env, s: State, signature: string, target: Target)
    requires EffectInv(env, s) && signature in s.begun && env.outcome(signature).Parsed?
    ensures EffectInv(env, s.(tables := StoreRows(s.tables, env.outcome(signature).parsed, target)))
  {
    hide Landed, InsertAll, UniqueKeys, OutputsClash, RootsClash, NullifiersClash, Extends, FromBegun, StoreRows;
    var parsed := env.outcome(signature).parsed;
    var larger := StoreRows(s.tables, parsed, target);
    StoreLands(env, s.tables, signature, target);
    forall x, t | Landed(env, s.tables, x, t)
      ensures Landed(env, larger, x, t)
    {
      LandedGrows(env, s.tables, larger, x, t);
    }
    StoredIsFromBegun(env, s.tables, s.begun, signature, target);
    StoreKeepsKeys(s.tables, parsed, target);
  }

  lemma StoreKeepsKeys(tables: Tables, parsed: ParsedPoolTransaction, target: Target)
    requires KeysUnique(tables)
    ensures KeysUnique(StoreRows(tables, parsed, target))
  {
    hide UniqueKeys, InsertAll;
    InsertKeepsUniqueKeys(OutputsClash, tables.outputs, parsed.outputs);
    InsertKeepsUniqueKeys(RootsClash, tables.roots, parsed.observedRoots);
    InsertKeepsUniqueKeys(NullifiersClash, tables.nullifiers, parsed.spentNullifiers);
  }

  lemma StoredIsFromBegun(env: Env, tables: Tables, begun: set<string>, signature: string, target: Target)
    requires FromBegun(env, tables, begun) && signature in begun && env.outcome(signature).Parsed?
    ensures FromBegun(env, StoreRows(tables, env.outcome(signature).parsed, target), begun)
  {
    hide InsertAll, OutputsClash, RootsClash, NullifiersClash;
    var parsed := env.outcome(signature).parsed;
    match target
    case OutputsTable =>
      forall row | row in InsertAll(OutputsClash, tables.outputs, parsed.outputs)
        ensures row in tables.outputs || row in parsed.outputs
      {
        OnlyGivenRows(OutputsClash, tables.outputs, parsed.outputs, row);
      }
    case RootsTable =>
      forall row | row in InsertAll(RootsClash, tables.roots, parsed.observedRoots)
        ensures row in tables.roots || row in parsed.observedRoots
      {
        OnlyGivenRows(RootsClash, tables.roots, parsed.observedRoots, row);
      }
    case NullifiersTable =>
      forall row | row in InsertAll(NullifiersClash, tables.nullifiers, parsed.spentNullifiers)
        ensures row in tables.nullifiers || row in parsed.spentNullifiers
      {
        OnlyGivenRows(NullifiersClash, tables.nullifiers, parsed.spentNullifiers, row);
      }
  }

  lemma PutKeepsInv(env: Env, s: State, worker: nat, signature: string, target: Target)
    requires EffectInv(env, s)
    ensures EffectInv(env, Apply(env, s, Put(worker, signature, target)))
  {
    hide Landed, FromBegun, KeysUnique, DoneLanded, StoreRows;
    if Holds(s, worker, signature) && signature in s.begun && env.outcome(signature).Parsed? {
      StoreKeepsInv(env, s, signature, target);
      StoreLands(env, s.tables, signature, target);
    }
  }

  lemma ReleaseKeepsInv(env: Env, s: State, worker: nat, signature: string, status: Status)
    requires EffectInv(env, s) && Holds(s, worker, signature)
    requires status == Done ==> Finishable(env, signature, s.workers[worker][signature])
    ensures EffectInv(env, Release(s, worker, signature, status))
  {
    hide FromBegun, KeysUnique;
    if status == Done {
      forall target
        ensures Landed(env, s.tables, signature, target)
      {
        assert env.outcome(signature).Parsed? ==> Flagged(s.workers[worker][signature], target);
      }
    }
    assert !env.outcome(signature).Unusable? || status != Done;
    ReleaseParts(env, s, worker, signature, status);
  }

  lemma ReleaseParts(env: Env, s: State, worker: nat, signature: string, status: Status)
    requires EffectInv(env, s) && Holds(s, worker, signature)
    requires status == Done ==> !env.outcome(signature).Unusable? && forall target :: Landed(env, s.tables, signature, target)
    ensures EffectInv(env, Release(s, worker, signature, status))
  {
    hide Landed, FromBegun, KeysUnique, Flagged;
    var t := Release(s, worker, signature, status);
    FewerClaims(env, s.tables, s.workers, worker, signature);
    forall x, target | x in t.queue && t.queue[x].status == Done
      ensures !env.outcome(x).Unusable? && Landed(env, t.tables, x, target)
    {
      if x != signature {
        assert s.queue[x].status == Done;
      }
    }
    assert t.queue.Keys == s.queue.Keys;
  }

  lemma FewerClaims(env: Env, tables: Tables, workers: map<nat, map<string, Claim>>, worker: nat, signature: string)
    requires FlagsTrue(env, tables, workers) && worker in workers
    ensures FlagsTrue(env, tables, workers[worker := workers[worker] - {signature}])
  {
    hide Landed, Flagged;
    var fewer := workers[worker := workers[worker] - {signature}];
    forall w, x, target | w in fewer && x in fewer[w] && Flagged(fewer[w][x], target)
      ensures Landed(env, tables, x, target)
    {
      assert w in workers && x in workers[w] && fewer[w][x] == workers[w][x];
    }
  }

  lemma NewClaimsUnflagged(env: Env, tables: Tables, queue: Queue, workers: map<nat, map<string, Claim>>, worker: nat, batch: set<string>)
    requires FlagsTrue(env, tables, workers) && forall x :: x in batch ==> x in queue
    ensures FlagsTrue(env, tables, workers[worker := NewClaims(queue, batch)])
  {
    hide Landed;
    var more := workers[worker := NewClaims(queue, batch)];
    assert forall x, target: Target :: x in more[worker] ==> !Flagged(more[worker][x], target);
    forall w, x, target | w in more && x in more[w] && Flagged(more[w][x], target)
      ensures Landed(env, tables, x, target)
    {
      assert w != worker;
    }
  }

  lemma QueueStepKeepsInv(env: Env, s: State, step: Step)
    requires EffectInv(env, s) && (step.InsertFound? || step.ClaimBatch?)
    ensures EffectInv(env, Apply(env, s, step))
  {
    hide Landed, FromBegun, KeysUnique, InsertNew, NotAfter, FlagsTrue, Flagged;
    if step.ClaimBatch? && IsBatch(env.collate, s.queue, env.programId, step.limit, step.locked, step.batch) {
      assert forall x :: x in step.batch ==> Eligible(s.queue, env.programId, x);
      NewClaimsUnflagged(env, s.tables, s.queue, s.workers, step.worker, step.batch);
      DoneStaysDone(env, s.tables, s.queue, step.batch);
    }
  }

  lemma DoneStaysDone(env: Env, tables: Tables, queue: Queue, batch: set<string>)
    requires DoneLanded(env, tables, queue)
    ensures DoneLanded(env, tables, Claimed(queue, batch))
  {
    hide Landed;
    forall x, target | x in Claimed(queue, batch) && Claimed(queue, batch)[x].status == Done
      ensures !env.outcome(x).Unusable? && Landed(env, tables, x, target)
    {
      assert queue[x].status == Done;
    }
  }

  lemma StepKeepsEffectInv(env: Env, s: State, step: Step)
    requires EffectInv(env, s)
    ensures EffectInv(env, Apply(env, s, step))
  {
    hide Landed, KeysUnique, InsertNew, IsBatch, StoreRows, EntryOf, StatusAfter, Finishable, NewestSince, Flagged;
    match step
    case InsertFound(id) => QueueStepKeepsInv(env, s, step);
    case ClaimBatch(worker, limit, locked, batch) => QueueStepKeepsInv(env, s, step);
    case Put(worker, signature, target) => PutKeepsInv(env, s, worker, signature, target);
    case LatePut(signature, target) =>
      if signature in s.begun && env.outcome(signature).Parsed? {
        StoreKeepsInv(env, s, signature, target);
      }
    case Finish(worker, signature) =>
      if Holds(s, worker, signature) && Finishable(env, signature, s.workers[worker][signature]) {
        ReleaseKeepsInv(env, s, worker, signature, Done);
      }
    case GiveUp(worker, signature) =>
      if Holds(s, worker, signature) {
        GivingUpIsNotDone(s.workers[worker][signature].attempts);
        ReleaseKeepsInv(env, s, worker, signature, StatusAfter(Unusable, s.workers[worker][signature].attempts));
      }
    case _ =>
  }

  lemma GivingUpIsNotDone(attempts: nat)
    ensures StatusAfter(Unusable, attempts) != Done
  {
  }

  lemma StartHoldsEffect(env: Env)
    ensures EffectInv(env, Start())
  {
  }

  lemma {:induction false} EveryRunKeepsEffectInv(env: Env, steps: seq<Step>)
    ensures EffectInv(env, Run(env, Start(), steps))
    decreases |steps|
  {
    hide EffectInv, Apply;
    if steps == [] {
      StartHoldsEffect(env);
    } else {
      EveryRunKeepsEffectInv(env, steps[..|steps| - 1]);
      StepKeepsEffectInv(env, Run(env, Start(), steps[..|steps| - 1]), steps[|steps| - 1]);
    }
  }

  /** In every run, whatever fails in between: a row is marked done only when all rows of its
      transaction are stored, and storing them once more would change nothing. */
  lemma {:induction false} DoneIsStored(env: Env, steps: seq<Step>, signature: string, target: Target)
    requires var s := Run(env, Start(), steps);
      signature in s.queue && s.queue[signature].status == Done
    ensures var s := Run(env, Start(), steps);
      && !env.outcome(signature).Unusable?
      && Landed(env, s.tables, signature, target)
      && (env.outcome(signature).Parsed? ==> StoreRows(s.tables, env.outcome(signature).parsed, target) == s.tables)
  {
    hide Apply, Run, KeysUnique, FromBegun, InsertAll;
    EveryRunKeepsEffectInv(env, steps);
    var s := Run(env, Start(), steps);
    assert Landed(env, s.tables, signature, target);
    if env.outcome(signature).Parsed? {
      var parsed := env.outcome(signature).parsed;
      match target
      case OutputsTable => AllTakenInsertNothing(OutputsClash, s.tables.outputs, parsed.outputs);
      case RootsTable => AllTakenInsertNothing(RootsClash, s.tables.roots, parsed.observedRoots);
      case NullifiersTable => AllTakenInsertNothing(NullifiersClash, s.tables.nullifiers, parsed.spentNullifiers);
    }
  }

  // ---- When everything is done ----

  predicate AllDone(queue: Queue) {
    forall x :: x in queue ==> queue[x].status == Done
  }

  // The outputs of the transactions with these signatures.
  ghost predicate ChainOutput(env: Env, signatures: set<string>, row: OutputRow) {
    exists x :: x in signatures && env.outcome(x).Parsed? && row in env.outcome(x).parsed.outputs
  }

  // On the chain no two different outputs share a key.
  ghost predicate CoherentChain(env: Env, signatures: set<string>) {
    forall a, b :: ChainOutput(env, signatures, a) && ChainOutput(env, signatures, b) && OutputsClash(a, b) ==> a == b
  }

  /** In every run on a coherent chain, finished or not: each output of a transaction that is marked
      done is itself in the table. */
  lemma {:induction false} DoneOutputsAreStored(env: Env, steps: seq<Step>, signature: string, row: OutputRow)
    requires var s := Run(env, Start(), steps);
      && signature in s.queue && s.queue[signature].status == Done && CoherentChain(env, s.queue.Keys)
      && env.outcome(signature).Parsed? && row in env.outcome(signature).parsed.outputs
    ensures row in Run(env, Start(), steps).tables.outputs
  {
    hide Apply, Run, KeysUnique, FlagsTrue, OutputsClash;
    EveryRunKeepsEffectInv(env, steps);
    var s := Run(env, Start(), steps);
    assert Landed(env, s.tables, signature, OutputsTable);
    var i :| 0 <= i < |s.tables.outputs| && OutputsClash(s.tables.outputs[i], row);
    var other := s.tables.outputs[i];
    assert other in s.tables.outputs;
    var x :| x in s.begun && env.outcome(x).Parsed? && other in env.outcome(x).parsed.outputs;
    assert x in s.queue.Keys && signature in s.queue.Keys;
    assert ChainOutput(env, s.queue.Keys, other) && ChainOutput(env, s.queue.Keys, row);
  }

  // The outcomes are those of the source, for the block time each signature was discovered with.
  predicate OutcomesOf(env: Env, source: Source, blockTimes: string -> Option<int>, signatures: set<string>) {
    forall x :: x in signatures ==> env.outcome(x) == OutcomeOf(source, x, blockTimes(x))
  }

  lemma OutputsOfSource(env: Env, source: Source, blockTimes: string -> Option<int>, signatures: set<string>, x: string)
    requires OutcomesOf(env, source, blockTimes, signatures) && x in signatures && env.outcome(x).Parsed?
    ensures var rows := env.outcome(x).parsed.outputs;
      && (forall i :: 0 <= i < |rows| ==> rows[i].programId == source.programId && rows[i].txSignature == x)
      && (forall i, j :: 0 <= i < j < |rows| ==> rows[i].logIndex < rows[j].logIndex)
  {
    hide ParsePoolTransaction;
    OutputKeys(source.decode, ParseInput(source.programId, x, source.getTransaction(x).transaction, blockTimes(x)));
  }

  /** What the parser makes of transactions never clashes on signature and log position, so a chain
      is coherent exactly when no two of its outputs have the same index. */
  lemma CoherentIffDistinctIndexes(env: Env, source: Source, blockTimes: string -> Option<int>, signatures: set<string>)
    requires OutcomesOf(env, source, blockTimes, signatures)
    ensures CoherentChain(env, signatures) <==>
            forall a, b :: ChainOutput(env, signatures, a) && ChainOutput(env, signatures, b) && a.outputIndex == b.outputIndex ==> a == b
  {
    hide OutcomesOf;
    forall a, b | ChainOutput(env, signatures, a) && ChainOutput(env, signatures, b)
      ensures OutputsClash(a, b) <==> a == b || a.outputIndex == b.outputIndex
    {
      var x :| x in signatures && env.outcome(x).Parsed? && a in env.outcome(x).parsed.outputs;
      var y :| y in signatures && env.outcome(y).Parsed? && b in env.outcome(y).parsed.outputs;
      OutputsOfSource(env, source, blockTimes, signatures, x);
      OutputsOfSource(env, source, blockTimes, signatures, y);
      var i :| 0 <= i < |env.outcome(x).parsed.outputs| && env.outcome(x).parsed.outputs[i] == a;
      var j :| 0 <= j < |env.outcome(y).parsed.outputs| && env.outcome(y).parsed.outputs[j] == b;
    }
  }

  /** So for the outputs that the parser makes of a chain, which rows are stored is independent of
      the order in which transactions are processed if and only if no output index occurs twice. */
  lemma OrderFreeIffDistinctIndexes(env: Env, source: Source, blockTimes: string -> Option<int>, signatures: set<string>)
    requires OutcomesOf(env, source, blockTimes, signatures)
    ensures OrderFree(OutputsClash, iset row: OutputRow | ChainOutput(env, signatures, row)) <==>
            forall a, b :: ChainOutput(env, signatures, a) && ChainOutput(env, signatures, b) && a.outputIndex == b.outputIndex ==> a == b
  {
    hide OutputsClash, OutcomesOf, OrderFree, ChainOutput;
    var chain := iset row: OutputRow | ChainOutput(env, signatures, row);
    ClashesAreReflexive();
    ClashesAreSymmetric();
    OrderFreeIffCoherent(OutputsClash, chain);
    CoherentIffDistinctIndexes(env, source, blockTimes, signatures);
    assert Coherent(OutputsClash, chain) <==> CoherentChain(env, signatures);
  }

  /** Once every queued signature is done, the outputs table holds exactly the outputs of their
      transactions: nothing is lost, nothing is stored twice, and nothing else is there. */
  lemma {:induction false} AllDoneOutputs(env: Env, steps: seq<Step>)
    requires AllDone(Run(env, Start(), steps).queue) && CoherentChain(env, Run(env, Start(), steps).queue.Keys)
    ensures var s := Run(env, Start(), steps);
      && UniqueKeys(OutputsClash, s.tables.outputs)
      && forall row :: row in s.tables.outputs <==> ChainOutput(env, s.queue.Keys, row)
  {
    hide Apply, Run, InsertAll, OutputsClash, UniqueKeys;
    EveryRunKeepsEffectInv(env, steps);
    var s := Run(env, Start(), steps);
    forall row | row in s.tables.outputs
      ensures ChainOutput(env, s.queue.Keys, row)
    {
      var x :| x in s.begun && env.outcome(x).Parsed? && row in env.outcome(x).parsed.outputs;
      assert x in s.queue.Keys;
    }
    forall row | ChainOutput(env, s.queue.Keys, row)
      ensures row in s.tables.outputs
    {
      var x :| x in s.queue.Keys && env.outcome(x).Parsed? && row in env.outcome(x).parsed.outputs;
      assert Landed(env, s.tables, x, OutputsTable);
      var i :| 0 <= i < |s.tables.outputs| && OutputsClash(s.tables.outputs[i], row);
      assert s.tables.outputs[i] in s.tables.outputs;
      assert ChainOutput(env, s.queue.Keys, s.tables.outputs[i]);
    }
  }

  // The keys of the other two tables.
  ghost predicate ChainRoot(env: Env, signatures: set<string>, root: string) {
    exists x, row :: x in signatures && env.outcome(x).Parsed? && row in env.outcome(x).parsed.observedRoots
                     && row.programId == env.programId && row.root == root
  }

  ghost predicate ChainNullifier(env: Env, signatures: set<string>, nullifier: string) {
    exists x, row :: x in signatures && env.outcome(x).Parsed? && row in env.outcome(x).parsed.spentNullifiers
                     && row.programId == env.programId && row.nullifier == nullifier
  }

  /** And the nullifiers that count as spent, and the observed roots, are exactly those of the
      transactions. */
  lemma {:induction false} AllDoneKeys(env: Env, steps: seq<Step>, key: string)
    requires AllDone(Run(env, Start(), steps).queue)
    ensures var s := Run(env, Start(), steps);
      (exists row :: row in s.tables.nullifiers && row.programId == env.programId && row.nullifier == key)
      <==> ChainNullifier(env, s.queue.Keys, key)
    ensures var s := Run(env, Start(), steps);
      (exists row :: row in s.tables.roots && row.programId == env.programId && row.root == key)
      <==> ChainRoot(env, s.queue.Keys, key)
  {
    hide Apply, Run, InsertAll, UniqueKeys;
    EveryRunKeepsEffectInv(env, steps);
    var s := Run(env, Start(), steps);
    NullifierKeys(env, s, key);
    RootKeys(env, s, key);
  }

  lemma NullifierKeys(env: Env, s: State, key: string)
    requires EffectInv(env, s) && AllDone(s.queue)
    ensures (exists row :: row in s.tables.nullifiers && row.programId == env.programId && row.nullifier == key)
            <==> ChainNullifier(env, s.queue.Keys, key)
  {
    if exists row :: row in s.tables.nullifiers && row.programId == env.programId && row.nullifier == key {
      var row :| row in s.tables.nullifiers && row.programId == env.programId && row.nullifier == key;
      var x :| x in s.begun && env.outcome(x).Parsed? && row in env.outcome(x).parsed.spentNullifiers;
      assert x in s.queue.Keys;
    }
    if ChainNullifier(env, s.queue.Keys, key) {
      var x, row :| x in s.queue.Keys && env.outcome(x).Parsed? && row in env.outcome(x).parsed.spentNullifiers
                    && row.programId == env.programId && row.nullifier == key;
      assert Landed(env, s.tables, x, NullifiersTable);
      var i :| 0 <= i < |s.tables.nullifiers| && NullifiersClash(s.tables.nullifiers[i], row);
      assert s.tables.nullifiers[i] in s.tables.nullifiers;
    }
  }

  lemma RootKeys(env: Env, s: State, key: string)
    requires EffectInv(env, s) && AllDone(s.queue)
    ensures (exists row :: row in s.tables.roots && row.programId == env.programId && row.root == key)
            <==> ChainRoot(env, s.queue.Keys, key)
  {
    if exists row :: row in s.tables.roots && row.programId == env.programId && row.root == key {
      var row :| row in s.tables.roots && row.programId == env.programId && row.root == key;
      var x :| x in s.begun && env.outcome(x).Parsed? && row in env.outcome(x).parsed.observedRoots;
      assert x in s.queue.Keys;
    }
    if ChainRoot(env, s.queue.Keys, key) {
      var x, row :| x in s.queue.Keys && env.outcome(x).Parsed? && row in env.outcome(x).parsed.observedRoots
                    && row.programId == env.programId && row.root == key;
      assert Landed(env, s.tables, x, RootsTable);
      var i :| 0 <= i < |s.tables.roots| && RootsClash(s.tables.roots[i], row);
      assert s.tables.roots[i] in s.tables.roots;
    }
  }

  // ---- Order does not matter ----

  /** Two runs over the same signatures, in any order and with any failures, end with the same tree
      rows once both have everything done. */
  lemma {:induction false} RunsConverge(env: Env, steps: seq<Step>, other: seq<Step>)
    requires AllDone(Run(env, Start(), steps).queue) && AllDone(Run(env, Start(), other).queue)
    requires Run(env, Start(), steps).queue.Keys == Run(env, Start(), other).queue.Keys
    requires CoherentChain(env, Run(env, Start(), steps).queue.Keys)
    ensures ListOutputsForTree(Run(env, Start(), steps).tables.outputs, env.programId)
            == ListOutputsForTree(Run(env, Start(), other).tables.outputs, env.programId)
  {
    hide Apply, Run, OutputsClash, UniqueKeys, ListOutputsForTree, ChainOutput, CoherentChain, AllDone;
    var s, t := Run(env, Start(), steps).tables.outputs, Run(env, Start(), other).tables.outputs;
    AllDoneOutputs(env, steps);
    AllDoneOutputs(env, other);
    TreeRowsAreExact(s, env.programId);
    TreeRowsAreExact(t, env.programId);
    AscendingIsUnique(OutputIndexOf, ListOutputsForTree(s, env.programId), ListOutputsForTree(t, env.programId));
  }

  ghost predicate ChainIndex(env: Env, signatures: set<string>, k: nat) {
    exists row :: ChainOutput(env, signatures, row) && row.programId == env.programId && row.outputIndex == k
  }

  // Without a gap: below every output of the chain there are all the others.
  ghost predicate DenseChain(env: Env, signatures: set<string>) {
    forall k: nat :: ChainIndex(env, signatures, k + 1) ==> ChainIndex(env, signatures, k)
  }

  lemma {:induction false} DenseBelow(env: Env, signatures: set<string>, k: nat, m: nat)
    requires DenseChain(env, signatures) && ChainIndex(env, signatures, m) && k <= m
    ensures ChainIndex(env, signatures, k)
    decreases m - k
  {
    hide ChainIndex;
    if k < m {
      DenseBelow(env, signatures, k + 1, m);
    }
  }

  /** When the transactions number their outputs without a gap, the contiguity check of the Merkle
      service passes. */
  lemma {:induction false} DenseChainIsContiguous(env: Env, steps: seq<Step>)
    requires AllDone(Run(env, Start(), steps).queue)
    requires CoherentChain(env, Run(env, Start(), steps).queue.Keys) && DenseChain(env, Run(env, Start(), steps).queue.Keys)
    ensures ContiguousFrom(ListOutputsForTree(Run(env, Start(), steps).tables.outputs, env.programId), 0)
  {
    hide Apply, Run, OutputsClash, UniqueKeys, ListOutputsForTree, OutputCount, ChainOutput, CoherentChain, DenseChain, AllDone, ContiguousFrom;
    var s := Run(env, Start(), steps);
    var rows := ListOutputsForTree(s.tables.outputs, env.programId);
    AllDoneOutputs(env, steps);
    TreeRowsAreExact(s.tables.outputs, env.programId);
    ContiguousIffDense(s.tables.outputs, env.programId);
    forall k: nat | k < |rows|
      ensures HasOutput(s.tables.outputs, env.programId, k)
    {
      KeyAtLeastPosition(OutputIndexOf, rows, k);
      assert rows[k] in s.tables.outputs;
      assert ChainIndex(env, s.queue.Keys, rows[k].outputIndex);
      DenseBelow(env, s.queue.Keys, k, rows[k].outputIndex);
      var row :| ChainOutput(env, s.queue.Keys, row) && row.programId == env.programId && row.outputIndex == k;
      assert row in s.tables.outputs;
    }
  }
}
