// One discovery and one processing batch of the indexer, run by a single worker.
module IndexerService {
  import opened Wrappers
  import opened LogParser
  import opened PoolParser
  import opened PoolTables
  import opened IndexerQueue

  const DEFAULT_DISCOVERY_LIMIT := 100
  const MAX_DISCOVERY_LIMIT := 1000
  const DEFAULT_PROCESSING_LIMIT := 10
  const MAX_PROCESSING_LIMIT := 100

  // The default without a request; what is requested otherwise, up to the maximum.
  function ResolveLimit(limit: Option<nat>, defaultLimit: nat, maxLimit: nat): (r: nat)
    ensures limit.None? ==> r == defaultLimit
    ensures limit.Some? ==> r <= limit.value && r <= maxLimit && (r == limit.value || r == maxLimit)
  {
    match limit
    case None => defaultLimit
    case Some(n) => if n < maxLimit then n else maxLimit
  }

  lemma RequestLimits(n: nat)
    ensures ResolveLimit(None, DEFAULT_DISCOVERY_LIMIT, MAX_DISCOVERY_LIMIT) == 100
    ensures ResolveLimit(None, DEFAULT_PROCESSING_LIMIT, MAX_PROCESSING_LIMIT) == 10
    ensures ResolveLimit(Some(n), DEFAULT_DISCOVERY_LIMIT, MAX_DISCOVERY_LIMIT) == if n < 1000 then n else 1000
    ensures ResolveLimit(Some(n), DEFAULT_PROCESSING_LIMIT, MAX_PROCESSING_LIMIT) == if n < 100 then n else 100
  {
  }

  // ---- The chain ----

  // The confirmed signatures of the program, oldest first.
  type ChainLog = seq<ProgramSignature>

  predicate DistinctLog(log: ChainLog) {
    forall i, j :: 0 <= i < j < |log| ==> log[i].signature != log[j].signature
  }

  // How many entries stand at or before the signature.
  function After(log: ChainLog, until: Option<string>): (k: nat)
    ensures k <= |log|
    ensures k > 0 ==> until == Some(log[k - 1].signature)
    decreases |log|
  {
    if log == [] || until.None? then 0
    else if log[|log| - 1].signature == until.value then |log|
    else After(log[..|log| - 1], until)
  }

  // getSignaturesForAddress: the newest `limit` entries after `until`, newest first.
  function NewestSince(log: ChainLog, until: Option<string>, limit: nat): (found: seq<ProgramSignature>)
    ensures var added := |log| - After(log, until);
      |found| == (if added <= limit then added else limit)
    ensures forall i :: 0 <= i < |found| ==> found[i] == log[|log| - 1 - i]
  {
    var count := if |log| - After(log, until) <= limit then |log| - After(log, until) else limit;
    seq(count, i requires 0 <= i < count => log[|log| - 1 - i])
  }

  // ---- Discovery ----

  datatype DiscoverResult = DiscoverResult(discovered: nat, inserted: int, high: Option<Watermark>)

  function SignatureOf(state: Option<Watermark>): Option<string> {
    if state.Some? then Some(state.value.signature) else None
  }

  function NewestOr(found: seq<ProgramSignature>, state: Option<Watermark>): Option<Watermark> {
    if found == [] then state else Some(Watermark(found[0].signature, found[0].slot))
  }

  method DiscoverSignatures(repository: IndexerRepository, programId: string, log: ChainLog, requested: Option<nat>)
    returns (result: DiscoverResult)
    modifies repository
    ensures var state := old(repository.FindState(programId));
      var found := NewestSince(log, SignatureOf(state), ResolveLimit(requested, DEFAULT_DISCOVERY_LIMIT, MAX_DISCOVERY_LIMIT));
      && repository.queue == InsertNew(old(repository.queue), programId, found)
      && repository.FindState(programId) == NewestOr(found, state)
      && result == DiscoverResult(|found|, |repository.queue| - |old(repository.queue)|, NewestOr(found, state))
  {
    var state := repository.FindState(programId);
    var signatures := NewestSince(log, SignatureOf(state), ResolveLimit(requested, DEFAULT_DISCOVERY_LIMIT, MAX_DISCOVERY_LIMIT));
    var inserted := repository.InsertSignatures(programId, signatures);
    if signatures != [] {
      repository.UpsertState(programId, Watermark(signatures[0].signature, signatures[0].slot));
    }
    return DiscoverResult(|signatures|, inserted, NewestOr(signatures, state));
  }

  /** The watermark becomes the newest entry of the log, and stays when there is nothing new. */
  lemma WatermarkIsNewest(log: ChainLog, state: Option<Watermark>, limit: nat)
    requires limit > 0
    ensures NewestOr(NewestSince(log, SignatureOf(state), limit), state)
            == if After(log, SignatureOf(state)) == |log| then state
               else Some(Watermark(log[|log| - 1].signature, log[|log| - 1].slot))
  {
    hide After;
  }

  // Every entry at or before the watermark is queued.
  predicate Covered(queue: Queue, log: ChainLog, until: Option<string>) {
    forall i :: 0 <= i < After(log, until) ==> log[i].signature in queue
  }

  lemma {:induction false} AfterEntry(log: ChainLog, i: nat)
    requires DistinctLog(log) && i < |log|
    ensures After(log, Some(log[i].signature)) == i + 1
    decreases |log|
  {
    if i < |log| - 1 {
      AfterEntry(log[..|log| - 1], i);
    }
  }

  /** A discovery keeps the coverage exactly when every entry that its limit cuts off is queued
      already: the entries between the old watermark and the answer are never asked for again. */
  lemma DiscoveryCoversIff(queue: Queue, log: ChainLog, programId: string, state: Option<Watermark>, limit: nat)
    requires DistinctLog(log) && Covered(queue, log, SignatureOf(state))
    ensures var found := NewestSince(log, SignatureOf(state), limit);
      Covered(InsertNew(queue, programId, found), log, SignatureOf(NewestOr(found, state)))
      <==> limit == 0 || forall i :: After(log, SignatureOf(state)) <= i < |log| - limit ==> log[i].signature in queue
  {
    hide After, NewestSince, InsertNew;
    var found := NewestSince(log, SignatureOf(state), limit);
    var start := After(log, SignatureOf(state));
    if found != [] {
      AfterEntry(log, |log| - 1);
    }
    forall i | 0 <= i < |log|
      ensures log[i].signature in InsertNew(queue, programId, found) <==> log[i].signature in queue || |log| - |found| <= i
    {
      QueuedAfter(queue, log, programId, found, i);
    }
  }

  lemma QueuedAfter(queue: Queue, log: ChainLog, programId: string, found: seq<ProgramSignature>, i: nat)
    requires DistinctLog(log) && i < |log| && |found| <= |log| && forall k :: 0 <= k < |found| ==> found[k] == log[|log| - 1 - k]
    ensures log[i].signature in InsertNew(queue, programId, found) <==> log[i].signature in queue || |log| - |found| <= i
  {
    hide InsertNew;
    if |log| - |found| <= i {
      assert found[|log| - 1 - i] == log[i];
    }
  }

  /** So with at most `limit` new entries everything is covered, and with more of them, none of them
      queued, it is not. */
  lemma DiscoveryCoversWithinLimit(queue: Queue, log: ChainLog, programId: string, state: Option<Watermark>, limit: nat)
    requires DistinctLog(log) && Covered(queue, log, SignatureOf(state)) && limit > 0
    requires forall i :: After(log, SignatureOf(state)) <= i < |log| ==> log[i].signature !in queue
    ensures var found := NewestSince(log, SignatureOf(state), limit);
      Covered(InsertNew(queue, programId, found), log, SignatureOf(NewestOr(found, state)))
      <==> |log| - After(log, SignatureOf(state)) <= limit
  {
    hide After;
    DiscoveryCoversIff(queue, log, programId, state, limit);
    var start := After(log, SignatureOf(state));
    assert |log| - start > limit ==> log[start].signature !in queue;
  }

  // ---- Processing ----

  // The chain's answer for a signature: the request fails, there is no such transaction, or a
  // transaction.
  datatype ChainAnswer = Unavailable | NotFound | Found(transaction: ChainTransaction)

  datatype Source = Source(programId: string, getTransaction: string -> ChainAnswer, decode: string -> Decoded)

  datatype Outcome = Unusable | Skipped | Parsed(parsed: ParsedPoolTransaction)

  function OutcomeOf(source: Source, signature: string, blockTime: Option<int>): Outcome {
    match source.getTransaction(signature)
    case Unavailable => Unusable
    case NotFound => Unusable
    case Found(transaction) =>
      if transaction.failed then Skipped
      else match ParsePoolTransaction(source.decode, ParseInput(source.programId, signature, transaction, blockTime))
        case Failure(_) => Unusable
        case Success(parsed) => Parsed(parsed)
  }

  function ItemOutcome(source: Source, item: WorkItem): Outcome {
    OutcomeOf(source, item.signature, item.blockTime)
  }

  function StatusAfter(outcome: Outcome, attempts: nat): Status {
    if !outcome.Unusable? then Done else if attempts >= MAX_PROCESSING_ATTEMPTS then FailedTerminal else FailedTransient
  }

  datatype Tables = Tables(outputs: seq<OutputRow>, roots: seq<RootRow>, nullifiers: seq<NullifierRow>)

  function StoreOutcome(tables: Tables, outcome: Outcome): Tables {
    match outcome
    case Parsed(parsed) =>
      Tables(InsertAll(OutputsClash, tables.outputs, parsed.outputs),
             InsertAll(RootsClash, tables.roots, parsed.observedRoots),
             InsertAll(NullifiersClash, tables.nullifiers, parsed.spentNullifiers))
    case _ => tables
  }

  // The queue and the tables after the first n items.
  function Settled(source: Source, queue: Queue, items: seq<WorkItem>, n: nat): Queue
    requires n <= |items|
  {
    if n == 0 then queue
    else WithStatus(Settled(source, queue, items, n - 1), items[n - 1].signature,
                    StatusAfter(ItemOutcome(source, items[n - 1]), items[n - 1].attempts))
  }

  function TablesAfter(source: Source, tables: Tables, items: seq<WorkItem>, n: nat): Tables
    requires n <= |items|
  {
    if n == 0 then tables else StoreOutcome(TablesAfter(source, tables, items, n - 1), ItemOutcome(source, items[n - 1]))
  }

  // How many of the first n items end with a status, with or without rows to store.
  function CountStatus(source: Source, items: seq<WorkItem>, n: nat, status: Status, skipped: bool): nat
    requires n <= |items|
  {
    if n == 0 then 0
    else
      var outcome := ItemOutcome(source, items[n - 1]);
      CountStatus(source, items, n - 1, status, skipped)
      + if StatusAfter(outcome, items[n - 1].attempts) == status && outcome.Skipped? == skipped then 1 else 0
  }

  datatype ProcessResult = ProcessResult(
    claimed: nat, processed: nat, skipped: nat, failedTransient: nat, failedTerminal: nat,
    outputsInserted: int, rootsInserted: int, nullifiersInserted: int)

  function TablesOf(pool: PoolRepository): Tables
    reads pool
  {
    Tables(pool.outputs, pool.roots, pool.nullifiers)
  }

  // The three inserts of one transaction.
  method StoreParsed(pool: PoolRepository, parsed: ParsedPoolTransaction)
    returns (outputsInserted: nat, rootsInserted: nat, nullifiersInserted: nat)
    requires pool.Valid()
    modifies pool
    ensures pool.Valid()
    ensures TablesOf(pool) == StoreOutcome(old(TablesOf(pool)), Parsed(parsed))
    ensures outputsInserted == |pool.outputs| - |old(pool.outputs)|
    ensures rootsInserted == |pool.roots| - |old(pool.roots)|
    ensures nullifiersInserted == |pool.nullifiers| - |old(pool.nullifiers)|
  {
    hide InsertAll, UniqueKeys;
    outputsInserted := pool.InsertOutputs(parsed.outputs);
    rootsInserted := pool.InsertObservedRoots(parsed.observedRoots);
    nullifiersInserted := pool.InsertSpentNullifiers(parsed.spentNullifiers);
  }

  method MarkProcessingFailure(repository: IndexerRepository, item: WorkItem) returns (terminal: bool)
    modifies repository`queue
    ensures repository.queue == WithStatus(old(repository.queue), item.signature, StatusAfter(Unusable, item.attempts))
    ensures terminal <==> item.attempts >= MAX_PROCESSING_ATTEMPTS
  {
    if item.attempts >= MAX_PROCESSING_ATTEMPTS {
      repository.MarkFailedTerminal(item.signature);
      return true;
    }
    repository.MarkFailedTransient(item.signature);
    return false;
  }

  // The four counters after n items.
  ghost predicate Tallied(source: Source, items: seq<WorkItem>, n: nat, processed: nat, skipped: nat, failedTransient: nat, failedTerminal: nat)
    requires n <= |items|
  {
    && n == processed + skipped + failedTransient + failedTerminal
    && processed == CountStatus(source, items, n, Done, false)
    && skipped == CountStatus(source, items, n, Done, true)
    && failedTransient == CountStatus(source, items, n, FailedTransient, false)
    && failedTerminal == CountStatus(source, items, n, FailedTerminal, false)
  }

  lemma TallyOne(source: Source, items: seq<WorkItem>, n: nat, processed: nat, skipped: nat, failedTransient: nat, failedTerminal: nat)
    requires n < |items| && Tallied(source, items, n, processed, skipped, failedTransient, failedTerminal)
    ensures ItemOutcome(source, items[n]).Skipped? ==> Tallied(source, items, n + 1, processed, skipped + 1, failedTransient, failedTerminal)
    ensures ItemOutcome(source, items[n]).Parsed? ==> Tallied(source, items, n + 1, processed + 1, skipped, failedTransient, failedTerminal)
    ensures ItemOutcome(source, items[n]).Unusable? ==>
              if items[n].attempts >= MAX_PROCESSING_ATTEMPTS
              then Tallied(source, items, n + 1, processed, skipped, failedTransient, failedTerminal + 1)
              else Tallied(source, items, n + 1, processed, skipped, failedTransient + 1, failedTerminal)
  {
    hide ItemOutcome;
  }

  // ---- What the chain's answer means for an item ----

  predicate FoundGood(source: Source, item: WorkItem) {
    source.getTransaction(item.signature).Found? && !source.getTransaction(item.signature).transaction.failed
  }

  // What the parser makes of the transaction that was found.
  function ParseOf(source: Source, item: WorkItem): Result<ParsedPoolTransaction, ParseError>
    requires source.getTransaction(item.signature).Found?
  {
    ParsePoolTransaction(source.decode, ParseInput(source.programId, item.signature, source.getTransaction(item.signature).transaction, item.blockTime))
  }

  // A transaction that succeeded on the chain and that the parser can read.
  predicate IsReadable(source: Source, item: WorkItem) {
    FoundGood(source, item) && ParseOf(source, item).Success?
  }

  // A transaction that failed on the chain.
  predicate IsFailedOnChain(source: Source, item: WorkItem) {
    source.getTransaction(item.signature).Found? && source.getTransaction(item.signature).transaction.failed
  }

  // The request failed, nothing was found, or the parser cannot read what was.
  predicate IsTrouble(source: Source, item: WorkItem) {
    !source.getTransaction(item.signature).Found? || (FoundGood(source, item) && ParseOf(source, item).Failure?)
  }

  lemma OutcomeMeans(source: Source, item: WorkItem)
    ensures ItemOutcome(source, item).Parsed? <==> IsReadable(source, item)
    ensures IsReadable(source, item) ==> ItemOutcome(source, item) == Parsed(ParseOf(source, item).value)
    ensures ItemOutcome(source, item).Skipped? <==> IsFailedOnChain(source, item)
    ensures ItemOutcome(source, item).Unusable? <==> IsTrouble(source, item)
  {
  }

  ghost predicate RowsTaken(tables: Tables, parsed: ParsedPoolTransaction) {
    && AllTaken(OutputsClash, tables.outputs, parsed.outputs)
    && AllTaken(RootsClash, tables.roots, parsed.observedRoots)
    && AllTaken(NullifiersClash, tables.nullifiers, parsed.spentNullifiers)
  }

  // A row that is stored now was stored before, or is a row of some readable transaction.
  ghost predicate NothingElse(source: Source, before: Tables, after: Tables, items: seq<WorkItem>, n: nat)
    requires n <= |items|
  {
    && (forall row :: row in after.outputs ==> (row in before.outputs
          || exists i :: 0 <= i < n && IsReadable(source, items[i]) && row in ParseOf(source, items[i]).value.outputs))
    && (forall row :: row in after.roots ==> (row in before.roots
          || exists i :: 0 <= i < n && IsReadable(source, items[i]) && row in ParseOf(source, items[i]).value.observedRoots))
    && (forall row :: row in after.nullifiers ==> (row in before.nullifiers
          || exists i :: 0 <= i < n && IsReadable(source, items[i]) && row in ParseOf(source, items[i]).value.spentNullifiers))
  }

  lemma StoreTakes(tables: Tables, parsed: ParsedPoolTransaction)
    ensures RowsTaken(StoreOutcome(tables, Parsed(parsed)), parsed)
  {
    hide InsertAll, AllTaken, OutputsClash, RootsClash, NullifiersClash;
    ClashesAreReflexive();
    InsertLands(OutputsClash, tables.outputs, parsed.outputs);
    InsertLands(RootsClash, tables.roots, parsed.observedRoots);
    InsertLands(NullifiersClash, tables.nullifiers, parsed.spentNullifiers);
  }

  lemma StoreKeepsTaken(tables: Tables, outcome: Outcome, parsed: ParsedPoolTransaction)
    requires RowsTaken(tables, parsed)
    ensures RowsTaken(StoreOutcome(tables, outcome), parsed)
  {
    hide InsertAll, AllTaken, OutputsClash, RootsClash, NullifiersClash;
    var after := StoreOutcome(tables, outcome);
    AllTakenGrows(OutputsClash, tables.outputs, after.outputs, parsed.outputs);
    AllTakenGrows(RootsClash, tables.roots, after.roots, parsed.observedRoots);
    AllTakenGrows(NullifiersClash, tables.nullifiers, after.nullifiers, parsed.spentNullifiers);
  }

  lemma {:induction false} ReadableIsTaken(source: Source, tables: Tables, items: seq<WorkItem>, n: nat, k: nat)
    requires k < n <= |items| && IsReadable(source, items[k])
    ensures RowsTaken(TablesAfter(source, tables, items, n), ParseOf(source, items[k]).value)
  {
    hide RowsTaken, StoreOutcome, IsReadable, ParseOf, ItemOutcome;
    OutcomeMeans(source, items[k]);
    if k == n - 1 {
      StoreTakes(TablesAfter(source, tables, items, k), ParseOf(source, items[k]).value);
    } else {
      ReadableIsTaken(source, tables, items, n - 1, k);
      StoreKeepsTaken(TablesAfter(source, tables, items, n - 1), ItemOutcome(source, items[n - 1]), ParseOf(source, items[k]).value);
    }
  }

  lemma InsertedFrom<T(!new)>(clash: (T, T) -> bool, table: seq<T>, rows: seq<T>)
    ensures forall row :: row in InsertAll(clash, table, rows) ==> row in table || row in rows
  {
    forall row | row in InsertAll(clash, table, rows)
      ensures row in table || row in rows
    {
      OnlyGivenRows(clash, table, rows, row);
    }
  }

  lemma StoredFrom(tables: Tables, parsed: ParsedPoolTransaction)
    ensures var after := StoreOutcome(tables, Parsed(parsed));
      && (forall row :: row in after.outputs ==> row in tables.outputs || row in parsed.outputs)
      && (forall row :: row in after.roots ==> row in tables.roots || row in parsed.observedRoots)
      && (forall row :: row in after.nullifiers ==> row in tables.nullifiers || row in parsed.spentNullifiers)
  {
    hide InsertAll;
    InsertedFrom(OutputsClash, tables.outputs, parsed.outputs);
    InsertedFrom(RootsClash, tables.roots, parsed.observedRoots);
    InsertedFrom(NullifiersClash, tables.nullifiers, parsed.spentNullifiers);
  }

  lemma {:induction false} OnlyReadableIsStored(source: Source, tables: Tables, items: seq<WorkItem>, n: nat)
    requires n <= |items|
    ensures NothingElse(source, tables, TablesAfter(source, tables, items, n), items, n)
  {
    if n > 0 {
      hide StoreOutcome, IsReadable, ParseOf, ItemOutcome;
      OnlyReadableIsStored(source, tables, items, n - 1);
      OutcomeMeans(source, items[n - 1]);
      var before := TablesAfter(source, tables, items, n - 1);
      if IsReadable(source, items[n - 1]) {
        StoredFrom(before, ParseOf(source, items[n - 1]).value);
      } else {
        StoresNothing(before, ItemOutcome(source, items[n - 1]));
      }
    }
  }

  lemma StoresNothing(tables: Tables, outcome: Outcome)
    requires !outcome.Parsed?
    ensures StoreOutcome(tables, outcome) == tables
  {
  }

  // The members below n of a property of positions.
  function Those(p: nat -> bool, n: nat): set<nat> {
    set i: nat | i < n && p(i)
  }

  lemma OneMore(p: nat -> bool, n: nat)
    ensures |Those(p, n + 1)| == |Those(p, n)| + if p(n) then 1 else 0
  {
    assert Those(p, n + 1) == if p(n) then Those(p, n) + {n} else Those(p, n);
  }

  // Which items are read, skipped, in trouble for the fifth time, or for an earlier time.
  function Readable(source: Source, items: seq<WorkItem>): nat -> bool {
    (i: nat) => i < |items| && IsReadable(source, items[i])
  }

  function FailedOnChain(source: Source, items: seq<WorkItem>): nat -> bool {
    (i: nat) => i < |items| && IsFailedOnChain(source, items[i])
  }

  function Troubled(source: Source, items: seq<WorkItem>, last: bool): nat -> bool {
    (i: nat) => i < |items| && IsTrouble(source, items[i]) && (items[i].attempts >= 5) == last
  }

  lemma {:induction false} CountsMean(source: Source, items: seq<WorkItem>, n: nat)
    requires n <= |items|
    ensures CountStatus(source, items, n, Done, false) == |Those(Readable(source, items), n)|
    ensures CountStatus(source, items, n, Done, true) == |Those(FailedOnChain(source, items), n)|
    ensures CountStatus(source, items, n, FailedTransient, false) == |Those(Troubled(source, items, false), n)|
    ensures CountStatus(source, items, n, FailedTerminal, false) == |Those(Troubled(source, items, true), n)|
  {
    hide ItemOutcome, IsReadable, IsFailedOnChain, IsTrouble;
    if n == 0 {
      assert forall p: nat -> bool :: Those(p, 0) == {};
    } else {
      hide Those;
      CountsMean(source, items, n - 1);
      OutcomeMeans(source, items[n - 1]);
      OneMore(Readable(source, items), n - 1);
      OneMore(FailedOnChain(source, items), n - 1);
      OneMore(Troubled(source, items, false), n - 1);
      OneMore(Troubled(source, items, true), n - 1);
    }
  }

  /** What a returning batch has done, item by item, in terms of the chain's answers: a transaction
      that the parser can read is done and all its rows are stored; one that failed on the chain is
      done and brings none; anything else is tried again until the fifth attempt. */
  ghost predicate BatchDone(source: Source, items: seq<WorkItem>, before: Tables, queue: Queue, after: Tables, result: ProcessResult) {
    && (forall k :: 0 <= k < |items| ==> items[k].signature in queue)
    && (forall k :: 0 <= k < |items| && IsReadable(source, items[k]) ==>
          queue[items[k].signature].status == Done && RowsTaken(after, ParseOf(source, items[k]).value))
    && (forall k :: 0 <= k < |items| && IsFailedOnChain(source, items[k]) ==> queue[items[k].signature].status == Done)
    && (forall k :: 0 <= k < |items| && IsTrouble(source, items[k]) ==>
          queue[items[k].signature].status == if items[k].attempts >= 5 then FailedTerminal else FailedTransient)
    && NothingElse(source, before, after, items, |items|)
    && result.processed == |Those(Readable(source, items), |items|)|
    && result.skipped == |Those(FailedOnChain(source, items), |items|)|
    && result.failedTransient == |Those(Troubled(source, items, false), |items|)|
    && result.failedTerminal == |Those(Troubled(source, items, true), |items|)|
  }

  lemma SettledMeans(source: Source, queue: Queue, items: seq<WorkItem>, k: nat)
    requires k < |items| && (forall i :: 0 <= i < |items| ==> items[i].signature in queue)
    requires forall i, j :: 0 <= i < j < |items| ==> items[i].signature != items[j].signature
    ensures items[k].signature in Settled(source, queue, items, |items|)
    ensures var status := Settled(source, queue, items, |items|)[items[k].signature].status;
      && (!IsTrouble(source, items[k]) ==> status == Done)
      && (IsTrouble(source, items[k]) ==> status == if items[k].attempts >= 5 then FailedTerminal else FailedTransient)
  {
    hide ItemOutcome, IsTrouble, IsReadable, IsFailedOnChain, Settled;
    OutcomeMeans(source, items[k]);
    EveryClaimSettles(source, queue, items, |items|, k);
  }

  lemma BatchMeans(source: Source, queue: Queue, tables: Tables, items: seq<WorkItem>, result: ProcessResult)
    requires (forall i :: 0 <= i < |items| ==> items[i].signature in queue)
    requires forall i, j :: 0 <= i < j < |items| ==> items[i].signature != items[j].signature
    requires result.processed == CountStatus(source, items, |items|, Done, false)
    requires result.skipped == CountStatus(source, items, |items|, Done, true)
    requires result.failedTransient == CountStatus(source, items, |items|, FailedTransient, false)
    requires result.failedTerminal == CountStatus(source, items, |items|, FailedTerminal, false)
    ensures BatchDone(source, items, tables, Settled(source, queue, items, |items|), TablesAfter(source, tables, items, |items|), result)
  {
    hide ParseOf, Settled, TablesAfter, CountStatus, NothingElse, RowsTaken, Readable, FailedOnChain, Troubled, Those;
    CountsMean(source, items, |items|);
    OnlyReadableIsStored(source, tables, items, |items|);
    forall k | 0 <= k < |items|
      ensures items[k].signature in Settled(source, queue, items, |items|)
      ensures var status := Settled(source, queue, items, |items|)[items[k].signature].status;
        && (!IsTrouble(source, items[k]) ==> status == Done)
        && (IsTrouble(source, items[k]) ==> status == if items[k].attempts >= 5 then FailedTerminal else FailedTransient)
    {
      SettledMeans(source, queue, items, k);
    }
    forall k | 0 <= k < |items| && IsReadable(source, items[k])
      ensures RowsTaken(TablesAfter(source, tables, items, |items|), ParseOf(source, items[k]).value)
    {
      ReadableIsTaken(source, tables, items, |items|, k);
    }
  }

  /** The batch ends with every claimed row settled by its own outcome, the rows of the parsed
      transactions stored, and counters that add up to the number of claims. */
  method ProcessSignatures(repository: IndexerRepository, pool: PoolRepository, source: Source, collate: Collation,
                           requested: Option<nat>, locked: set<string>)
    returns (result: ProcessResult, ghost batch: set<string>, items: seq<WorkItem>)
    requires pool.Valid()
    modifies repository`queue, pool
    ensures pool.Valid()
    ensures IsBatch(collate, old(repository.queue), source.programId,
                    ResolveLimit(requested, DEFAULT_PROCESSING_LIMIT, MAX_PROCESSING_LIMIT), locked, batch)
    ensures |items| == |batch| && forall i :: 0 <= i < |items| ==>
              items[i].signature in batch && items[i] == ItemOf(Claimed(old(repository.queue), batch), items[i].signature)
    ensures forall i, j :: 0 <= i < j < |items| ==> items[i].signature != items[j].signature
    ensures repository.queue == Settled(source, Claimed(old(repository.queue), batch), items, |items|)
    ensures TablesOf(pool) == TablesAfter(source, old(TablesOf(pool)), items, |items|)
    ensures result.claimed == |batch| == result.processed + result.skipped + result.failedTransient + result.failedTerminal
    ensures result.processed == CountStatus(source, items, |items|, Done, false)
    ensures result.skipped == CountStatus(source, items, |items|, Done, true)
    ensures result.failedTransient == CountStatus(source, items, |items|, FailedTransient, false)
    ensures result.failedTerminal == CountStatus(source, items, |items|, FailedTerminal, false)
    ensures result.outputsInserted == |pool.outputs| - |old(pool.outputs)|
    ensures result.rootsInserted == |pool.roots| - |old(pool.roots)|
    ensures result.nullifiersInserted == |pool.nullifiers| - |old(pool.nullifiers)|
    ensures BatchDone(source, items, old(TablesOf(pool)), repository.queue, TablesOf(pool), result)
  {
    var limit := ResolveLimit(requested, DEFAULT_PROCESSING_LIMIT, MAX_PROCESSING_LIMIT);
    hide *;
    ghost var tables := TablesOf(pool);
    items, batch := repository.ClaimPendingSignatures(collate, source.programId, limit, locked);
    ghost var queue := repository.queue;
    var processed: nat, skipped: nat, failedTransient: nat, failedTerminal: nat := 0, 0, 0, 0;
    var outputsInserted, rootsInserted, nullifiersInserted := 0, 0, 0;
    NothingSettled(source, queue, tables, items);
    for n := 0 to |items|
      invariant pool.Valid()
      invariant repository.queue == Settled(source, queue, items, n)
      invariant TablesOf(pool) == TablesAfter(source, tables, items, n)
      invariant Tallied(source, items, n, processed, skipped, failedTransient, failedTerminal)
      invariant outputsInserted == |pool.outputs| - |old(pool.outputs)|
      invariant rootsInserted == |pool.roots| - |old(pool.roots)|
      invariant nullifiersInserted == |pool.nullifiers| - |old(pool.nullifiers)|
    {
      var item := items[n];
      OneSettled(source, queue, tables, items, n);
      TallyOne(source, items, n, processed, skipped, failedTransient, failedTerminal);
      match ItemOutcome(source, item)
      case Skipped =>
        repository.MarkDone(item.signature);
        skipped := skipped + 1;
      case Parsed(parsed) =>
        var outputs, roots, nullifiers := StoreParsed(pool, parsed);
        repository.MarkDone(item.signature);
        processed := processed + 1;
        outputsInserted := outputsInserted + outputs;
        rootsInserted := rootsInserted + roots;
        nullifiersInserted := nullifiersInserted + nullifiers;
      case Unusable =>
        var terminal := MarkProcessingFailure(repository, item);
        if terminal {
          failedTerminal := failedTerminal + 1;
        } else {
          failedTransient := failedTransient + 1;
        }
    }
    TalliedCounts(source, items, processed, skipped, failedTransient, failedTerminal);
    result := ProcessResult(|items|, processed, skipped, failedTransient, failedTerminal,
                            outputsInserted, rootsInserted, nullifiersInserted);
    BatchMeans(source, queue, tables, items, result);
  }

  lemma TalliedCounts(source: Source, items: seq<WorkItem>, processed: nat, skipped: nat, failedTransient: nat, failedTerminal: nat)
    requires Tallied(source, items, |items|, processed, skipped, failedTransient, failedTerminal)
    ensures |items| == processed + skipped + failedTransient + failedTerminal
    ensures processed == CountStatus(source, items, |items|, Done, false) && skipped == CountStatus(source, items, |items|, Done, true)
    ensures failedTransient == CountStatus(source, items, |items|, FailedTransient, false)
    ensures failedTerminal == CountStatus(source, items, |items|, FailedTerminal, false)
  {
  }

  lemma NothingSettled(source: Source, queue: Queue, tables: Tables, items: seq<WorkItem>)
    ensures Settled(source, queue, items, 0) == queue && TablesAfter(source, tables, items, 0) == tables
    ensures Tallied(source, items, 0, 0, 0, 0, 0)
  {
  }

  // What one more item changes.
  lemma OneSettled(source: Source, queue: Queue, tables: Tables, items: seq<WorkItem>, n: nat)
    requires n < |items|
    ensures var outcome, before := ItemOutcome(source, items[n]), TablesAfter(source, tables, items, n);
      TablesAfter(source, tables, items, n + 1) == if outcome.Parsed? then StoreOutcome(before, outcome) else before
    ensures Settled(source, queue, items, n + 1)
            == WithStatus(Settled(source, queue, items, n), items[n].signature,
                          if ItemOutcome(source, items[n]).Unusable? then StatusAfter(Unusable, items[n].attempts) else Done)
  {
  }

  /** After a batch that returns, no row it claimed is left in processing: each one is done, waits
      for another attempt, or has used up its five. */
  lemma {:induction false} EveryClaimSettles(source: Source, queue: Queue, items: seq<WorkItem>, n: nat, k: nat)
    requires k < n <= |items| && (forall i :: 0 <= i < |items| ==> items[i].signature in queue)
    requires forall i, j :: 0 <= i < j < |items| ==> items[i].signature != items[j].signature
    ensures Settled(source, queue, items, n).Keys == queue.Keys
    ensures Settled(source, queue, items, n)[items[k].signature]
            == queue[items[k].signature].(status := StatusAfter(ItemOutcome(source, items[k]), items[k].attempts))
    decreases n
  {
    hide StatusAfter, ItemOutcome;
    if k < n - 1 {
      EveryClaimSettles(source, queue, items, n - 1, k);
    } else {
      OthersUntouched(source, queue, items, n - 1, items[k].signature);
    }
  }

  lemma {:induction false} OthersUntouched(source: Source, queue: Queue, items: seq<WorkItem>, n: nat, s: string)
    requires n <= |items| && s in queue && (forall i :: 0 <= i < |items| ==> items[i].signature in queue)
    requires forall i :: 0 <= i < n ==> items[i].signature != s
    ensures Settled(source, queue, items, n).Keys == queue.Keys && Settled(source, queue, items, n)[s] == queue[s]
    decreases n
  {
    hide StatusAfter, ItemOutcome;
    if n > 0 {
      OthersUntouched(source, queue, items, n - 1, s);
    }
  }
}
