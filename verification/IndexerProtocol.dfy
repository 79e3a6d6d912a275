// Many discoveries and many workers on one queue, with failures and crashes between any two
// statements.
module IndexerProtocol {
  import opened Wrappers
  import opened PoolParser
  import opened PoolTables
  import opened IndexerQueue
  import opened IndexerService

  // What processing a signature comes to.  It depends on the finalized transaction and on the block
  // time that was discovered with it, and both are fixed.
  datatype Env = Env(programId: string, outcome: string -> Outcome, collate: Collation)

  // A discovery between two of its statements.
  datatype Discovery =
    | Reading(until: Option<string>)               // it has read the watermark
    | Fetched(found: seq<ProgramSignature>)        // it has the chain's answer
    | Inserted(found: seq<ProgramSignature>)       // it has inserted the answer

  // A row a worker holds, and which of its three inserts have returned.
  datatype Claim = Claim(attempts: nat, outputsIn: bool, rootsIn: bool, nullifiersIn: bool)

  datatype Target = OutputsTable | RootsTable | NullifiersTable

  datatype State = State(
    log: ChainLog, queue: Queue, watermark: Option<string>, discoveries: map<nat, Discovery>,
    workers: map<nat, map<string, Claim>>, begun: set<string>, tables: Tables, claims: nat)

  datatype Step =
    | Append(entry: ProgramSignature)                // the chain confirms a transaction
    | ReadWatermark(id: nat)
    | FetchNew(id: nat, limit: nat)
    | InsertFound(id: nat)
    | StoreWatermark(id: nat)
    | DropDiscovery(id: nat)                         // it crashes
    | ClaimBatch(worker: nat, limit: nat, locked: set<string>, batch: set<string>)
    | Begin(worker: nat, signature: string)          // the transaction is fetched and parsed
    | Put(worker: nat, signature: string, target: Target)
    | LatePut(signature: string, target: Target)     // a statement that lands after its worker gave up
    | Finish(worker: nat, signature: string)
    | GiveUp(worker: nat, signature: string)         // any error on the way
    | Crash(worker: nat)

  predicate Holds(s: State, worker: nat, signature: string) {
    worker in s.workers && signature in s.workers[worker]
  }

  function WithClaim(s: State, worker: nat, signature: string, claim: Claim): State
    requires worker in s.workers
  {
    s.(workers := s.workers[worker := s.workers[worker][signature := claim]])
  }

  function Release(s: State, worker: nat, signature: string, status: Status): State
    requires worker in s.workers
  {
    s.(queue := WithStatus(s.queue, signature, status), workers := s.workers[worker := s.workers[worker] - {signature}])
  }

  function StoreRows(tables: Tables, parsed: ParsedPoolTransaction, target: Target): Tables {
    match target
    case OutputsTable => tables.(outputs := InsertAll(OutputsClash, tables.outputs, parsed.outputs))
    case RootsTable => tables.(roots := InsertAll(RootsClash, tables.roots, parsed.observedRoots))
    case NullifiersTable => tables.(nullifiers := InsertAll(NullifiersClash, tables.nullifiers, parsed.spentNullifiers))
  }

  function Flag(claim: Claim, target: Target): Claim {
    match target
    case OutputsTable => claim.(outputsIn := true)
    case RootsTable => claim.(rootsIn := true)
    case NullifiersTable => claim.(nullifiersIn := true)
  }

  predicate Flagged(claim: Claim, target: Target) {
    match target
    case OutputsTable => claim.outputsIn
    case RootsTable => claim.rootsIn
    case NullifiersTable => claim.nullifiersIn
  }

  predicate Finishable(env: Env, signature: string, claim: Claim) {
    env.outcome(signature).Skipped? || (env.outcome(signature).Parsed? && claim.outputsIn && claim.rootsIn && claim.nullifiersIn)
  }

  function EntryOf(log: ChainLog, signature: string): bool {
    exists i :: 0 <= i < |log| && log[i].signature == signature
  }

  // The claim every row of a batch starts with.
  function NewClaims(queue: Queue, batch: set<string>): map<string, Claim>
    requires forall s :: s in batch ==> s in queue
  {
    map s | s in batch :: Claim(queue[s].attempts + 1, false, false, false)
  }

  // A step that cannot be taken changes nothing.
  function Apply(env: Env, s: State, step: Step): State {
    match step
    case Append(entry) => if EntryOf(s.log, entry.signature) then s else s.(log := s.log + [entry])
    case ReadWatermark(id) => if id in s.discoveries then s else s.(discoveries := s.discoveries[id := Reading(s.watermark)])
    case FetchNew(id, limit) =>
      if id in s.discoveries && s.discoveries[id].Reading?
      then s.(discoveries := s.discoveries[id := Fetched(NewestSince(s.log, s.discoveries[id].until, limit))]) else s
    case InsertFound(id) =>
      if id in s.discoveries && s.discoveries[id].Fetched?
      then s.(queue := InsertNew(s.queue, env.programId, s.discoveries[id].found),
              discoveries := s.discoveries[id := Inserted(s.discoveries[id].found)]) else s
    case StoreWatermark(id) =>
      if id in s.discoveries && s.discoveries[id].Inserted?
      then s.(watermark := if s.discoveries[id].found == [] then s.watermark else Some(s.discoveries[id].found[0].signature),
              discoveries := s.discoveries - {id}) else s
    case DropDiscovery(id) => s.(discoveries := s.discoveries - {id})
    case ClaimBatch(worker, limit, locked, batch) =>
      if (worker in s.workers && s.workers[worker] != map[]) || !IsBatch(env.collate, s.queue, env.programId, limit, locked, batch) then s
      else s.(queue := Claimed(s.queue, batch), workers := s.workers[worker := NewClaims(s.queue, batch)], claims := s.claims + |batch|)
    case Begin(worker, signature) =>
      if Holds(s, worker, signature) && env.outcome(signature).Parsed? then s.(begun := s.begun + {signature}) else s
    case Put(worker, signature, target) =>
      if Holds(s, worker, signature) && signature in s.begun && env.outcome(signature).Parsed?
      then WithClaim(s.(tables := StoreRows(s.tables, env.outcome(signature).parsed, target)), worker, signature,
                     Flag(s.workers[worker][signature], target)) else s
    case LatePut(signature, target) =>
      if signature in s.begun && env.outcome(signature).Parsed?
      then s.(tables := StoreRows(s.tables, env.outcome(signature).parsed, target)) else s
    case Finish(worker, signature) =>
      if Holds(s, worker, signature) && Finishable(env, signature, s.workers[worker][signature])
      then Release(s, worker, signature, Done) else s
    case GiveUp(worker, signature) =>
      if Holds(s, worker, signature)
      then Release(s, worker, signature, StatusAfter(Unusable, s.workers[worker][signature].attempts)) else s
    case Crash(worker) => s.(workers := s.workers - {worker})
  }

  function Run(env: Env, s: State, steps: seq<Step>): State
    decreases |steps|
  {
    if steps == [] then s else Apply(env, Run(env, s, steps[..|steps| - 1]), steps[|steps| - 1])
  }

  function Start(): State {
    State([], map[], None, map[], map[], {}, Tables([], [], []), 0)
  }
}
