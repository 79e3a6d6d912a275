// From a confirmed transaction to the rows stored for it.
module PoolParser {
  import opened Wrappers
  import opened Numerals
  import opened FieldCodec
  import opened LogParser
  import opened TransactLayout

  // `data` is the base58-decoded instruction data, or None when it does not decode.
  datatype ChainInstruction = ChainInstruction(programIdIndex: int, data: Option<seq<byte>>)

  datatype ChainTransaction = ChainTransaction(
    slot: nat, blockTime: Option<int>, failed: bool,
    accountKeys: seq<string>, loadedWritable: seq<string>, loadedReadonly: seq<string>,
    instructions: seq<ChainInstruction>, logMessages: Option<seq<string>>)

  // Rows of the three tables.  Times are milliseconds.
  datatype OutputRow = OutputRow(
    programId: string, outputIndex: nat, commitment: string, encryptedOutput: string,
    txSignature: string, instructionIndex: nat, logIndex: nat, slot: nat, blockTime: Option<int>)
  datatype RootRow = RootRow(programId: string, root: string, txSignature: string, instructionIndex: nat, slot: nat, observedAt: int)
  datatype NullifierRow = NullifierRow(
    programId: string, nullifier: string, nullifierIndex: nat, txSignature: string, instructionIndex: nat, slot: nat, spentAt: int)

  datatype ParsedPoolTransaction = ParsedPoolTransaction(
    outputs: seq<OutputRow>, observedRoots: seq<RootRow>, spentNullifiers: seq<NullifierRow>)

  datatype ParseError = BadInstruction(error: ReadError) | BadEvent(logIndex: nat)

  datatype ParseInput = ParseInput(
    programId: string, signature: string, transaction: ChainTransaction, fallbackBlockTime: Option<int>)

  function BlockTime(input: ParseInput): Option<int> {
    if input.transaction.blockTime.Some? then Some(input.transaction.blockTime.value * 1000) else input.fallbackBlockTime
  }

  function ObservedAt(input: ParseInput): int {
    if BlockTime(input).Some? then BlockTime(input).value else 0
  }

  function AllAccountKeys(transaction: ChainTransaction): seq<string> {
    transaction.accountKeys + transaction.loadedWritable + transaction.loadedReadonly
  }

  predicate IsNativeTransact(instruction: ChainInstruction, accountKeys: seq<string>, programId: string) {
    && 0 <= instruction.programIdIndex < |accountKeys|
    && accountKeys[instruction.programIdIndex] == programId
    && instruction.data.Some?
    && |instruction.data.value| >= 8
    && instruction.data.value[..8] == TransactDiscriminator()
  }

  // The native transact instructions from position i on, or the first reading error among them.
  function NativeInstructions(instructions: seq<ChainInstruction>, i: nat, accountKeys: seq<string>, programId: string)
    : (r: Result<seq<ParsedTransact>, ReadError>)
    requires i <= |instructions|
    ensures r.Success? ==> forall k :: 0 <= k < |r.value| ==> |r.value[k].inputNullifiers| == 2
    decreases |instructions| - i
  {
    if i == |instructions| then Success([])
    else if !IsNativeTransact(instructions[i], accountKeys, programId) then
      NativeInstructions(instructions, i + 1, accountKeys, programId)
    else
      var parsed :- TransactAt(instructions[i].data.value, i);
      var others :- NativeInstructions(instructions, i + 1, accountKeys, programId);
      Success([parsed] + others)
  }

  // The instruction an event is attributed to: every two events are one instruction's, and the
  // first instruction takes those left over.
  function Owner(natives: seq<ParsedTransact>, eventIndex: nat): Option<ParsedTransact> {
    if eventIndex / 2 < |natives| then Some(natives[eventIndex / 2])
    else if natives != [] then Some(natives[0])
    else None
  }

  function OutputRowOf(input: ParseInput, event: CommitmentEvent, instructionIndex: nat): OutputRow {
    OutputRow(input.programId, event.outputIndex, event.commitment, event.encryptedOutput, input.signature,
              instructionIndex, event.logIndex, input.transaction.slot, BlockTime(input))
  }

  // The rows of the events from position i on.
  function Outputs(input: ParseInput, natives: seq<ParsedTransact>, events: seq<CommitmentEvent>, i: nat): seq<OutputRow>
    requires i <= |events|
    decreases |events| - i
  {
    if i == |events| then []
    else
      (match Owner(natives, i)
       case None => []
       case Some(owner) => [OutputRowOf(input, events[i], owner.instructionIndex)])
      + Outputs(input, natives, events, i + 1)
  }

  function RootRowOf(input: ParseInput, native: ParsedTransact): RootRow {
    RootRow(input.programId, native.root, input.signature, native.instructionIndex, input.transaction.slot, ObservedAt(input))
  }

  function Roots(input: ParseInput, natives: seq<ParsedTransact>): (rows: seq<RootRow>) {
    seq(|natives|, k requires 0 <= k < |natives| => RootRowOf(input, natives[k]))
  }

  function NullifierRowOf(input: ParseInput, native: ParsedTransact, j: nat): NullifierRow
    requires j < |native.inputNullifiers|
  {
    NullifierRow(input.programId, native.inputNullifiers[j], j, input.signature, native.instructionIndex,
                 input.transaction.slot, ObservedAt(input))
  }

  // The nullifier rows of the instructions from position i on.
  function Nullifiers(input: ParseInput, natives: seq<ParsedTransact>, i: nat): seq<NullifierRow>
    requires i <= |natives|
    decreases |natives| - i
  {
    if i == |natives| then []
    else
      var native := natives[i];
      seq(|native.inputNullifiers|, j requires 0 <= j < |native.inputNullifiers| => NullifierRowOf(input, native, j))
      + Nullifiers(input, natives, i + 1)
  }

  function ParsePoolTransaction(decode: string -> Decoded, input: ParseInput): Result<ParsedPoolTransaction, ParseError> {
    match NativeInstructions(input.transaction.instructions, 0, AllAccountKeys(input.transaction), input.programId)
    case Failure(error) => Failure(BadInstruction(error))
    case Success(natives) =>
      match CommitmentEvents(decode, input.transaction.logMessages, input.programId)
      case Failure(error) => Failure(BadEvent(error.logIndex))
      case Success(events) =>
        Success(ParsedPoolTransaction(Outputs(input, natives, events, 0), Roots(input, natives), Nullifiers(input, natives, 0)))
  }

  // ---- Which instructions are parsed ----

  // The account at a position of the message's keys, the loaded writable ones and the read-only ones.
  predicate KeyIs(transaction: ChainTransaction, i: int, key: string) {
    var n, w := |transaction.accountKeys|, |transaction.loadedWritable|;
    || (0 <= i < n && transaction.accountKeys[i] == key)
    || (n <= i < n + w && transaction.loadedWritable[i - n] == key)
    || (n + w <= i < n + w + |transaction.loadedReadonly| && transaction.loadedReadonly[i - n - w] == key)
  }

  /** An instruction is a native transact exactly when it calls the program and its data starts with
      the eight bytes that the SDK writes first. */
  lemma NativeIff(instruction: ChainInstruction, transaction: ChainTransaction, programId: string)
    ensures IsNativeTransact(instruction, AllAccountKeys(transaction), programId) <==>
              && KeyIs(transaction, instruction.programIdIndex, programId)
              && instruction.data.Some?
              && [217, 149, 130, 143, 221, 52, 252, 119] <= instruction.data.value
  {
  }

  lemma OneInstruction(instruction: ChainInstruction, i: nat, accountKeys: seq<string>, programId: string)
    ensures IsNativeTransact(instruction, accountKeys, programId) ==>
              && instruction.data.Some?
              && (TransactAt(instruction.data.value, i).Success? <==> |instruction.data.value| >= NULLIFIERS_END)
              && (TransactAt(instruction.data.value, i).Success? ==> TransactAt(instruction.data.value, i).value.instructionIndex == i)
  {
  }

  // The native instructions parse exactly when each of them holds its 424 bytes.
  lemma {:induction false} NativesParseIff(instructions: seq<ChainInstruction>, i: nat, accountKeys: seq<string>, programId: string)
    requires i <= |instructions|
    ensures NativeInstructions(instructions, i, accountKeys, programId).Success? <==>
            forall k :: i <= k < |instructions| && IsNativeTransact(instructions[k], accountKeys, programId) ==>
              |instructions[k].data.value| >= NULLIFIERS_END
    decreases |instructions| - i
  {
    hide TransactAt, IsNativeTransact;
    if i < |instructions| {
      OneInstruction(instructions[i], i, accountKeys, programId);
      NativesParseIff(instructions, i + 1, accountKeys, programId);
    }
  }

  // Parsed from the native instruction at its own position.
  predicate ParsedFrom(parsed: ParsedTransact, instructions: seq<ChainInstruction>, accountKeys: seq<string>, programId: string) {
    && parsed.instructionIndex < |instructions|
    && IsNativeTransact(instructions[parsed.instructionIndex], accountKeys, programId)
    && TransactAt(instructions[parsed.instructionIndex].data.value, parsed.instructionIndex) == Success(parsed)
  }

  predicate HasIndex(natives: seq<ParsedTransact>, k: nat) {
    exists j :: 0 <= j < |natives| && natives[j].instructionIndex == k
  }

  lemma HasIndexCons(first: ParsedTransact, natives: seq<ParsedTransact>, k: nat)
    ensures HasIndex([first] + natives, k) <==> first.instructionIndex == k || HasIndex(natives, k)
  {
    var all := [first] + natives;
    assert all[0] == first && forall j :: 0 <= j < |natives| ==> all[j + 1] == natives[j];
  }

  // Position k from i on is parsed exactly when it is a native instruction.
  lemma {:induction false} ParsedIffNative(instructions: seq<ChainInstruction>, i: nat, accountKeys: seq<string>, programId: string, k: nat)
    requires i <= |instructions| && NativeInstructions(instructions, i, accountKeys, programId).Success?
    ensures HasIndex(NativeInstructions(instructions, i, accountKeys, programId).value, k)
            <==> i <= k < |instructions| && IsNativeTransact(instructions[k], accountKeys, programId)
    decreases |instructions| - i
  {
    hide TransactAt, IsNativeTransact, HasIndex;
    if i == |instructions| {
      NothingParsed(k);
    } else {
      OneInstruction(instructions[i], i, accountKeys, programId);
      ParsedIffNative(instructions, i + 1, accountKeys, programId, k);
      if IsNativeTransact(instructions[i], accountKeys, programId) {
        HasIndexCons(TransactAt(instructions[i].data.value, i).value,
                     NativeInstructions(instructions, i + 1, accountKeys, programId).value, k);
      }
    }
  }

  lemma NothingParsed(k: nat)
    ensures !HasIndex([], k)
  {
  }

  /** What is parsed is what stands in the native instructions, in message order. */
  lemma {:induction false} NativesAreParsed(instructions: seq<ChainInstruction>, i: nat, accountKeys: seq<string>, programId: string)
    requires i <= |instructions| && NativeInstructions(instructions, i, accountKeys, programId).Success?
    ensures var natives := NativeInstructions(instructions, i, accountKeys, programId).value;
      && (forall j, k :: 0 <= j < k < |natives| ==> natives[j].instructionIndex < natives[k].instructionIndex)
      && (forall k :: 0 <= k < |natives| ==> i <= natives[k].instructionIndex && ParsedFrom(natives[k], instructions, accountKeys, programId))
    decreases |instructions| - i
  {
    hide TransactAt, IsNativeTransact;
    if i < |instructions| {
      OneInstruction(instructions[i], i, accountKeys, programId);
      NativesAreParsed(instructions, i + 1, accountKeys, programId);
    }
  }

  // ---- Who owns an output ----

  lemma {:induction false} OutputAt(input: ParseInput, natives: seq<ParsedTransact>, events: seq<CommitmentEvent>, i: nat, k: nat)
    requires i <= |events| && natives != []
    ensures |Outputs(input, natives, events, i)| == |events| - i
    ensures i <= k < |events| ==>
              Outputs(input, natives, events, i)[k - i] == OutputRowOf(input, events[k], Owner(natives, k).value.instructionIndex)
    decreases |events| - i
  {
    if i < |events| {
      OutputAt(input, natives, events, i + 1, k);
    }
  }

  lemma {:induction false} NoOwnerNoOutput(input: ParseInput, events: seq<CommitmentEvent>, i: nat)
    requires i <= |events|
    ensures Outputs(input, [], events, i) == []
    decreases |events| - i
  {
    if i < |events| {
      NoOwnerNoOutput(input, events, i + 1);
    }
  }

  // The transaction's own time, or else the one that was discovered with it, in milliseconds.
  predicate IsTime(input: ParseInput, time: Option<int>) {
    match input.transaction.blockTime
    case Some(seconds) => time == Some(seconds * 1000)
    case None => time == input.fallbackBlockTime
  }

  // Without either it is the epoch.
  predicate IsTimeOrEpoch(input: ParseInput, time: int) {
    IsTime(input, Some(time)) || (IsTime(input, None) && time == 0)
  }

  // The row says what the event says, and names the transaction, the instruction and the time.
  predicate RowOfEvent(input: ParseInput, event: CommitmentEvent, instructionIndex: nat, row: OutputRow) {
    && row.outputIndex == event.outputIndex && row.commitment == event.commitment
    && row.encryptedOutput == event.encryptedOutput && row.logIndex == event.logIndex
    && row.instructionIndex == instructionIndex
    && row.programId == input.programId && row.txSignature == input.signature && row.slot == input.transaction.slot
    && IsTime(input, row.blockTime)
  }

  /** With two events per native instruction, events 2k and 2k + 1 become the two outputs of
      instruction k, in log order and with nothing lost. */
  lemma TwoOutputsEach(input: ParseInput, natives: seq<ParsedTransact>, events: seq<CommitmentEvent>, k: nat)
    requires |events| == 2 * |natives| && k < |natives|
    ensures |Outputs(input, natives, events, 0)| == |events|
    ensures forall j :: 2 * k <= j < 2 * k + 2 ==>
              RowOfEvent(input, events[j], natives[k].instructionIndex, Outputs(input, natives, events, 0)[j])
  {
    OutputAt(input, natives, events, 0, 2 * k);
    OutputAt(input, natives, events, 0, 2 * k + 1);
  }

  /** Every event is stored exactly when the message has a native instruction at its top level.  A
      transact reached only through another program emits its events, but none of them is kept. */
  lemma EventsKeptIff(input: ParseInput, natives: seq<ParsedTransact>, events: seq<CommitmentEvent>)
    ensures |Outputs(input, natives, events, 0)| == |events| <==> natives != [] || events == []
    ensures natives == [] ==> Outputs(input, natives, events, 0) == []
  {
    if natives == [] {
      NoOwnerNoOutput(input, events, 0);
    } else {
      OutputAt(input, natives, events, 0, 0);
    }
  }

  predicate RowOfNullifier(input: ParseInput, native: ParsedTransact, j: nat, row: NullifierRow) {
    && j < |native.inputNullifiers| && row.nullifier == native.inputNullifiers[j] && row.nullifierIndex == j
    && row.instructionIndex == native.instructionIndex
    && row.programId == input.programId && row.txSignature == input.signature && row.slot == input.transaction.slot
    && IsTimeOrEpoch(input, row.spentAt)
  }

  predicate RowOfRoot(input: ParseInput, native: ParsedTransact, row: RootRow) {
    && row.root == native.root && row.instructionIndex == native.instructionIndex
    && row.programId == input.programId && row.txSignature == input.signature && row.slot == input.transaction.slot
    && IsTimeOrEpoch(input, row.observedAt)
  }

  // One root row for each instruction.
  lemma RootAt(input: ParseInput, natives: seq<ParsedTransact>, k: nat)
    ensures |Roots(input, natives)| == |natives|
    ensures k < |natives| ==> RowOfRoot(input, natives[k], Roots(input, natives)[k])
  {
  }

  lemma {:induction false} NullifierAt(input: ParseInput, natives: seq<ParsedTransact>, i: nat, k: nat)
    requires i <= |natives| && forall k :: 0 <= k < |natives| ==> |natives[k].inputNullifiers| == 2
    ensures |Nullifiers(input, natives, i)| == 2 * (|natives| - i)
    ensures i <= k < |natives| ==>
              && RowOfNullifier(input, natives[k], 0, Nullifiers(input, natives, i)[2 * (k - i)])
              && RowOfNullifier(input, natives[k], 1, Nullifiers(input, natives, i)[2 * (k - i) + 1])
    decreases |natives| - i
  {
    if i < |natives| {
      NullifierAt(input, natives, i + 1, k);
      var rest := Nullifiers(input, natives, i + 1);
      assert Nullifiers(input, natives, i)[2..] == rest;
      if i < k < |natives| {
        assert Nullifiers(input, natives, i)[2 * (k - i)] == rest[2 * (k - i - 1)];
        assert Nullifiers(input, natives, i)[2 * (k - i) + 1] == rest[2 * (k - i - 1) + 1];
      }
    }
  }

  /** When a transaction parses, and what its rows are: the rows of its native instructions, as many
      as they are, and one output for each event if there is an instruction to own it. */
  lemma ParsesIff(decode: string -> Decoded, input: ParseInput)
    ensures var instructions, keys := input.transaction.instructions, AllAccountKeys(input.transaction);
      var events := CommitmentEvents(decode, input.transaction.logMessages, input.programId);
      var natives := NativeInstructions(instructions, 0, keys, input.programId);
      && (ParsePoolTransaction(decode, input).Success? <==>
            && events.Success?
            && forall k :: 0 <= k < |instructions| && IsNativeTransact(instructions[k], keys, input.programId) ==>
                 |instructions[k].data.value| >= 424)
      && (ParsePoolTransaction(decode, input).Failure? ==>
            ParsePoolTransaction(decode, input).error
            == if natives.Failure? then BadInstruction(natives.error) else BadEvent(events.error.logIndex))
      && (ParsePoolTransaction(decode, input).Success? ==>
            && natives.Success?
            && |ParsePoolTransaction(decode, input).value.observedRoots| == |natives.value|
            && |ParsePoolTransaction(decode, input).value.spentNullifiers| == 2 * |natives.value|
            && |ParsePoolTransaction(decode, input).value.outputs| == if natives.value == [] then 0 else |events.value|)
  {
    hide NativeInstructions, CommitmentEvents, Outputs, Nullifiers, IsNativeTransact;
    var instructions, keys := input.transaction.instructions, AllAccountKeys(input.transaction);
    NativesParseIff(instructions, 0, keys, input.programId);
    if ParsePoolTransaction(decode, input).Success? {
      var natives := NativeInstructions(instructions, 0, keys, input.programId).value;
      var events := CommitmentEvents(decode, input.transaction.logMessages, input.programId).value;
      NullifierAt(input, natives, 0, 0);
      EventsKeptIff(input, natives, events);
    }
  }

  // ---- Keys of the output rows ----

  predicate AscendingLog(events: seq<CommitmentEvent>) {
    forall i, j :: 0 <= i < j < |events| ==> events[i].logIndex < events[j].logIndex
  }

  lemma {:induction false} EventsFollowLog(decode: string -> Decoded, logs: seq<string>, positions: seq<nat>)
    requires forall k :: 0 <= k < |positions| ==> positions[k] < |logs|
    requires forall j, k :: 0 <= j < k < |positions| ==> positions[j] < positions[k]
    requires DecodeLines(decode, logs, positions).Success?
    ensures var events := DecodeLines(decode, logs, positions).value;
      AscendingLog(events) && forall i :: 0 <= i < |events| ==> events[i].logIndex in positions
    decreases |positions|
  {
    hide StartsWith;
    if positions != [] {
      EventsFollowLog(decode, logs, positions[1..]);
      assert positions == [positions[0]] + positions[1..];
      var rest := DecodeLines(decode, logs, positions[1..]).value;
      forall i | 0 <= i < |rest|
        ensures positions[0] < rest[i].logIndex && rest[i].logIndex in positions
      {
        var k :| 0 <= k < |positions[1..]| && positions[1..][k] == rest[i].logIndex;
        assert positions[k + 1] == rest[i].logIndex;
      }
    }
  }

  lemma EventsAscend(decode: string -> Decoded, logs: Option<seq<string>>, programId: string)
    requires CommitmentEvents(decode, logs, programId).Success?
    ensures AscendingLog(CommitmentEvents(decode, logs, programId).value)
  {
    hide DecodeLines, EventLines;
    if logs.Some? {
      EventsFollowLog(decode, logs.value, EventLines(logs.value, 0, [], programId));
    }
  }

  /** The output rows of a transaction name its program and its signature, and no two of them have
      the same log position. */
  lemma OutputKeys(decode: string -> Decoded, input: ParseInput)
    requires ParsePoolTransaction(decode, input).Success?
    ensures var rows := ParsePoolTransaction(decode, input).value.outputs;
      && (forall i :: 0 <= i < |rows| ==> rows[i].programId == input.programId && rows[i].txSignature == input.signature)
      && (forall i, j :: 0 <= i < j < |rows| ==> rows[i].logIndex < rows[j].logIndex)
  {
    hide NativeInstructions, CommitmentEvents, Outputs;
    var natives := NativeInstructions(input.transaction.instructions, 0, AllAccountKeys(input.transaction), input.programId).value;
    var events := CommitmentEvents(decode, input.transaction.logMessages, input.programId).value;
    EventsAscend(decode, input.transaction.logMessages, input.programId);
    if natives == [] {
      NoOwnerNoOutput(input, events, 0);
    } else {
      OutputAt(input, natives, events, 0, 0);
      forall k | 0 <= k < |events|
        ensures Outputs(input, natives, events, 0)[k].programId == input.programId
        ensures Outputs(input, natives, events, 0)[k].txSignature == input.signature
        ensures Outputs(input, natives, events, 0)[k].logIndex == events[k].logIndex
      {
        OutputAt(input, natives, events, 0, k);
      }
    }
  }

  // ---- From the SDK's arguments to the stored rows ----

  // Fields of their proper size.
  predicate ExactSizes(args: TransactArgs) {
    && SdkAccepts(args)
    && |args.proof.root| == 32
    && |args.proof.inputNullifiers[0]| == 32
    && |args.proof.inputNullifiers[1]| == 32
  }

  /** A message whose native instructions carry SDK-encoded arguments parses, and the root and the
      two nullifiers of each argument end up in the rows of its own instruction. */
  lemma SdkInstructionIsStored(decode: string -> Decoded, input: ParseInput, i: nat, args: TransactArgs)
    requires i < |input.transaction.instructions| && ExactSizes(args)
    requires EncodeTransact(args).Success?
    requires input.transaction.instructions[i].data == Some(EncodeTransact(args).value)
    requires IsNativeTransact(input.transaction.instructions[i], AllAccountKeys(input.transaction), input.programId)
    requires ParsePoolTransaction(decode, input).Success?
    ensures var rows := ParsePoolTransaction(decode, input).value;
      exists k ::
        && 0 <= k < |rows.observedRoots|
        && |rows.spentNullifiers| == 2 * |rows.observedRoots|
        && rows.observedRoots[k].root == BytesToHex(args.proof.root)
        && rows.observedRoots[k].instructionIndex == i
        && rows.spentNullifiers[2 * k].nullifier == BytesToHex(args.proof.inputNullifiers[0])
        && rows.spentNullifiers[2 * k + 1].nullifier == BytesToHex(args.proof.inputNullifiers[1])
        && rows.spentNullifiers[2 * k].instructionIndex == rows.spentNullifiers[2 * k + 1].instructionIndex == i
  {
    hide TransactAt, EncodeTransact, IsNativeTransact, CommitmentEvents, Outputs;
    var instructions, keys := input.transaction.instructions, AllAccountKeys(input.transaction);
    NativesAreParsed(instructions, 0, keys, input.programId);
    ParsedIffNative(instructions, 0, keys, input.programId, i);
    var natives := NativeInstructions(instructions, 0, keys, input.programId).value;
    var k :| 0 <= k < |natives| && natives[k].instructionIndex == i;
    ReaderReadsWhatSdkWrites(args, i);
    assert TransactAt(EncodeTransact(args).value, i) == Success(natives[k]);
    NullifierAt(input, natives, 0, k);
    assert ParsePoolTransaction(decode, input).value.observedRoots[k].instructionIndex == i;
  }
}
