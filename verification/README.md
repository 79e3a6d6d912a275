# A verified model of a private-transfer wallet and its indexer

The repository is a shielded-note payment system: a backend that indexes the pool program's
transactions and serves Merkle proofs, and a client that keeps encrypted notes, quotes and selects
amounts, encodes the public inputs and prepares the proof. This Dafny project models the logic of
both sides and proves what they promise. `dafny verify dfyconfig.toml` checks everything.

Conventions. A field element is a natural number, and decimal and hex texts are strings of digits
that are parsed and printed as the JavaScript code does it. Poseidon is an arbitrary function; the
tree theorems that need one say that its pair hash is injective, and the statements about commitments
and nullifiers name the collision. SHA-256 is an arbitrary function from bytes to bytes.
A thrown error is a `Failure`; which check failed is kept where callers can tell. Timestamps are
integers. Objects whose methods update fields are classes with the same fields; table statements,
loops over buffers and searches are methods proved against functions, and the statements about
those functions are lemmas. Protocols are state machines over single statements, and their theorems
speak about every run.

The parts:

- **Merkle index.** `MerkleTree` builds and reads the layered tree, `MerkleProofs` states what a path
  proves, `FieldHex` and `MerkleService` turn table rows into answers, `NoteBinding` follows an answer
  into the client's circuit slot.
- **Indexer.** `LogParser`, `LogForest`, `TransactLayout`, `PoolParser` read a transaction, and
  `PoolAttribution` and `PoolOwnership` say which instruction an event belongs to;
  `PoolTables` stores rows; `IndexerQueue` and `IndexerService` are the repository and one batch;
  `IndexerProtocol` is the state machine of many discoveries and workers with crashes between
  statements, with `IndexerInvariants`, `IndexerEffects`, `IndexerCoverage`, `IndexerStranding`
  (theorems) and `IndexerRefinement` (an uninterrupted batch is a run of it).
- **Notes.** `NoteOutputs`, `NoteHistory`, `NoteBackups`, `NoteStores` normalize, merge and keep
  backups; `NoteSync`, `NoteSyncProtocol`, `NoteSyncAll` copy the pool into them.
- **Money.** `TransferQuotes`, `NoteSelection`, `Conservation`, `Amount`.
- **Codecs.** `Numerals`, `Text`, `FieldCodec`, `ExtData`, `OutputPayload`.

Where the code falls short of what it is for, the exact condition is proved:

- `^` and `>>` work on 32 bits, so the path indices of a leaf spell its position if and only if the
  position is below 2^31 (`IndicesSpellPosition`); the deployed height of 26 stays below it.
- A decimal commitment of 64 digits is read as hex; every other canonical one is read as itself
  (`DecimalIsItselfIff`, `SixtyFourDigitsMisread`, `MisreadCommitment`). The client's check of a proof
  binds it to the note's commitment unless the note's text is 64 decimal digits without a leading zero
  (`AcceptedAreStored`, `AmbiguousIsConfused`).
- Discovery never pages backwards. It keeps everything up to its watermark queued if and only if its
  limit is 0 or what the limit cuts off is queued already (`DiscoveryCoversIff`; a run that misses an
  entry: `CutOffEntryIsMissed`).
- A row in processing is never taken up again if and only if a worker crashed while it held the row
  (`StrandedIffCrashed`); every other row can still be settled (`SettlesIffNotStranded`).
- The parser gives every two events to the next instruction, whichever call printed them. That is
  right if and only if the calls hold their events in pairs (`AttributionIff`; `UnevenCallsAreMisattributed`).
  Events are kept if and only if the message has a native instruction itself (`EventsKeptIff`;
  `RoutedEventIsDropped`).
- A sync that reports that nothing is left has everything if and only if the pool has no gap
  (`EndIsCompleteIffDense`, `SyncAllNotes`; `GapEndsFirstSync`).
- Restoring a backup is checked for form, not against the pool. It leaves a store that mirrors the
  pool if and only if the backup fits (`ImportIsFaithfulIff`; `HollowBackupHarms`). That every export
  mirrors the pool is therefore stated for runs whose restored backups fit, as exports of the same
  pool always do (`ExportsFit`).
- Output rows have two unique keys. Which rows survive is independent of the order of the inserts if
  and only if different rows never clash (`OrderFreeIffCoherent`), which for the rows of parsed
  transactions means that no output index occurs twice (`OrderFreeIffDistinctIndexes`;
  `OrderMattersWithoutCoherence`).

## Model

| member | source | states |
|---|---|---|
| MerkleTrees.MerkleTree.constructor | apps/backend/src/modules/merkle/merkle.tree.ts:49-75 | a new tree stores on every level exactly the prefix of the full padded layer that its leaves touch |
| MerkleTrees.MerkleTree.Rebuild | apps/backend/src/modules/merkle/merkle.tree.ts:122-146 | the nested loops establish that every stored node is the root of the full subtree below it, and keep the leaves |
| MerkleTrees.NewMerkleTree | apps/backend/src/modules/merkle/merkle.tree.ts:49-62 | construction fails exactly for a height that is not positive or more leaves than 2^height |
| MerkleTrees.MerkleTree.Root | apps/backend/src/modules/merkle/merkle.tree.ts:77-87 | the root of the stored prefix, or of an empty tree, is the root of the tree padded to 2^height leaves |
| MerkleTrees.NodeCountIsCeiling | apps/backend/src/modules/merkle/merkle.tree.ts:122-146 | level l holds ceil(n / 2^l) nodes |
| MerkleTrees.BeyondPrefix | apps/backend/src/modules/merkle/merkle.tree.ts:64-69 | every node that is not stored is the zero root of its level |
| MerkleTrees.MerkleTree.Path | apps/backend/src/modules/merkle/merkle.tree.ts:93-120 | a path exists exactly for stored leaf positions, and holds the siblings of the leaf's ancestors and the 32-bit remainders of its index |
| MerkleTrees.CursorIsAncestor | apps/backend/src/modules/merkle/merkle.tree.ts:101-113 | below 2^31 the signed shift walks exactly up the ancestors |
| MerkleTrees.XorOneIsSibling | apps/backend/src/modules/merkle/merkle.tree.ts:103-106 | below 2^31 the signed exclusive-or names the sibling |
| MerkleTrees.WordOperators | apps/backend/src/modules/merkle/merkle.tree.ts:103-113 | on any integer: the word is the congruent one in range, exclusive-or changes its last bit only, the shift drops that bit, a remainder has the sign of its dividend |
| MerkleProofs.PathFoldsToRoot | apps/backend/src/modules/merkle/merkle.tree.ts:93-120 | folding any leaf with its path gives the root of the padded tree |
| MerkleProofs.IndicesSpellPosition | apps/backend/src/modules/merkle/merkle.tree.ts:103-113 | the path indices are the binary digits of the position if and only if it is below 2^31 |
| MerkleProofs.DeployedHeightFits | apps/backend/src/modules/merkle/merkle.tree.ts:3-3 | every position of the deployed height is below 2^31 |
| MerkleProofs.RootBindsLeaf | apps/backend/src/modules/merkle/merkle.tree.ts:77-120 | with an injective hash, whatever folds to the root at a position is the padded leaf and the path's siblings there |
| MerkleProofs.EqualRootsEqualLeaves | apps/backend/src/modules/merkle/merkle.tree.ts:58-87 | with an injective hash, two leaf lists have equal roots exactly when they differ by trailing zero leaves only |
| MerkleProofs.InjectiveHashExists | apps/backend/src/modules/merkle/merkle.tree.ts:77-120 | the hypothesis of the two statements above can be met |
| FieldHex.DecimalOf | apps/backend/src/modules/merkle/merkle.tree.ts:23-42 | how a decimal text is normalized, for every length and size |
| FieldHex.DecimalIsItselfIff | apps/backend/src/modules/merkle/merkle.tree.ts:37-42 | a canonical decimal becomes the hex text of its own value if and only if it does not have 64 digits |
| FieldHex.SixtyFourDigitsMisread | apps/backend/src/modules/merkle/merkle.tree.ts:37-42 | 10^63 is taken for 16^63 |
| FieldHex.HexIsKept | apps/backend/src/modules/merkle/merkle.tree.ts:14-21 | a 64-digit lower-case hex text is kept and has its own value |
| FieldHex.NormalizedIsHex | apps/backend/src/modules/merkle/merkle.tree.ts:37-42 | whatever is accepted becomes 64 lower-case hex digits |
| FieldHex.NormalizesIff | apps/backend/src/modules/merkle/merkle.tree.ts:14-42 | exactly which texts are accepted: 64 hex digits in any case, or decimal digits of a value below 2^256, between any spaces |
| FieldHex.HexValueIff | apps/backend/src/modules/merkle/merkle.tree.ts:14-21 | a stored commitment is read exactly when it is 64 hex digits in any case, between any spaces, and as their value |
| FieldHex.PrintedHex | apps/backend/src/modules/merkle/merkle.tree.ts:23-35 | the padded hex text of a value below 2^256 is read back as that value |
| MerkleService.EnsureContiguousOutputs | apps/backend/src/modules/merkle/merkle.service.ts:67-75 | the loop accepts exactly rows whose indexes are their positions |
| MerkleService.ContiguousIffDense | apps/backend/src/modules/merkle/merkle.service.ts:67-75 | on the sorted rows of a program this means that the stored indexes are 0, 1, 2, ... without a gap |
| MerkleService.BuildTree | apps/backend/src/modules/merkle/merkle.service.ts:91-99 | a tree is built exactly when the rows are contiguous, hold 32-byte hex commitments and fit the height, and its leaves are those commitments |
| MerkleService.GetState | apps/backend/src/modules/merkle/merkle.service.ts:102-110 | the returned root is the padded root of all stored commitments |
| MerkleService.GetPath | apps/backend/src/modules/merkle/merkle.service.ts:112-136 | the three answers of a path request and when each is given; a given path belongs to the output asked for |
| MerkleService.RowByCommitment | apps/backend/src/modules/merkle/merkle.service.ts:147-147 | of several rows with one commitment the map keeps the last |
| MerkleService.GetProofByCommitments | apps/backend/src/modules/merkle/merkle.service.ts:138-169 | one proof per request in order, all under the returned root; the request fails exactly for an unreadable commitment or rows that cannot be served |
| MerkleService.ProofVerifies | apps/backend/src/modules/merkle/merkle.service.ts:150-167 | a proof is found exactly when some row has the commitment, and then leads from that commitment at its output index to the root, duplicates or not |
| MerkleService.FoundIffStored | apps/backend/src/modules/merkle/merkle.service.ts:147-167 | a hex request is found exactly when some row has its value, and names a row with that value |
| MerkleService.DecimalIsFoundIff | apps/backend/src/modules/merkle/merkle.service.ts:138-167 | a decimal request without 64 digits is found exactly when some row has its value, and names a row with that value |
| NoteBinding.RederivedIsDecrypted | packages/client/src/utxo.ts:130-158 | a witness moved to another index is what decrypting at that index gives |
| NoteBinding.WitnessIsOfNote | packages/client/src/utxo.ts:204-242 | a decrypted witness keeps what was decrypted, its commitment opens to it, and its nullifier is the note's at this index, also in hex |
| NoteBinding.CommitmentBinds | packages/client/src/utxo.ts:214-219 | two openings of one commitment with another amount, key or blinding are a collision of Poseidon |
| NoteBinding.NullifierBinds | packages/client/src/utxo.ts:220-229 | equal nullifiers come from the same commitment, index and key, or from a collision of Poseidon |
| NoteBinding.DummyIsZeroNote | packages/client/src/circuit.ts:712-746 | the filler slot is the slot of a zero note decrypted at index 0, with a path of zeros |
| NoteBinding.AnswerForNote | packages/client/src/prover.ts:173-176 | what the service answers for a note whose commitment, in decimal or in hex, is not misread |
| NoteBinding.ValidateMerkleProof | packages/client/src/prover.ts:296-318 | the loop accepts exactly answers with one found proof for each note that carries the note's commitment in either spelling, and otherwise reports the first proof that is missing or is for another commitment |
| NoteBinding.AcceptedAreStored | packages/client/src/prover.ts:296-318 | an accepted answer, even if its proofs are for other requests or in another order, proves each note's own commitment at the position it names, for every note text that is not ambiguous |
| NoteBinding.AmbiguousIsConfused | packages/client/src/prover.ts:311-316 | for a text that is both hex and decimal, found proofs of another field element are accepted as well |
| NoteBinding.AcceptedIffAllStored | packages/client/src/prover.ts:173-180 | the service's own answer to the notes' requests is accepted exactly when the pool holds every selected commitment |
| NoteBinding.SlotCreatedIff | packages/client/src/circuit.ts:687-710 | exactly when a note and a proof become a circuit slot |
| NoteBinding.SlotProvesNote | packages/client/src/prover.ts:296-353 | the client accepts the proof exactly when the pool holds the commitment; the slot then holds a position of it, a path from it to the root, and the nullifier of decrypting there |
| NoteBinding.MisreadCommitment | packages/client/src/prover.ts:173-178 | the proof for a 64-digit commitment is about another field element |
| LogParser.ParseCommitmentEvents | apps/backend/src/modules/pool/pool.parser.ts:255-282 | the stack loop returns the events of exactly the lines whose innermost frame is the program, or the first decoding error among them |
| LogParser.EventLines | apps/backend/src/modules/pool/pool.parser.ts:255-282 | the event lines are strictly increasing log positions |
| LogParser.InvokedIff | apps/backend/src/modules/pool/pool.parser.ts:246-249 | a line calls a program if and only if it is "Program <base58> invoke [<digits>]" with that program |
| LogParser.ExitIff | apps/backend/src/modules/pool/pool.parser.ts:251-253 | a line ends a frame if and only if it is "Program <base58> success" or "Program <base58> failed: <reason>" |
| LogParser.Base58Alphabet | apps/backend/src/modules/pool/pool.parser.ts:247-252 | digits and letters without 0, O, I and l |
| LogParser.DataLineDecodes | apps/backend/src/modules/pool/pool.parser.ts:223-244 | what becomes of a data line, field by field, and that no other line is decoded |
| LogParser.DecodeFailsIff | apps/backend/src/modules/pool/pool.parser.ts:264-276 | decoding fails exactly when some event line is malformed, and at the first one |
| LogParser.ExitLineParses | apps/backend/src/modules/pool/pool.parser.ts:251-253 | a printed return line is a return and neither a call nor a data line |
| LogParser.LoggedLinesAreInert | apps/backend/src/modules/pool/pool.parser.ts:246-253 | no text that a program logs is taken for a call or a return |
| LogForest.ParserInvertsPrinter | apps/backend/src/modules/pool/pool.parser.ts:255-282 | from any nested invocations, whose other lines are neither printed calls nor printed returns, anywhere in a log and on any stack, exactly the target frames' own data lines are taken, and the stack is restored |
| LogForest.LogOfForest | apps/backend/src/modules/pool/pool.parser.ts:255-282 | the events of a whole transaction log |
| LogForest.TruncatedLog | apps/backend/src/modules/pool/pool.parser.ts:255-282 | a cut-off log yields a prefix of the events |
| TransactLayout.ByteReader.constructor | apps/backend/src/modules/pool/pool.parser.ts:70-73 | a reader starts at offset 0 |
| TransactLayout.ByteReader.ReadBytes | apps/backend/src/modules/pool/pool.parser.ts:75-84 | reads exactly the requested bytes and advances, or fails at the end and stays |
| TransactLayout.ParseNativeTransactInstruction | apps/backend/src/modules/pool/pool.parser.ts:193-221 | the sequence of reads and skips picks the root and two nullifiers at fixed offsets, with every error case |
| TransactLayout.EncodedFields | packages/sdk/src/generated/instructions/transact.ts:140-157 | where the encoder puts every field, for ciphertexts of any length |
| TransactLayout.EncodesIff | packages/sdk/src/generated/instructions/transact.ts:140-157 | exactly which arguments are encoded |
| TransactLayout.FixedHex | packages/sdk/src/generated/types/proof.ts:38-55 | a field cut or padded to 32 bytes shows its own hex exactly when it has 32 bytes |
| TransactLayout.ReaderReadsWhatSdkWrites | apps/backend/src/modules/pool/pool.parser.ts:193-221 | the reader never runs past the end of encoded data and returns each argument exactly when it has its proper size |
| PoolParser.NativesParseIff | apps/backend/src/modules/pool/pool.parser.ts:289-295 | a message parses exactly when each of its native instructions holds 424 bytes |
| PoolParser.NativeIff | apps/backend/src/modules/pool/pool.parser.ts:162-191 | an instruction is native exactly when its program index points at the program among the static, loaded writable and loaded read-only keys and its data starts with the discriminator bytes |
| PoolParser.ParsesIff | apps/backend/src/modules/pool/pool.parser.ts:284-345 | when a transaction parses, with which error it does not, and how many rows of each kind it gives |
| PoolParser.ParsedIffNative | apps/backend/src/modules/pool/pool.parser.ts:180-191 | an instruction is parsed if and only if it is a native transact of the program |
| PoolParser.NativesAreParsed | apps/backend/src/modules/pool/pool.parser.ts:289-295 | parsed instructions keep message order and come from their own data |
| PoolParser.TwoOutputsEach | apps/backend/src/modules/pool/pool.parser.ts:298-317 | with twice as many events as instructions, rows 2k and 2k+1 copy events 2k and 2k+1 and name instruction k, and nothing is lost |
| PoolAttribution.EventsByCall | apps/backend/src/modules/pool/pool.parser.ts:255-282 | the events of a transaction's log come call by call, as many from each top-level call as its frames of the program print commitments |
| PoolOwnership.AttributionIff | apps/backend/src/modules/pool/pool.parser.ts:298-317 | every row names the instruction whose call printed its event if and only if the calls hold their events in pairs until the events run out |
| PoolOwnership.TwoPerNativeAreOwned | apps/backend/src/modules/pool/pool.parser.ts:284-345 | when each native instruction emits two events within its call and nothing else does, all are stored, each under its own instruction |
| PoolOwnership.UnevenCallsAreMisattributed | apps/backend/src/modules/pool/pool.parser.ts:298-302 | a transaction with one event in its first native call and two in its second: it parses, and a row names the wrong instruction |
| PoolOwnership.RoutedEventIsDropped | apps/backend/src/modules/pool/pool.parser.ts:298-302 | a router that calls the pool: the log holds an event and no row is kept |
| PoolParser.EventsKeptIff | apps/backend/src/modules/pool/pool.parser.ts:298-302 | all events become rows if and only if the message has a native instruction or there are none |
| PoolParser.RootAt | apps/backend/src/modules/pool/pool.parser.ts:318-326 | root row k is the root of instruction k, with its transaction and time |
| PoolParser.NullifierAt | apps/backend/src/modules/pool/pool.parser.ts:329-338 | nullifier rows 2k and 2k+1 are the two nullifiers of instruction k, with their transaction and time |
| PoolParser.OutputKeys | apps/backend/src/modules/pool/pool.parser.ts:298-317 | the output rows of a transaction carry its program and signature and pairwise different log positions |
| PoolParser.SdkInstructionIsStored | apps/backend/src/modules/pool/pool.parser.ts:284-345 | the root and nullifiers of SDK-encoded arguments end up in the rows of their own instruction |
| PoolTables.PoolRepository.constructor | apps/backend/src/modules/pool/pool.repository.ts:69-70 | empty tables have unique keys |
| PoolTables.PoolRepository.InsertOutputs | apps/backend/src/modules/pool/pool.repository.ts:71-81 | insert-or-ignore on both unique keys, row by row, with the number of rows it added |
| PoolTables.PoolRepository.InsertObservedRoots | apps/backend/src/modules/pool/pool.repository.ts:83-93 | insert-or-ignore on the root |
| PoolTables.PoolRepository.InsertSpentNullifiers | apps/backend/src/modules/pool/pool.repository.ts:95-105 | insert-or-ignore on the nullifier |
| PoolTables.InsertKeepsUniqueKeys | apps/backend/src/db/schema.ts:64-65 | no two stored rows ever share a key |
| PoolTables.ReplayInsertsNothing | apps/backend/src/modules/pool/pool.repository.ts:71-105 | inserting the same rows again, after any other inserts, changes nothing |
| PoolTables.CoherentInsert | apps/backend/src/modules/pool/pool.repository.ts:71-81 | rows of which different ones never clash are all kept and no others, whatever the order |
| PoolTables.OrderFreeIffCoherent | apps/backend/src/db/schema.ts:64-65 | which rows are stored is independent of order and repetition if and only if different rows never clash |
| PoolTables.OrderMattersWithoutCoherence | apps/backend/src/db/schema.ts:64-65 | two transactions report one output index, and the one inserted first keeps it |
| PoolTables.RangeIsExact | apps/backend/src/modules/pool/pool.repository.ts:121-133 | a range read returns exactly the rows of the range by ascending index |
| PoolTables.TreeRowsAreExact | apps/backend/src/modules/pool/pool.repository.ts:135-141 | the tree read returns all rows of the program by ascending index, as many as are counted |
| IndexerQueue.InsertNew | apps/backend/src/modules/indexer/indexer.repository.ts:94-104 | known signatures keep their row, new ones wait with no attempts |
| IndexerQueue.NewRowIs | apps/backend/src/modules/indexer/indexer.repository.ts:94-104 | a new row takes slot and time from the first entry that names it |
| IndexerQueue.IndexerRepository.InsertSignatures | apps/backend/src/modules/indexer/indexer.repository.ts:94-104 | the statement and the number of rows it added |
| IndexerQueue.IndexerRepository.FindState | apps/backend/src/modules/indexer/indexer.repository.ts:84-92 | there is a state exactly when one was stored |
| IndexerQueue.IndexerRepository.UpsertState | apps/backend/src/modules/indexer/indexer.repository.ts:106-118 | the program's watermark is replaced and no other |
| IndexerQueue.IndexerRepository.ClaimPendingSignatures | apps/backend/src/modules/indexer/indexer.repository.ts:120-146 | the claimed rows are the first unlocked eligible ones by slot and signature, as many as the limit allows, each returned once with its raised attempts |
| IndexerQueue.BatchIsOldest | apps/backend/src/modules/indexer/indexer.repository.ts:120-146 | a batch takes waiting unlocked rows of the program, and leaves one only when it is full and holds rows of no later slot and text |
| IndexerQueue.IndexerRepository.MarkDone | apps/backend/src/modules/indexer/indexer.repository.ts:148-157 | only the status of this row changes |
| IndexerQueue.IndexerRepository.MarkFailedTransient | apps/backend/src/modules/indexer/indexer.repository.ts:159-167 | only the status of this row changes |
| IndexerQueue.IndexerRepository.MarkFailedTerminal | apps/backend/src/modules/indexer/indexer.repository.ts:169-178 | only the status of this row changes |
| IndexerService.NewestSince | apps/backend/src/modules/indexer/indexer.service.ts:90-98 | the answer is the newest entries after the watermark, at most the limit, newest first |
| IndexerService.WatermarkIsNewest | apps/backend/src/modules/indexer/indexer.service.ts:107-116 | the new watermark is the newest entry of the log, and stays when there is nothing new |
| IndexerService.DiscoverSignatures | apps/backend/src/modules/indexer/indexer.service.ts:88-127 | the queue, the watermark and the report after a discovery |
| IndexerService.DiscoveryCoversIff | apps/backend/src/modules/indexer/indexer.service.ts:88-116 | a discovery keeps everything up to its watermark queued if and only if the limit is 0 or the entries it cuts off are queued already |
| IndexerService.DiscoveryCoversWithinLimit | apps/backend/src/modules/indexer/indexer.service.ts:88-116 | with unknown entries only, that is at most `limit` new ones |
| IndexerService.StoreParsed | apps/backend/src/modules/indexer/indexer.service.ts:168-172 | the three inserts of one transaction and their counts |
| IndexerService.MarkProcessingFailure | apps/backend/src/modules/indexer/indexer.service.ts:70-85 | the fifth failed attempt is terminal, an earlier one is retried |
| IndexerService.ProcessSignatures | apps/backend/src/modules/indexer/indexer.service.ts:129-188 | after a batch, in terms of the chain's answers: a readable transaction is done, all its rows are taken and it is counted as processed; a failed one is done, brings no row and is counted as skipped; anything else is terminal at the fifth attempt and retried before; nothing else is stored, and the counts add up |
| IndexerService.OutcomeMeans | apps/backend/src/modules/indexer/indexer.service.ts:150-184 | an item is parsed exactly when the chain returns a successful transaction that the parser can read, skipped exactly when it returns a failed one, and in trouble otherwise |
| IndexerService.EveryClaimSettles | apps/backend/src/modules/indexer/indexer.service.ts:150-184 | a batch that returns leaves none of its rows in processing |
| IndexerRefinement.DiscoveryIsARun | apps/backend/src/modules/indexer/indexer.service.ts:88-127 | an uninterrupted discovery is a run of the state machine |
| IndexerRefinement.ItemIsARun | apps/backend/src/modules/indexer/indexer.service.ts:150-184 | so is working through one item |
| IndexerRefinement.BatchIsARun | apps/backend/src/modules/indexer/indexer.service.ts:129-188 | so is an uninterrupted batch, with the result of `ProcessSignatures` |
| IndexerInvariants.StepKeepsQueueInv | apps/backend/src/modules/indexer/indexer.repository.ts:120-178 | every statement of any worker or discovery, and every crash, keeps the queue invariant |
| IndexerInvariants.ClaimsAreBounded | apps/backend/src/modules/indexer/indexer.service.ts:70-85 | in every run: one live claimant per row, attempts that fit the status and never exceed five, and claims that add up to the attempts |
| IndexerInvariants.ClaimsRunOut | apps/backend/src/modules/indexer/indexer.repository.ts:120-178 | over any continuation that inserts no rows the further claims are what the attempts left go down by, so at most the attempts that the queued rows have left |
| IndexerEffects.StepKeepsEffectInv | apps/backend/src/modules/indexer/indexer.service.ts:150-184 | every step, with inserts that partly fail or land late, keeps the link between statuses and stored rows |
| IndexerEffects.LateInsertLands | apps/backend/src/modules/indexer/indexer.service.ts:171-183 | an insert that lands after its worker gave up leaves rows of a transaction that is not done |
| IndexerEffects.DoneIsStored | apps/backend/src/modules/indexer/indexer.service.ts:168-174 | in every run a row is done only when each row of its transaction is stored or kept out by a stored row with its key, and storing them again changes nothing |
| IndexerEffects.DoneOutputsAreStored | apps/backend/src/modules/indexer/indexer.service.ts:168-174 | in every run on a chain without conflicts, finished or not, each output of a done transaction is itself in the table |
| IndexerEffects.CoherentIffDistinctIndexes | apps/backend/src/db/schema.ts:64-65 | parsed rows never clash on signature and log position, so a chain is free of conflicts exactly when no output index occurs twice |
| IndexerEffects.OrderFreeIffDistinctIndexes | apps/backend/src/db/schema.ts:64-65 | for parsed transactions, processing order decides nothing about the stored outputs if and only if no output index occurs twice |
| IndexerEffects.AllDoneOutputs | apps/backend/src/modules/indexer/indexer.service.ts:150-184 | once all is done the outputs table is exactly the chain's outputs |
| IndexerEffects.AllDoneKeys | apps/backend/src/modules/pool/pool.repository.ts:83-105 | and the spent nullifiers and observed roots are exactly the transactions' |
| IndexerEffects.RunsConverge | apps/backend/src/modules/indexer/indexer.service.ts:129-188 | two runs over the same signatures end with the same tree rows, whatever the order and the failures |
| IndexerEffects.DenseChainIsContiguous | apps/backend/src/modules/merkle/merkle.service.ts:67-75 | once all transactions of a chain that numbers its outputs without a gap are done, the contiguity check passes |
| IndexerCoverage.StepKeepsCover | apps/backend/src/modules/indexer/indexer.service.ts:88-116 | every interleaved step keeps what each discovery, at whatever stage, and the watermark rely on |
| IndexerCoverage.WatermarkIsCovered | apps/backend/src/modules/indexer/indexer.service.ts:88-116 | in every run of concurrent discoveries with crashes, all entries up to the stored watermark are queued, provided no answer was cut off by its limit |
| IndexerCoverage.CutOffEntryIsMissed | apps/backend/src/modules/indexer/indexer.service.ts:90-116 | a run in which an answer is cut off and an entry below the watermark is not queued |
| IndexerStranding.CrashStrands | apps/backend/src/modules/indexer/indexer.service.ts:150-184 | a crash leaves the worker's rows in processing and in nobody's hands |
| IndexerStranding.StrandedForever | apps/backend/src/modules/indexer/indexer.repository.ts:120-128 | no run ever takes such a row out of processing |
| IndexerStranding.StrandedIffCrashed | apps/backend/src/modules/indexer/indexer.service.ts:150-184 | in every run a row is stranded if and only if a worker crashed while it held it |
| IndexerStranding.SettlesIffNotStranded | apps/backend/src/modules/indexer/indexer.service.ts:70-85 | from every reachable state a queued row can still be settled if and only if it is not stranded |
| IndexerStranding.SettledQueue | apps/backend/src/modules/indexer/indexer.service.ts:70-85 | a row that is neither stranded, held nor claimable is done or has failed five times |
| NoteOutputs.ParseIsStable | packages/client/src/notes.ts:8-15 | a parsed ciphertext is parsed to itself |
| NoteOutputs.CiphertextIff | packages/client/src/notes.ts:8-15 | a text is read as a ciphertext exactly when it is its hex digits in any case between any spaces |
| NoteOutputs.NormalizeIndexedOutputs | packages/client/src/notes.ts:265-315 | the loop over two maps computes the specified normalization in both modes, with its conflicts |
| NoteOutputs.NormalizedWithIndexes | packages/client/src/notes.ts:265-315 | with indexes it succeeds exactly on lists that are one-to-one both ways, and gives the same outputs once each by ascending index |
| NoteOutputs.NormalizedPositions | packages/client/src/notes.ts:268-300 | without indexes it always succeeds and keeps each ciphertext at its first position |
| NoteOutputs.NormalizedMembers | packages/client/src/notes.ts:265-315 | the result depends on the set of outputs alone |
| NoteHistory.NewestIsNormal | packages/client/src/notes.ts:187-191 | the history becomes strictly descending, at most 20 long, without new entries, and stays as it is when it already was |
| NoteHistory.NewestAreKept | packages/client/src/notes.ts:187-191 | an offset is dropped only when 20 are kept, all above it |
| NoteHistory.NewestOfNewest | packages/client/src/notes.ts:170-192 | cutting a history before a merge does not change the merged history |
| NoteBackups.CreatedIsNormal | packages/client/src/notes.ts:170-192 | whatever passes validation is normalized |
| NoteBackups.CreatesIff | packages/client/src/notes.ts:170-192 | exactly which backups are accepted: every field can be read, and outputs with indexes are one-to-one |
| NoteBackups.CreatedHolds | packages/client/src/notes.ts:170-192 | what an accepted backup holds, from its raw fields: every ciphertext at its first position, or exactly the given pairs; the newest 20 offsets; the other fields as they are |
| NoteBackups.DifferentTextsKeepOrder | packages/client/src/notes.ts:185-186 | ciphertexts without indexes come back in their order when they differ |
| NoteBackups.NormalizationIsIdempotent | packages/client/src/notes.ts:76-78 | a normalized backup is read back as it was written |
| NoteBackups.WrittenListsAgree | packages/client/src/notes.ts:184-187 | a written backup lists every ciphertext with and without its index, in one order |
| NoteBackups.MergeOfNormal | packages/client/src/notes.ts:80-107 | when two backups merge and what each field of the result is |
| NoteBackups.MergeIsCommutative | packages/client/src/notes.ts:80-107 | the same backup in both orders, or a failure in both |
| NoteBackups.MergeIsAssociative | packages/client/src/notes.ts:80-107 | the same backup in both groupings, or a failure in both |
| NoteBackups.MergeIsIdempotent | packages/client/src/notes.ts:80-107 | merging a normalized backup with itself changes nothing |
| NoteStores.NoteStore.constructor | packages/client/src/notes.ts:156-168 | a new store holds nothing |
| NoteStores.NoteStore.ExportNotes | packages/client/src/notes.ts:115-131 | exporting reads, validates, checks the scope and stamps the time, and changes nothing |
| NoteStores.NoteStore.ImportNotes | packages/client/src/notes.ts:133-150 | a rejected import leaves the storage alone, an accepted one writes its result under its own scope |
| NoteStores.NoteStore.ClearNotes | packages/client/src/notes.ts:152-154 | only this scope is removed |
| NoteStores.ExportAfterImport | packages/client/src/notes.ts:115-150 | what was imported is exported under the new time |
| NoteStores.ExportWhenEmpty | packages/client/src/notes.ts:212-225 | a cleared scope exports as an empty backup at offset 0 |
| NoteStores.ImportsIff | packages/client/src/notes.ts:133-150 | exactly which backups are imported over a readable store |
| NoteStores.ImportsCommute | packages/client/src/notes.ts:133-150 | two merging imports end with the same backup in either order, or one of them is refused in both |
| NoteSync.AbsorbedOutputs | packages/client/src/sync.ts:61-93 | when the batch can be kept, and that its outputs are then appended and the old offset joins the history |
| NoteSync.AbsorbsIff | packages/client/src/sync.ts:61-93 | exactly when an answer is accepted |
| NoteSync.AbsorbKeepsMirror | packages/client/src/sync.ts:53-93 | a snapshot that mirrors the pool and rows read from the pool give a backup that mirrors the pool, however old the snapshot is |
| NoteSync.MirrorsAgree | packages/client/src/sync.ts:126-139 | of two mirrors of one pool the shorter is a prefix of the longer |
| NoteSync.MergeMirrorsIff | packages/client/src/notes.ts:80-107 | a merge with a mirror gives a mirror if and only if the other backup brings only outputs of the pool, below the joint offset, and all that it claims beyond the mirror |
| NoteSync.MergeOfMirrors | packages/client/src/notes.ts:80-107 | mirrors of one pool always merge, into the longer one |
| NoteSyncProtocol.ImportIsFaithfulIff | packages/client/src/notes.ts:133-150 | an accepted import, merging or overwriting, leaves a store that mirrors the pool if and only if the backup fits |
| NoteSyncProtocol.ExportsFit | packages/client/src/notes.ts:133-150 | a backup that mirrors the same pool always fits |
| NoteSyncProtocol.HollowBackupHarms | packages/client/src/notes.ts:133-150 | an accepted backup after which the store mirrors no pool |
| NoteSyncProtocol.StepKeepsInv | packages/client/src/sync.ts:40-105 | every interleaved step of several syncs, clears, a growing pool and imports of backups that fit keeps the store faithful |
| NoteSyncProtocol.EveryExportMirrorsThePool | packages/client/src/sync.ts:40-105 | in every run whose restored backups fit, an export succeeds and is exactly the pool's outputs below its offset |
| NoteSyncAll.SyncNotes | packages/client/src/sync.ts:40-105 | one sync against the store, with every error it reports; a failing one leaves the store alone |
| NoteSyncAll.SyncIsARun | packages/client/src/sync.ts:40-105 | rows are indexed and one sync follows undisturbed: that run of the protocol ends exactly where `SyncNotes` does |
| NoteSyncAll.AbandonedSyncLeavesNothing | packages/client/src/sync.ts:40-105 | a sync that stops before its import changes nothing |
| NoteSyncAll.StoreStepsAreCalls | packages/client/src/notes.ts:133-154 | restoring and clearing during other syncs are the store's own operations |
| NoteSyncAll.SyncMakesProgress | packages/client/src/browser.ts:301-307 | on any table and store, a sync that reports more has moved the offset forward and below the total |
| NoteSyncAll.RangeIsSlice | apps/backend/src/modules/pool/pool.service.ts:167-186 | on a dense pool a range answer is a slice of the pool |
| NoteSyncAll.SyncTakesNextBatch | packages/client/src/sync.ts:40-105 | a sync of a faithful store of a dense pool takes exactly the next batch, and succeeds exactly when the outputs up to there decode to distinct ciphertexts |
| NoteSyncAll.EndIsCompleteIffDense | packages/client/src/browser.ts:301-307 | when a sync of a faithful store reports that nothing is left, nothing is missing if and only if the pool has no gap |
| NoteSyncAll.SyncAllNotes | packages/client/src/browser.ts:298-313 | the loop terminates with the measure total - offset, adds up what was fetched, keeps a faithful store faithful, and has everything at a successful end if and only if the pool has no gap; without one it succeeds, whatever the batch size, exactly when all outputs decode to distinct ciphertexts |
| NoteSyncAll.ScanNotes | packages/client/src/browser.ts:190-218 | full mode from any store, and incremental mode from a faithful one, end with the whole pool; a failing full scan keeps the old notes |
| NoteSyncAll.GapEndsSync | apps/backend/src/modules/pool/pool.service.ts:176-180 | when the next batch lies in a gap and reaches the count of rows, the sync succeeds, reports the end and stays below the total |
| NoteSyncAll.GapEndsFirstSync | apps/backend/src/modules/pool/pool.service.ts:176-180 | a pool with one output of index 5: a first sync ends with success at offset 0 of 1 |
| TransferQuotes.OutputStep | packages/client/src/transfer.ts:314-329 | one more gross lamport pays the recipient at most one more and never less |
| TransferQuotes.OutputThreshold | packages/client/src/transfer.ts:314-329 | the closed form of the least gross amount that pays the recipient, both directions |
| TransferQuotes.CalculateGrossWithdrawal | packages/client/src/transfer.ts:176-205 | both loops terminate, and the result is the least gross amount whose output reaches the recipient's, which it then equals |
| TransferQuotes.QuoteTransfer | packages/client/src/transfer.ts:207-233 | every well-formed request is quoted: gross = recipient + fee, the fee is the rounded-down share and the rent, the shield is what the private balance lacks of the gross amount, and the quote passes its own schema |
| TransferQuotes.QuoteDeposit | packages/client/src/deposit.ts:118-134 | a deposit is quoted exactly when it is positive with a fee below 100%: the fee is the share rounded down, the private output the rest, and the quote passes its own schema |
| NoteSelection.SortNotes | packages/client/src/owned.ts:243-248 | sorting permutes the notes |
| NoteSelection.SortIsInOrder | packages/client/src/owned.ts:243-248 | larger amounts come first, equal amounts by their commitments |
| NoteSelection.TopTwo | packages/client/src/owned.ts:224-248 | the first two sorted notes reach as much as any note and any pair of notes |
| NoteSelection.PickNotes | packages/client/src/owned.ts:224-241 | nothing is picked exactly when no one or two notes reach the target; otherwise the first one or two of the sorted notes, which reach it, one exactly when one suffices |
| NoteSelection.SelectNotes | packages/client/src/owned.ts:187-222 | the same among the notes whose outputs are in the local backup, none taken more often than given, and an error otherwise |
| Conservation.ModField | packages/client/src/proof-runner.ts:188-190 | two truncating remainders give the residue of a negative amount as well |
| Conservation.PublicAmountIsResidue | packages/client/src/program.ts:99-118 | the public amount is the residue of the net deposit, and when it is refused |
| Conservation.InvariantCompares | packages/client/src/proof-runner.ts:107-124 | the check before proving compares residues |
| Conservation.InvariantIsConservation | packages/client/src/proof-runner.ts:107-124 | on 64-bit amounts it passes if and only if the integers balance, without wrap-around |
| Conservation.FinishIff | packages/client/src/proof-runner.ts:107-124 | the steps before proving succeed exactly when the outputs fit 64 bits, the public amount can be encoded and the integers balance |
| Conservation.TransferReachesProver | packages/client/src/circuit.ts:455-475 | which quotes and notes reach the prover, exactly, schema included; none fails the check before proving |
| Conservation.TransferConserves | packages/client/src/prover.ts:372-399 | notes spent = change + recipient + fee, and the public bytes say so |
| Conservation.DepositConserves | packages/client/src/circuit.ts:567-615 | which deposits reach the prover, exactly, and deposit = private output + fee |
| Conservation.DepositPrivately | packages/client/src/client.ts:235-276 | from request to prover: a deposit succeeds exactly when it is positive and below 2^63 with a fee below 100%; then output = deposit - fee, the fee is the share rounded down, and the public bytes hold the output |
| Conservation.PayRecipient | packages/client/src/prover.ts:151-197 | from request to prover: exactly when it succeeds and how it fails, and that a success pays what was asked from given notes, none spent twice |
| Amount.ParseOfFormat | packages/client/src/amount.ts:6-36 | every amount is read back from its own spelling |
| Amount.FormatOfParse | packages/client/src/amount.ts:6-36 | printing what was read gives the canonical spelling of the input |
| Amount.AmountTextIff | packages/client/src/amount.ts:4-20 | exactly which texts are amounts: a number without leading zeros, up to nine decimals, between any spaces |
| Amount.AmountIsTextTimesBillion | packages/client/src/amount.ts:13-19 | the amount is the decimal number that the text shows, times 10^9 |
| FieldCodec.HexToBytes | packages/client/src/field.ts:45-53 | the loop writes the big-endian bytes of the number the hex digits stand for |
| FieldCodec.FieldDecimalToBytes | packages/client/src/field.ts:17-21 | exactly the field elements are written, as their 32 big-endian bytes |
| FieldCodec.FieldTextIff | packages/client/src/field.ts:9-15 | exactly which texts spell a field element, and which one |
| FieldCodec.FieldBytesRoundTrip | packages/client/src/field.ts:17-33 | bytes written for a field element are read back as its canonical decimal |
| FieldCodec.FieldOfBytesExact | packages/client/src/field.ts:27-33 | reading accepts exactly the 32-byte strings of field elements |
| FieldCodec.FieldDecimalRoundTrip | packages/client/src/field.ts:17-33 | the decimal read from 32 bytes writes the same bytes |
| FieldCodec.EncodeUnsignedLe | packages/client/src/program.ts:177-187 | the loop writes the little-endian digits |
| FieldCodec.LeBytesToBigInt | packages/client/src/program.ts:193-201 | the loop reads the number whose little-endian digits the bytes are |
| FieldCodec.BytesToBigInt | packages/client/src/output.ts:237-245 | the loop reads the big-endian number |
| FieldCodec.ConcatBytes | packages/client/src/program.ts:211-223 | the buffer is the concatenation of the chunks |
| ExtDataPreimage.SerializeExtData | packages/client/src/program.ts:120-135 | serialization succeeds exactly on encodable data and writes the preimage |
| ExtDataPreimage.PreimageLayout | packages/client/src/program.ts:120-135 | where every field stands in the preimage and in which form |
| ExtDataPreimage.I64LeInjective | packages/client/src/program.ts:153-157 | two's complement keeps signed amounts apart |
| ExtDataPreimage.VecSplit | packages/client/src/program.ts:169-175 | a length-prefixed vector can be told from what follows it |
| ExtDataPreimage.PreimageInjective | packages/client/src/program.ts:120-135 | two data have the same preimage exactly when they are equal |
| ExtDataPreimage.HashExtData | packages/client/src/program.ts:120-135 | for any hash function the 32 bytes hold a field element |
| OutputPayload.SetBigUint64 | packages/client/src/output.ts:153-164 | eight bytes are written little-endian and no other |
| OutputPayload.EncodeOutputPayload | packages/client/src/output.ts:153-164 | exactly the encodable payloads are written |
| OutputPayload.PayloadRoundTrip | packages/client/src/utxo.ts:279-306 | every payload is read back unchanged |
| OutputPayload.ParsedPayloadsAreEncodings | packages/client/src/utxo.ts:279-306 | a byte string parses exactly when it is the encoding of a payload |
| OutputPayload.CreateRandomFieldElement | packages/client/src/output.ts:166-176 | a 31-byte draw is always a field element; it fails only when all sixteen draws are zero |
| OutputPayload.G2CoordinatesAreSwapped | packages/client/src/proof-runner.ts:192-200 | the two reversals swap the coordinates and leave each big-endian |

## Left out

- HTTP routes and clients, JSON envelopes, environment loading, logging, health checks and React components: input and output only.
- Poseidon, SHA-256, Keccak, AES-GCM, Groth16, base58, PDA derivation and the Anchor event coder: foreign code; they are function parameters or already decoded values.
- Transaction building, signing, relaying, lookup tables and confirmation polling: wrappers over the chain client and the clock.
- The circuit and the on-chain program: not in the repository.
- Error texts: a failure keeps which check refused, not its message. Conflicts found while normalizing notes are one error.
- Timestamps and last-error columns of the queue; the interval and single-flight promise of the indexer worker.
- Addresses and URLs are taken as valid; a canonical ISO timestamp is its number of milliseconds; a note key is the pair of its two addresses.
- The order of texts (`localeCompare`, the database collation) is an arbitrary parameter.
- Rows that the database returns from an update come in no promised order; the model lists a batch in the order it was selected.
- The chain's log only grows in the model. Discovery asks for confirmed signatures, whose rollback is not modelled.
- A status update either takes effect before its worker goes on or not at all; only the three inserts may land late.
- The note storage always parses as JSON; text that does not is an error before anything else happens.
- IndexerQueue.IndexerRepository.ClaimPendingSignatures: locks of concurrent claims are a given set of signatures, because the moment another transaction takes and releases a row lock is not modelled.
- NoteSyncAll.SyncAllNotes: the table does not change while it runs, because with a pool that grows faster than it is read the loop of the source need not end; interleavings with a growing pool are in NoteSyncProtocol.
- Instruction data reaches the parser already decoded from base58.
- List endpoints, pagination after an index, lookups by ciphertext and by commitment index: simple reads that add no property.
- The legacy text payload and the assembly of circuit signals: records of values that other members already state.
