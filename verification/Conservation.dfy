// Value conservation from a quote to the check made just before proving: what goes in equals what
// comes out, although the public amount in between is 32 bytes modulo a 254-bit prime.
module Conservation {
  import opened Wrappers
  import opened Numerals
  import opened FieldCodec
  import opened ExtDataPreimage
  import opened TransferQuotes
  import opened NoteSelection

  datatype ProveError = BadNoteCount | BadQuote | NotCovered | AmountsInconsistent | ShieldNotImplemented
    | OutputTooLargeToEncrypt | BadPublicAmount | InvariantFailed

  // ---- program.ts and proof-runner.ts ----

  // The remainder of a JavaScript bigint, which takes the sign of the dividend.
  function JsRem(v: int, p: nat): int
    requires p > 0
  {
    if v >= 0 then v % p else -((-v) % p)
  }

  // The residue of an integer in the field.
  function Residue(v: int): (r: nat)
    ensures r < FIELD_SIZE
  {
    v % FIELD_SIZE
  }

  function ModField(v: int): (r: int)
    ensures r == Residue(v)
  {
    JsRemTwice(v, FIELD_SIZE);
    JsRem(JsRem(v, FIELD_SIZE) + FIELD_SIZE, FIELD_SIZE)
  }

  // fieldDecimalToBytes on the decimal of n
  function EncodeField(n: int): Result<seq<byte>, ProveError> {
    if 0 <= n < FIELD_SIZE then Success(FieldBytes(n)) else Failure(BadPublicAmount)
  }

  function EncodePublicAmount(ext: ExtData): Result<seq<byte>, ProveError> {
    if !InI64(ext.extAmount) || !InU64(ext.fee) || ext.extAmount == I64_MIN then Failure(BadPublicAmount)
    else if ext.extAmount >= 0 then
      if ext.extAmount <= ext.fee then Failure(BadPublicAmount) else EncodeField(ext.extAmount - ext.fee)
    else EncodeField(ModField(-(-ext.extAmount + ext.fee)))
  }

  // The two input and two output amounts that a proof is made for.
  datatype Amounts = Amounts(in0: nat, in1: nat, out0: nat, out1: nat)

  // validateAmountInvariant returns without throwing
  predicate AmountInvariant(a: Amounts, publicAmount: seq<byte>) {
    var n := FieldOfBytes(publicAmount);
    n.Success? && n.value == ModField(a.out0 + a.out1 - (a.in0 + a.in1))
  }

  predicate AmountsInU64(a: Amounts) {
    InU64(a.in0) && InU64(a.in1) && InU64(a.out0) && InU64(a.out1)
  }

  // What the external data adds to the pool: negative for a withdrawal.
  function NetDeposit(ext: ExtData): int {
    ext.extAmount - ext.fee
  }

  function OutMinusIn(a: Amounts): int {
    a.out0 + a.out1 - (a.in0 + a.in1)
  }

  lemma MulSpread(d: int, p: nat)
    ensures d >= 1 ==> d * p >= p
    ensures d <= -1 ==> d * p + p <= 0
  {
  }

  lemma ModUnique(v: int, q: int, r: nat, p: nat)
    requires r < p && v == q * p + r
    ensures v % p == r
  {
    var d := v / p - q;
    assert d * p == v / p * p - q * p;
    MulSpread(d, p);
  }

  lemma JsRemTwice(v: int, p: nat)
    requires p > 0
    ensures JsRem(JsRem(v, p) + p, p) == v % p
  {
    if v < 0 {
      var q: int, m: int := (-v) / p, (-v) % p;
      NegatedDivision(v, q, m, p);
      ModUnique(v, if m == 0 then -q else -q - 1, if m == 0 then 0 else p - m, p);
      ModUnique(p - m, if m == 0 then 1 else 0, if m == 0 then 0 else p - m, p);
    } else {
      ModUnique(v % p + p, 1, v % p, p);
    }
  }

  lemma NegatedDivision(v: int, q: int, m: int, p: int)
    requires -v == q * p + m
    ensures v == (-q) * p - m
    ensures v == (-q - 1) * p + (p - m)
  {
  }

  lemma CloseModsEqual(x: int, y: int, p: nat)
    requires p > 0 && x - y < p && y - x < p && x % p == y % p
    ensures x == y
  {
    var d := x / p - y / p;
    assert d * p == x / p * p - y / p * p;
    MulSpread(d, p);
  }

  // Integers closer than the field size are equal when their residues are.
  lemma CloseResiduesEqual(x: int, y: int)
    requires x - y < FIELD_SIZE && y - x < FIELD_SIZE
    ensures Residue(x) == Residue(y) <==> x == y
  {
    if Residue(x) == Residue(y) {
      CloseModsEqual(x, y, FIELD_SIZE);
    }
  }

  lemma ResidueOfField(x: nat)
    requires x < FIELD_SIZE
    ensures Residue(x) == x
  {
  }

  // What the encoder accepts.
  predicate EncodableAmount(ext: ExtData) {
    && InI64(ext.extAmount) && InU64(ext.fee) && ext.extAmount != I64_MIN
    && (ext.extAmount >= 0 ==> ext.extAmount > ext.fee)
  }

  // Both branches of the encoder write the same residue.
  lemma PublicAmountIsResidue(ext: ExtData)
    ensures EncodePublicAmount(ext).Success? <==> EncodableAmount(ext)
    ensures EncodePublicAmount(ext).Failure? ==> EncodePublicAmount(ext).error == BadPublicAmount
    ensures EncodePublicAmount(ext).Success? ==>
      EncodePublicAmount(ext).value == FieldBytes(Residue(NetDeposit(ext)))
  {
    hide Residue, ModField, FieldBytes;
    if EncodableAmount(ext) && ext.extAmount >= 0 {
      ResidueOfField(NetDeposit(ext));
    }
  }

  // What the check before proving compares.
  lemma InvariantCompares(a: Amounts, n: nat)
    requires n < FIELD_SIZE
    ensures AmountInvariant(a, FieldBytes(n)) <==> n == Residue(OutMinusIn(a))
  {
    hide Residue, ModField, FieldBytes, FieldOfBytes;
    FieldBytesRoundTrip(n);
  }

  /** The check before proving is exactly conservation over the integers: for amounts in the
      64-bit ranges it passes if and only if what the outputs exceed the inputs by is the net
      deposit, with no wrap-around of the prime. */
  lemma InvariantIsConservation(a: Amounts, ext: ExtData)
    requires AmountsInU64(a) && EncodePublicAmount(ext).Success?
    ensures AmountInvariant(a, EncodePublicAmount(ext).value) <==> OutMinusIn(a) == NetDeposit(ext)
  {
    hide Residue, FieldBytes, AmountInvariant, EncodePublicAmount;
    PublicAmountIsResidue(ext);
    InvariantCompares(a, Residue(NetDeposit(ext)));
    CloseResiduesEqual(NetDeposit(ext), OutMinusIn(a));
  }

  // ---- prover.ts and circuit.ts ----

  datatype CircuitAmounts = CircuitAmounts(
    recipientLamports: int,
    grossWithdrawalLamports: int,
    withdrawalFeeLamports: int,
    shieldLamports: int,
    selectedInputLamports: int,
    changeLamports: int)

  function CreateCircuitInput(q: TransferQuote, notes: seq<OwnedNote>): Result<CircuitAmounts, ProveError> {
    var selected := TotalLamports(notes);
    if selected < q.grossWithdrawalLamports then Failure(NotCovered)
    else Success(CircuitAmounts(q.recipientLamports, q.grossWithdrawalLamports, q.withdrawalFeeLamports,
                                q.shieldLamports, selected, selected - q.grossWithdrawalLamports))
  }

  // validateCircuitAmounts returns without throwing
  predicate ValidCircuitAmounts(c: CircuitAmounts, notes: seq<OwnedNote>) {
    && TotalLamports(notes) == c.selectedInputLamports
    && TotalLamports(notes) >= c.grossWithdrawalLamports
    && c.changeLamports == TotalLamports(notes) - c.grossWithdrawalLamports
  }

  // The second input is a dummy of amount zero when one note is spent, and so is the second output.
  function TransferAmounts(c: CircuitAmounts, notes: seq<OwnedNote>): Amounts
    requires 1 <= |notes| <= 2 && c.changeLamports >= 0
  {
    Amounts(notes[0].amountLamports, if |notes| == 2 then notes[1].amountLamports else 0, c.changeLamports, 0)
  }

  // What a run hands to the prover.
  datatype ProofAmounts = ProofAmounts(amounts: Amounts, extData: ExtData, publicAmount: seq<byte>)

  // The amount part of the encrypted outputs, the public amount, and the check before proving.
  function FinishProof(amounts: Amounts, ext: ExtData): Result<ProofAmounts, ProveError> {
    if !InU64(amounts.out0) || !InU64(amounts.out1) then Failure(OutputTooLargeToEncrypt)
    else
      var publicAmount :- EncodePublicAmount(ext);
      if !AmountInvariant(amounts, publicAmount) then Failure(InvariantFailed)
      else Success(ProofAmounts(amounts, ext, publicAmount))
  }

  /** The last steps succeed exactly when the outputs fit 64 bits, the public amount can be encoded
      and the integers balance. */
  lemma FinishIff(a: Amounts, ext: ExtData)
    requires InU64(a.in0) && InU64(a.in1)
    ensures FinishProof(a, ext).Success? <==>
      && a.out0 < 0x1_0000_0000_0000_0000 && a.out1 < 0x1_0000_0000_0000_0000
      && EncodableAmount(ext) && OutMinusIn(a) == NetDeposit(ext)
  {
    hide AmountInvariant, EncodePublicAmount, EncodableAmount;
    PublicAmountIsResidue(ext);
    if InU64(a.out0) && InU64(a.out1) && EncodePublicAmount(ext).Success? {
      InvariantIsConservation(a, ext);
    }
  }

  /** Everything a withdrawal does with amounts, from the notes selected for a quote to the check
      before proving. */
  function ProveTransfer(q: TransferQuote, notes: seq<OwnedNote>): Result<ProofAmounts, ProveError> {
    if !ValidTransferQuote(q) then Failure(BadQuote)
    else if |notes| < 1 || |notes| > 2 then Failure(BadNoteCount)
    else
      var c :- CreateCircuitInput(q, notes);
      if !ValidCircuitAmounts(c, notes) then Failure(AmountsInconsistent)
      else if c.shieldLamports > 0 then Failure(ShieldNotImplemented)
      else FinishProof(TransferAmounts(c, notes), ExtData(-c.recipientLamports, c.withdrawalFeeLamports))
  }

  function ProveDeposit(q: DepositQuote): Result<ProofAmounts, ProveError> {
    if !ValidDepositQuote(q) then Failure(BadQuote)
    else FinishProof(Amounts(0, 0, q.privateOutputLamports, 0), ExtData(q.depositLamports, q.depositFeeLamports))
  }

  lemma TotalOfFew(notes: seq<OwnedNote>)
    requires 1 <= |notes| <= 2
    ensures TotalLamports(notes) == notes[0].amountLamports + (if |notes| == 2 then notes[1].amountLamports else 0)
  {
    if |notes| == 2 {
      assert TotalLamports(notes[1..]) == notes[1].amountLamports + TotalLamports(notes[1..][1..]);
    }
  }

  // An integer balance always passes the check, whatever the size of the amounts.
  lemma BalancePasses(a: Amounts, ext: ExtData)
    requires EncodePublicAmount(ext).Success? && OutMinusIn(a) == NetDeposit(ext)
    ensures AmountInvariant(a, EncodePublicAmount(ext).value)
  {
    hide *;
    PublicAmountIsResidue(ext);
    InvariantCompares(a, Residue(NetDeposit(ext)));
  }

  // The amounts of a quote that passes its schema, written out.
  lemma TransferQuoteIs(q: TransferQuote)
    ensures ValidTransferQuote(q) <==>
      && 0 < q.recipientLamports == q.grossWithdrawalLamports - q.withdrawalFeeLamports
      && q.withdrawalFeeLamports >= 0 && q.privateBalanceLamports >= 0 && q.withdrawRentFeeLamports >= 0
      && 0 <= q.withdrawalFeeBps <= 10_000
      && q.shieldLamports >= 0 && q.privateBalanceLamports + q.shieldLamports >= q.grossWithdrawalLamports
      && (q.shieldLamports > 0 ==> q.privateBalanceLamports + q.shieldLamports == q.grossWithdrawalLamports)
  {
  }

  /** A withdrawal reaches the prover exactly when its quote passes the schema and asks for no
      shield, so that the private balance covers the gross amount; when one or two notes cover it as
      well; and when the amounts that are encoded fit: the recipient's below 2^63, the fee and the
      change below 2^64.  It then never fails the check before proving. */
  lemma TransferReachesProver(q: TransferQuote, notes: seq<OwnedNote>)
    ensures ProveTransfer(q, notes).Success? <==>
      && 0 < q.recipientLamports == q.grossWithdrawalLamports - q.withdrawalFeeLamports
      && q.withdrawalFeeLamports >= 0 && q.withdrawRentFeeLamports >= 0 && 0 <= q.withdrawalFeeBps <= 10_000
      && q.shieldLamports == 0 && q.privateBalanceLamports >= q.grossWithdrawalLamports
      && 1 <= |notes| <= 2 && TotalLamports(notes) >= q.grossWithdrawalLamports
      && q.recipientLamports < 0x8000_0000_0000_0000 && q.withdrawalFeeLamports < 0x1_0000_0000_0000_0000
      && TotalLamports(notes) - q.grossWithdrawalLamports < 0x1_0000_0000_0000_0000
    ensures ProveTransfer(q, notes) != Failure(InvariantFailed) && ProveTransfer(q, notes) != Failure(AmountsInconsistent)
    ensures ProveTransfer(q, notes) == Failure(ShieldNotImplemented) <==>
      ValidTransferQuote(q) && 1 <= |notes| <= 2 && TotalLamports(notes) >= q.grossWithdrawalLamports && q.shieldLamports > 0
  {
    hide Residue, FieldBytes, AmountInvariant, EncodePublicAmount, TotalLamports, ValidTransferQuote;
    TransferQuoteIs(q);
    if ValidTransferQuote(q) && 1 <= |notes| <= 2 && TotalLamports(notes) >= q.grossWithdrawalLamports {
      TotalOfFew(notes);
      var ext := ExtData(-q.recipientLamports, q.withdrawalFeeLamports);
      PublicAmountIsResidue(ext);
      if EncodePublicAmount(ext).Success? {
        BalancePasses(TransferAmounts(CreateCircuitInput(q, notes).value, notes), ext);
      }
    }
  }

  /** Nothing is lost or created in a withdrawal: the notes spent are the change, the recipient's
      amount and the fee, and the 32 public bytes hold that balance modulo the field. */
  lemma TransferConserves(q: TransferQuote, notes: seq<OwnedNote>)
    requires ProveTransfer(q, notes).Success?
    ensures var p := ProveTransfer(q, notes).value;
      && p.amounts.in0 + p.amounts.in1 == TotalLamports(notes)
      && TotalLamports(notes) == p.amounts.out0 + p.amounts.out1 + q.recipientLamports + q.withdrawalFeeLamports
      && p.publicAmount == FieldBytes(Residue(OutMinusIn(p.amounts)))
  {
    hide Residue, FieldBytes, AmountInvariant, EncodePublicAmount, TotalLamports;
    TotalOfFew(notes);
    PublicAmountIsResidue(ExtData(-q.recipientLamports, q.withdrawalFeeLamports));
  }

  // Likewise for a deposit; the fee is the share rounded down.
  lemma DepositQuoteIs(q: DepositQuote)
    ensures ValidDepositQuote(q) <==>
      && q.depositLamports == q.privateOutputLamports + q.depositFeeLamports
      && q.privateOutputLamports > 0 && q.depositFeeLamports >= 0 && 0 <= q.depositFeeBps <= 10_000
      && q.depositFeeLamports * 10_000 <= q.depositLamports * q.depositFeeBps < (q.depositFeeLamports + 1) * 10_000
  {
    FloorIs(q.depositLamports * q.depositFeeBps, q.depositFeeLamports);
  }

  lemma FloorIs(n: int, f: int)
    ensures f == n / 10_000 <==> f * 10_000 <= n < (f + 1) * 10_000
  {
  }

  /** A deposit reaches the prover exactly when its quote passes the schema and is below 2^63, and
      then what is deposited is the private output and the fee. */
  lemma DepositConserves(q: DepositQuote)
    ensures ProveDeposit(q).Success? <==> ValidDepositQuote(q) && q.depositLamports < 0x8000_0000_0000_0000
    ensures ProveDeposit(q) != Failure(InvariantFailed)
    ensures ProveDeposit(q) == Failure(BadQuote) <==> !ValidDepositQuote(q)
    ensures ProveDeposit(q).Success? ==> var p := ProveDeposit(q).value;
      && p.amounts.in0 + p.amounts.in1 == 0 && p.amounts.out0 == q.privateOutputLamports
      && q.depositLamports == p.amounts.out0 + p.amounts.out1 + q.depositFeeLamports
      && p.extData == ExtData(q.depositLamports, q.depositFeeLamports)
      && p.publicAmount == FieldBytes(Residue(OutMinusIn(p.amounts)))
  {
    hide Residue, FieldBytes, AmountInvariant, EncodePublicAmount, ValidDepositQuote;
    DepositQuoteIs(q);
    var ext := ExtData(q.depositLamports, q.depositFeeLamports);
    PublicAmountIsResidue(ext);
    if ValidDepositQuote(q) && EncodePublicAmount(ext).Success? {
      BalancePasses(Amounts(0, 0, q.privateOutputLamports, 0), ext);
    }
  }

  /** The whole chain of a deposit, from a request to the prover: quote it and prove the quote.  It
      succeeds exactly for a positive deposit below 2^63 with a fee below 100%; then the fee is the
      share rounded down, the private output is all the rest, and the 32 public bytes hold it. */
  method DepositPrivately(lamports: int, bps: int) returns (r: Result<ProofAmounts, ProveError>)
    ensures r.Success? <==> 0 < lamports < 0x8000_0000_0000_0000 && 0 <= bps < 10_000
    ensures r == Failure(BadQuote) <==> !(lamports > 0 && 0 <= bps < 10_000)
    ensures r.Success? ==>
      var output, fee := r.value.amounts.out0, r.value.extData.fee;
      && r.value.amounts == Amounts(0, 0, output, 0) && r.value.extData == ExtData(lamports, fee)
      && output == lamports - fee
      && fee * 10_000 <= lamports * bps < (fee + 1) * 10_000
      && r.value.publicAmount == FieldBytes(Residue(output))
  {
    hide Residue, FieldBytes, AmountInvariant, EncodePublicAmount, ValidDepositQuote;
    var quoted := QuoteDeposit(lamports, bps);
    if quoted.Failure? {
      return Failure(BadQuote);
    }
    DepositConserves(quoted.value);
    return ProveDeposit(quoted.value);
  }

  /** The whole chain, from a request to the prover: quote it, select notes for it among those in
      the local backup, and prove it.  With a balance that counts those notes, the only ways to
      fail are a bad request, no pair of notes that covers it, a shield that the circuit does not
      implement, and amounts beyond 64 bits; and a success pays the recipient exactly what was
      asked out of exactly the notes spent, each of them given and none spent twice. */
  method PayRecipient(collate: Collation, notes: seq<OwnedNote>, backupIndexes: set<nat>,
                      recipient: int, balance: int, bps: int, rent: int)
    returns (r: Result<ProofAmounts, ProveError>, spent: seq<OwnedNote>)
    ensures r.Success? ==> recipient > 0 && 0 <= bps < 10_000 && rent >= 0
    ensures r.Success? ==> multiset(spent) <= multiset(notes)
    ensures r.Success? ==> forall n :: n in spent ==> n in notes && n.outputIndex in backupIndexes
    ensures r.Success? ==>
      var gross := LeastGross(recipient, bps, rent);
      && r.value.amounts.in0 + r.value.amounts.in1 == TotalLamports(spent)
      && TotalLamports(spent) == r.value.amounts.out0 + r.value.amounts.out1 + recipient + WithdrawalFee(gross, bps, rent)
      && r.value.extData == ExtData(-recipient, WithdrawalFee(gross, bps, rent))
    ensures r.Failure? ==> !r.error.InvariantFailed? && !r.error.AmountsInconsistent? && !r.error.BadNoteCount?
    ensures (r.Failure? && r.error.NotCovered?) <==>
      && recipient > 0 && balance >= 0 && 0 <= bps < 10_000 && rent >= 0
      && var known := KnownNotes(notes, backupIndexes);
      !OneReaches(known, LeastGross(recipient, bps, rent)) && !TwoReach(known, LeastGross(recipient, bps, rent))
    ensures (r.Failure? && r.error.BadQuote?) <==> !(recipient > 0 && balance >= 0 && 0 <= bps < 10_000 && rent >= 0)
    ensures (r.Failure? && r.error.ShieldNotImplemented?) <==>
      && recipient > 0 && balance >= 0 && 0 <= bps < 10_000 && rent >= 0
      && var known := KnownNotes(notes, backupIndexes);
      && (OneReaches(known, LeastGross(recipient, bps, rent)) || TwoReach(known, LeastGross(recipient, bps, rent)))
      && balance < LeastGross(recipient, bps, rent)
    ensures r.Success? <==>
      && 0 < recipient < 0x8000_0000_0000_0000 && 0 <= bps < 10_000 && rent >= 0
      && var known, gross := KnownNotes(notes, backupIndexes), LeastGross(recipient, bps, rent);
      && balance >= gross && (OneReaches(known, gross) || TwoReach(known, gross))
      && gross - recipient < 0x1_0000_0000_0000_0000
      && TotalLamports(spent) - gross < 0x1_0000_0000_0000_0000
  {
    hide LeastGross, WithdrawalFee, SortNotes, KnownNotes, OneReaches, TwoReach, TotalLamports;
    spent := [];
    var quoted := QuoteTransfer(recipient, balance, bps, rent);
    if quoted.Failure? {
      return Failure(BadQuote), [];
    }
    var quote := quoted.value;
    var selected := SelectNotes(collate, notes, backupIndexes, quote.grossWithdrawalLamports);
    if selected.Failure? {
      return Failure(NotCovered), [];
    }
    spent := selected.value;
    TransferReachesProver(quote, spent);
    r := ProveTransfer(quote, spent);
    if r.Success? {
      TransferConserves(quote, spent);
    }
  }
}
