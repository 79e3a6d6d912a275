// Quotes: a withdrawal fee is a floor-rounded share of the gross amount plus a rent, and the
// client inverts it by doubling and binary search; a deposit fee is subtracted directly.
module TransferQuotes {
  import opened Wrappers
  import Numerals

  datatype QuoteError = BadInput | FeeTooHigh

  function WithdrawalFee(gross: nat, bps: nat, rent: nat): nat {
    gross * bps / 10_000 + rent
  }

  // What the recipient gets of a gross withdrawal; negative while the fee exceeds it.
  function RecipientOutput(gross: nat, bps: nat, rent: nat): int {
    gross - WithdrawalFee(gross, bps, rent)
  }

  // The least gross amount that pays `recipient`, in closed form.
  function LeastGross(recipient: nat, bps: nat, rent: nat): nat
    requires recipient > 0 && bps < 10_000
  {
    (recipient + rent - 1) * 10_000 / (10_000 - bps) + 1
  }

  /** One more lamport of gross pays the recipient at most one more, and never one less. */
  lemma OutputStep(gross: nat, bps: nat, rent: nat)
    requires bps <= 10_000
    ensures 0 <= RecipientOutput(gross + 1, bps, rent) - RecipientOutput(gross, bps, rent) <= 1
  {
    var x := gross * bps;
    assert (gross + 1) * bps == x + bps;
    assert x / 10_000 <= (x + bps) / 10_000 <= x / 10_000 + 1;
  }

  // gross > m / c exactly when gross * c > m
  lemma DivThreshold(gross: nat, m: nat, c: nat)
    requires c > 0
    ensures gross >= m / c + 1 <==> gross * c > m
  {
    var q := m / c;
    assert m == q * c + m % c;
    if gross >= q + 1 {
      Numerals.MulMono(c, q + 1, gross);
      assert (q + 1) * c == q * c + c;
    } else {
      Numerals.MulMono(c, gross, q);
    }
  }

  /** The closed form is right: a gross amount pays at least `recipient` exactly from it on. */
  lemma OutputThreshold(gross: nat, recipient: nat, bps: nat, rent: nat)
    requires recipient > 0 && bps < 10_000
    ensures RecipientOutput(gross, bps, rent) >= recipient <==> gross >= LeastGross(recipient, bps, rent)
  {
    var x, c, n := gross * bps, 10_000 - bps, recipient + rent;
    assert gross * c == gross * 10_000 - x;
    assert x == x / 10_000 * 10_000 + x % 10_000;
    DivThreshold(gross, (n - 1) * 10_000, c);
    assert gross - x / 10_000 >= n <==> gross * c > (n - 1) * 10_000;
  }

  lemma OutputAtLeast(recipient: nat, bps: nat, rent: nat)
    requires recipient > 0 && bps < 10_000
    ensures RecipientOutput(LeastGross(recipient, bps, rent), bps, rent) == recipient
  {
    var g := LeastGross(recipient, bps, rent);
    OutputThreshold(g, recipient, bps, rent);
    OutputThreshold(g - 1, recipient, bps, rent);
    OutputStep(g - 1, bps, rent);
  }

  /** Doubling, then binary search.  The doubling stops because no bound below the closed form
      pays enough.  The result is the least gross amount that pays the recipient, and it pays
      the recipient exactly. */
  method CalculateGrossWithdrawal(recipient: int, bps: int, rent: int) returns (r: Result<nat, QuoteError>)
    ensures r.Success? <==> recipient > 0 && 0 <= bps < 10_000 && rent >= 0
    ensures r.Failure? && r.error == FeeTooHigh <==> recipient > 0 && bps == 10_000 && rent >= 0
    ensures r.Success? ==> RecipientOutput(r.value, bps, rent) == recipient
    ensures r.Success? ==> forall g: nat :: RecipientOutput(g, bps, rent) >= recipient <==> g >= r.value
    ensures r.Success? ==> r.value == LeastGross(recipient, bps, rent)
  {
    if recipient <= 0 || bps < 0 || bps > 10_000 || rent < 0 {
      return Failure(BadInput);
    }
    if bps >= 10_000 {
      return Failure(FeeTooHigh);
    }
    ghost var least := LeastGross(recipient, bps, rent);
    OutputAtLeast(recipient, bps, rent);
    var low: nat := recipient;
    var high: nat := recipient + rent + 1;
    OutputThreshold(high, recipient, bps, rent);
    while RecipientOutput(high, bps, rent) < recipient
      invariant high > 0
      invariant RecipientOutput(high, bps, rent) < recipient ==> high < least
      decreases least - high
    {
      high := high * 2;
      OutputThreshold(high, recipient, bps, rent);
    }
    OutputThreshold(high, recipient, bps, rent);
    while low < high
      invariant low <= least <= high
    {
      var midpoint := (low + high) / 2;
      OutputThreshold(midpoint, recipient, bps, rent);
      if RecipientOutput(midpoint, bps, rent) >= recipient {
        high := midpoint;
      } else {
        low := midpoint + 1;
      }
    }
    forall g: nat
      ensures RecipientOutput(g, bps, rent) >= recipient <==> g >= low
    {
      OutputThreshold(g, recipient, bps, rent);
    }
    return Success(low);
  }

  datatype TransferQuote = TransferQuote(
    recipientLamports: int,
    privateBalanceLamports: int,
    grossWithdrawalLamports: int,
    withdrawalFeeLamports: int,
    shieldLamports: int,
    withdrawalFeeBps: int,
    withdrawRentFeeLamports: int)

  function Shortfall(gross: int, balance: int): int {
    if gross > balance then gross - balance else 0
  }

  // transferQuoteSchema with its refinement
  predicate ValidTransferQuote(q: TransferQuote) {
    && q.recipientLamports > 0
    && q.privateBalanceLamports >= 0
    && q.grossWithdrawalLamports > 0
    && q.withdrawalFeeLamports >= 0
    && q.shieldLamports >= 0
    && 0 <= q.withdrawalFeeBps <= 10_000
    && q.withdrawRentFeeLamports >= 0
    && q.grossWithdrawalLamports - q.withdrawalFeeLamports == q.recipientLamports
    && q.shieldLamports == Shortfall(q.grossWithdrawalLamports, q.privateBalanceLamports)
  }

  /** Every well-formed request below a 100% fee is quoted, and the quote passes the schema that
      the client parses it with: the fee and the recipient's amount add up to the gross amount,
      and the shield is what the private balance lacks. */
  method QuoteTransfer(recipient: int, balance: int, bps: int, rent: int)
    returns (r: Result<TransferQuote, QuoteError>)
    ensures r.Success? <==> recipient > 0 && balance >= 0 && 0 <= bps < 10_000 && rent >= 0
    ensures r.Success? ==> ValidTransferQuote(r.value)
    ensures r.Success? ==> var q := r.value;
      && q.recipientLamports == recipient && q.privateBalanceLamports == balance
      && q.withdrawalFeeBps == bps && q.withdrawRentFeeLamports == rent
      && q.grossWithdrawalLamports == LeastGross(recipient, bps, rent)
      && q.withdrawalFeeLamports == WithdrawalFee(q.grossWithdrawalLamports, bps, rent)
      && q.grossWithdrawalLamports == recipient + q.withdrawalFeeLamports
    ensures r.Success? ==> var q := r.value;
      && q.shieldLamports >= 0 && balance + q.shieldLamports >= q.grossWithdrawalLamports
      && (q.shieldLamports > 0 ==> balance + q.shieldLamports == q.grossWithdrawalLamports)
    ensures r.Success? ==> var q := r.value;
      q.grossWithdrawalLamports * bps - 10_000 < (q.withdrawalFeeLamports - rent) * 10_000 <= q.grossWithdrawalLamports * bps
  {
    if balance < 0 {
      return Failure(BadInput);
    }
    var gross :- CalculateGrossWithdrawal(recipient, bps, rent);
    var fee := WithdrawalFee(gross, bps, rent);
    return Success(TransferQuote(recipient, balance, gross, fee, Shortfall(gross, balance), bps, rent));
  }

  datatype DepositQuote = DepositQuote(
    depositLamports: int, privateOutputLamports: int, depositFeeLamports: int, depositFeeBps: int)

  // depositQuoteSchema with its refinement
  predicate ValidDepositQuote(q: DepositQuote) {
    && q.depositLamports > 0
    && q.privateOutputLamports > 0
    && q.depositFeeLamports >= 0
    && 0 <= q.depositFeeBps <= 10_000
    && q.depositLamports - q.depositFeeLamports == q.privateOutputLamports
    && q.depositFeeLamports == q.depositLamports * q.depositFeeBps / 10_000
  }

  lemma DepositFeeBelowDeposit(lamports: nat, bps: nat)
    requires lamports > 0 && bps <= 10_000
    ensures lamports * bps / 10_000 < lamports <==> bps < 10_000
  {
    if bps < 10_000 {
      Numerals.MulMono(lamports, bps, 9_999);
      assert lamports * bps < lamports * 10_000;
    }
  }

  /** A deposit is quoted exactly when it is positive and its fee is below 100%.  The fee is the
      share of the deposit rounded down, the rest is the private output, and the quote passes its
      own schema. */
  function QuoteDeposit(lamports: int, bps: int): (r: Result<DepositQuote, QuoteError>)
    ensures r.Success? <==> lamports > 0 && 0 <= bps < 10_000
    ensures r.Failure? ==> (r.error == FeeTooHigh <==> lamports > 0 && bps == 10_000)
    ensures r.Success? ==> ValidDepositQuote(r.value)
    ensures r.Success? ==> var q := r.value;
      && q.depositLamports == lamports && q.depositFeeBps == bps
      && q.privateOutputLamports == lamports - q.depositFeeLamports
      && q.depositFeeLamports * 10_000 <= lamports * bps < (q.depositFeeLamports + 1) * 10_000
  {
    if lamports <= 0 || bps < 0 || bps > 10_000 then Failure(BadInput)
    else
      var fee := lamports * bps / 10_000;
      DepositFeeBelowDeposit(lamports, bps);
      if fee >= lamports then Failure(FeeTooHigh)
      else Success(DepositQuote(lamports, lamports - fee, fee, bps))
  }
}
