/** The earlier PostgreSQL `check_leg` that reversing the migration restores:
    it sums every leg of the transaction across currencies into a
    `DECIMAL(13, 2)` variable and raises when that sum is not zero. */
module LegacyCheck {
  import opened Wrappers
  import opened Ledger

  /** `DECIMAL(13, 2)` holds at most 11 digits before the point, so its values
      are those below 10^13 hundredths in magnitude. */
  const DecimalLimit: nat := 10_000_000_000_000

  datatype RejectReason =
    | NonZeroSum            // 'Sum of transaction amounts must be 0'
    | NumericFieldOverflow  // the SUM does not fit the declared variable

  datatype LegacyOutcome = Accepted | Rejected(reason: RejectReason)

  lemma HasLegs(legs: seq<Leg>, tx: int, i: int)
    requires 0 <= i < |legs| && legs[i].txId == tx
    ensures LegsOf(legs, tx) != []
  {
    LegsOfCount(legs, tx, legs[i]);
    assert legs[i] in multiset(legs);
  }

  /** `SELECT SUM(amount) FROM hordak_leg WHERE transaction_id = tx`: NULL
      when the transaction has no legs at all. */
  function SqlSum(legs: seq<Leg>, tx: int): (r: Option<int>)
    ensures r.None? <==> forall i | 0 <= i < |legs| :: legs[i].txId != tx
    ensures r.Some? ==> r.value == TotalSum(legs, tx)
  {
    var rows := LegsOf(legs, tx);
    if rows == [] then
      assert forall i | 0 <= i < |legs| :: legs[i].txId != tx by {
        forall i | 0 <= i < |legs| ensures legs[i].txId != tx {
          if legs[i].txId == tx {
            HasLegs(legs, tx, i);
          }
        }
      }
      None
    else
      assert !forall i | 0 <= i < |legs| :: legs[i].txId != tx by {
        if forall i | 0 <= i < |legs| :: legs[i].txId != tx {
          NoLegsBalanced(legs, tx);
        }
      }
      Some(Sum(rows))
  }

  /** The legacy trigger function. The SUM is stored into a `DECIMAL(13, 2)`
      variable, which raises on overflow; `transaction_sum != 0` is not true
      when the SUM is NULL, so a transaction with no legs passes. */
  function LegacyCheckLeg(ev: LegEvent, legs: seq<Leg>): (r: LegacyOutcome)
    ensures ev.Delete? ==> (r.Accepted? <==> TotalSum(legs, ev.oldRow.txId) == 0)
    ensures !ev.Delete? ==> (r.Accepted? <==> TotalSum(legs, ev.newRow.txId) == 0)
    ensures r == Rejected(NumericFieldOverflow) <==> Abs(TotalSum(legs, CheckedTransaction(ev))) >= DecimalLimit
  {
    var tx := CheckedTransaction(ev);
    match SqlSum(legs, tx)
    case None =>
      assert TotalSum(legs, tx) == 0 by {
        NoLegsBalanced(legs, tx);
      }
      Accepted
    case Some(s) =>
      if Abs(s) >= DecimalLimit then Rejected(NumericFieldOverflow)
      else if s != 0 then Rejected(NonZeroSum)
      else Accepted
  }

  /** Every transaction the per-currency check passes also passes the legacy
      check, for every kind of row event. */
  lemma LegacyAcceptsBalanced(ev: LegEvent, legs: seq<Leg>)
    requires Balanced(legs, CheckedTransaction(ev))
    ensures LegacyCheckLeg(ev, legs).Accepted?
  {
    BalancedImpliesZeroTotal(legs, CheckedTransaction(ev));
  }

  /** The legacy check passes a deletion that leaves +1.00 USD against
      -1.00 EUR, which the per-currency check rejects. */
  lemma LegacyAcceptsMixedCurrencies()
    ensures LegacyCheckLeg(Delete(Leg(1, 50, "USD")), [Leg(1, 100, "USD"), Leg(1, -100, "EUR")]).Accepted?
    ensures !Balanced([Leg(1, 100, "USD"), Leg(1, -100, "EUR")], 1)
  {
    MixedCurrenciesExample();
  }
}
