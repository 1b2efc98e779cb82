/** The current `check_leg`: the transaction being written must balance in
    every currency separately. PostgreSQL runs it as a row-level trigger
    function; MySQL runs the same grouped query as a procedure that is given
    the transaction id directly. */
module ZeroSumCheck {
  import opened Ledger

  /** `check_leg` either returns normally or raises, naming one currency whose
      legs do not sum to zero and the absolute value of that sum. */
  datatype CheckOutcome = Ok | Err(currency: string, total: nat)

  /** `groups` holds, for each currency group of transaction `tx` among
      `legs`, that group's sum, and nothing else. */
  predicate Grouped(groups: map<string, int>, legs: seq<Leg>, tx: int)
  {
    && groups.Keys == Currencies(legs, tx)
    && forall c | c in groups :: groups[c] == CurrencySum(legs, tx, c)
  }

  /** One row of the scan: a leg of transaction `tx` adds its amount to its
      currency's running sum, opening the group if needed; other rows are
      skipped. */
  function AddToGroup(groups: map<string, int>, l: Leg, tx: int): map<string, int>
  {
    if l.txId != tx then groups
    else groups[l.currency := (if l.currency in groups then groups[l.currency] else 0) + l.amount]
  }

  /** Adding the next scanned row to the running group sums keeps them exact. */
  lemma GroupStep(groups: map<string, int>, legs: seq<Leg>, l: Leg, tx: int)
    requires Grouped(groups, legs, tx)
    ensures Grouped(AddToGroup(groups, l, tx), legs + [l], tx)
  {
    var next := legs + [l];
    var updated := AddToGroup(groups, l, tx);
    assert updated.Keys == Currencies(next, tx) by {
      AppendLeg(legs, l, tx, l.currency);
    }
    forall c | c in updated
      ensures updated[c] == CurrencySum(next, tx, c)
    {
      AppendLeg(legs, l, tx, c);
      if c !in groups {
        NoSuchCurrency(legs, tx, c);
      }
    }
  }

  /** The rows of `SELECT SUM(amount) ... WHERE transaction_id = tx GROUP BY
      amount_currency`, as a map from currency to its group's sum, built in
      one scan of the table. */
  method GroupByCurrency(legs: seq<Leg>, tx: int) returns (groups: map<string, int>)
    ensures groups.Keys == Currencies(legs, tx)
    ensures forall c | c in groups :: groups[c] == CurrencySum(legs, tx, c)
  {
    groups := map[];
    var i := 0;
    while i < |legs|
      invariant 0 <= i <= |legs|
      invariant Grouped(groups, legs[..i], tx)
    {
      var l := legs[i];
      assert legs[..i + 1] == legs[..i] + [l];
      GroupStep(groups, legs[..i], l, tx);
      groups := AddToGroup(groups, l, tx);
      i := i + 1;
    }
    assert legs[..i] == legs;
  }

  /** The grouped check for one transaction. `HAVING ABS(SUM(amount)) > 0`
      keeps the unbalanced currencies; `LIMIT 1` without `ORDER BY` picks any
      one of them, so the reported currency is chosen nondeterministically. */
  method CheckLeg(legs: seq<Leg>, tx: int) returns (r: CheckOutcome)
    ensures r.Ok? <==> Balanced(legs, tx)
    ensures r.Err? ==> r.currency in Currencies(legs, tx)
    ensures r.Err? ==> r.total == Abs(CurrencySum(legs, tx, r.currency)) && r.total > 0
  {
    var groups := GroupByCurrency(legs, tx);
    var nonZero := set c | c in groups && Abs(groups[c]) > 0;
    if nonZero == {} {
      forall c | c in Currencies(legs, tx)
        ensures CurrencySum(legs, tx, c) == 0
      {
        assert c !in nonZero;
      }
      r := Ok;
    } else {
      var c :| c in nonZero;
      assert CurrencySum(legs, tx, c) != 0;
      r := Err(c, Abs(groups[c]));
    }
  }

  /** The PostgreSQL trigger function: checks the transaction of the OLD row
      on a DELETE and of the NEW row on an INSERT or UPDATE. */
  method CheckLegTrigger(ev: LegEvent, legs: seq<Leg>) returns (r: CheckOutcome)
    ensures ev.Delete? ==> (r.Ok? <==> Balanced(legs, ev.oldRow.txId))
    ensures !ev.Delete? ==> (r.Ok? <==> Balanced(legs, ev.newRow.txId))
    ensures r.Err? ==> r.currency in Currencies(legs, CheckedTransaction(ev))
    ensures r.Err? ==> r.total == Abs(CurrencySum(legs, CheckedTransaction(ev), r.currency)) && r.total > 0
  {
    r := CheckLeg(legs, CheckedTransaction(ev));
  }

  /** An UPDATE that moves a leg to another transaction checks only the
      transaction it moved to: here transaction 2 balances while transaction 1,
      which lost its +1.00 USD leg, is left at -1.00 USD. */
  lemma UpdateChecksOnlyNewTransaction()
    ensures Balanced([Leg(1, -100, "USD"), Leg(2, -100, "USD"), Leg(2, 100, "USD")],
                     CheckedTransaction(Update(Leg(1, 100, "USD"), Leg(2, 100, "USD"))))
    ensures !Balanced([Leg(1, -100, "USD"), Leg(2, -100, "USD"), Leg(2, 100, "USD")], 1)
  {
    var a, b, c := Leg(1, -100, "USD"), Leg(2, -100, "USD"), Leg(2, 100, "USD");
    var legs := [a, b, c];
    assert legs[..2] == [a, b];
    assert [a, b][..1] == [a];
    assert [a][..0] == [];
    assert LegsOf([a], 1) == [a];
    assert LegsOf([a, b], 1) == [a];
    assert LegsOf(legs, 1) == [a];
    assert LegsOf([a], 2) == [];
    assert LegsOf([a, b], 2) == [b];
    assert LegsOf(legs, 2) == [b, c];
    assert [b, c][..1] == [b];
    assert [b][..0] == [];
    assert InCurrency([b], "USD") == [b];
    assert InCurrency([b, c], "USD") == [b, c];
    assert Sum([b]) == -100;
    assert Sum([b, c]) == 0;
    assert Currencies(legs, 2) == {"USD"};
    assert CurrencySum(legs, 2, "USD") == 0;
    assert a in LegsOf(legs, 1);
    assert InCurrency([a], "USD") == [a];
    assert Sum([a]) == -100;
    assert CurrencySum(legs, 1, "USD") == -100;
  }
}
