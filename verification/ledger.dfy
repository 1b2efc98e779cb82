/** The `hordak_leg` table as the `check_leg` procedures see it, the
    aggregates their queries compute over it, and the zero-sum properties of
    those aggregates.

    Amounts are exact fixed-point decimals with two places, held here as
    integers counting hundredths; debits are positive and credits negative. */
module Ledger {

  /** One row of `hordak_leg`: the transaction it belongs to, its signed
      amount in hundredths and its currency code (`amount_currency`). */
  datatype Leg = Leg(txId: int, amount: int, currency: string)

  /** The row operation that fired a row-level trigger, with the rows the
      trigger sees: NEW for an insert, OLD for a delete, both for an update. */
  datatype LegEvent =
    | Insert(newRow: Leg)
    | Update(oldRow: Leg, newRow: Leg)
    | Delete(oldRow: Leg)

  /** The transaction a trigger invocation checks: `OLD.transaction_id` when
      the operation is a DELETE and `NEW.transaction_id` otherwise. */
  function CheckedTransaction(ev: LegEvent): int
  {
    match ev
    case Delete(oldRow) => oldRow.txId
    case Insert(newRow) => newRow.txId
    case Update(_, newRow) => newRow.txId
  }

  function Abs(x: int): nat
  {
    if x < 0 then -x else x
  }

  /** `WHERE transaction_id = tx`, keeping table order. */
  function LegsOf(legs: seq<Leg>, tx: int): seq<Leg>
  {
    if |legs| == 0 then []
    else if legs[|legs| - 1].txId == tx then LegsOf(legs[..|legs| - 1], tx) + [legs[|legs| - 1]]
    else LegsOf(legs[..|legs| - 1], tx)
  }

  /** The legs of one currency group, keeping table order. */
  function InCurrency(legs: seq<Leg>, c: string): seq<Leg>
  {
    if |legs| == 0 then []
    else if legs[|legs| - 1].currency == c then InCurrency(legs[..|legs| - 1], c) + [legs[|legs| - 1]]
    else InCurrency(legs[..|legs| - 1], c)
  }

  /** The legs outside one currency group, keeping table order. */
  function OtherCurrencies(legs: seq<Leg>, c: string): seq<Leg>
  {
    if |legs| == 0 then []
    else if legs[|legs| - 1].currency != c then OtherCurrencies(legs[..|legs| - 1], c) + [legs[|legs| - 1]]
    else OtherCurrencies(legs[..|legs| - 1], c)
  }

  /** `SUM(amount)` over some rows, reading the empty sum as 0. */
  function Sum(legs: seq<Leg>): int
  {
    if |legs| == 0 then 0 else Sum(legs[..|legs| - 1]) + legs[|legs| - 1].amount
  }

  /** The currency groups of a transaction (`GROUP BY amount_currency`). */
  function Currencies(legs: seq<Leg>, tx: int): set<string>
  {
    set l | l in LegsOf(legs, tx) :: l.currency
  }

  /** The total of one currency group of a transaction. */
  function CurrencySum(legs: seq<Leg>, tx: int, c: string): int
  {
    Sum(InCurrency(LegsOf(legs, tx), c))
  }

  /** The total of a transaction across all its currencies. */
  function TotalSum(legs: seq<Leg>, tx: int): int
  {
    Sum(LegsOf(legs, tx))
  }

  /** The double-entry invariant: every currency among the transaction's legs
      sums to exactly zero. */
  predicate Balanced(legs: seq<Leg>, tx: int)
  {
    forall c | c in Currencies(legs, tx) :: CurrencySum(legs, tx, c) == 0
  }

  // ---------------------------------------------------------------------
  // Structural facts about the filters and the sum
  // ---------------------------------------------------------------------

  lemma {:induction false} SumAppend(a: seq<Leg>, b: seq<Leg>)
    ensures Sum(a + b) == Sum(a) + Sum(b)
    decreases |b|
  {
    if |b| == 0 {
      assert a + b == a;
    } else {
      var n := |b| - 1;
      assert (a + b)[..|a + b| - 1] == a + b[..n];
      SumAppend(a, b[..n]);
    }
  }

  lemma {:induction false} LegsOfAppend(a: seq<Leg>, b: seq<Leg>, tx: int)
    ensures LegsOf(a + b, tx) == LegsOf(a, tx) + LegsOf(b, tx)
    decreases |b|
  {
    if |b| == 0 {
      assert a + b == a;
    } else {
      var n := |b| - 1;
      assert (a + b)[..|a + b| - 1] == a + b[..n];
      LegsOfAppend(a, b[..n], tx);
    }
  }

  lemma {:induction false} InCurrencyAppend(a: seq<Leg>, b: seq<Leg>, c: string)
    ensures InCurrency(a + b, c) == InCurrency(a, c) + InCurrency(b, c)
    decreases |b|
  {
    if |b| == 0 {
      assert a + b == a;
    } else {
      var n := |b| - 1;
      assert (a + b)[..|a + b| - 1] == a + b[..n];
      InCurrencyAppend(a, b[..n], c);
    }
  }

  /** How often a row occurs among one transaction's legs. */
  lemma {:induction false} LegsOfCount(legs: seq<Leg>, tx: int, x: Leg)
    ensures multiset(LegsOf(legs, tx))[x] == if x.txId == tx then multiset(legs)[x] else 0
    decreases |legs|
  {
    if |legs| > 0 {
      var n := |legs| - 1;
      assert legs == legs[..n] + [legs[n]];
      LegsOfCount(legs[..n], tx, x);
    }
  }

  /** How often a row occurs in one currency group. */
  lemma {:induction false} InCurrencyCount(legs: seq<Leg>, c: string, x: Leg)
    ensures multiset(InCurrency(legs, c))[x] == if x.currency == c then multiset(legs)[x] else 0
    decreases |legs|
  {
    if |legs| > 0 {
      var n := |legs| - 1;
      assert legs == legs[..n] + [legs[n]];
      InCurrencyCount(legs[..n], c, x);
    }
  }

  lemma LegsOfPermutation(a: seq<Leg>, b: seq<Leg>, tx: int)
    requires multiset(a) == multiset(b)
    ensures multiset(LegsOf(a, tx)) == multiset(LegsOf(b, tx))
  {
    forall x: Leg
      ensures multiset(LegsOf(a, tx))[x] == multiset(LegsOf(b, tx))[x]
    {
      LegsOfCount(a, tx, x);
      LegsOfCount(b, tx, x);
    }
  }

  lemma InCurrencyPermutation(a: seq<Leg>, b: seq<Leg>, c: string)
    requires multiset(a) == multiset(b)
    ensures multiset(InCurrency(a, c)) == multiset(InCurrency(b, c))
  {
    forall x: Leg
      ensures multiset(InCurrency(a, c))[x] == multiset(InCurrency(b, c))[x]
    {
      InCurrencyCount(a, c, x);
      InCurrencyCount(b, c, x);
    }
  }

  /** A sum of amounts depends only on which rows are summed, not their order. */
  lemma {:induction false} SumPermutation(a: seq<Leg>, b: seq<Leg>)
    requires multiset(a) == multiset(b)
    ensures Sum(a) == Sum(b)
    decreases |a|
  {
    if |a| == 0 {
      assert |multiset(b)| == 0;
    } else {
      var n := |a| - 1;
      var x := a[n];
      assert a == a[..n] + [x];
      assert x in multiset(b);
      var j :| 0 <= j < |b| && b[j] == x;
      var rest := b[..j] + b[j + 1..];
      assert b == b[..j] + [x] + b[j + 1..];
      assert multiset(rest) == multiset(b) - multiset{x};
      assert multiset(a[..n]) == multiset(a) - multiset{x};
      SumPermutation(a[..n], rest);
      SumAppend(b[..j] + [x], b[j + 1..]);
      SumAppend(b[..j], [x]);
      SumAppend(b[..j], b[j + 1..]);
      assert Sum([x]) == x.amount by {
        assert [x][..0] == [];
      }
    }
  }

  lemma {:induction false} SplitByCurrency(legs: seq<Leg>, c: string)
    ensures Sum(legs) == Sum(InCurrency(legs, c)) + Sum(OtherCurrencies(legs, c))
    decreases |legs|
  {
    if |legs| > 0 {
      var n := |legs| - 1;
      SplitByCurrency(legs[..n], c);
      if legs[n].currency == c {
        SumAppend(InCurrency(legs[..n], c), [legs[n]]);
      } else {
        SumAppend(OtherCurrencies(legs[..n], c), [legs[n]]);
      }
      assert Sum([legs[n]]) == legs[n].amount by {
        assert [legs[n]][..0] == [];
      }
    }
  }

  /** Taking out currency `c` leaves every other currency group intact and
      leaves no `c` group. */
  lemma {:induction false} GroupsOfOthers(legs: seq<Leg>, c: string, d: string)
    ensures InCurrency(OtherCurrencies(legs, c), d) == if d == c then [] else InCurrency(legs, d)
    decreases |legs|
  {
    if |legs| > 0 {
      var n := |legs| - 1;
      GroupsOfOthers(legs[..n], c, d);
      if legs[n].currency != c {
        InCurrencyAppend(OtherCurrencies(legs[..n], c), [legs[n]], d);
        assert InCurrency([legs[n]], d) == if legs[n].currency == d then [legs[n]] else [] by {
          assert [legs[n]][..0] == [];
        }
      }
    }
  }

  lemma {:induction false} OtherCurrenciesLength(legs: seq<Leg>, c: string)
    ensures |OtherCurrencies(legs, c)| <= |legs|
    decreases |legs|
  {
    if |legs| > 0 {
      OtherCurrenciesLength(legs[..|legs| - 1], c);
    }
  }

  /** If every currency group of some rows sums to zero, so do the rows. */
  lemma {:induction false} ZeroGroupsZeroTotal(legs: seq<Leg>)
    requires forall c :: Sum(InCurrency(legs, c)) == 0
    ensures Sum(legs) == 0
    decreases |legs|
  {
    if |legs| > 0 {
      var n := |legs| - 1;
      var c := legs[n].currency;
      var others := OtherCurrencies(legs, c);
      SplitByCurrency(legs, c);
      assert others == OtherCurrencies(legs[..n], c);
      OtherCurrenciesLength(legs[..n], c);
      forall d
        ensures Sum(InCurrency(others, d)) == 0
      {
        GroupsOfOthers(legs, c, d);
      }
      ZeroGroupsZeroTotal(others);
    }
  }

  lemma NoSuchCurrency(legs: seq<Leg>, tx: int, c: string)
    requires c !in Currencies(legs, tx)
    ensures InCurrency(LegsOf(legs, tx), c) == []
  {
    var t := LegsOf(legs, tx);
    if InCurrency(t, c) != [] {
      var x := InCurrency(t, c)[0];
      InCurrencyCount(t, c, x);
    }
  }

  // ---------------------------------------------------------------------
  // Properties of the zero-sum invariant
  // ---------------------------------------------------------------------

  /** Appending one row changes only its own transaction's aggregates, and
      those by exactly its own amount and currency. */
  lemma AppendLeg(legs: seq<Leg>, l: Leg, tx: int, c: string)
    ensures Currencies(legs + [l], tx) == Currencies(legs, tx) + (if l.txId == tx then {l.currency} else {})
    ensures CurrencySum(legs + [l], tx, c)
         == CurrencySum(legs, tx, c) + (if l.txId == tx && l.currency == c then l.amount else 0)
  {
    var all := legs + [l];
    assert all[..|all| - 1] == legs;
    if l.txId == tx {
      assert LegsOf(all, tx) == LegsOf(legs, tx) + [l];
      InCurrencyAppend(LegsOf(legs, tx), [l], c);
      assert InCurrency([l], c) == if l.currency == c then [l] else [] by {
        assert [l][..0] == [];
      }
      SumAppend(InCurrency(LegsOf(legs, tx), c), InCurrency([l], c));
      assert Sum([l]) == l.amount by {
        assert [l][..0] == [];
      }
    } else {
      assert LegsOf(all, tx) == LegsOf(legs, tx);
    }
  }

  /** A transaction with no legs is balanced and totals zero. */
  lemma {:induction false} NoLegsBalanced(legs: seq<Leg>, tx: int)
    requires forall i | 0 <= i < |legs| :: legs[i].txId != tx
    ensures LegsOf(legs, tx) == []
    ensures Currencies(legs, tx) == {}
    ensures Balanced(legs, tx) && TotalSum(legs, tx) == 0
    decreases |legs|
  {
    if |legs| > 0 {
      NoLegsBalanced(legs[..|legs| - 1], tx);
    }
  }

  /** Legs of other transactions, inserted anywhere or removed from anywhere,
      do not change what is checked for `tx`. */
  lemma ForeignLegsIrrelevant(before: seq<Leg>, foreign: seq<Leg>, after: seq<Leg>, tx: int)
    requires forall i | 0 <= i < |foreign| :: foreign[i].txId != tx
    ensures LegsOf(before + foreign + after, tx) == LegsOf(before + after, tx)
    ensures Balanced(before + foreign + after, tx) <==> Balanced(before + after, tx)
    ensures TotalSum(before + foreign + after, tx) == TotalSum(before + after, tx)
  {
    LegsOfAppend(before + foreign, after, tx);
    LegsOfAppend(before, foreign, tx);
    LegsOfAppend(before, after, tx);
    NoLegsBalanced(foreign, tx);
    assert LegsOf(before, tx) + [] == LegsOf(before, tx);
    assert Currencies(before + foreign + after, tx) == Currencies(before + after, tx);
    assert forall c :: CurrencySum(before + foreign + after, tx, c) == CurrencySum(before + after, tx, c);
  }

  /** The grouped sums, and hence the verdicts, ignore row order. */
  lemma PermutationPreservesBalance(a: seq<Leg>, b: seq<Leg>, tx: int)
    requires multiset(a) == multiset(b)
    ensures Currencies(a, tx) == Currencies(b, tx)
    ensures forall c :: CurrencySum(a, tx, c) == CurrencySum(b, tx, c)
    ensures Balanced(a, tx) <==> Balanced(b, tx)
    ensures TotalSum(a, tx) == TotalSum(b, tx)
  {
    LegsOfPermutation(a, b, tx);
    var ta, tb := LegsOf(a, tx), LegsOf(b, tx);
    forall l
      ensures l in ta <==> l in tb
    {
      assert l in ta <==> l in multiset(ta);
      assert l in tb <==> l in multiset(tb);
    }
    forall c
      ensures CurrencySum(a, tx, c) == CurrencySum(b, tx, c)
    {
      InCurrencyPermutation(ta, tb, c);
      SumPermutation(InCurrency(ta, c), InCurrency(tb, c));
    }
    SumPermutation(ta, tb);
  }

  /** The per-currency invariant implies the whole-transaction total is zero. */
  lemma BalancedImpliesZeroTotal(legs: seq<Leg>, tx: int)
    requires Balanced(legs, tx)
    ensures TotalSum(legs, tx) == 0
  {
    var t := LegsOf(legs, tx);
    forall c
      ensures Sum(InCurrency(t, c)) == 0
    {
      if c !in Currencies(legs, tx) {
        NoSuchCurrency(legs, tx, c);
      }
    }
    ZeroGroupsZeroTotal(t);
  }

  /** The converse fails: +1.00 USD against -1.00 EUR totals zero yet leaves
      both currencies unbalanced. */
  lemma MixedCurrenciesExample()
    ensures TotalSum([Leg(1, 100, "USD"), Leg(1, -100, "EUR")], 1) == 0
    ensures !Balanced([Leg(1, 100, "USD"), Leg(1, -100, "EUR")], 1)
  {
    var legs := [Leg(1, 100, "USD"), Leg(1, -100, "EUR")];
    var first := [legs[0]];
    assert legs[..1] == first;
    assert first[..0] == [];
    assert LegsOf(first, 1) == first;
    assert LegsOf(legs, 1) == legs;
    assert InCurrency(first, "USD") == first;
    assert InCurrency(legs, "USD") == first;
    assert Sum(first) == 100;
    assert Sum(legs) == 0;
    assert legs[0] in LegsOf(legs, 1);
    assert "USD" in Currencies(legs, 1);
  }
}
