# django-hordak: the `check_leg` zero-sum check

This project models the database-side check that django-hordak's ledger uses for
double-entry bookkeeping. The check is installed by migration 0006. Every leg of
a transaction carries a signed amount and a currency. Debits are positive and
credits are negative. Whenever a leg row is written, `check_leg` re-aggregates
that leg's transaction and raises when the transaction does not balance.

The migration replaces one version of the check with another:

- **Current check** (`ZeroSumCheck`). It groups the transaction's legs by
  currency (`GROUP BY amount_currency`) and keeps the groups whose absolute sum
  is non-zero (`HAVING ABS(SUM(amount)) > 0`). If any group survives, it raises
  with one such currency and that group's absolute total. `LIMIT 1` has no
  `ORDER BY`, so which offending currency gets reported is unspecified. The
  model picks it nondeterministically (`:|`), and the contract promises only
  that it is some offending currency. PostgreSQL runs the check as a row-level
  trigger function. MySQL runs the same grouped query as a stored procedure
  that takes the transaction id.
- **Legacy check** (`LegacyCheck`). Reversing the migration on PostgreSQL
  restores this version. It sums all of the transaction's legs across
  currencies into a `DECIMAL(13, 2)` variable and raises when the sum is not
  zero. Over no rows, `SUM` is NULL. `NULL != 0` is not true, so a transaction
  with no legs passes. A sum too large for `DECIMAL(13, 2)` raises a numeric
  overflow. The model proves that such a sum is never zero, so the overflow
  never changes the verdict.
- **Vendor dispatch** (`Migration`). `create_trigger` and
  `create_trigger_reverse` handle exactly `"postgresql"` and `"mysql"`. Any
  other vendor raises `NotImplementedError` with the vendor's name. On MySQL,
  the reverse step drops the procedure.

Amounts are exact fixed-point decimals with two places (the `DECIMAL(13, 2)`
of the procedures). The model stores them as unbounded integers counting
hundredths, so no rounding or floating point is involved. The `hordak_leg`
table is a `seq<Leg>`. `Leg(txId, amount, currency)` is one row of it.
`LegEvent` is the row operation that fired the trigger, together with its OLD
and/or NEW row.

The specification (reference) definitions are in `Ledger`:

- `Currencies`: the currency groups of a transaction.
- `CurrencySum`: the sum of one currency group.
- `TotalSum`: the sum across all of the transaction's legs.
- `Balanced`: every currency group sums to zero.

Every check is proved against these definitions for all inputs. The lemmas in
`Ledger` relate them to one another:

- Order does not matter.
- Legs of other transactions do not matter.
- A transaction with no legs is balanced.
- Per-currency balance implies a zero total, but not the other way round.

Files: `wrappers.dfy` (`Option`, `Result`), `ledger.dfy`, `zero_sum_check.dfy`,
`legacy_check.dfy`, `migration.dfy`.

## Model

| member | source | states |
|---|---|---|
| ZeroSumCheck.GroupByCurrency | hordak/migrations/0006_auto_20161209_0108.py:26-30 | a single scan of the table gives exactly one group per currency among the transaction's legs, each holding that currency's exact sum |
| ZeroSumCheck.CheckLeg | hordak/migrations/0006_auto_20161209_0108.py:26-40 | passes iff every currency of the transaction sums to zero; on failure it reports a currency of the transaction whose sum is non-zero, with the absolute value of that sum, which is strictly positive |
| ZeroSumCheck.CheckLegTrigger | hordak/migrations/0006_auto_20161209_0108.py:19-40 | checks OLD's transaction on DELETE and NEW's on INSERT/UPDATE: passes iff that transaction balances per currency, and on failure reports one of its unbalanced currencies with a positive total |
| ZeroSumCheck.UpdateChecksOnlyNewTransaction | hordak/migrations/0006_auto_20161209_0108.py:19-23 | an UPDATE that moves a leg between transactions is judged only by the destination transaction, which can balance while the source transaction is left unbalanced |
| LegacyCheck.SqlSum | hordak/migrations/0006_auto_20161209_0108.py:92-96 | the SUM is NULL exactly when the transaction has no legs, and otherwise equals the transaction's total across currencies |
| LegacyCheck.LegacyCheckLeg | hordak/migrations/0006_auto_20161209_0108.py:85-101 | checks OLD's transaction on DELETE and NEW's otherwise, and passes iff that transaction's total across all currencies is zero; the rejection reason is a DECIMAL(13, 2) overflow exactly when the total is at least 10^13 hundredths in magnitude, and a non-zero sum otherwise |
| LegacyCheck.LegacyAcceptsBalanced | hordak/migrations/0006_auto_20161209_0108.py:93-100 | every transaction that balances per currency passes the legacy check, whatever the row event |
| LegacyCheck.LegacyAcceptsMixedCurrencies | hordak/migrations/0006_auto_20161209_0108.py:93-100 | the legacy check passes +1.00 USD against -1.00 EUR, which does not balance per currency |
| Ledger.NoLegsBalanced | hordak/migrations/0006_auto_20161209_0108.py:26-40 | a transaction with no legs has no currency groups, so it is balanced and its total is zero (no group survives HAVING, so FOUND is false) |
| Ledger.ForeignLegsIrrelevant | hordak/migrations/0006_auto_20161209_0108.py:28-29 | inserting or removing legs of other transactions, anywhere in the table, changes neither the checked transaction's legs nor its per-currency or total verdict |
| Ledger.PermutationPreservesBalance | hordak/migrations/0006_auto_20161209_0108.py:26-32 | any reordering of the table's rows leaves the transaction's currency groups, every group sum, the total and the per-currency verdict unchanged |
| Ledger.AppendLeg | hordak/migrations/0006_auto_20161209_0108.py:28-30 | a newly written row changes only its own transaction's and currency's group: it adds its currency to the group set and its amount to that one group's sum |
| Ledger.BalancedImpliesZeroTotal | hordak/migrations/0006_auto_20161209_0108.py:26-38 | if every currency of a transaction sums to zero, then the sum across all currencies is zero |
| Ledger.MixedCurrenciesExample | hordak/migrations/0006_auto_20161209_0108.py:93-100 | the converse fails: +1.00 USD with -1.00 EUR totals zero but is not balanced per currency |
| Migration.CreateTrigger | hordak/migrations/0006_auto_20161209_0108.py:8-77 | succeeds exactly for postgresql and mysql and then installs the per-currency trigger function on postgresql and the per-currency procedure on mysql; any other vendor fails with NotImplementedError naming that vendor |
| Migration.CreateTriggerReverse | hordak/migrations/0006_auto_20161209_0108.py:80-113 | succeeds for exactly the same two vendors: postgresql gets back the total-sum trigger and mysql is left with no procedure; any other vendor fails with NotImplementedError naming that vendor |
| Migration.Enforce | hordak/migrations/0006_auto_20161209_0108.py:12-109 | running any installed check for a row event passes exactly when the written row's transaction meets that check's rule (per-currency zero, total zero, or none) |
| Migration.ReverseNeverStricter | hordak/migrations/0006_auto_20161209_0108.py:80-109 | for a vendor the forward migration supports, the reverse also succeeds, and every transaction the forward check admits is admitted after reversing |
| Migration.ReverseStrictlyWeaker | hordak/migrations/0006_auto_20161209_0108.py:80-109 | on each supported vendor some transaction is admitted after reversing but rejected by the forward check |

## Left out

- The MySQL procedure's signalling (`IF COUNT(*) > 0` outside a query, `SIGNAL SQLSTATE '45000'`) and its message text. The error path reports only the sum and no currency. The model treats the procedure as running the same grouped query as the PostgreSQL trigger, with the same verdict.
- Migration.Enforce: on MySQL, Python code outside this model calls the procedure with a transaction id (`mysql_simulate_trigger` is not part of this model). Enforce passes the written row's transaction id, the same one the PostgreSQL trigger selects.
- Migration.Enforce: after the reverse step on MySQL (`DROP PROCEDURE IF EXISTS check_leg`), Enforce accepts every write. That is an assumption about the Python caller, which is not part of this model: if it still calls the dropped procedure, the call would fail instead. `Migration.ReverseNeverStricter` and `Migration.ReverseStrictlyWeaker` hold on MySQL only under this assumption.
- How the trigger is registered (deferrable, on which operations) and when it fires (commit-time deferral, atomicity) live in migrations that are not part of this model. So do the trigger's `RETURN NEW` value and the `atomic = False` / `RunPython` plumbing.
- LegacyCheck.LegacyCheckLeg: assumes leg amounts have at most two decimal places (the default). With a finer configured scale, storing the SUM in a `DECIMAL(13, 2)` variable would round a tiny non-zero total to 0, and the check would pass it. That rounding is not modelled.
- The 32-bit width of `tx_id INT` and of the procedure's `_transaction_id INT`. If the transaction id column were wider than `INT`, assigning an id above 2^31-1 to `tx_id` would raise an error instead of running the check. The column's type is declared in migrations that are not part of this model, so transaction ids are unbounded integers here and that error is not modelled.
- The account tree (nested-set bounds), balance and running-balance computation, concurrency and locking. None of them are implemented in migration 0006. The admin module (presentation: list columns, sign flipping for display, HTML decimal formatting) is left out too. So is migration 0026, which only alters field definitions. That migration supports the sign convention and the fixed-decimal encoding of amounts used here.
- Both versions of `check_leg` pass a transaction with no legs (`Ledger.NoLegsBalanced`; the NULL branch of `LegacyCheck.LegacyCheckLeg`); the code also does not reject zero-amount legs, and reports one offending currency, not every one.
