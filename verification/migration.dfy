/** Migration 0006: which `check_leg` each database vendor gets when the
    migration is applied and when it is reversed. */
module Migration {
  import opened Wrappers
  import opened Ledger
  import ZeroSumCheck
  import LegacyCheck

  const PostgreSQL: string := "postgresql"
  const MySQL: string := "mysql"

  /** The values of `connection.vendor` the migration handles, both ways. */
  const SupportedVendors: set<string> := {PostgreSQL, MySQL}

  /** The `check_leg` left in the database after a migration step. */
  datatype CheckLegImpl =
    | PerCurrencyTrigger    // PostgreSQL trigger function, grouped by currency
    | PerCurrencyProcedure  // MySQL stored procedure running the same grouped query
    | TotalSumTrigger       // PostgreSQL trigger function of the earlier migration
    | NoProcedure           // MySQL after `DROP PROCEDURE IF EXISTS check_leg`

  /** `NotImplementedError("Database vendor %s not supported")`. */
  datatype MigrationError = NotImplementedError(vendor: string)

  /** The condition a transaction must meet to pass an installed check. */
  datatype Rule = PerCurrencyZero | TotalZero | Unchecked

  function RuleOf(impl: CheckLegImpl): Rule
  {
    match impl
    case PerCurrencyTrigger => PerCurrencyZero
    case PerCurrencyProcedure => PerCurrencyZero
    case TotalSumTrigger => TotalZero
    case NoProcedure => Unchecked
  }

  predicate Admits(rule: Rule, legs: seq<Leg>, tx: int)
  {
    match rule
    case PerCurrencyZero => Balanced(legs, tx)
    case TotalZero => TotalSum(legs, tx) == 0
    case Unchecked => true
  }

  /** `create_trigger`: the forward migration installs a per-currency check on
      PostgreSQL and MySQL and raises for any other vendor. */
  function CreateTrigger(vendor: string): (r: Result<CheckLegImpl, MigrationError>)
    ensures r.Success? <==> vendor in SupportedVendors
    ensures r.Failure? ==> r.error == NotImplementedError(vendor)
    ensures r.Success? ==> RuleOf(r.value) == PerCurrencyZero
    ensures vendor == PostgreSQL ==> r == Success(PerCurrencyTrigger)
    ensures vendor == MySQL ==> r == Success(PerCurrencyProcedure)
  {
    if vendor == PostgreSQL then Success(PerCurrencyTrigger)
    else if vendor == MySQL then Success(PerCurrencyProcedure)
    else Failure(NotImplementedError(vendor))
  }

  /** `create_trigger_reverse`: restores the total-sum trigger on PostgreSQL,
      drops the procedure on MySQL and raises for any other vendor. */
  function CreateTriggerReverse(vendor: string): (r: Result<CheckLegImpl, MigrationError>)
    ensures r.Success? <==> vendor in SupportedVendors
    ensures r.Failure? ==> r.error == NotImplementedError(vendor)
    ensures vendor == PostgreSQL ==> r.Success? && RuleOf(r.value) == TotalZero
    ensures vendor == MySQL ==> r.Success? && RuleOf(r.value) == Unchecked
  {
    if vendor == PostgreSQL then Success(TotalSumTrigger)
    else if vendor == MySQL then Success(NoProcedure)
    else Failure(NotImplementedError(vendor))
  }

  /** Runs the installed check for one write to `hordak_leg`; the MySQL
      procedure is called with the written row's transaction id. */
  method Enforce(impl: CheckLegImpl, ev: LegEvent, legs: seq<Leg>) returns (accepted: bool)
    ensures accepted <==> Admits(RuleOf(impl), legs, CheckedTransaction(ev))
  {
    match impl {
      case PerCurrencyTrigger =>
        var r := ZeroSumCheck.CheckLegTrigger(ev, legs);
        accepted := r.Ok?;
      case PerCurrencyProcedure =>
        var r := ZeroSumCheck.CheckLeg(legs, CheckedTransaction(ev));
        accepted := r.Ok?;
      case TotalSumTrigger =>
        accepted := LegacyCheck.LegacyCheckLeg(ev, legs).Accepted?;
      case NoProcedure =>
        accepted := true;
    }
  }

  /** Reversing the migration never makes a vendor's check stricter: whatever
      the forward check admits, the restored one admits too. */
  lemma ReverseNeverStricter(vendor: string, legs: seq<Leg>, tx: int)
    requires CreateTrigger(vendor).Success?
    ensures CreateTriggerReverse(vendor).Success?
    ensures Admits(RuleOf(CreateTrigger(vendor).value), legs, tx)
        ==> Admits(RuleOf(CreateTriggerReverse(vendor).value), legs, tx)
  {
    if Balanced(legs, tx) {
      BalancedImpliesZeroTotal(legs, tx);
    }
  }

  /** ... and on every supported vendor strictly weaker: a transaction of
      +1.00 USD against -1.00 EUR passes after reversing but not before. */
  lemma ReverseStrictlyWeaker(vendor: string)
    requires vendor in SupportedVendors
    ensures exists legs: seq<Leg>, tx: int ::
      && Admits(RuleOf(CreateTriggerReverse(vendor).value), legs, tx)
      && !Admits(RuleOf(CreateTrigger(vendor).value), legs, tx)
  {
    var legs := [Leg(1, 100, "USD"), Leg(1, -100, "EUR")];
    MixedCurrenciesExample();
    assert Admits(RuleOf(CreateTriggerReverse(vendor).value), legs, 1);
    assert !Admits(RuleOf(CreateTrigger(vendor).value), legs, 1);
  }
}
