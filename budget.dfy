/** `Budget`: a user's spending limit for one month of one year. */
module Budgets {
  import opened Common
  import opened BaseEntities
  import opened Currencies

  datatype BudgetData = BudgetData(
    UserId: UserId,
    Month: int,
    Year: int,
    Amount: real,
    Currency: Currency)

  type Budget = Entity<BudgetData>

  /** What the constructor establishes. */
  predicate Valid(b: Budget) {
    && !IsBlank(b.Data.UserId)
    && 1 <= b.Data.Month <= 12
    && 2000 <= b.Data.Year <= 2100
    && b.Data.Amount >= 0.0
  }

  /**
   * The public constructor. The checks run in order: blank owner, month
   * outside 1..12, year outside 2000..2100, negative amount (zero is allowed).
   */
  function NewBudget(id: Guid, userId: UserId, month: int, year: int, amount: real, currency: Currency): (r: Result<Budget>)
    ensures r.Success? <==> !IsBlank(userId) && 1 <= month <= 12 && 2000 <= year <= 2100 && amount >= 0.0
    ensures IsBlank(userId) ==> r == Failure(ArgumentException("userId"))
    ensures !IsBlank(userId) && !(1 <= month <= 12) ==> r == Failure(ArgumentOutOfRangeException("month"))
    ensures !IsBlank(userId) && 1 <= month <= 12 && !(2000 <= year <= 2100) ==> r == Failure(ArgumentOutOfRangeException("year"))
    ensures r.Failure? && !IsBlank(userId) && 1 <= month <= 12 && 2000 <= year <= 2100 ==> r.error == ArgumentException("amount")
    ensures r.Success? ==>
      && Valid(r.value)
      && r.value.Id == id && !r.value.IsDeleted && r.value.UpdatedAt == None
      && r.value.CreatedAt == DefaultInstant
      && r.value.Data == BudgetData(userId, month, year, amount, currency)
  {
    if IsBlank(userId) then Failure(ArgumentException("userId"))
    else if month < 1 || month > 12 then Failure(ArgumentOutOfRangeException("month"))
    else if year < 2000 || year > 2100 then Failure(ArgumentOutOfRangeException("year"))
    else if amount < 0.0 then Failure(ArgumentException("amount"))
    else Success(NewEntity(id, BudgetData(userId, month, year, amount, currency)))
  }

  /** Rejects a negative amount; otherwise only `Amount` changes (owner, period and currency are kept). */
  function UpdateAmount(b: Budget, amount: real): (r: Result<Budget>)
    ensures r.Failure? <==> amount < 0.0
    ensures r.Failure? ==> r.error == ArgumentException("amount")
    ensures r.Success? ==> SameBase(r.value, b) && r.value.Data == b.Data.(Amount := amount)
  {
    if amount < 0.0 then Failure(ArgumentException("amount"))
    else Success(b.WithData(b.Data.(Amount := amount)))
  }

  /** The public mutators of `Budget`, as data. */
  datatype BudgetCall = CallUpdateAmount(amount: real) | CallBase(call: BaseCall)

  /** One call; a call that throws leaves the budget as it was. */
  function Perform(b: Budget, call: BudgetCall): Budget {
    match call
    case CallUpdateAmount(a) => (var r := UpdateAmount(b, a); if r.Success? then r.value else b)
    case CallBase(c) => BaseEntities.Perform(b, c)
  }

  function PerformAll(b: Budget, calls: seq<BudgetCall>): Budget
    decreases |calls|
  {
    if calls == [] then b else PerformAll(Perform(b, calls[0]), calls[1..])
  }

  /**
   * The constructor's checks hold for the budget's lifetime: no mutator
   * touches owner, month, year or currency, and `UpdateAmount` keeps the
   * amount non-negative.
   */
  lemma {:induction false} LifetimeInvariant(b: Budget, calls: seq<BudgetCall>)
    requires Valid(b)
    ensures Valid(PerformAll(b, calls))
    ensures var b' := PerformAll(b, calls);
      b'.Data.UserId == b.Data.UserId && b'.Data.Month == b.Data.Month
      && b'.Data.Year == b.Data.Year && b'.Data.Currency == b.Data.Currency
    decreases |calls|
  {
    if calls != [] {
      LifetimeInvariant(Perform(b, calls[0]), calls[1..]);
    }
  }
}
