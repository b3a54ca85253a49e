/** `Expense`: an amount spent by a user in a currency, on a date, against a category. */
module Expenses {
  import opened Common
  import opened BaseEntities
  import opened Currencies

  datatype ExpenseData = ExpenseData(
    Amount: real,
    Currency: Currency,
    ExpenseDate: Instant,
    Description: Option<string>,
    CategoryId: Guid,
    ReceiptPath: Option<string>,
    UserId: UserId)

  type Expense = Entity<ExpenseData>

  /** The invariant the constructor establishes: a strictly positive amount. */
  predicate Valid(e: Expense) {
    e.Data.Amount > 0.0
  }

  /** The public constructor: fails exactly for a non-positive amount, otherwise stores every argument. */
  function NewExpense(id: Guid, amount: real, currency: Currency, expenseDate: Instant, categoryId: Guid,
                      userId: UserId, description: Option<string>, receiptPath: Option<string>): (r: Result<Expense>)
    ensures r.Failure? <==> amount <= 0.0
    ensures r.Failure? ==> r.error == ArgumentException("amount")
    ensures r.Success? ==>
      && Valid(r.value)
      && r.value.Id == id && !r.value.IsDeleted && r.value.UpdatedAt == None
      && r.value.CreatedAt == DefaultInstant
      && r.value.Data.Amount == amount && r.value.Data.Currency == currency
      && r.value.Data.ExpenseDate == expenseDate && r.value.Data.CategoryId == categoryId
      && r.value.Data.UserId == userId && r.value.Data.Description == description
      && r.value.Data.ReceiptPath == receiptPath
  {
    if amount <= 0.0 then Failure(ArgumentException("amount"))
    else Success(NewEntity(id, ExpenseData(amount, currency, expenseDate, description, categoryId, receiptPath, userId)))
  }

  function UpdateDescription(e: Expense, description: string): (r: Expense)
    ensures SameBase(r, e) && r.Data == e.Data.(Description := Some(description))
  {
    e.WithData(e.Data.(Description := Some(description)))
  }

  function UpdateReceipt(e: Expense, receiptPath: string): (r: Expense)
    ensures SameBase(r, e) && r.Data == e.Data.(ReceiptPath := Some(receiptPath))
  {
    e.WithData(e.Data.(ReceiptPath := Some(receiptPath)))
  }

  /** Rejects a non-positive amount, leaving the expense as it was; otherwise only `Amount` changes. */
  function UpdateAmount(e: Expense, amount: real): (r: Result<Expense>)
    ensures r.Failure? <==> amount <= 0.0
    ensures r.Failure? ==> r.error == ArgumentException("amount")
    ensures r.Success? ==> SameBase(r.value, e) && r.value.Data == e.Data.(Amount := amount) && Valid(r.value)
  {
    if amount <= 0.0 then Failure(ArgumentException("amount"))
    else Success(e.WithData(e.Data.(Amount := amount)))
  }

  function UpdateCurrency(e: Expense, currency: Currency): (r: Expense)
    ensures SameBase(r, e) && r.Data == e.Data.(Currency := currency)
  {
    e.WithData(e.Data.(Currency := currency))
  }

  function UpdateExpenseDate(e: Expense, expenseDate: Instant): (r: Expense)
    ensures SameBase(r, e) && r.Data == e.Data.(ExpenseDate := expenseDate)
  {
    e.WithData(e.Data.(ExpenseDate := expenseDate))
  }

  /** The public mutators of `Expense` (its own and those of `BaseEntity`), as data. */
  datatype ExpenseCall =
    | CallUpdateDescription(description: string)
    | CallUpdateReceipt(receiptPath: string)
    | CallUpdateAmount(amount: real)
    | CallUpdateCurrency(currency: Currency)
    | CallUpdateExpenseDate(expenseDate: Instant)
    | CallBase(call: BaseCall)

  /** One call; a call that throws leaves the expense as it was. */
  function Perform(e: Expense, call: ExpenseCall): Expense {
    match call
    case CallUpdateDescription(d) => UpdateDescription(e, d)
    case CallUpdateReceipt(p) => UpdateReceipt(e, p)
    case CallUpdateAmount(a) => (var r := UpdateAmount(e, a); if r.Success? then r.value else e)
    case CallUpdateCurrency(c) => UpdateCurrency(e, c)
    case CallUpdateExpenseDate(d) => UpdateExpenseDate(e, d)
    case CallBase(b) => BaseEntities.Perform(e, b)
  }

  function PerformAll(e: Expense, calls: seq<ExpenseCall>): Expense
    decreases |calls|
  {
    if calls == [] then e else PerformAll(Perform(e, calls[0]), calls[1..])
  }

  /**
   * Over an expense's lifetime the amount stays strictly positive and the
   * owner, the key and the category never change.
   */
  lemma {:induction false} LifetimeInvariant(e: Expense, calls: seq<ExpenseCall>)
    requires Valid(e)
    ensures Valid(PerformAll(e, calls))
    ensures PerformAll(e, calls).Data.UserId == e.Data.UserId
    ensures PerformAll(e, calls).Id == e.Id
    ensures PerformAll(e, calls).Data.CategoryId == e.Data.CategoryId
    decreases |calls|
  {
    if calls != [] {
      LifetimeInvariant(Perform(e, calls[0]), calls[1..]);
    }
  }

  /** The boundary cases of the amount check. */
  lemma AmountBoundary(id: Guid, c: Currency, d: Instant, cat: Guid, u: UserId)
    ensures NewExpense(id, 0.0, c, d, cat, u, None, None).Failure?
    ensures NewExpense(id, -5.0, c, d, cat, u, None, None).Failure?
    ensures NewExpense(id, 0.01, c, d, cat, u, None, None).Success?
  {
  }
}
