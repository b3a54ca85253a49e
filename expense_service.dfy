/**
 * `ExpenseService` (the application-layer one): lookups, staging and
 * committing of expenses, soft deletion, and paged queries by category.
 */
module ExpenseServices {
  import opened Common
  import opened BaseEntities
  import opened ExpressionExtensions
  import opened Sequences
  import opened Persistence
  import opened Repositories
  import opened Currencies
  import opened Expenses

  /** The lambda `e => e.CategoryId == categoryId`. */
  function InCategory(categoryId: Guid): (f: Lambda<Expense>)
    ensures Closed(f)
    ensures forall e :: Holds(f, e) <==> e.Data.CategoryId == categoryId
  {
    var f := Lambda(0, Call((e: Expense) => e.Data.CategoryId == categoryId, 0));
    assert forall e: Expense :: Invoke(f, e) == Some(e.Data.CategoryId == categoryId);
    f
  }

  /** The lambda `e => e.CategoryId == categoryId && e.UserId == userId`. */
  function InCategoryOf(categoryId: Guid, userId: UserId): (f: Lambda<Expense>)
    ensures Closed(f)
    ensures forall e :: Holds(f, e) <==> e.Data.CategoryId == categoryId && e.Data.UserId == userId
  {
    var f := Lambda(0, Call((e: Expense) => e.Data.CategoryId == categoryId && e.Data.UserId == userId, 0));
    assert forall e: Expense :: Invoke(f, e) == Some(e.Data.CategoryId == categoryId && e.Data.UserId == userId);
    f
  }

  /** `q => q.OrderByDescending(e => e.ExpenseDate)`: newest first. */
  function NewestFirst(): (o: Ordering<ExpenseData>)
    ensures o.Descending && forall e :: o.Key(e) == e.Data.ExpenseDate
  {
    Ordering((e: Expense) => e.Data.ExpenseDate, true)
  }

  /** A page sorted newest first lists the expense dates in non-increasing order. */
  lemma NewestFirstSorted(items: seq<Expense>)
    requires SortedBy(items, NewestFirst().Key, NewestFirst().Descending)
    ensures forall i, j :: 0 <= i < j < |items| ==> items[i].Data.ExpenseDate >= items[j].Data.ExpenseDate
  {
    forall i, j | 0 <= i < j < |items| ensures items[i].Data.ExpenseDate >= items[j].Data.ExpenseDate {
      assert Precedes(NewestFirst().Key, true, items[i], items[j]);
    }
  }

  class ExpenseService {
    const Repository: Repository<ExpenseData>

    constructor (expenseRepository: Repository<ExpenseData>)
      ensures Repository == expenseRepository
    {
      Repository := expenseRepository;
    }

    /** `GetByIdAsync`: the live expense with the key, of whichever user, or null. */
    function GetById(id: Guid): (r: Option<Expense>)
      reads Repository.Context
      ensures r.Some? ==> r.value in Repository.Context.Rows && r.value.Id == id && !r.value.IsDeleted
      ensures r.None? <==> forall e :: e in Repository.Context.Rows ==> e.Id != id || e.IsDeleted
    {
      Repository.GetById(id)
    }

    /** `GetAllAsync`: every live expense, of every user, in table order. */
    function GetAll(): (r: seq<Expense>)
      reads Repository.Context
      ensures forall e :: e in r <==> e in Repository.Context.Rows && !e.IsDeleted
    {
      Repository.GetAll()
    }

    /** `GetByCategoryIdAsync(categoryId)`: the live expenses of the category, of every user. */
    function GetByCategoryId(categoryId: Guid): (r: seq<Expense>)
      reads Repository.Context
      ensures forall e :: e in r <==> e in Repository.Context.Rows && !e.IsDeleted && e.Data.CategoryId == categoryId
      ensures r == Where(GetAll(), InCategory(categoryId))
    {
      Repository.Find(InCategory(categoryId))
    }

    /**
     * `GetPagedExpensesAsync`: the repository's page for the caller's
     * filter and ordering, over the expenses of every user.
     */
    function GetPagedExpenses(pageNumber: int, pageSize: int, filter: Option<Lambda<Expense>>,
                              orderBy: Option<Ordering<ExpenseData>>): (r: PagedResult<Expense>)
      reads Repository.Context
      requires pageNumber >= 1 && pageSize >= 1
      ensures r.PageNumber == pageNumber && r.PageSize == pageSize
      ensures r.TotalItems == |Repository.Matching(filter)|
      ensures r.Items == Page(Repository.Ordered(filter, orderBy), pageNumber, pageSize)
      ensures forall e :: e in r.Items ==>
        e in Repository.Context.Rows && !e.IsDeleted && (filter.Some? ==> Holds(filter.value, e))
    {
      Repository.GetPaged(pageNumber, pageSize, filter, orderBy)
    }

    /**
     * The paged `GetByCategoryIdAsync(categoryId, userId, ...)`: a page of
     * the user's live expenses in the category, newest first, counted over
     * all of them.
     */
    function GetByCategoryIdPaged(categoryId: Guid, userId: UserId, pageNumber: int, pageSize: int)
      : (r: PagedResult<Expense>)
      reads Repository.Context
      requires pageNumber >= 1 && pageSize >= 1
      ensures r.PageNumber == pageNumber && r.PageSize == pageSize && |r.Items| <= pageSize
      ensures forall e :: e in r.Items ==>
        && e in Repository.Context.Rows && !e.IsDeleted
        && e.Data.CategoryId == categoryId && e.Data.UserId == userId
      ensures SortedBy(r.Items, NewestFirst().Key, NewestFirst().Descending)
      ensures r.TotalItems == |Where(GetAll(), InCategoryOf(categoryId, userId))|
      ensures r.Items == Page(Repository.Ordered(Some(InCategoryOf(categoryId, userId)), Some(NewestFirst())), pageNumber, pageSize)
    {
      Repository.GetPaged(pageNumber, pageSize, Some(InCategoryOf(categoryId, userId)), Some(NewestFirst()))
    }

    /** `AddExpenseAsync`: stages the expense as Added and commits. */
    method AddExpense(expense: Expense, now: Instant) returns (r: Outcome)
      requires Repository.Context.Valid()
      modifies Repository.Context
      ensures Repository.Context.Valid()
      ensures var staged := TrackAdded(old(Repository.Context.Entries), expense);
        Committed(old(Repository.Context.Rows), staged, now, r, Repository.Context.Rows, Repository.Context.Entries)
      ensures r.Pass? && old(Repository.Context.Entries) == [] ==>
        Repository.Context.Rows == old(Repository.Context.Rows) + [expense.SetCreated(now)]
    {
      ghost var rows := Repository.Context.Rows;
      Repository.Add(expense);
      r := Repository.SaveChanges(now);
      if r.Pass? {
        SingleCommitted(rows, Entry(expense, Added), now);
      }
    }

    /** `UpdateExpenseAsync`: stages the expense as Modified and commits. */
    method UpdateExpense(expense: Expense, now: Instant) returns (r: Outcome)
      requires Repository.Context.Valid()
      modifies Repository.Context
      ensures Repository.Context.Valid()
      ensures var staged := TrackModified(old(Repository.Context.Entries), expense);
        Committed(old(Repository.Context.Rows), staged, now, r, Repository.Context.Rows, Repository.Context.Entries)
      ensures r.Pass? && old(Repository.Context.Entries) == [] ==>
        Repository.Context.Rows == ReplaceById(old(Repository.Context.Rows), expense.MarkAsUpdated(now))
    {
      ghost var rows := Repository.Context.Rows;
      Repository.Update(expense);
      r := Repository.SaveChanges(now);
      if r.Pass? {
        SingleCommitted(rows, Entry(expense, Modified), now);
      }
    }

    /**
     * `SoftDeleteExpenseAsync`: a missing or already deleted key is a no-op
     * (nothing is staged or committed); otherwise the expense is soft-deleted
     * and committed. With nothing else staged, a successful call keeps every
     * row, flags the expense deleted with `UpdatedAt` stamped, leaves every
     * other expense as it was, and the key is no longer found.
     */
    method SoftDeleteExpense(id: Guid, now: Instant) returns (r: Outcome)
      requires Repository.Context.Valid()
      modifies Repository.Context
      ensures Repository.Context.Valid()
      ensures var found := old(GetById(id));
        && (found.None? ==>
              && r == Pass
              && Repository.Context.Rows == old(Repository.Context.Rows)
              && Repository.Context.Entries == old(Repository.Context.Entries))
        && (found.Some? ==>
              var staged := TrackModified(old(Repository.Context.Entries), found.value.SoftDelete());
              && Committed(old(Repository.Context.Rows), staged, now, r, Repository.Context.Rows, Repository.Context.Entries))
      ensures r.Pass? && old(GetById(id)).Some? && old(Repository.Context.Entries) == [] ==>
        && |Repository.Context.Rows| == |old(Repository.Context.Rows)|
        && (forall k :: 0 <= k < |Repository.Context.Rows| && old(Repository.Context.Rows[k].Id) != id ==>
              Repository.Context.Rows[k] == old(Repository.Context.Rows[k]))
        && old(GetById(id)).value.SoftDelete().MarkAsUpdated(now) in Repository.Context.Rows
        && GetById(id) == None
    {
      var expense := Repository.GetById(id);
      if expense.None? {
        return Pass;
      }
      ghost var before := Repository.Context.Entries;
      ghost var rows := Repository.Context.Rows;
      Repository.SoftDelete(expense.value);
      r := Repository.SaveChanges(now);
      if r.Pass? && before == [] {
        SoftDeleteCommitted(rows, expense.value, now);
        var k :| 0 <= k < |rows| && rows[k] == expense.value;
        assert Repository.Context.Rows[k] == expense.value.SoftDelete().MarkAsUpdated(now);
      }
    }

    /**
     * `CreateExpenseAsync`: constructs the expense with key `id` (which
     * rejects a non-positive amount), stages it as Added and commits; the
     * returned expense is the stamped one. With nothing else staged, a
     * successful call appends exactly that expense to the table.
     */
    method CreateExpense(amount: real, currency: Currency, expenseDate: Instant, categoryId: Guid,
                         userId: UserId, description: string, receiptPath: Option<string>,
                         id: Guid, now: Instant) returns (r: Result<Expense>)
      requires Repository.Context.Valid()
      modifies Repository.Context
      ensures Repository.Context.Valid()
      ensures amount <= 0.0 ==>
        && r == Failure(ArgumentException("amount"))
        && Repository.Context.Rows == old(Repository.Context.Rows)
        && Repository.Context.Entries == old(Repository.Context.Entries)
      ensures amount > 0.0 ==>
        var expense := NewExpense(id, amount, currency, expenseDate, categoryId, userId, Some(description), receiptPath).value;
        var staged := TrackAdded(old(Repository.Context.Entries), expense);
        && Committed(old(Repository.Context.Rows), staged, now, OutcomeOf(r), Repository.Context.Rows, Repository.Context.Entries)
        && (r.Success? ==> r.value == expense.SetCreated(now))
      ensures r.Success? ==>
        && Valid(r.value) && r.value.Id == id && !r.value.IsDeleted && r.value.CreatedAt == now
        && r.value.Data == ExpenseData(amount, currency, expenseDate, Some(description), categoryId, receiptPath, userId)
      ensures r.Success? && old(Repository.Context.Entries) == [] ==>
        && Repository.Context.Rows == old(Repository.Context.Rows) + [r.value]
        && GetById(id) == Some(r.value)
    {
      var made := NewExpense(id, amount, currency, expenseDate, categoryId, userId, Some(description), receiptPath);
      if made.Failure? {
        return Failure(made.error);
      }
      ghost var before := Repository.Context.Entries;
      ghost var rows := Repository.Context.Rows;
      Repository.Add(made.value);
      var saved := Repository.SaveChanges(now);
      if saved.Fail? {
        return Failure(saved.error);
      }
      r := Success(made.value.SetCreated(now));
      if before == [] {
        SingleCommitted(rows, Entry(made.value, Added), now);
        assert Repository.Context.Rows == rows + [r.value];
        FoundLive(Repository, r.value);
      }
    }
  }
}
