/**
 * `BudgetService`: looking up a user's budget for one month and the
 * monthly-budget upsert `SetBudgetAsync`.
 */
module BudgetServices {
  import opened Common
  import opened BaseEntities
  import opened ExpressionExtensions
  import opened Persistence
  import opened Repositories
  import opened Currencies
  import opened Budgets

  /** The budget belongs to the user and the month. */
  predicate InPeriod(b: Budget, userId: UserId, month: int, year: int) {
    b.Data.UserId == userId && b.Data.Month == month && b.Data.Year == year
  }

  /** The lambda `b => b.UserId == userId && b.Month == month && b.Year == year`. */
  function ForPeriod(userId: UserId, month: int, year: int): (f: Lambda<Budget>)
    ensures Closed(f)
    ensures forall b :: Holds(f, b) <==> InPeriod(b, userId, month, year)
  {
    var f := Lambda(0, Call((b: Budget) => InPeriod(b, userId, month, year), 0));
    assert forall b: Budget :: Invoke(f, b) == Some(InPeriod(b, userId, month, year));
    f
  }

  /** The period test conjoined with the soft-delete test, as `FindAsync` does it. */
  function LiveInPeriod(userId: UserId, month: int, year: int): (f: Lambda<Budget>)
    ensures forall b :: Holds(f, b) <==> !b.IsDeleted && InPeriod(b, userId, month, year)
  {
    AndAlso(Some(ForPeriod(userId, month, year)), Some(NotDeleted())).value
  }

  /** The live budgets of the user and month in a table, in table order. */
  function PeriodBudgets(rows: seq<Budget>, userId: UserId, month: int, year: int): (r: seq<Budget>)
    ensures forall b :: b in r <==> b in rows && !b.IsDeleted && InPeriod(b, userId, month, year)
  {
    Where(rows, LiveInPeriod(userId, month, year))
  }

  /**
   * Overwriting the first live budget of a period by a live budget of the
   * same period with the same key keeps the number of the period's budgets,
   * and the new one comes first.
   */
  lemma ReplaceInPeriod(rows: seq<Budget>, e: Budget, e': Budget, userId: UserId, month: int, year: int)
    requires UniqueIds(rows)
    requires PeriodBudgets(rows, userId, month, year) != [] && PeriodBudgets(rows, userId, month, year)[0] == e
    requires e'.Id == e.Id && !e'.IsDeleted && InPeriod(e', userId, month, year)
    ensures var rows' := ReplaceById(rows, e');
      && |PeriodBudgets(rows', userId, month, year)| == |PeriodBudgets(rows, userId, month, year)|
      && PeriodBudgets(rows', userId, month, year) != []
      && PeriodBudgets(rows', userId, month, year)[0] == e'
  {
    var f := LiveInPeriod(userId, month, year);
    var rows' := ReplaceById(rows, e');
    var k := WhereHead(rows, f);
    forall j | 0 <= j < |rows| && j != k ensures rows'[j] == rows[j] {
      if j < k {
        assert rows[j].Id != rows[k].Id;
      } else {
        assert rows[k].Id != rows[j].Id;
      }
    }
    WherePointwise(rows, rows', f, k);
    WhereFirst(rows', f, k);
  }

  /**
   * Appending a live budget of a period that had no live budget makes it
   * the period's only budget.
   */
  lemma AppendToEmptyPeriod(rows: seq<Budget>, b: Budget, userId: UserId, month: int, year: int)
    requires PeriodBudgets(rows, userId, month, year) == []
    requires !b.IsDeleted && InPeriod(b, userId, month, year)
    ensures PeriodBudgets(rows + [b], userId, month, year) == [b]
  {
    var f := LiveInPeriod(userId, month, year);
    WhereAppend(rows, [b], f);
    assert Where([b], f) == [b] + Where([b][1..], f);
  }

  class BudgetService {
    const Repository: Repository<BudgetData>

    constructor (budgetRepository: Repository<BudgetData>)
      ensures Repository == budgetRepository
    {
      Repository := budgetRepository;
    }

    /**
     * `GetBudgetForMonthAsync`: null for a blank user without a query;
     * otherwise the first live budget of the user and month, or null when
     * there is none.
     */
    function GetBudgetForMonth(userId: UserId, month: int, year: int): (r: Option<Budget>)
      reads Repository.Context
      ensures IsBlank(userId) ==> r == None
      ensures !IsBlank(userId) ==> r == FirstOrDefault(PeriodBudgets(Repository.Context.Rows, userId, month, year))
      ensures r.Some? ==>
        r.value in Repository.Context.Rows && !r.value.IsDeleted && InPeriod(r.value, userId, month, year)
      ensures !IsBlank(userId) ==>
        (r.None? <==> forall b :: b in Repository.Context.Rows ==> b.IsDeleted || !InPeriod(b, userId, month, year))
    {
      if IsBlank(userId) then None
      else
        var list := Repository.Find(ForPeriod(userId, month, year));
        WhereWhere(Repository.Context.Rows, NotDeleted(), ForPeriod(userId, month, year), LiveInPeriod(userId, month, year));
        assert list != [] ==> list[0] in list;
        FirstOrDefault(list)
    }

    /**
     * `SetBudgetAsync`: when the user has a budget for the month, its amount
     * is updated (the currency is kept) and the budget is staged as Modified;
     * otherwise a new budget is constructed from the arguments, with key
     * `id`, and staged as Added. Either way the change is committed and the
     * stamped budget returned. A rejected amount, or a rejected argument of
     * the constructor, stops the call before anything is staged.
     *
     * With nothing else staged, a successful call leaves the period's budget
     * as the one `GetBudgetForMonthAsync` returns, and never adds a second
     * budget for a period that had one.
     */
    method SetBudget(userId: UserId, month: int, year: int, amount: real, currency: Currency,
                     id: Guid, now: Instant) returns (r: Result<Budget>)
      requires Repository.Context.Valid()
      modifies Repository.Context
      ensures Repository.Context.Valid()
      ensures var existing := old(GetBudgetForMonth(userId, month, year));
        existing.Some? ==>
          var updated := UpdateAmount(existing.value, amount);
          && (updated.Failure? ==>
                && r == Failure(updated.error)
                && Repository.Context.Rows == old(Repository.Context.Rows)
                && Repository.Context.Entries == old(Repository.Context.Entries))
          && (updated.Success? ==>
                var staged := TrackModified(old(Repository.Context.Entries), updated.value);
                && Committed(old(Repository.Context.Rows), staged, now, OutcomeOf(r), Repository.Context.Rows, Repository.Context.Entries)
                && (r.Success? ==> r.value == updated.value.MarkAsUpdated(now)))
      ensures var existing := old(GetBudgetForMonth(userId, month, year));
        existing.None? ==>
          var made := NewBudget(id, userId, month, year, amount, currency);
          && (made.Failure? ==>
                && r == Failure(made.error)
                && Repository.Context.Rows == old(Repository.Context.Rows)
                && Repository.Context.Entries == old(Repository.Context.Entries))
          && (made.Success? ==>
                var staged := TrackAdded(old(Repository.Context.Entries), made.value);
                && Committed(old(Repository.Context.Rows), staged, now, OutcomeOf(r), Repository.Context.Rows, Repository.Context.Entries)
                && (r.Success? ==> r.value == made.value.SetCreated(now)))
      ensures r.Success? ==>
        && InPeriod(r.value, userId, month, year) && r.value.Data.Amount == amount && !r.value.IsDeleted
      ensures r.Success? && old(Repository.Context.Entries) == [] ==>
        && GetBudgetForMonth(userId, month, year) == Some(r.value)
        && var before := old(|PeriodBudgets(Repository.Context.Rows, userId, month, year)|);
           |PeriodBudgets(Repository.Context.Rows, userId, month, year)| == if before == 0 then 1 else before
    {
      var existing := GetBudgetForMonth(userId, month, year);
      if existing.Some? {
        r := UpdateExisting(userId, month, year, existing.value, amount, now);
      } else {
        r := AddNew(userId, month, year, amount, currency, id, now);
      }
    }

    /** The update branch of `SetBudgetAsync`, for the budget `GetBudgetForMonthAsync` found. */
    method UpdateExisting(userId: UserId, month: int, year: int, existing: Budget, amount: real,
                          now: Instant) returns (r: Result<Budget>)
      requires Repository.Context.Valid()
      requires GetBudgetForMonth(userId, month, year) == Some(existing)
      modifies Repository.Context
      ensures Repository.Context.Valid()
      ensures var updated := UpdateAmount(existing, amount);
        && (updated.Failure? ==>
              && r == Failure(updated.error)
              && Repository.Context.Rows == old(Repository.Context.Rows)
              && Repository.Context.Entries == old(Repository.Context.Entries))
        && (updated.Success? ==>
              var staged := TrackModified(old(Repository.Context.Entries), updated.value);
              && Committed(old(Repository.Context.Rows), staged, now, OutcomeOf(r), Repository.Context.Rows, Repository.Context.Entries)
              && (r.Success? ==> r.value == updated.value.MarkAsUpdated(now)))
      ensures r.Success? && old(Repository.Context.Entries) == [] ==>
        && GetBudgetForMonth(userId, month, year) == Some(r.value)
        && |PeriodBudgets(Repository.Context.Rows, userId, month, year)|
           == old(|PeriodBudgets(Repository.Context.Rows, userId, month, year)|)
    {
      ghost var rows := Repository.Context.Rows;
      ghost var before := Repository.Context.Entries;
      assert !IsBlank(userId);
      assert PeriodBudgets(rows, userId, month, year) != [] && PeriodBudgets(rows, userId, month, year)[0] == existing;
      var updated := UpdateAmount(existing, amount);
      if updated.Failure? {
        return Failure(updated.error);
      }
      Repository.Update(updated.value);
      var saved := Repository.SaveChanges(now);
      if saved.Fail? {
        return Failure(saved.error);
      }
      r := Success(updated.value.MarkAsUpdated(now));
      if before == [] {
        SingleCommitted(rows, Entry(updated.value, Modified), now);
        assert Repository.Context.Rows == ReplaceById(rows, r.value);
        ReplaceInPeriod(rows, existing, r.value, userId, month, year);
      }
    }

    /** The insert branch of `SetBudgetAsync`, when `GetBudgetForMonthAsync` found nothing. */
    method AddNew(userId: UserId, month: int, year: int, amount: real, currency: Currency,
                  id: Guid, now: Instant) returns (r: Result<Budget>)
      requires Repository.Context.Valid()
      requires GetBudgetForMonth(userId, month, year) == None
      modifies Repository.Context
      ensures Repository.Context.Valid()
      ensures var made := NewBudget(id, userId, month, year, amount, currency);
        && (made.Failure? ==>
              && r == Failure(made.error)
              && Repository.Context.Rows == old(Repository.Context.Rows)
              && Repository.Context.Entries == old(Repository.Context.Entries))
        && (made.Success? ==>
              var staged := TrackAdded(old(Repository.Context.Entries), made.value);
              && Committed(old(Repository.Context.Rows), staged, now, OutcomeOf(r), Repository.Context.Rows, Repository.Context.Entries)
              && (r.Success? ==> r.value == made.value.SetCreated(now)))
      ensures r.Success? && old(Repository.Context.Entries) == [] ==>
        && GetBudgetForMonth(userId, month, year) == Some(r.value)
        && old(|PeriodBudgets(Repository.Context.Rows, userId, month, year)|) == 0
        && |PeriodBudgets(Repository.Context.Rows, userId, month, year)| == 1
    {
      ghost var rows := Repository.Context.Rows;
      ghost var before := Repository.Context.Entries;
      var made := NewBudget(id, userId, month, year, amount, currency);
      if made.Failure? {
        return Failure(made.error);
      }
      Repository.Add(made.value);
      var saved := Repository.SaveChanges(now);
      if saved.Fail? {
        return Failure(saved.error);
      }
      r := Success(made.value.SetCreated(now));
      if before == [] {
        SingleCommitted(rows, Entry(made.value, Added), now);
        AppendToEmptyPeriod(rows, r.value, userId, month, year);
      }
    }
  }
}
