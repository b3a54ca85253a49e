/**
 * `Repository<T>`: the generic repository over one entity table. Its
 * queries hide soft-deleted rows explicitly (on top of whatever global
 * filter the context configures); its staging calls go to the change
 * tracker and reach the table only through `SaveChangesAsync`.
 */
module Repositories {
  import opened Common
  import opened BaseEntities
  import opened ExpressionExtensions
  import opened Sequences
  import opened Persistence

  /** `PagedResult<T>`: one page of a query and the query's total count. */
  datatype PagedResult<T> = PagedResult(Items: seq<T>, PageNumber: int, PageSize: int, TotalItems: nat)

  /** The `orderBy` argument: `OrderBy(key)`, or `OrderByDescending(key)` when `Descending`. */
  datatype Ordering<!D> = Ordering(Key: Entity<D> -> int, Descending: bool)

  /** `FirstOrDefault()`. */
  function FirstOrDefault<T>(s: seq<T>): (r: Option<T>)
    ensures r.None? <==> s == []
    ensures r.Some? ==> r.value == s[0]
  {
    if s == [] then None else Some(s[0])
  }

  /** The lambda `x => x.Id == id && !x.IsDeleted`. */
  function ById<D(!new)>(id: Guid): (f: Lambda<Entity<D>>)
    ensures Closed(f)
    ensures forall x :: Holds(f, x) <==> x.Id == id && !x.IsDeleted
  {
    var f := Lambda(0, AndAlsoNode(Call((x: Entity<D>) => x.Id == id, 0), Not(Call(IsDeleted, 0))));
    var hasId := Call((x: Entity<D>) => x.Id == id, 0);
    var live := Not(Call(IsDeleted, 0));
    assert f.Body == AndAlsoNode(hasId, live);
    assert Params(hasId) == {0} && Params(live) == {0};
    assert forall x: Entity<D> :: Invoke(f, x) == Some(x.Id == id && !x.IsDeleted) by {
      forall x: Entity<D> ensures Invoke(f, x) == Some(x.Id == id && !x.IsDeleted) {
        var env := map[0 := x];
        assert Eval(Call(IsDeleted, 0), env) == Some(x.IsDeleted);
        assert Eval(live, env) == Some(!x.IsDeleted);
        assert Eval(hasId, env) == Some(x.Id == id);
        assert Eval(f.Body, env) == Conj(Eval(hasId, env), Eval(live, env));
      }
    }
    f
  }

  class Repository<D(==,!new)> {
    const Context: FinanceDbContext<D>

    constructor (context: FinanceDbContext<D>)
      ensures Context == context
    {
      Context := context;
    }

    /** `GetByIdAsync`: the live row with the key, or null when there is none. */
    function GetById(id: Guid): (r: Option<Entity<D>>)
      reads Context
      ensures r.Some? ==> r.value in Context.Rows && r.value.Id == id && !r.value.IsDeleted
      ensures r.None? <==> forall x :: x in Context.Rows ==> x.Id != id || x.IsDeleted
    {
      FirstOrDefault(Where(Context.Query(), ById(id)))
    }

    /**
     * `GetAllAsync`: the live rows in table order, with or without the
     * context's global filter (filtering twice by the same predicate is
     * filtering once).
     */
    function GetAll(): (r: seq<Entity<D>>)
      reads Context
      ensures r == Where(Context.Rows, NotDeleted())
      ensures forall x :: x in r <==> x in Context.Rows && !x.IsDeleted
    {
      var live := NotDeleted<D>();
      WhereWhere(Context.Rows, live, live, live);
      Where(Context.Query(), live)
    }

    /**
     * `FindAsync(predicate)`: the caller's predicate `p` conjoined with the
     * soft-delete test by `AndAlso`; the same rows, in the same order, as
     * filtering the live rows by the predicate.
     */
    function Find(p: Lambda<Entity<D>>): (r: seq<Entity<D>>)
      reads Context
      ensures r == Where(GetAll(), p)
      ensures forall x :: x in r <==> x in Context.Rows && !x.IsDeleted && Holds(p, x)
    {
      var notDeletedPredicate := AndAlso(Some(p), Some(NotDeleted())).value;
      WhereWhere(Context.Rows, NotDeleted(), notDeletedPredicate, notDeletedPredicate);
      WhereWhere(Context.Rows, NotDeleted(), p, notDeletedPredicate);
      Where(Context.Query(), notDeletedPredicate)
    }

    /** The live rows the optional filter keeps, in table order. */
    function Matching(filter: Option<Lambda<Entity<D>>>): (r: seq<Entity<D>>)
      reads Context
      ensures forall x :: x in r <==> x in Context.Rows && !x.IsDeleted && (filter.Some? ==> Holds(filter.value, x))
    {
      if filter.Some? then Where(GetAll(), filter.value) else GetAll()
    }

    /** `Matching(filter)` in the requested order (table order when none is given). */
    function Ordered(filter: Option<Lambda<Entity<D>>>, orderBy: Option<Ordering<D>>): (r: seq<Entity<D>>)
      reads Context
      ensures multiset(r) == multiset(Matching(filter))
      ensures orderBy.Some? ==> SortedBy(r, orderBy.value.Key, orderBy.value.Descending)
      ensures orderBy.None? ==> r == Matching(filter)
    {
      if orderBy.Some? then SortBy(Matching(filter), orderBy.value.Key, orderBy.value.Descending)
      else Matching(filter)
    }

    /**
     * `GetPagedAsync`: the live rows the filter keeps, ordered, counted, and
     * cut to the 1-based page: at most `pageSize` items, each a live row the
     * filter keeps, in the requested order, and the total is the count of
     * the whole query.
     */
    function GetPaged(pageNumber: int, pageSize: int, filter: Option<Lambda<Entity<D>>>,
                      orderBy: Option<Ordering<D>>): (r: PagedResult<Entity<D>>)
      reads Context
      requires pageNumber >= 1 && pageSize >= 1
      ensures r.PageNumber == pageNumber && r.PageSize == pageSize
      ensures r.TotalItems == |Matching(filter)|
      ensures |r.Items| <= pageSize
      ensures forall x :: x in r.Items ==>
        x in Context.Rows && !x.IsDeleted && (filter.Some? ==> Holds(filter.value, x))
      ensures orderBy.Some? ==> SortedBy(r.Items, orderBy.value.Key, orderBy.value.Descending)
      ensures r.Items == Page(Ordered(filter, orderBy), pageNumber, pageSize)
    {
      var query := GetAll();
      var query := if filter.Some? then Where(query, filter.value) else query;
      var query := if orderBy.Some? then SortBy(query, orderBy.value.Key, orderBy.value.Descending) else query;
      var totalItems := |query|;
      var items := Page(query, pageNumber, pageSize);
      assert orderBy.Some? ==> SortedBy(items, orderBy.value.Key, orderBy.value.Descending) by {
        if orderBy.Some? {
          PageIsSlice(query, pageNumber, pageSize, orderBy.value.Key, orderBy.value.Descending);
        }
      }
      assert forall x :: x in items ==> x in Matching(filter) by {
        PageIsSlice(query, pageNumber, pageSize, (x: Entity<D>) => 0, false);
        forall x | x in items ensures x in Matching(filter) {
          assert x in multiset(items);
          assert x in multiset(query);
        }
      }
      PagedResult(items, pageNumber, pageSize, totalItems)
    }

    /** `AddAsync`: the entity is staged as Added. */
    method Add(entity: Entity<D>)
      requires Context.Valid()
      modifies Context
      ensures Context.Valid()
      ensures Context.Rows == old(Context.Rows)
      ensures Context.Entries == TrackAdded(old(Context.Entries), entity)
    {
      Context.Entries := TrackAdded(Context.Entries, entity);
    }

    /** `Update`: the entity is staged as Modified. */
    method Update(entity: Entity<D>)
      requires Context.Valid()
      modifies Context
      ensures Context.Valid()
      ensures Context.Rows == old(Context.Rows)
      ensures Context.Entries == TrackModified(old(Context.Entries), entity)
    {
      Context.Entries := TrackModified(Context.Entries, entity);
    }

    /** `Remove`: the entity is staged for a hard delete. */
    method Remove(entity: Entity<D>)
      requires Context.Valid()
      modifies Context
      ensures Context.Valid()
      ensures Context.Rows == old(Context.Rows)
      ensures Context.Entries == TrackDeleted(old(Context.Entries), entity)
    {
      Context.Entries := TrackDeleted(Context.Entries, entity);
    }

    /** `SoftDelete`: the entity is flagged deleted and staged as Modified. */
    method SoftDelete(entity: Entity<D>)
      requires Context.Valid()
      modifies Context
      ensures Context.Valid()
      ensures Context.Rows == old(Context.Rows)
      ensures Context.Entries == TrackModified(old(Context.Entries), entity.SoftDelete())
    {
      var deleted := entity.SoftDelete();
      Context.Entries := TrackModified(Context.Entries, deleted);
    }

    /** `SaveChangesAsync`: the context's commit. */
    method SaveChanges(now: Instant) returns (result: Outcome)
      requires Context.Valid()
      modifies Context
      ensures Context.Valid()
      ensures Committed(old(Context.Rows), old(Context.Entries), now, result, Context.Rows, Context.Entries)
    {
      result := Context.SaveChanges(now);
    }
  }

  /**
   * Walking the pages 1..⌈TotalItems / pageSize⌉ of a paged query visits
   * every row the query matches exactly once, in the requested order, and
   * every page but the last is full.
   */
  lemma PagesCoverQuery<D(!new)>(repo: Repository<D>, pageSize: int,
                                    filter: Option<Lambda<Entity<D>>>, orderBy: Option<Ordering<D>>)
    requires pageSize >= 1
    ensures var total := repo.GetPaged(1, pageSize, filter, orderBy).TotalItems;
      && Pages(repo.Ordered(filter, orderBy), pageSize, PageCount(total, pageSize)) == repo.Ordered(filter, orderBy)
      && multiset(Pages(repo.Ordered(filter, orderBy), pageSize, PageCount(total, pageSize))) == multiset(repo.Matching(filter))
      && forall k :: 1 <= k < PageCount(total, pageSize) ==> |repo.GetPaged(k, pageSize, filter, orderBy).Items| == pageSize
  {
    var ordered := repo.Ordered(filter, orderBy);
    PagesCoverAll(ordered, pageSize);
  }

  /**
   * A soft delete, once committed, keeps the row in the table, flags it
   * deleted and stamps `UpdatedAt`; every other row is untouched, and the
   * key is no longer found by `GetByIdAsync`.
   */
  lemma SoftDeleteCommitted<D(!new)>(rows: seq<Entity<D>>, e: Entity<D>, now: Instant)
    requires UniqueIds(rows) && e in rows
    ensures var rows' := ApplyEntries(rows, Stamp(TrackModified([], e.SoftDelete()), now));
      && |rows'| == |rows|
      && (forall k :: 0 <= k < |rows| && rows[k].Id != e.Id ==> rows'[k] == rows[k])
      && (forall k :: 0 <= k < |rows| && rows[k].Id == e.Id ==> rows'[k] == e.SoftDelete().MarkAsUpdated(now))
      && FirstOrDefault(Where(rows', ById(e.Id))) == None
  {
    var entries := TrackModified([], e.SoftDelete());
    assert entries == [Entry(e.SoftDelete(), Modified)];
    var stamped := Stamp(entries, now);
    assert stamped == [Entry(e.SoftDelete().MarkAsUpdated(now), Modified)];
    var rows' := ApplyEntries(rows, stamped);
    assert rows' == ReplaceById(rows, e.SoftDelete().MarkAsUpdated(now)) by {
      assert stamped[1..] == [];
      assert rows' == ApplyEntries(ApplyEntry(rows, stamped[0]), stamped[1..]);
    }
    forall x | x in rows' ensures !Holds(ById(e.Id), x) {
      var k :| 0 <= k < |rows'| && rows'[k] == x;
    }
  }

  /** Committing one staged entry writes exactly that entry, stamped. */
  lemma SingleCommitted<D(!new)>(rows: seq<Entity<D>>, entry: Entry<D>, now: Instant)
    ensures ApplyEntries(rows, Stamp([entry], now)) == ApplyEntry(rows, StampEntry(entry, now))
  {
    var stamped := Stamp([entry], now);
    assert stamped == [StampEntry(entry, now)];
    assert stamped[1..] == [];
  }

  /** In a table with unique keys, `GetByIdAsync` finds every live row by its key. */
  lemma FoundLive<D(!new)>(repo: Repository<D>, x: Entity<D>)
    requires repo.Context.Valid() && x in repo.Context.Rows && !x.IsDeleted
    ensures repo.GetById(x.Id) == Some(x)
  {
    var found := repo.GetById(x.Id);
    SameKeySameRow(repo.Context.Rows, found.value, x);
  }
}
