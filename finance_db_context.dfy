/**
 * `FinanceDbContext`: one entity table, the change tracker's entries staged
 * since the last commit, the soft-delete query filter, and `SaveChangesAsync`,
 * whose hook stamps `CreatedAt` on added entries and `UpdatedAt` on modified
 * ones before the staged changes are written, all of them or none.
 */
module Persistence {
  import opened Common
  import opened BaseEntities
  import opened ExpressionExtensions

  /** The change tracker's entry states. */
  datatype EntityState = Detached | Unchanged | Deleted | Modified | Added

  datatype Entry<D> = Entry(Entity: Entity<D>, State: EntityState)

  // ---------------------------------------------------------------------
  // Queries
  // ---------------------------------------------------------------------

  /** `Where(predicate)`: the elements the predicate holds for, in order. */
  function Where<T(==,!new)>(s: seq<T>, f: Lambda<T>): (r: seq<T>)
    ensures forall x :: x in r <==> x in s && Holds(f, x)
    ensures |r| <= |s|
  {
    if s == [] then []
    else
      assert forall x :: x in s <==> x == s[0] || x in s[1..];
      (if Holds(f, s[0]) then [s[0]] else []) + Where(s[1..], f)
  }

  /** The soft-delete filter `x => !x.IsDeleted`. */
  function NotDeleted<D(==,!new)>(): (f: Lambda<Entity<D>>)
    ensures Closed(f)
    ensures forall x :: Holds(f, x) <==> !x.IsDeleted
  {
    var f := Lambda(0, Not(Call(IsDeleted, 0)));
    assert Params(f.Body) == {0};
    assert forall x: Entity<D> :: Invoke(f, x) == Some(!x.IsDeleted) by {
      forall x: Entity<D> ensures Invoke(f, x) == Some(!x.IsDeleted) {
        assert Eval(Call(IsDeleted, 0), map[0 := x]) == Some(x.IsDeleted);
      }
    }
    f
  }

  predicate IsDeleted<D>(x: Entity<D>) {
    x.IsDeleted
  }

  lemma {:induction false} WhereAppend<T(!new)>(a: seq<T>, b: seq<T>, f: Lambda<T>)
    ensures Where(a + b, f) == Where(a, f) + Where(b, f)
  {
    if a == [] {
      assert a + b == b;
    } else {
      assert (a + b)[0] == a[0] && (a + b)[1..] == a[1..] + b;
      WhereAppend(a[1..], b, f);
      var head := if Holds(f, a[0]) then [a[0]] else [];
      calc {
        Where(a + b, f);
        head + Where(a[1..] + b, f);
        head + (Where(a[1..], f) + Where(b, f));
        (head + Where(a[1..], f)) + Where(b, f);
        Where(a, f) + Where(b, f);
      }
    }
  }

  /** Two predicates that agree on every element select the same subsequence. */
  lemma {:induction false} WhereAgree<T(!new)>(s: seq<T>, f: Lambda<T>, g: Lambda<T>)
    requires forall x :: x in s ==> (Holds(f, x) <==> Holds(g, x))
    ensures Where(s, f) == Where(s, g)
  {
    if s != [] {
      assert forall x :: x in s[1..] ==> x in s;
      WhereAgree(s[1..], f, g);
    }
  }

  /** Filtering twice is filtering once by a predicate that holds where both hold. */
  lemma {:induction false} WhereWhere<T(!new)>(s: seq<T>, f: Lambda<T>, g: Lambda<T>, h: Lambda<T>)
    requires forall x :: x in s ==> (Holds(h, x) <==> Holds(f, x) && Holds(g, x))
    ensures Where(Where(s, f), g) == Where(s, h)
  {
    if s != [] {
      assert forall x :: x in s[1..] ==> x in s;
      WhereWhere(s[1..], f, g, h);
      assert Holds(h, s[0]) <==> Holds(f, s[0]) && Holds(g, s[0]);
      if Holds(f, s[0]) {
        var t := [s[0]] + Where(s[1..], f);
        assert Where(s, f) == t;
        assert t[0] == s[0] && t[1..] == Where(s[1..], f);
        assert Where(t, g) == (if Holds(g, s[0]) then [s[0]] else []) + Where(t[1..], g);
      } else {
        assert Where(s, f) == Where(s[1..], f);
      }
    }
  }

  /**
   * The first element `Where` keeps is the element at the first position
   * the predicate holds at.
   */
  lemma {:induction false} WhereFirst<T(!new)>(s: seq<T>, f: Lambda<T>, k: nat)
    requires k < |s| && Holds(f, s[k])
    requires forall j :: 0 <= j < k ==> !Holds(f, s[j])
    ensures Where(s, f) != [] && Where(s, f)[0] == s[k]
  {
    if k > 0 {
      WhereFirst(s[1..], f, k - 1);
    }
  }

  /** The first element `Where` keeps sits at a position no earlier element passes. */
  lemma {:induction false} WhereHead<T(!new)>(s: seq<T>, f: Lambda<T>) returns (k: nat)
    requires Where(s, f) != []
    ensures k < |s| && s[k] == Where(s, f)[0] && Holds(f, s[k])
    ensures forall j :: 0 <= j < k ==> !Holds(f, s[j])
  {
    if Holds(f, s[0]) {
      k := 0;
    } else {
      assert Where(s, f) == Where(s[1..], f);
      var k' := WhereHead(s[1..], f);
      k := k' + 1;
      assert forall j :: 1 <= j < k ==> s[j] == s[1..][j - 1];
    }
  }

  /**
   * Replacing one element the predicate holds for by another it holds for
   * keeps the number of elements `Where` keeps.
   */
  lemma {:induction false} WherePointwise<T(!new)>(s: seq<T>, t: seq<T>, f: Lambda<T>, k: nat)
    requires |s| == |t| && k < |s|
    requires forall j :: 0 <= j < |s| && j != k ==> t[j] == s[j]
    requires Holds(f, s[k]) && Holds(f, t[k])
    ensures |Where(t, f)| == |Where(s, f)|
  {
    if k == 0 {
      assert t[1..] == s[1..];
    } else {
      WherePointwise(s[1..], t[1..], f, k - 1);
      assert t[0] == s[0];
    }
  }

  /** A filter changes nothing on a sequence all of whose elements pass it. */
  lemma {:induction false} WhereAll<T(!new)>(s: seq<T>, f: Lambda<T>)
    requires forall x :: x in s ==> Holds(f, x)
    ensures Where(s, f) == s
  {
    if s != [] {
      assert forall x :: x in s[1..] ==> x in s;
      WhereAll(s[1..], f);
    }
  }

  // ---------------------------------------------------------------------
  // Keys
  // ---------------------------------------------------------------------

  function Ids<D(==,!new)>(rows: seq<Entity<D>>): set<Guid> {
    set x | x in rows :: x.Id
  }

  /** The primary-key constraint. */
  predicate UniqueIds<D(==,!new)>(rows: seq<Entity<D>>) {
    forall i, j :: 0 <= i < j < |rows| ==> rows[i].Id != rows[j].Id
  }

  /** The change tracker follows at most one entity per key. */
  predicate UniqueEntries<D(==,!new)>(entries: seq<Entry<D>>) {
    forall i, j :: 0 <= i < j < |entries| ==> entries[i].Entity.Id != entries[j].Entity.Id
  }

  /** Under the primary-key constraint a key names at most one row. */
  lemma SameKeySameRow<D(!new)>(rows: seq<Entity<D>>, x: Entity<D>, y: Entity<D>)
    requires UniqueIds(rows) && x in rows && y in rows && x.Id == y.Id
    ensures x == y
  {
    var i :| 0 <= i < |rows| && rows[i] == x;
    var j :| 0 <= j < |rows| && rows[j] == y;
  }

  /** The position of the (first) entry tracking key `id`. */
  function EntryIndex<D(==,!new)>(entries: seq<Entry<D>>, id: Guid): (r: Option<nat>)
    ensures r.Some? ==> r.value < |entries| && entries[r.value].Entity.Id == id
    ensures r.Some? ==> forall k :: 0 <= k < r.value ==> entries[k].Entity.Id != id
    ensures r.None? <==> forall k :: 0 <= k < |entries| ==> entries[k].Entity.Id != id
  {
    if entries == [] then None
    else if entries[0].Entity.Id == id then Some(0)
    else
      var r := EntryIndex(entries[1..], id);
      if r.None? then None else Some(r.value + 1)
  }

  /** The entry tracking key `id`, if any. */
  function Tracked<D(==,!new)>(entries: seq<Entry<D>>, id: Guid): Option<Entry<D>> {
    var i := EntryIndex(entries, id);
    if i.None? then None else Some(entries[i.value])
  }

  // ---------------------------------------------------------------------
  // Staging (DbSet.Add / Update / Remove)
  // ---------------------------------------------------------------------

  /** `Add`: the entity becomes tracked as Added; no other entry changes. */
  function TrackAdded<D(==,!new)>(entries: seq<Entry<D>>, e: Entity<D>): (r: seq<Entry<D>>)
    ensures Tracked(r, e.Id) == Some(Entry(e, Added))
    ensures entries == [] ==> r == [Entry(e, Added)]
    ensures forall en :: en in r && en.Entity.Id != e.Id <==> en in entries && en.Entity.Id != e.Id
    ensures UniqueEntries(entries) ==> UniqueEntries(r)
  {
    var i := EntryIndex(entries, e.Id);
    if i.None? then
      assert EntryIndex(entries + [Entry(e, Added)], e.Id) == Some(|entries|) by {
        LastIndex(entries, Entry(e, Added));
      }
      entries + [Entry(e, Added)]
    else
      var r := entries[i.value := Entry(e, Added)];
      assert EntryIndex(r, e.Id) == Some(i.value) by { SameIdsSameIndex(entries, r, e.Id); }
      OverwriteKeepsOthers(entries, i.value, Entry(e, Added));
      r
  }

  /** `Update`: the entity becomes tracked as Modified, or stays Added if it was added in this unit of work. */
  function TrackModified<D(==,!new)>(entries: seq<Entry<D>>, e: Entity<D>): (r: seq<Entry<D>>)
    ensures var before := Tracked(entries, e.Id);
      Tracked(r, e.Id) == Some(Entry(e, if before.Some? && before.value.State == Added then Added else Modified))
    ensures entries == [] ==> r == [Entry(e, Modified)]
    ensures forall en :: en in r && en.Entity.Id != e.Id <==> en in entries && en.Entity.Id != e.Id
    ensures UniqueEntries(entries) ==> UniqueEntries(r)
  {
    var i := EntryIndex(entries, e.Id);
    if i.None? then
      assert EntryIndex(entries + [Entry(e, Modified)], e.Id) == Some(|entries|) by {
        LastIndex(entries, Entry(e, Modified));
      }
      entries + [Entry(e, Modified)]
    else
      var state := if entries[i.value].State == Added then Added else Modified;
      var r := entries[i.value := Entry(e, state)];
      assert EntryIndex(r, e.Id) == Some(i.value) by { SameIdsSameIndex(entries, r, e.Id); }
      OverwriteKeepsOthers(entries, i.value, Entry(e, state));
      r
  }

  /**
   * `Remove`: the entity becomes tracked as Deleted; an entity added in this
   * unit of work is no longer tracked at all.
   */
  function TrackDeleted<D(==,!new)>(entries: seq<Entry<D>>, e: Entity<D>): (r: seq<Entry<D>>)
    requires UniqueEntries(entries)
    ensures var before := Tracked(entries, e.Id);
      Tracked(r, e.Id) == if before.Some? && before.value.State == Added then None else Some(Entry(e, Deleted))
    ensures forall en :: en in r && en.Entity.Id != e.Id <==> en in entries && en.Entity.Id != e.Id
    ensures UniqueEntries(r)
  {
    var i := EntryIndex(entries, e.Id);
    if i.None? then
      assert EntryIndex(entries + [Entry(e, Deleted)], e.Id) == Some(|entries|) by {
        LastIndex(entries, Entry(e, Deleted));
      }
      entries + [Entry(e, Deleted)]
    else if entries[i.value].State == Added then
      DropEntry(entries, i.value);
      entries[..i.value] + entries[i.value + 1..]
    else
      var r := entries[i.value := Entry(e, Deleted)];
      assert EntryIndex(r, e.Id) == Some(i.value) by { SameIdsSameIndex(entries, r, e.Id); }
      OverwriteKeepsOthers(entries, i.value, Entry(e, Deleted));
      r
  }

  /** Dropping the entry at `i` leaves the others, and no entry for its key. */
  lemma DropEntry<D(!new)>(entries: seq<Entry<D>>, i: nat)
    requires UniqueEntries(entries) && i < |entries|
    ensures var r := entries[..i] + entries[i + 1..];
      && (forall en :: en in r && en.Entity.Id != entries[i].Entity.Id <==>
                       en in entries && en.Entity.Id != entries[i].Entity.Id)
      && UniqueEntries(r)
      && EntryIndex(r, entries[i].Entity.Id).None?
  {
    var r := entries[..i] + entries[i + 1..];
    assert forall k :: 0 <= k < |r| ==> r[k] == (if k < i then entries[k] else entries[k + 1]);
    forall en | en in entries && en.Entity.Id != entries[i].Entity.Id ensures en in r {
      var k :| 0 <= k < |entries| && entries[k] == en;
      if k < i { assert r[k] == en; } else { assert r[k - 1] == en; }
    }
  }

  /** `Add` called on each entity in turn. */
  function TrackAll<D(==,!new)>(entries: seq<Entry<D>>, es: seq<Entity<D>>): seq<Entry<D>>
    decreases |es|
  {
    if es == [] then entries else TrackAll(TrackAdded(entries, es[0]), es[1..])
  }

  /** Adding one more entity after a sequence of adds. */
  lemma {:induction false} TrackAllSnoc<D(!new)>(entries: seq<Entry<D>>, es: seq<Entity<D>>, x: Entity<D>)
    ensures TrackAll(entries, es + [x]) == TrackAdded(TrackAll(entries, es), x)
    decreases |es|
  {
    if es == [] {
      assert es + [x] == [x];
    } else {
      assert (es + [x])[0] == es[0] && (es + [x])[1..] == es[1..] + [x];
      TrackAllSnoc(TrackAdded(entries, es[0]), es[1..], x);
    }
  }

  /** Each entity as a new Added entry. */
  function AddedEntries<D>(es: seq<Entity<D>>): (r: seq<Entry<D>>)
    ensures |r| == |es| && forall k :: 0 <= k < |r| ==> r[k] == Entry(es[k], Added)
  {
    seq(|es|, k requires 0 <= k < |es| => Entry(es[k], Added))
  }

  /** Adding entities with distinct new keys appends one Added entry per entity, in order. */
  lemma {:induction false} TrackAllFresh<D(!new)>(entries: seq<Entry<D>>, es: seq<Entity<D>>)
    requires UniqueIds(es)
    requires forall k :: 0 <= k < |entries| ==> entries[k].Entity.Id !in Ids(es)
    ensures TrackAll(entries, es) == entries + AddedEntries(es)
    decreases |es|
  {
    if es != [] {
      FreshAfterAdd(entries, es);
      TrackAllFresh(entries + [Entry(es[0], Added)], es[1..]);
      AddedEntriesCons(entries, es);
    }
  }

  lemma AddedEntriesCons<D(!new)>(entries: seq<Entry<D>>, es: seq<Entity<D>>)
    requires es != []
    ensures (entries + [Entry(es[0], Added)]) + AddedEntries(es[1..]) == entries + AddedEntries(es)
  {
    assert AddedEntries(es) == [Entry(es[0], Added)] + AddedEntries(es[1..]);
  }

  /** The step of `TrackAllFresh`: the head is appended, and the rest stays fresh after it. */
  lemma FreshAfterAdd<D(!new)>(entries: seq<Entry<D>>, es: seq<Entity<D>>)
    requires UniqueIds(es) && es != []
    requires forall k :: 0 <= k < |entries| ==> entries[k].Entity.Id !in Ids(es)
    ensures TrackAdded(entries, es[0]) == entries + [Entry(es[0], Added)]
    ensures UniqueIds(es[1..])
    ensures forall k :: 0 <= k < |entries| + 1 ==> (entries + [Entry(es[0], Added)])[k].Entity.Id !in Ids(es[1..])
  {
    assert es[0] in es;
    TrackAddedFresh(entries, es[0]);
    HeadKeyFresh(es);
    var entries' := entries + [Entry(es[0], Added)];
    forall k | 0 <= k < |entries'| ensures entries'[k].Entity.Id !in Ids(es[1..]) {
      if k < |entries| { assert entries'[k] == entries[k]; }
    }
  }

  /** Adding an entity whose key no entry tracks appends one Added entry. */
  lemma TrackAddedFresh<D(!new)>(entries: seq<Entry<D>>, e: Entity<D>)
    requires forall k :: 0 <= k < |entries| ==> entries[k].Entity.Id != e.Id
    ensures TrackAdded(entries, e) == entries + [Entry(e, Added)]
  {
  }

  lemma {:induction false} LastIndex<D(!new)>(entries: seq<Entry<D>>, en: Entry<D>)
    requires forall k :: 0 <= k < |entries| ==> entries[k].Entity.Id != en.Entity.Id
    ensures EntryIndex(entries + [en], en.Entity.Id) == Some(|entries|)
    decreases |entries|
  {
    if entries != [] {
      assert (entries + [en])[1..] == entries[1..] + [en];
      LastIndex(entries[1..], en);
    }
  }

  /** Overwriting the entry at `i` with one for the same key leaves every entry for another key in place. */
  lemma OverwriteKeepsOthers<D(!new)>(entries: seq<Entry<D>>, i: nat, x: Entry<D>)
    requires i < |entries| && entries[i].Entity.Id == x.Entity.Id
    ensures forall en :: en in entries[i := x] && en.Entity.Id != x.Entity.Id
                     <==> en in entries && en.Entity.Id != x.Entity.Id
  {
    var r := entries[i := x];
    forall en | en in r && en.Entity.Id != x.Entity.Id ensures en in entries {
      var k :| 0 <= k < |r| && r[k] == en;
      assert entries[k] == en;
    }
    forall en | en in entries && en.Entity.Id != x.Entity.Id ensures en in r {
      var k :| 0 <= k < |entries| && entries[k] == en;
      assert r[k] == en;
    }
  }

  /** Two sequences with the same keys at every position have the same first index for every key. */
  lemma {:induction false} SameIdsSameIndex<D(!new)>(a: seq<Entry<D>>, b: seq<Entry<D>>, id: Guid)
    requires |a| == |b| && forall k :: 0 <= k < |a| ==> a[k].Entity.Id == b[k].Entity.Id
    ensures EntryIndex(a, id) == EntryIndex(b, id)
    decreases |a|
  {
    if a != [] && a[0].Entity.Id != id {
      SameIdsSameIndex(a[1..], b[1..], id);
    }
  }

  // ---------------------------------------------------------------------
  // The commit hook
  // ---------------------------------------------------------------------

  /**
   * One iteration of the hook's loop: an Added entry gets `CreatedAt`
   * stamped, a Modified one `UpdatedAt`; nothing else in the entry changes,
   * and entries in any other state are left as they are.
   */
  function StampEntry<D(==,!new)>(entry: Entry<D>, now: Instant): (r: Entry<D>)
    ensures r.State == entry.State
    ensures entry.State == Added ==>
      r.Entity.CreatedAt == now && r.Entity.UpdatedAt == entry.Entity.UpdatedAt
    ensures entry.State == Modified ==>
      r.Entity.UpdatedAt == Some(now) && r.Entity.CreatedAt == entry.Entity.CreatedAt
    ensures r.Entity.Id == entry.Entity.Id && r.Entity.IsDeleted == entry.Entity.IsDeleted
    ensures r.Entity.Data == entry.Entity.Data
    ensures entry.State != Added && entry.State != Modified ==> r == entry
  {
    var e := entry.Entity;
    var e := if entry.State == Added then e.SetCreated(now) else e;
    var e := if entry.State == Modified then e.MarkAsUpdated(now) else e;
    Entry(e, entry.State)
  }

  /** The hook applied to every entry. */
  function Stamp<D(==,!new)>(entries: seq<Entry<D>>, now: Instant): (r: seq<Entry<D>>)
    ensures |r| == |entries|
    ensures forall k :: 0 <= k < |r| ==> r[k] == StampEntry(entries[k], now)
  {
    seq(|entries|, k requires 0 <= k < |entries| => StampEntry(entries[k], now))
  }

  // ---------------------------------------------------------------------
  // Writing the staged changes
  // ---------------------------------------------------------------------

  /**
   * The database accepts the unit of work: an added key is new, an updated
   * or deleted key exists (otherwise the primary-key constraint or the
   * expected row count fails, and nothing is written).
   */
  predicate CanCommit<D(==,!new)>(rows: seq<Entity<D>>, entries: seq<Entry<D>>) {
    forall k :: 0 <= k < |entries| ==>
      && (entries[k].State == Added ==> entries[k].Entity.Id !in Ids(rows))
      && (entries[k].State == Modified || entries[k].State == Deleted ==> entries[k].Entity.Id in Ids(rows))
  }

  /** The row with the entity's key replaced by the entity. */
  function ReplaceById<D(==,!new)>(rows: seq<Entity<D>>, e: Entity<D>): (r: seq<Entity<D>>)
    ensures |r| == |rows|
    ensures forall k :: 0 <= k < |r| ==> r[k] == if rows[k].Id == e.Id then e else rows[k]
  {
    seq(|rows|, k requires 0 <= k < |rows| => if rows[k].Id == e.Id then e else rows[k])
  }

  /** The rows without the one with key `id`. */
  function RemoveById<D(==,!new)>(rows: seq<Entity<D>>, id: Guid): (r: seq<Entity<D>>)
    ensures forall x :: x in r <==> x in rows && x.Id != id
    ensures Ids(r) == Ids(rows) - {id}
  {
    if rows == [] then []
    else
      assert forall x :: x in rows <==> x == rows[0] || x in rows[1..];
      (if rows[0].Id == id then [] else [rows[0]]) + RemoveById(rows[1..], id)
  }

  lemma {:induction false} RemoveKeepsKeysUnique<D(!new)>(rows: seq<Entity<D>>, id: Guid)
    requires UniqueIds(rows)
    ensures UniqueIds(RemoveById(rows, id))
    decreases |rows|
  {
    if rows != [] {
      RemoveKeepsKeysUnique(rows[1..], id);
      if rows[0].Id != id {
        HeadKeyFresh(rows);
        ConsKeepsKeysUnique(rows[0], RemoveById(rows[1..], id));
      }
    }
  }

  lemma HeadKeyFresh<D(!new)>(rows: seq<Entity<D>>)
    requires UniqueIds(rows) && rows != []
    ensures rows[0].Id !in Ids(rows[1..])
    ensures UniqueIds(rows[1..]) && Ids(rows[1..]) <= Ids(rows)
  {
    forall x | x in rows[1..] ensures x.Id != rows[0].Id {
      var k :| 0 <= k < |rows[1..]| && rows[1..][k] == x;
      assert rows[k + 1] == x;
    }
    forall i, j | 0 <= i < j < |rows[1..]| ensures rows[1..][i].Id != rows[1..][j].Id {
      assert rows[1..][i] == rows[i + 1] && rows[1..][j] == rows[j + 1];
    }
    assert forall x :: x in rows[1..] ==> x in rows;
  }

  lemma ConsKeepsKeysUnique<D(!new)>(h: Entity<D>, t: seq<Entity<D>>)
    requires UniqueIds(t) && h.Id !in Ids(t)
    ensures UniqueIds([h] + t)
  {
    var r := [h] + t;
    forall i, j | 0 <= i < j < |r| ensures r[i].Id != r[j].Id {
      assert r[j] == t[j - 1];
      if i > 0 { assert r[i] == t[i - 1]; }
      else { assert t[j - 1] in t; }
    }
  }

  /** Writing one entry. */
  function ApplyEntry<D(==,!new)>(rows: seq<Entity<D>>, entry: Entry<D>): seq<Entity<D>> {
    match entry.State
    case Added => rows + [entry.Entity]
    case Modified => ReplaceById(rows, entry.Entity)
    case Deleted => RemoveById(rows, entry.Entity.Id)
    case Unchanged => rows
    case Detached => rows
  }

  /**
   * Writing every entry, in tracking order. Every row written is an old row
   * or a staged entity, and entries that are neither Added, Modified nor
   * Deleted write nothing.
   */
  function ApplyEntries<D(==,!new)>(rows: seq<Entity<D>>, entries: seq<Entry<D>>): (r: seq<Entity<D>>)
    ensures forall x :: x in r ==> x in rows || exists k :: 0 <= k < |entries| && entries[k].Entity == x
    ensures (forall k :: 0 <= k < |entries| ==> entries[k].State == Unchanged || entries[k].State == Detached) ==> r == rows
    decreases |entries|
  {
    if entries == [] then rows else ApplyEntries(ApplyEntry(rows, entries[0]), entries[1..])
  }

  /** Writing only Added entries appends their entities, in order. */
  lemma {:induction false} ApplyAllAdded<D(!new)>(rows: seq<Entity<D>>, es: seq<Entity<D>>)
    ensures ApplyEntries(rows, AddedEntries(es)) == rows + es
    decreases |es|
  {
    if es != [] {
      assert AddedEntries(es)[1..] == AddedEntries(es[1..]);
      ApplyAllAdded(rows + [es[0]], es[1..]);
      assert rows + [es[0]] + es[1..] == rows + es;
    }
  }

  lemma IdsAppend<D(!new)>(rows: seq<Entity<D>>, e: Entity<D>)
    ensures Ids(rows + [e]) == Ids(rows) + {e.Id}
  {
    var r := rows + [e];
    forall g | g in Ids(r) ensures g in Ids(rows) + {e.Id} {
      var i :| 0 <= i < |r| && r[i].Id == g;
      if i < |rows| { assert r[i] == rows[i]; }
    }
    forall g | g in Ids(rows) ensures g in Ids(r) {
      var i :| 0 <= i < |rows| && rows[i].Id == g;
      assert r[i] == rows[i];
    }
    assert r[|rows|] == e;
  }

  lemma IdsReplace<D(!new)>(rows: seq<Entity<D>>, e: Entity<D>)
    requires e.Id in Ids(rows)
    ensures Ids(ReplaceById(rows, e)) == Ids(rows)
  {
    var r := ReplaceById(rows, e);
    forall g | g in Ids(r) ensures g in Ids(rows) {
      var i :| 0 <= i < |r| && r[i].Id == g;
    }
    forall g | g in Ids(rows) ensures g in Ids(r) {
      var i :| 0 <= i < |rows| && rows[i].Id == g;
      assert r[i].Id == g;
    }
  }

  /** A commit the database accepts keeps the keys unique. */
  lemma {:induction false} ApplyKeepsKeysUnique<D(!new)>(rows: seq<Entity<D>>, entries: seq<Entry<D>>)
    requires UniqueIds(rows) && UniqueEntries(entries) && CanCommit(rows, entries)
    ensures UniqueIds(ApplyEntries(rows, entries))
    decreases |entries|
  {
    if entries != [] {
      var en := entries[0];
      var rows' := ApplyEntry(rows, en);
      match en.State {
        case Added =>
          IdsAppend(rows, en.Entity);
          forall i, j | 0 <= i < j < |rows'| ensures rows'[i].Id != rows'[j].Id {
            if j == |rows| { assert rows'[i] == rows[i]; assert rows[i].Id in Ids(rows); }
            else { assert rows'[i] == rows[i] && rows'[j] == rows[j]; }
          }
        case Modified =>
          IdsReplace(rows, en.Entity);
          forall i, j | 0 <= i < j < |rows'| ensures rows'[i].Id != rows'[j].Id {
            assert rows'[i].Id == rows[i].Id && rows'[j].Id == rows[j].Id;
          }
        case Deleted =>
          RemoveKeepsKeysUnique(rows, en.Entity.Id);
        case Unchanged =>
        case Detached =>
      }
      assert Ids(rows') == Ids(rows) + {en.Entity.Id} || Ids(rows') == Ids(rows)
          || Ids(rows') == Ids(rows) - {en.Entity.Id};
      forall k | 0 <= k < |entries[1..]|
        ensures && (entries[1..][k].State == Added ==> entries[1..][k].Entity.Id !in Ids(rows'))
                && (entries[1..][k].State == Modified || entries[1..][k].State == Deleted ==> entries[1..][k].Entity.Id in Ids(rows'))
      {
        assert entries[1..][k] == entries[k + 1];
        assert entries[k + 1].Entity.Id != en.Entity.Id;
      }
      ApplyKeepsKeysUnique(rows', entries[1..]);
    }
  }

  lemma StampKeepsKeysAndStates<D(!new)>(rows: seq<Entity<D>>, entries: seq<Entry<D>>, now: Instant)
    ensures UniqueEntries(entries) ==> UniqueEntries(Stamp(entries, now))
    ensures CanCommit(rows, Stamp(entries, now)) <==> CanCommit(rows, entries)
  {
  }

  /**
   * What a commit of the tracked `entries` over the table `rows` leaves
   * behind (`rows'`, `entries'`): it passes exactly when the database
   * accepts every entry; then the stamped entries are written and the
   * tracker is emptied; a refused commit throws `DbUpdateException`, writes
   * nothing and leaves the entries tracked with their stamps.
   */
  predicate Committed<D(==,!new)>(rows: seq<Entity<D>>, entries: seq<Entry<D>>, now: Instant, result: Outcome,
                                  rows': seq<Entity<D>>, entries': seq<Entry<D>>) {
    && (result.Pass? <==> CanCommit(rows, entries))
    && (result.Pass? ==> rows' == ApplyEntries(rows, Stamp(entries, now)) && entries' == [])
    && (result.Fail? ==> result.error == DbUpdateException && rows' == rows && entries' == Stamp(entries, now))
  }

  /** A commit keeps the context's invariant: keys stay unique in the table and in the tracker. */
  lemma CommittedKeepsKeysUnique<D(!new)>(rows: seq<Entity<D>>, entries: seq<Entry<D>>, now: Instant, result: Outcome,
                                          rows': seq<Entity<D>>, entries': seq<Entry<D>>)
    requires UniqueIds(rows) && UniqueEntries(entries)
    requires Committed(rows, entries, now, result, rows', entries')
    ensures UniqueIds(rows') && UniqueEntries(entries')
  {
    StampKeepsKeysAndStates(rows, entries, now);
    if result.Pass? {
      ApplyKeepsKeysUnique(rows, Stamp(entries, now));
    }
  }

  // ---------------------------------------------------------------------
  // The context
  // ---------------------------------------------------------------------

  class FinanceDbContext<D(==,!new)> {
    /** The soft-delete global query filter (`HasQueryFilter(e => !e.IsDeleted)`). */
    const HasQueryFilter: bool
    /** The committed table. */
    var Rows: seq<Entity<D>>
    /** The change tracker: entries staged since the last commit. */
    var Entries: seq<Entry<D>>

    predicate Valid()
      reads this
    {
      UniqueIds(Rows) && UniqueEntries(Entries)
    }

    constructor (hasQueryFilter: bool, rows: seq<Entity<D>>)
      requires UniqueIds(rows)
      ensures Valid()
      ensures HasQueryFilter == hasQueryFilter && Rows == rows && Entries == []
    {
      HasQueryFilter := hasQueryFilter;
      Rows := rows;
      Entries := [];
    }

    /** `Set<T>()`: the table as every query sees it, with the global filter applied when one is configured. */
    function Query(): (r: seq<Entity<D>>)
      reads this
      ensures HasQueryFilter ==> forall x :: x in r ==> !x.IsDeleted
      ensures forall x :: x in r ==> x in Rows
      ensures forall x :: x in Rows && !x.IsDeleted ==> x in r
    {
      if HasQueryFilter then Where(Rows, NotDeleted()) else Rows
    }

    /**
     * `SaveChangesAsync`: the hook stamps every tracked entry (the loop), then
     * the staged changes are written if the database accepts all of them.
     * On success the tracker is empty; on a refused commit the table is
     * unchanged and the entries keep their stamps.
     */
    method SaveChanges(now: Instant) returns (result: Outcome)
      requires Valid()
      modifies this
      ensures Valid()
      ensures Committed(old(Rows), old(Entries), now, result, Rows, Entries)
    {
      var stamped: seq<Entry<D>> := [];
      for i := 0 to |Entries|
        invariant |stamped| == i
        invariant forall k :: 0 <= k < i ==> stamped[k] == StampEntry(Entries[k], now)
      {
        stamped := stamped + [StampEntry(Entries[i], now)];
      }
      assert stamped == Stamp(Entries, now);
      StampKeepsKeysAndStates(Rows, Entries, now);
      Entries := stamped;
      if CanCommit(Rows, stamped) {
        ApplyKeepsKeysUnique(Rows, stamped);
        Rows := ApplyEntries(Rows, stamped);
        Entries := [];
        result := Pass;
      } else {
        result := Fail(DbUpdateException);
      }
    }
  }
}
