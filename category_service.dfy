/**
 * `CategoryService`: a user's categories behind an ownership check, the
 * shared template categories, and seeding a user's categories from the
 * templates.
 */
module CategoryServices {
  import opened Common
  import opened BaseEntities
  import opened ExpressionExtensions
  import opened Persistence
  import opened Repositories
  import opened Categories

  /** The lambda `c => c.UserId == userId`. */
  function OwnedBy(userId: UserId): (f: Lambda<Category>)
    ensures Closed(f)
    ensures forall c :: Holds(f, c) <==> c.Data.UserId == userId
  {
    var f := Lambda(0, Call((c: Category) => c.Data.UserId == userId, 0));
    assert forall c: Category :: Invoke(f, c) == Some(c.Data.UserId == userId);
    f
  }

  /** The lambda `c => string.IsNullOrEmpty(c.UserId)`: the template categories. */
  function TemplateFilter(): (f: Lambda<Category>)
    ensures Closed(f)
    ensures forall c :: Holds(f, c) <==> IsTemplate(c)
  {
    var f := Lambda(0, Call((c: Category) => c.Data.UserId == "", 0));
    assert forall c: Category :: Invoke(f, c) == Some(c.Data.UserId == "");
    f
  }

  /**
   * The filter of `GetPagedCategoriesAsync`: the owner test, conjoined by
   * `AndAlso` with the caller's filter when there is one.
   */
  function UserFilter(userId: UserId, filter: Option<Lambda<Category>>): (f: Lambda<Category>)
    ensures forall c :: Holds(f, c) <==> c.Data.UserId == userId && (filter.Some? ==> Holds(filter.value, c))
  {
    if filter.Some? then AndAlso(Some(OwnedBy(userId)), filter).value else OwnedBy(userId)
  }

  /** `cs.Any(ec => ec.Name == name)`. */
  predicate HasName(cs: seq<Category>, name: string) {
    exists k :: 0 <= k < |cs| && cs[k].Data.Name == name
  }

  lemma HasNameAppend(a: seq<Category>, b: seq<Category>, name: string)
    ensures HasName(a, name) || HasName(b, name) ==> HasName(a + b, name)
  {
    if HasName(a, name) {
      var k :| 0 <= k < |a| && a[k].Data.Name == name;
      assert (a + b)[k] == a[k];
    } else if HasName(b, name) {
      var k :| 0 <= k < |b| && b[k].Data.Name == name;
      assert (a + b)[|a| + k] == b[k];
    }
  }

  /**
   * The edits of `UpdateCategoryAsync`, in order: name, description, icon,
   * and the badge colour when one is given; a rejected name or colour stops
   * the edit. On success the category carries exactly the requested values
   * (a missing icon becomes the default, a missing or blank colour keeps the
   * old one) and keeps its key, stamps, deletion flag and owner.
   */
  function Edit(c: Category, name: string, description: Option<string>, icon: Option<string>,
                badgeColor: Option<string>): (r: Result<Category>)
    ensures r.Failure? <==>
      IsBlank(name) || (!IsBlankOrNull(badgeColor) && !(|badgeColor.value| == 7 && badgeColor.value[0] == '#'))
    ensures IsBlank(name) ==> r == Failure(ArgumentException("name"))
    ensures !IsBlank(name) && r.Failure? ==> r.error == ArgumentException("badgeColor")
    ensures r.Success? ==>
      && SameBase(r.value, c)
      && r.value.Data.Name == name
      && r.value.Data.Description == description
      && r.value.Data.Icon == Some(if icon.Some? then icon.value else DefaultIcon)
      && r.value.Data.BadgeColor == (if IsBlankOrNull(badgeColor) then c.Data.BadgeColor else badgeColor.value)
      && r.value.Data.UserId == c.Data.UserId
  {
    var named := UpdateName(c, name);
    if named.Failure? then named
    else
      var c' := UpdateIcon(UpdateDescription(named.value, description), icon);
      if IsBlankOrNull(badgeColor) then Success(c') else UpdateBadgeColor(c', badgeColor.value)
  }

  /**
   * What seeding stages: the copies made so far and, when a template could
   * not be copied, the constructor's error (which stops the loop).
   */
  datatype Seed = Seed(Copies: seq<Category>, Error: Option<Error>)

  /**
   * The loop of `AssignDefaultCategoriesToUserAsync` over `templates`: a
   * template whose name the user already has (in `existing`, read once
   * before the loop) is skipped; otherwise a new category with the
   * template's name and description, default icon and colour, owned by
   * `userId`, is staged. The k-th category constructed gets key `newIds(k)`.
   *
   * Every copy is a new live category owned by the user, named after a
   * template whose name the user did not have (`SeedComplete` and
   * `SeedFailsIff` state what is copied and when the loop stops).
   */
  function SeedCopies(templates: seq<Category>, existing: seq<Category>, userId: UserId,
                      newIds: nat -> Guid): (r: Seed)
    ensures |r.Copies| <= |templates|
    ensures forall k :: 0 <= k < |r.Copies| ==>
      && r.Copies[k].Id == newIds(k) && r.Copies[k].Data.UserId == userId
      && !r.Copies[k].IsDeleted && r.Copies[k].UpdatedAt == None
      && r.Copies[k].Data.Icon == Some(DefaultIcon) && r.Copies[k].Data.BadgeColor == DefaultBadgeColor
    ensures r.Error.Some? ==> r.Error == Some(ArgumentException("name"))
    decreases |templates|
  {
    if templates == [] then Seed([], None)
    else
      var n := |templates| - 1;
      SeedNext(SeedCopies(templates[..n], existing, userId, newIds), templates[n], existing, userId, newIds)
  }

  /**
   * One iteration of the seeding loop after the copies `prev`: nothing once
   * a template was rejected or when the user has the template's name, else
   * the template's copy or the constructor's error.
   */
  function SeedNext(prev: Seed, t: Category, existing: seq<Category>, userId: UserId,
                    newIds: nat -> Guid): (r: Seed)
    ensures prev.Error.Some? ==> r == prev
    ensures HasName(existing, t.Data.Name) ==> r == prev
  {
    if prev.Error.Some? || HasName(existing, t.Data.Name) then prev
    else
      var made := NewCategory(newIds(|prev.Copies|), t.Data.Name, t.Data.Description, None, None);
      if made.Failure? then Seed(prev.Copies, Some(made.error))
      else
        var copy := WithOwner(made.value, userId);
        assert copy == (prev.Copies + [copy])[|prev.Copies|];
        Seed(prev.Copies + [copy], None)
  }

  /** Every copy is named after a template whose name the user did not have. */
  lemma {:induction false} SeedNamed(templates: seq<Category>, existing: seq<Category>, userId: UserId,
                                     newIds: nat -> Guid)
    ensures var r := SeedCopies(templates, existing, userId, newIds);
      forall k :: 0 <= k < |r.Copies| ==>
        HasName(templates, r.Copies[k].Data.Name) && !HasName(existing, r.Copies[k].Data.Name)
    decreases |templates|
  {
    if templates != [] {
      var n := |templates| - 1;
      SeedNamed(templates[..n], existing, userId, newIds);
      assert forall k :: 0 <= k < |SeedCopies(templates[..n], existing, userId, newIds).Copies| ==>
        HasName(templates[..n], SeedCopies(templates[..n], existing, userId, newIds).Copies[k].Data.Name);
      var prev := SeedCopies(templates[..n], existing, userId, newIds);
      SeedNextNamed(templates, prev, existing, userId, newIds);
    }
  }

  /** The step of `SeedNamed`: the copy made for the last template is named after it. */
  lemma SeedNextNamed(templates: seq<Category>, prev: Seed, existing: seq<Category>, userId: UserId,
                      newIds: nat -> Guid)
    requires templates != []
    requires forall k :: 0 <= k < |prev.Copies| ==>
      HasName(templates[..|templates| - 1], prev.Copies[k].Data.Name) && !HasName(existing, prev.Copies[k].Data.Name)
    ensures var r := SeedNext(prev, templates[|templates| - 1], existing, userId, newIds);
      forall k :: 0 <= k < |r.Copies| ==>
        HasName(templates, r.Copies[k].Data.Name) && !HasName(existing, r.Copies[k].Data.Name)
  {
    var n := |templates| - 1;
    var t := templates[n];
    SeedStep(templates, existing, prev);
    var r := SeedNext(prev, t, existing, userId, newIds);
    forall k | 0 <= k < |r.Copies|
      ensures HasName(templates, r.Copies[k].Data.Name) && !HasName(existing, r.Copies[k].Data.Name)
    {
      if k < |prev.Copies| {
        assert r.Copies[k] == prev.Copies[k];
      } else {
        var made := NewCategory(newIds(|prev.Copies|), t.Data.Name, t.Data.Description, None, None);
        assert r.Copies[k] == WithOwner(made.value, userId);
      }
    }
  }

  /**
   * The templates whose name the user does not have, in template order:
   * what the seeding loop sets out to copy. Since the user's names are read
   * once before the loop, a template name that occurs twice is copied twice.
   */
  function Missing(templates: seq<Category>, existing: seq<Category>): (r: seq<Category>)
    ensures |r| <= |templates|
    ensures forall k :: 0 <= k < |r| ==> r[k] in templates && !HasName(existing, r[k].Data.Name)
    ensures forall k :: 0 <= k < |templates| && !HasName(existing, templates[k].Data.Name) ==> templates[k] in r
    decreases |templates|
  {
    if templates == [] then []
    else
      var n := |templates| - 1;
      assert forall t :: t in templates[..n] ==> t in templates;
      assert forall k :: 0 <= k < n ==> templates[k] == templates[..n][k];
      Missing(templates[..n], existing) + if HasName(existing, templates[n].Data.Name) then [] else [templates[n]]
  }

  /**
   * The copies correspond one to one, in order, with the missing templates:
   * the k-th copy has the k-th missing template's name and description. A
   * rejection leaves a prefix of that correspondence; without one, every
   * missing template is copied.
   */
  lemma {:induction false} SeedMatchesMissing(templates: seq<Category>, existing: seq<Category>, userId: UserId,
                                              newIds: nat -> Guid)
    ensures var r := SeedCopies(templates, existing, userId, newIds);
      var m := Missing(templates, existing);
      && |r.Copies| <= |m|
      && (r.Error.None? ==> |r.Copies| == |m|)
      && forall k :: 0 <= k < |r.Copies| ==>
           r.Copies[k].Data.Name == m[k].Data.Name && r.Copies[k].Data.Description == m[k].Data.Description
    decreases |templates|
  {
    if templates != [] {
      var n := |templates| - 1;
      SeedMatchesMissing(templates[..n], existing, userId, newIds);
      var prev := SeedCopies(templates[..n], existing, userId, newIds);
      var m' := Missing(templates[..n], existing);
      var r := SeedCopies(templates, existing, userId, newIds);
      var m := Missing(templates, existing);
      assert forall k :: 0 <= k < |m'| ==> m[k] == m'[k];
      if prev.Error.None? && !HasName(existing, templates[n].Data.Name) && r.Error.None? {
        assert m == m' + [templates[n]];
        assert r.Copies[|prev.Copies|].Data.Name == templates[n].Data.Name;
      }
    }
  }

  /**
   * Unless a template name is rejected, every template name ends up among
   * the user's existing names or the copies' names.
   */
  lemma {:induction false} SeedComplete(templates: seq<Category>, existing: seq<Category>, userId: UserId,
                                        newIds: nat -> Guid)
    ensures var r := SeedCopies(templates, existing, userId, newIds);
      r.Error.None? ==> forall k :: 0 <= k < |templates| ==>
        HasName(existing, templates[k].Data.Name) || HasName(r.Copies, templates[k].Data.Name)
    decreases |templates|
  {
    if templates != [] {
      var n := |templates| - 1;
      var prev := SeedCopies(templates[..n], existing, userId, newIds);
      var r := SeedCopies(templates, existing, userId, newIds);
      SeedComplete(templates[..n], existing, userId, newIds);
      SeedStep(templates, existing, prev);
      if r.Error.None? && !HasName(existing, templates[n].Data.Name) {
        var copy := r.Copies[|prev.Copies|];
        assert r.Copies == prev.Copies + [copy];
        forall k | 0 <= k < |templates| ensures
          HasName(existing, templates[k].Data.Name) || HasName(r.Copies, templates[k].Data.Name)
        {
          HasNameAppend(prev.Copies, [copy], templates[k].Data.Name);
        }
      }
    }
  }

  /** The loop stops exactly when some template the user lacks has a blank name. */
  lemma {:induction false} SeedFailsIff(templates: seq<Category>, existing: seq<Category>, userId: UserId,
                                        newIds: nat -> Guid)
    ensures SeedCopies(templates, existing, userId, newIds).Error.Some? <==>
      (exists k :: 0 <= k < |templates| && !HasName(existing, templates[k].Data.Name) && IsBlank(templates[k].Data.Name))
    decreases |templates|
  {
    if templates != [] {
      var n := |templates| - 1;
      SeedFailsIff(templates[..n], existing, userId, newIds);
      SeedStep(templates, existing, SeedCopies(templates[..n], existing, userId, newIds));
      if exists k :: 0 <= k < n && !HasName(existing, templates[..n][k].Data.Name) && IsBlank(templates[..n][k].Data.Name) {
        var k :| 0 <= k < n && !HasName(existing, templates[..n][k].Data.Name) && IsBlank(templates[..n][k].Data.Name);
        assert templates[k] == templates[..n][k];
      }
      if exists k :: 0 <= k < |templates| && !HasName(existing, templates[k].Data.Name) && IsBlank(templates[k].Data.Name) {
        var k :| 0 <= k < |templates| && !HasName(existing, templates[k].Data.Name) && IsBlank(templates[k].Data.Name);
        if k < n { assert templates[..n][k] == templates[k]; }
      }
    }
  }

  /** The facts about the last template that the recursive case of `SeedCopies` needs. */
  lemma SeedStep(templates: seq<Category>, existing: seq<Category>, prev: Seed)
    requires templates != []
    ensures var n := |templates| - 1;
      && (forall k :: 0 <= k < n ==> templates[..n][k] == templates[k])
      && (forall m :: HasName(templates[..n], m) ==> HasName(templates, m))
      && HasName(templates, templates[n].Data.Name)
  {
    var n := |templates| - 1;
    forall m | HasName(templates[..n], m) ensures HasName(templates, m) {
      var k :| 0 <= k < n && templates[..n][k].Data.Name == m;
      assert templates[k] == templates[..n][k];
    }
  }

  /** One iteration of the seeding loop, in terms of `SeedCopies`. */
  lemma SeedExtend(templates: seq<Category>, existing: seq<Category>, userId: UserId,
                   newIds: nat -> Guid, i: nat, added: seq<Category>)
    requires i < |templates|
    requires SeedCopies(templates[..i], existing, userId, newIds) == Seed(added, None)
    ensures var t := templates[i];
      var made := NewCategory(newIds(|added|), t.Data.Name, t.Data.Description, None, None);
      SeedCopies(templates[..i + 1], existing, userId, newIds) ==
        if HasName(existing, t.Data.Name) then Seed(added, None)
        else if made.Failure? then Seed(added, Some(made.error))
        else Seed(added + [WithOwner(made.value, userId)], None)
  {
    assert templates[..i + 1][..i] == templates[..i];
    assert templates[..i + 1][i] == templates[i];
  }

  /** A rejected template ends the loop: a further template changes nothing. */
  lemma SeedKeepsError(templates: seq<Category>, existing: seq<Category>, userId: UserId, newIds: nat -> Guid,
                        i: nat)
    requires 0 < i <= |templates|
    requires SeedCopies(templates[..i - 1], existing, userId, newIds).Error.Some?
    ensures SeedCopies(templates[..i], existing, userId, newIds) ==
      SeedCopies(templates[..i - 1], existing, userId, newIds)
  {
    assert templates[..i][..i - 1] == templates[..i - 1];
  }

  /** Once a template is rejected, the rest of the loop does not run. */
  lemma {:induction false} SeedStopped(templates: seq<Category>, existing: seq<Category>, userId: UserId,
                                       newIds: nat -> Guid, j: nat, i: nat)
    requires j <= i <= |templates|
    requires SeedCopies(templates[..j], existing, userId, newIds).Error.Some?
    ensures SeedCopies(templates[..i], existing, userId, newIds) == SeedCopies(templates[..j], existing, userId, newIds)
    decreases i
  {
    if j < i {
      SeedStopped(templates, existing, userId, newIds, j, i - 1);
      SeedKeepsError(templates, existing, userId, newIds, i);
    }
  }

  /** When the user already has every template name, seeding stages nothing. */
  lemma {:induction false} SeedNothing(templates: seq<Category>, existing: seq<Category>, userId: UserId,
                                       newIds: nat -> Guid)
    requires forall k :: 0 <= k < |templates| ==> HasName(existing, templates[k].Data.Name)
    ensures SeedCopies(templates, existing, userId, newIds) == Seed([], None)
    decreases |templates|
  {
    if templates != [] {
      var n := |templates| - 1;
      SeedNothing(templates[..n], existing, userId, newIds);
    }
  }

  /** `SetCreated(now)` on each category, as the commit hook does to Added entries. */
  function StampCreated(cs: seq<Category>, now: Instant): (r: seq<Category>)
    ensures |r| == |cs|
    ensures forall k :: 0 <= k < |r| ==> r[k] == cs[k].SetCreated(now)
  {
    seq(|cs|, k requires 0 <= k < |cs| => cs[k].SetCreated(now))
  }

  /**
   * Seeding over a table: the templates and the user's categories as the two
   * `FindAsync` calls see it, read once before the loop. The copies are owned
   * by the user and match, one to one and in order, by name and description,
   * the live templates whose name the user lacks; all of them unless a
   * template is rejected.
   */
  function SeedFrom(rows: seq<Category>, userId: UserId, newIds: nat -> Guid): (r: Seed)
    ensures var live := Where(rows, NotDeleted());
      var m := Missing(Where(live, TemplateFilter()), Where(live, OwnedBy(userId)));
      && |r.Copies| <= |m|
      && (r.Error.None? ==> |r.Copies| == |m|)
      && forall k :: 0 <= k < |r.Copies| ==>
           && r.Copies[k].Data.UserId == userId
           && r.Copies[k].Data.Name == m[k].Data.Name && r.Copies[k].Data.Description == m[k].Data.Description
  {
    var live := Where(rows, NotDeleted());
    SeedMatchesMissing(Where(live, TemplateFilter()), Where(live, OwnedBy(userId)), userId, newIds);
    SeedCopies(Where(live, TemplateFilter()), Where(live, OwnedBy(userId)), userId, newIds)
  }

  /** The tables before and after the copies are appended, as the two queries of seeding see them. */
  lemma QueriesAfterAppend(rows: seq<Category>, stamped: seq<Category>, userId: UserId)
    requires forall k :: 0 <= k < |stamped| ==> !stamped[k].IsDeleted && stamped[k].Data.UserId == userId
    ensures var live := Where(rows, NotDeleted());
      var live' := Where(rows + stamped, NotDeleted());
      && Where(live', OwnedBy(userId)) == Where(live, OwnedBy(userId)) + stamped
      && Where(live', TemplateFilter()) == Where(live, TemplateFilter()) + Where(stamped, TemplateFilter())
  {
    var live := Where(rows, NotDeleted());
    WhereAll(stamped, NotDeleted());
    WhereAll(stamped, OwnedBy(userId));
    WhereAppend(rows, stamped, NotDeleted());
    WhereAppend(live, stamped, TemplateFilter());
    WhereAppend(live, stamped, OwnedBy(userId));
  }

  /**
   * After the copies of a successful run are appended, the user has every
   * template name: an old template's name the user had or it was copied, and
   * a new template can only be a copy made for the empty owner, which is
   * itself among that owner's categories.
   */
  lemma NamesCovered(templates: seq<Category>, existing: seq<Category>, copies: seq<Category>,
                     stamped: seq<Category>, t: Category)
    requires forall k :: 0 <= k < |templates| ==>
      HasName(existing, templates[k].Data.Name) || HasName(copies, templates[k].Data.Name)
    requires |stamped| == |copies| && forall k :: 0 <= k < |copies| ==> stamped[k].Data == copies[k].Data
    requires t in templates || t in stamped
    ensures HasName(existing + stamped, t.Data.Name)
  {
    var name := t.Data.Name;
    if t in stamped {
      var m :| 0 <= m < |stamped| && stamped[m] == t;
      assert (existing + stamped)[|existing| + m] == t;
    } else {
      var j :| 0 <= j < |templates| && templates[j] == t;
      if !HasName(existing, name) {
        var m :| 0 <= m < |copies| && copies[m].Data.Name == name;
        assert stamped[m].Data.Name == name;
      }
      HasNameAppend(existing, stamped, name);
    }
  }

  lemma AllNamesCovered(templates: seq<Category>, existing: seq<Category>, copies: seq<Category>,
                        stamped: seq<Category>)
    requires forall k :: 0 <= k < |templates| ==>
      HasName(existing, templates[k].Data.Name) || HasName(copies, templates[k].Data.Name)
    requires |stamped| == |copies| && forall k :: 0 <= k < |copies| ==> stamped[k].Data == copies[k].Data
    ensures var templates' := templates + Where(stamped, TemplateFilter());
      forall k :: 0 <= k < |templates'| ==> HasName(existing + stamped, templates'[k].Data.Name)
  {
    var templates' := templates + Where(stamped, TemplateFilter());
    forall k | 0 <= k < |templates'| ensures HasName(existing + stamped, templates'[k].Data.Name) {
      var t := templates'[k];
      if k < |templates| {
        assert t in templates;
      } else {
        assert t in Where(stamped, TemplateFilter());
      }
      NamesCovered(templates, existing, copies, stamped, t);
    }
  }

  /**
   * Seeding is idempotent: once the copies of a successful run are in the
   * table, a second run for the same user stages nothing, whatever keys it
   * would draw.
   */
  lemma SeedingIsIdempotent(rows: seq<Category>, userId: UserId, newIds: nat -> Guid,
                            newIds': nat -> Guid, now: Instant)
    requires SeedFrom(rows, userId, newIds).Error.None?
    ensures SeedFrom(rows + StampCreated(SeedFrom(rows, userId, newIds).Copies, now), userId, newIds')
            == Seed([], None)
  {
    var seed := SeedFrom(rows, userId, newIds);
    var stamped := StampCreated(seed.Copies, now);
    var live := Where(rows, NotDeleted());
    var templates, existing := Where(live, TemplateFilter()), Where(live, OwnedBy(userId));
    var live' := Where(rows + stamped, NotDeleted());
    var templates', existing' := Where(live', TemplateFilter()), Where(live', OwnedBy(userId));
    QueriesAfterAppend(rows, stamped, userId);
    SeedComplete(templates, existing, userId, newIds);
    AllNamesCovered(templates, existing, seed.Copies, stamped);
    SeedNothing(templates', existing', userId, newIds');
  }

  class CategoryService {
    const Repository: Repository<CategoryData>

    constructor (categoryRepository: Repository<CategoryData>)
      ensures Repository == categoryRepository
    {
      Repository := categoryRepository;
    }

    /** `GetByIdAsync(id, userId)`: the user's live category with that key, or null. */
    function GetById(id: Guid, userId: UserId): (r: Result<Option<Category>>)
      reads Repository.Context
      ensures r.Failure? <==> IsBlank(userId)
      ensures r.Failure? ==> r.error == ArgumentException("userId")
      ensures r.Success? && r.value.Some? ==>
        r.value.value in Repository.Context.Rows && r.value.value.Id == id
        && !r.value.value.IsDeleted && r.value.value.Data.UserId == userId
      ensures r.Success? && Repository.Context.Valid() ==>
        (r.value.None? <==> forall x :: x in Repository.Context.Rows ==>
                              x.Id != id || x.IsDeleted || x.Data.UserId != userId)
    {
      if IsBlank(userId) then Failure(ArgumentException("userId"))
      else
        var category := Repository.GetById(id);
        if category.None? || category.value.Data.UserId != userId then
          assert Repository.Context.Valid() && category.Some? ==>
            forall x :: x in Repository.Context.Rows && x.Id == id ==> x == category.value by {
            if Repository.Context.Valid() && category.Some? {
              forall x | x in Repository.Context.Rows && x.Id == id ensures x == category.value {
                SameKeySameRow(Repository.Context.Rows, x, category.value);
              }
            }
          }
          Success(None)
        else Success(category)
    }

    /** `GetAllAsync(userId)`: the user's live categories, in table order. */
    function GetAll(userId: UserId): (r: Result<seq<Category>>)
      reads Repository.Context
      ensures r.Failure? <==> IsBlank(userId)
      ensures r.Failure? ==> r.error == ArgumentException("userId")
      ensures r.Success? ==> r.value == Where(Repository.GetAll(), OwnedBy(userId))
      ensures r.Success? ==> forall c :: c in r.value <==>
        c in Repository.Context.Rows && !c.IsDeleted && c.Data.UserId == userId
    {
      if IsBlank(userId) then Failure(ArgumentException("userId"))
      else Success(Repository.Find(OwnedBy(userId)))
    }

    /**
     * `GetPagedCategoriesAsync`: a page of the user's live categories the
     * optional filter keeps (the owner test conjoined with the filter by
     * `AndAlso`), counted over all such categories.
     */
    function GetPagedCategories(pageNumber: int, pageSize: int, userId: UserId,
                                filter: Option<Lambda<Category>>,
                                orderBy: Option<Ordering<CategoryData>>): (r: Result<PagedResult<Category>>)
      reads Repository.Context
      requires pageNumber >= 1 && pageSize >= 1
      ensures r.Failure? <==> IsBlank(userId)
      ensures r.Failure? ==> r.error == ArgumentException("userId")
      ensures r.Success? ==> r.value.PageNumber == pageNumber && r.value.PageSize == pageSize
      ensures r.Success? ==> |r.value.Items| <= pageSize
      ensures r.Success? ==> forall c :: c in r.value.Items ==>
        && c in Repository.Context.Rows && !c.IsDeleted && c.Data.UserId == userId
        && (filter.Some? ==> Holds(filter.value, c))
      ensures r.Success? ==>
        r.value.TotalItems == |if filter.Some? then Where(GetAll(userId).value, filter.value) else GetAll(userId).value|
      ensures r.Success? && orderBy.Some? ==>
        Sequences.SortedBy(r.value.Items, orderBy.value.Key, orderBy.value.Descending)
      ensures r.Success? ==>
        r.value.Items == Sequences.Page(Repository.Ordered(Some(UserFilter(userId, filter)), orderBy), pageNumber, pageSize)
    {
      if IsBlank(userId) then Failure(ArgumentException("userId"))
      else
        var userFilter := UserFilter(userId, filter);
        assert filter.Some? ==>
          Where(Where(Repository.GetAll(), OwnedBy(userId)), filter.value) == Where(Repository.GetAll(), userFilter) by {
          if filter.Some? {
            WhereWhere(Repository.GetAll(), OwnedBy(userId), filter.value, userFilter);
          }
        }
        Success(Repository.GetPaged(pageNumber, pageSize, Some(userFilter), orderBy))
    }

    /**
     * `GetCategoriesAsync`: every live category (templates and every user's)
     * for an administrator; otherwise the user's own, which needs a non-blank
     * user.
     */
    function GetCategories(userId: UserId, isAdmin: bool): (r: Result<seq<Category>>)
      reads Repository.Context
      ensures r.Failure? <==> !isAdmin && IsBlank(userId)
      ensures r.Failure? ==> r.error == ArgumentException("userId")
      ensures r.Success? && isAdmin ==> forall c :: c in r.value <==> c in Repository.Context.Rows && !c.IsDeleted
      ensures r.Success? && !isAdmin ==> r == GetAll(userId)
    {
      if isAdmin then Success(Repository.GetAll())
      else if IsBlank(userId) then Failure(ArgumentException("userId"))
      else Success(Repository.Find(OwnedBy(userId)))
    }

    /**
     * `CreateCategoryAsync`: validates name, then owner; constructs the
     * category with key `id`, gives it to the user, stages and commits it.
     * The returned category is the stamped one. With nothing else staged,
     * a successful call appends exactly that category to the table, where
     * `GetByIdAsync` finds it.
     */
    method CreateCategory(name: string, userId: UserId, description: Option<string>, icon: Option<string>,
                          badgeColor: Option<string>, id: Guid, now: Instant) returns (r: Result<Category>)
      requires Repository.Context.Valid()
      modifies Repository.Context
      ensures Repository.Context.Valid()
      ensures IsBlank(name) ==> r == Failure(ArgumentException("name"))
      ensures !IsBlank(name) && IsBlank(userId) ==> r == Failure(ArgumentException("userId"))
      ensures IsBlank(name) || IsBlank(userId) ==>
        Repository.Context.Rows == old(Repository.Context.Rows) && Repository.Context.Entries == old(Repository.Context.Entries)
      ensures !IsBlank(name) && !IsBlank(userId) ==>
        var category := WithOwner(NewCategory(id, name, description, icon, badgeColor).value, userId);
        var staged := TrackAdded(old(Repository.Context.Entries), category);
        && Committed(old(Repository.Context.Rows), staged, now, OutcomeOf(r), Repository.Context.Rows, Repository.Context.Entries)
        && (r.Success? ==> r.value == category.SetCreated(now))
      ensures r.Success? ==>
        && r.value.Id == id && r.value.Data.Name == name && r.value.Data.UserId == userId
        && r.value.CreatedAt == now && !r.value.IsDeleted
      ensures r.Success? && old(Repository.Context.Entries) == [] ==>
        && Repository.Context.Rows == old(Repository.Context.Rows) + [r.value]
        && Repository.GetById(id) == Some(r.value)
    {
      if IsBlank(name) {
        return Failure(ArgumentException("name"));
      }
      if IsBlank(userId) {
        return Failure(ArgumentException("userId"));
      }
      ghost var before := Repository.Context.Entries;
      var category := WithOwner(NewCategory(id, name, description, icon, badgeColor).value, userId);
      Repository.Add(category);
      var saved := Repository.SaveChanges(now);
      if saved.Fail? {
        return Failure(saved.error);
      }
      r := Success(category.SetCreated(now));
      if before == [] {
        SingleCommitted(old(Repository.Context.Rows), Entry(category, Added), now);
        assert Repository.Context.Rows == old(Repository.Context.Rows) + [r.value];
        FoundLive(Repository, r.value);
      }
    }

    /**
     * `UpdateCategoryAsync`: validates the owner, finds the user's live
     * category (otherwise `InvalidOperationException`), applies `Edit`,
     * stages the result as Modified and commits. With nothing else staged,
     * a successful call replaces the row by the edited category stamped
     * `UpdatedAt`, and `GetByIdAsync` returns it.
     */
    method UpdateCategory(id: Guid, userId: UserId, name: string, description: Option<string>,
                          icon: Option<string>, badgeColor: Option<string>, now: Instant) returns (r: Outcome)
      requires Repository.Context.Valid()
      modifies Repository.Context
      ensures Repository.Context.Valid()
      ensures var found := old(Repository.GetById(id));
        && (IsBlank(userId) ==> r == Fail(ArgumentException("userId")))
        && (!IsBlank(userId) && (found.None? || found.value.Data.UserId != userId) ==> r == Fail(InvalidOperationException))
        && (!IsBlank(userId) && found.Some? && found.value.Data.UserId == userId ==>
              var edited := Edit(found.value, name, description, icon, badgeColor);
              && (edited.Failure? ==> r == Fail(edited.error))
              && (edited.Success? ==>
                    var staged := TrackModified(old(Repository.Context.Entries), edited.value);
                    && Committed(old(Repository.Context.Rows), staged, now, r, Repository.Context.Rows, Repository.Context.Entries)))
      ensures r.Fail? && r.error != DbUpdateException ==>
        Repository.Context.Rows == old(Repository.Context.Rows) && Repository.Context.Entries == old(Repository.Context.Entries)
      ensures r.Fail? ==> Repository.Context.Rows == old(Repository.Context.Rows)
      ensures r.Pass? && old(Repository.Context.Entries) == [] ==>
        var edited := Edit(old(Repository.GetById(id)).value, name, description, icon, badgeColor).value.MarkAsUpdated(now);
        && Repository.Context.Rows == ReplaceById(old(Repository.Context.Rows), edited)
        && Repository.GetById(id) == Some(edited)
    {
      if IsBlank(userId) {
        return Fail(ArgumentException("userId"));
      }
      var category := Repository.GetById(id);
      if category.None? || category.value.Data.UserId != userId {
        return Fail(InvalidOperationException);
      }
      var edited := Edit(category.value, name, description, icon, badgeColor);
      if edited.Failure? {
        return Fail(edited.error);
      }
      ghost var before := Repository.Context.Entries;
      ghost var rows := Repository.Context.Rows;
      Repository.Update(edited.value);
      r := Repository.SaveChanges(now);
      if r.Pass? && before == [] {
        var e := edited.value.MarkAsUpdated(now);
        SingleCommitted(rows, Entry(edited.value, Modified), now);
        assert Repository.Context.Rows == ReplaceById(rows, e);
        var k :| 0 <= k < |rows| && rows[k] == category.value;
        assert Repository.Context.Rows[k] == e;
        FoundLive(Repository, e);
      }
    }

    /**
     * `DeleteCategoryAsync`: validates the owner, finds the user's live
     * category (otherwise `InvalidOperationException`), soft-deletes it and
     * commits. With nothing else staged, a successful call keeps the row,
     * flagged deleted and stamped `UpdatedAt`, and the key is no longer found.
     */
    method DeleteCategory(id: Guid, userId: UserId, now: Instant) returns (r: Outcome)
      requires Repository.Context.Valid()
      modifies Repository.Context
      ensures Repository.Context.Valid()
      ensures var found := old(Repository.GetById(id));
        && (IsBlank(userId) ==> r == Fail(ArgumentException("userId")))
        && (!IsBlank(userId) && (found.None? || found.value.Data.UserId != userId) ==> r == Fail(InvalidOperationException))
        && (!IsBlank(userId) && found.Some? && found.value.Data.UserId == userId ==>
              var staged := TrackModified(old(Repository.Context.Entries), found.value.SoftDelete());
              && Committed(old(Repository.Context.Rows), staged, now, r, Repository.Context.Rows, Repository.Context.Entries))
      ensures r.Fail? && r.error != DbUpdateException ==>
        Repository.Context.Rows == old(Repository.Context.Rows) && Repository.Context.Entries == old(Repository.Context.Entries)
      ensures r.Fail? ==> Repository.Context.Rows == old(Repository.Context.Rows)
      ensures r.Pass? && old(Repository.Context.Entries) == [] ==>
        && |Repository.Context.Rows| == |old(Repository.Context.Rows)|
        && old(Repository.GetById(id)).value.SoftDelete().MarkAsUpdated(now) in Repository.Context.Rows
        && Repository.GetById(id) == None
    {
      if IsBlank(userId) {
        return Fail(ArgumentException("userId"));
      }
      var category := Repository.GetById(id);
      if category.None? || category.value.Data.UserId != userId {
        return Fail(InvalidOperationException);
      }
      ghost var before := Repository.Context.Entries;
      ghost var rows := Repository.Context.Rows;
      Repository.SoftDelete(category.value);
      r := Repository.SaveChanges(now);
      if r.Pass? && before == [] {
        SoftDeleteCommitted(rows, category.value, now);
        var k :| 0 <= k < |rows| && rows[k] == category.value;
        assert Repository.Context.Rows[k] == category.value.SoftDelete().MarkAsUpdated(now);
      }
    }

    /**
     * `AssignDefaultCategoriesToUserAsync`: reads the user's categories and
     * the templates once, stages a copy of each template whose name the user
     * lacks (the loop, specified by `SeedCopies`), then commits all of them
     * together. A rejected template name stops the loop before the commit,
     * leaving the copies staged so far in the tracker. The owner is not
     * validated. With nothing else staged, fresh pairwise-distinct keys and
     * a successful commit, the copies, stamped, are appended to the table.
     */
    method AssignDefaultCategoriesToUser(userId: UserId, newIds: nat -> Guid, now: Instant) returns (r: Outcome)
      requires Repository.Context.Valid()
      modifies Repository.Context
      ensures Repository.Context.Valid()
      ensures var seed := SeedFrom(old(Repository.Context.Rows), userId, newIds);
        var staged := TrackAll(old(Repository.Context.Entries), seed.Copies);
        && (seed.Error.Some? ==>
              && r == Fail(seed.Error.value)
              && Repository.Context.Rows == old(Repository.Context.Rows)
              && Repository.Context.Entries == staged)
        && (seed.Error.None? ==>
              && Committed(old(Repository.Context.Rows), staged, now, r, Repository.Context.Rows, Repository.Context.Entries))
      ensures r.Pass? && old(Repository.Context.Entries) == []
              && (forall i, j :: 0 <= i < j ==> newIds(i) != newIds(j)) ==>
        Repository.Context.Rows ==
          old(Repository.Context.Rows) + StampCreated(SeedFrom(old(Repository.Context.Rows), userId, newIds).Copies, now)
    {
      var existingCategories := Repository.Find(OwnedBy(userId));
      var defaultCategories := Repository.Find(TemplateFilter());
      ghost var rows := Repository.Context.Rows;
      ghost var before := Repository.Context.Entries;
      assert SeedFrom(rows, userId, newIds) == SeedCopies(defaultCategories, existingCategories, userId, newIds);
      var error := StageCopies(defaultCategories, existingCategories, userId, newIds);
      if error.Some? {
        return Fail(error.value);
      }
      r := Repository.SaveChanges(now);
      if r.Pass? && before == [] && (forall i, j :: 0 <= i < j ==> newIds(i) != newIds(j)) {
        SeedCommitted(rows, userId, newIds, now);
      }
    }

    /**
     * The loop of `AssignDefaultCategoriesToUserAsync`: stages the copies
     * `SeedCopies` describes, one `AddAsync` each, and stops at the first
     * rejected template name with the constructor's error.
     */
    method StageCopies(templates: seq<Category>, existing: seq<Category>, userId: UserId,
                       newIds: nat -> Guid) returns (error: Option<Error>)
      requires Repository.Context.Valid()
      modifies Repository.Context
      ensures Repository.Context.Valid()
      ensures Repository.Context.Rows == old(Repository.Context.Rows)
      ensures var seed := SeedCopies(templates, existing, userId, newIds);
        error == seed.Error && Repository.Context.Entries == TrackAll(old(Repository.Context.Entries), seed.Copies)
    {
      ghost var before := Repository.Context.Entries;
      var added: seq<Category> := [];
      for i := 0 to |templates|
        invariant Repository.Context.Valid()
        invariant Repository.Context.Rows == old(Repository.Context.Rows)
        invariant SeedCopies(templates[..i], existing, userId, newIds) == Seed(added, None)
        invariant Repository.Context.Entries == TrackAll(before, added)
      {
        var category := templates[i];
        SeedExtend(templates, existing, userId, newIds, i, added);
        if HasName(existing, category.Data.Name) {
          continue;
        }
        var made := NewCategory(newIds(|added|), category.Data.Name, category.Data.Description, None, None);
        if made.Failure? {
          SeedStopped(templates, existing, userId, newIds, i + 1, |templates|);
          assert templates[..|templates|] == templates;
          return Some(made.error);
        }
        var userCategory := WithOwner(made.value, userId);
        TrackAllSnoc(before, added, userCategory);
        Repository.Add(userCategory);
        added := added + [userCategory];
      }
      assert templates[..|templates|] == templates;
      error := None;
    }
  }

  /**
   * Committing the copies of one seeding run on an otherwise empty tracker:
   * with distinct keys, the entries are one Added entry per copy, and the
   * table gains the stamped copies at its end.
   */
  lemma CopiesCommitted(rows: seq<Category>, copies: seq<Category>, now: Instant)
    requires CanCommit(rows, TrackAll([], copies))
    requires forall i, j :: 0 <= i < j < |copies| ==> copies[i].Id != copies[j].Id
    ensures ApplyEntries(rows, Stamp(TrackAll([], copies), now)) == rows + StampCreated(copies, now)
  {
    TrackAllFresh([], copies);
    assert [] + AddedEntries(copies) == AddedEntries(copies);
    var stamped := StampCreated(copies, now);
    assert Stamp(AddedEntries(copies), now) == AddedEntries(stamped);
    ApplyAllAdded(rows, stamped);
  }

  /** `CopiesCommitted` for the copies of a seeding run with pairwise-distinct new keys. */
  lemma SeedCommitted(rows: seq<Category>, userId: UserId, newIds: nat -> Guid, now: Instant)
    requires CanCommit(rows, TrackAll([], SeedFrom(rows, userId, newIds).Copies))
    requires forall i, j :: 0 <= i < j ==> newIds(i) != newIds(j)
    ensures var copies := SeedFrom(rows, userId, newIds).Copies;
      ApplyEntries(rows, Stamp(TrackAll([], copies), now)) == rows + StampCreated(copies, now)
  {
    var copies := SeedFrom(rows, userId, newIds).Copies;
    assert forall k :: 0 <= k < |copies| ==> copies[k].Id == newIds(k);
    CopiesCommitted(rows, copies, now);
  }
}
