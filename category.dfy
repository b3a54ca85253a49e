/**
 * `Category`: a named expense category owned by a user. A category whose
 * `UserId` is the empty string is a template shared by all users.
 */
module Categories {
  import opened Common
  import opened BaseEntities

  datatype CategoryData = CategoryData(
    Name: string,
    Description: Option<string>,
    Icon: Option<string>,
    BadgeColor: string,
    UserId: UserId)

  type Category = Entity<CategoryData>

  const DefaultIcon: string := "shopping-cart"
  const DefaultBadgeColor: string := "#137fec"

  /** A template category: `UserId` is `string.Empty`. */
  predicate IsTemplate(c: Category) {
    c.Data.UserId == ""
  }

  /** What `UpdateBadgeColor` accepts: non-blank, 7 characters, leading `#`. */
  predicate IsBadgeColor(s: string) {
    !IsBlank(s) && |s| > 0 && s[0] == '#' && |s| == 7
  }

  /**
   * The public constructor. It rejects a blank name; a missing icon or badge
   * colour becomes the default, a given one is stored as it is (the
   * constructor does not check the colour's form). The owner is the
   * property initialiser's empty string until the caller sets it.
   */
  function NewCategory(id: Guid, name: string, description: Option<string>,
                       icon: Option<string>, badgeColor: Option<string>): (r: Result<Category>)
    ensures r.Failure? <==> IsBlank(name)
    ensures r.Failure? ==> r.error == ArgumentException("name")
    ensures r.Success? ==>
      && r.value.Id == id && !r.value.IsDeleted && r.value.UpdatedAt == None
      && r.value.CreatedAt == DefaultInstant
      && r.value.Data.Name == name && r.value.Data.Description == description
      && r.value.Data.Icon == Some(if icon.Some? then icon.value else DefaultIcon)
      && r.value.Data.BadgeColor == (if badgeColor.Some? then badgeColor.value else DefaultBadgeColor)
      && r.value.Data.UserId == ""
  {
    if IsBlank(name) then Failure(ArgumentException("name"))
    else Success(NewEntity(id, CategoryData(name, description, Some(icon.GetOr(DefaultIcon)),
                                            badgeColor.GetOr(DefaultBadgeColor), "")))
  }

  /** Sets the owner (`UserId` has a public setter). */
  function WithOwner(c: Category, userId: UserId): (r: Category)
    ensures SameBase(r, c) && r.Data == c.Data.(UserId := userId)
  {
    c.WithData(c.Data.(UserId := userId))
  }

  /** Rejects a blank name, leaving the category as it was; otherwise only `Name` changes. */
  function UpdateName(c: Category, name: string): (r: Result<Category>)
    ensures r.Failure? <==> IsBlank(name)
    ensures r.Failure? ==> r.error == ArgumentException("name")
    ensures r.Success? ==> SameBase(r.value, c) && r.value.Data == c.Data.(Name := name)
  {
    if IsBlank(name) then Failure(ArgumentException("name"))
    else Success(c.WithData(c.Data.(Name := name)))
  }

  /** Stores the description as given, null included; nothing else changes. */
  function UpdateDescription(c: Category, description: Option<string>): (r: Category)
    ensures SameBase(r, c) && r.Data == c.Data.(Description := description)
  {
    c.WithData(c.Data.(Description := description))
  }

  /** Stores the icon, a null icon becoming the default; nothing else changes. */
  function UpdateIcon(c: Category, icon: Option<string>): (r: Category)
    ensures r.Data.Icon.Some?
    ensures icon.None? ==> r.Data.Icon == Some(DefaultIcon)
    ensures icon.Some? ==> r.Data.Icon == icon
    ensures SameBase(r, c) && r.Data == c.Data.(Icon := r.Data.Icon)
  {
    c.WithData(c.Data.(Icon := Some(icon.GetOr(DefaultIcon))))
  }

  /** Accepts exactly the badge colours of `IsBadgeColor`; on rejection nothing changes. */
  function UpdateBadgeColor(c: Category, badgeColor: string): (r: Result<Category>)
    ensures r.Success? <==> |badgeColor| == 7 && badgeColor[0] == '#'
    ensures r.Failure? ==> r.error == ArgumentException("badgeColor")
    ensures r.Success? ==> SameBase(r.value, c) && r.value.Data == c.Data.(BadgeColor := badgeColor)
  {
    BadgeColorForm(badgeColor);
    if !IsBadgeColor(badgeColor) then Failure(ArgumentException("badgeColor"))
    else Success(c.WithData(c.Data.(BadgeColor := badgeColor)))
  }

  /** The blank test in `UpdateBadgeColor` is implied by the other two: '#' is not whitespace. */
  lemma BadgeColorForm(s: string)
    ensures IsBadgeColor(s) <==> |s| == 7 && s[0] == '#'
  {
    if |s| == 7 && s[0] == '#' {
      assert !IsWhiteSpace(s[0]);
    }
  }

  /** The colour used in `UpdateBadgeColor`'s message is accepted; a colour name is not. */
  lemma BadgeColorExamples(c: Category)
    ensures UpdateBadgeColor(c, "#137fec").Success?
    ensures UpdateBadgeColor(c, "blue").Failure?
    ensures NewCategory(0, "Groceries", None, None, Some("blue")).Success?
  {
    BadgeColorForm("#137fec");
    BadgeColorForm("blue");
    assert !IsBlank("Groceries") by { assert !IsWhiteSpace("Groceries"[0]); }
  }
}
