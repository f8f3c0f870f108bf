/**
 * The `Category` model: a named group of applications with a unique slug
 * and an explicit display order. Its columns (the `categories` table), its
 * validations, the `ordered` scope and the rule that regenerates the slug.
 */
module Categories {
  import opened Wrappers
  import Text
  import Query

  /**
   * A row of the `categories` table. `name` and `slug` are NOT NULL; an
   * unset one is "" here, which is blank, as nil is. `display_order` is NOT
   * NULL in the table but may be nil in an unsaved record.
   */
  datatype CategoryRow = CategoryRow(
    id: int,
    name: string,
    slug: string,
    icon: Option<string>,
    description: Option<string>,
    displayOrder: Option<int>,
    createdAt: int,
    updatedAt: int)

  /** The attributes of `Category.new`: every column unset except
      `display_order`, which starts at its column default 0. */
  function NewRecord(): (r: CategoryRow)
    ensures r.displayOrder == Some(0)
    ensures r.icon.None? && r.description.None?
    ensures Text.IsBlank(r.name) && Text.IsBlank(r.slug)
  {
    CategoryRow(0, "", "", None, None, Some(0), 0, 0)
  }

  // ------------------------------------------------------------- validations

  datatype CategoryError =
    | NameBlank                // validates :name, presence
    | NameTaken                // validates :name, uniqueness
    | SlugBlank                // validates :slug, presence
    | SlugTaken                // validates :slug, uniqueness
    | DisplayOrderBlank        // validates :display_order, presence
    | DisplayOrderNotANumber   // numericality (nil is not a number)
    | DisplayOrderNegative     // numericality: greater_than_or_equal_to 0

  const AllCategoryErrors: seq<CategoryError> := [
    NameBlank, NameTaken, SlugBlank, SlugTaken,
    DisplayOrderBlank, DisplayOrderNotANumber, DisplayOrderNegative]

  /** Another stored category already has `c`'s name. */
  predicate NameTakenIn(c: CategoryRow, stored: seq<CategoryRow>) {
    exists o :: o in stored && o.id != c.id && o.name == c.name
  }

  /** Another stored category already has `c`'s slug. */
  predicate SlugTakenIn(c: CategoryRow, stored: seq<CategoryRow>) {
    exists o :: o in stored && o.id != c.id && o.slug == c.slug
  }

  /** Every rule of the model holds for `c`, saved beside the rows `stored`. */
  predicate CategoryValid(c: CategoryRow, stored: seq<CategoryRow>) {
    && !Text.IsBlank(c.name) && !NameTakenIn(c, stored)
    && !Text.IsBlank(c.slug) && !SlugTakenIn(c, stored)
    && c.displayOrder.Some? && c.displayOrder.value >= 0
  }

  /** The rule behind each error fails for `c`. */
  predicate Fails(e: CategoryError, c: CategoryRow, stored: seq<CategoryRow>) {
    match e
    case NameBlank => Text.IsBlank(c.name)
    case NameTaken => NameTakenIn(c, stored)
    case SlugBlank => Text.IsBlank(c.slug)
    case SlugTaken => SlugTakenIn(c, stored)
    case DisplayOrderBlank => c.displayOrder.None?
    case DisplayOrderNotANumber => c.displayOrder.None?
    case DisplayOrderNegative => c.displayOrder.Some? && c.displayOrder.value < 0
  }

  lemma EveryErrorListed()
    ensures forall e :: e in AllCategoryErrors
  {
    forall e: CategoryError ensures e in AllCategoryErrors {
      match e
      case NameBlank => assert AllCategoryErrors[0] == e;
      case NameTaken => assert AllCategoryErrors[1] == e;
      case SlugBlank => assert AllCategoryErrors[2] == e;
      case SlugTaken => assert AllCategoryErrors[3] == e;
      case DisplayOrderBlank => assert AllCategoryErrors[4] == e;
      case DisplayOrderNotANumber => assert AllCategoryErrors[5] == e;
      case DisplayOrderNegative => assert AllCategoryErrors[6] == e;
    }
  }

  /** A record is valid exactly when no rule fails. */
  lemma ValidIffNoRuleFails(c: CategoryRow, stored: seq<CategoryRow>)
    ensures CategoryValid(c, stored) <==> forall e :: !Fails(e, c, stored)
  {
    if !CategoryValid(c, stored) {
      if Text.IsBlank(c.name) {
        assert Fails(NameBlank, c, stored);
      } else if NameTakenIn(c, stored) {
        assert Fails(NameTaken, c, stored);
      } else if Text.IsBlank(c.slug) {
        assert Fails(SlugBlank, c, stored);
      } else if SlugTakenIn(c, stored) {
        assert Fails(SlugTaken, c, stored);
      } else if c.displayOrder.None? {
        assert Fails(DisplayOrderBlank, c, stored);
      } else {
        assert Fails(DisplayOrderNegative, c, stored);
      }
    }
  }

  function Failing(c: CategoryRow, stored: seq<CategoryRow>): CategoryError -> bool {
    (e: CategoryError) => Fails(e, c, stored)
  }

  /** `c.valid?` followed by `c.errors`: the failed rules, in declaration
      order; none exactly when the record is valid. */
  function CategoryErrors(c: CategoryRow, stored: seq<CategoryRow>): (r: seq<CategoryError>)
    ensures forall e :: e in r <==> Fails(e, c, stored)
    ensures r == [] <==> CategoryValid(c, stored)
  {
    var r := Query.Where(AllCategoryErrors, Failing(c, stored));
    Query.WhereEmpty(AllCategoryErrors, Failing(c, stored));
    EveryErrorListed();
    ValidIffNoRuleFails(c, stored);
    r
  }

  // ------------------------------------------------------------------- slug

  /** `should_generate_new_friendly_id?` for a record whose stored state is
      `before` (None for a record not yet saved): a new record, or a rename.
      The `super` rule (a nil slug with a name) is not part of this model. */
  predicate ShouldGenerateNewSlug(c: CategoryRow, before: Option<CategoryRow>): (r: bool)
    ensures before.None? ==> r
    ensures before.Some? ==> (r <==> before.value.name != c.name)
  {
    before.None? || before.value.name != c.name
  }

  /**
   * FriendlyId's step before validation: when a new slug is due, the slug
   * becomes `slugify` of the name; otherwise the record keeps its slug.
   * `slugify` stands for FriendlyId's slug generator.
   */
  function WithSlug(c: CategoryRow, before: Option<CategoryRow>, slugify: string -> string): (r: CategoryRow)
    ensures before.Some? && before.value.name != c.name ==> r.slug == slugify(c.name)
    ensures before.None? ==> r.slug == slugify(c.name)
    ensures before.Some? && before.value.name == c.name ==> r.slug == c.slug
    ensures r == c.(slug := r.slug)
  {
    if ShouldGenerateNewSlug(c, before) then c.(slug := slugify(c.name)) else c
  }

  // ------------------------------------------------------------------ ordered

  /** `a` may come before `b` in `ordered`: `display_order` ascending, then `name` ascending. */
  predicate OrderedLe(a: CategoryRow, b: CategoryRow, nulls: Query.NullOrder) {
    && Query.NullableLe(a.displayOrder, b.displayOrder, nulls)
    && (a.displayOrder == b.displayOrder ==> Query.StringLe(a.name, b.name))
  }

  lemma OrderedLeTotalPreorder(nulls: Query.NullOrder)
    ensures Query.TotalPreorder((a: CategoryRow, b: CategoryRow) => OrderedLe(a, b, nulls))
  {
    Query.NullableLeTotalOrder(nulls);
    forall a: CategoryRow, b: CategoryRow ensures OrderedLe(a, b, nulls) || OrderedLe(b, a, nulls) {
      Query.StringLeTotal(a.name, b.name);
    }
    forall a: CategoryRow, b: CategoryRow, c: CategoryRow
      | OrderedLe(a, b, nulls) && OrderedLe(b, c, nulls)
      ensures OrderedLe(a, c, nulls)
    {
      if a.displayOrder == b.displayOrder == c.displayOrder {
        Query.StringLeTransitive(a.name, b.name, c.name);
      }
    }
  }

  /** `Category.ordered`: the rows by display order, then by name. */
  function Ordered(cats: seq<CategoryRow>, nulls: Query.NullOrder): (r: seq<CategoryRow>)
    ensures multiset(r) == multiset(cats)
    ensures forall i, j :: 0 <= i < j < |r| ==> OrderedLe(r[i], r[j], nulls)
  {
    OrderedLeTotalPreorder(nulls);
    Query.OrderBy(cats, (a: CategoryRow, b: CategoryRow) => OrderedLe(a, b, nulls))
  }

  /** In `ordered`, a smaller display order always comes first, and between
      equal display orders the names are ascending. */
  lemma OrderedIsByDisplayOrderThenName(cats: seq<CategoryRow>, nulls: Query.NullOrder, i: int, j: int)
    requires 0 <= i < j < |Ordered(cats, nulls)|
    ensures var r := Ordered(cats, nulls);
            var x, y := r[i].displayOrder, r[j].displayOrder;
            && (x.Some? && y.Some? ==> x.value <= y.value)
            && (x == y ==> Query.StringLe(r[i].name, r[j].name))
  {
  }
}
