/**
 * The `Application` model: one catalog entry. Its columns (the
 * `applications` table), its validations, its four scopes and its two list
 * fields, which are stored as JSON text and read and written as lists.
 */
module Applications {
  import opened Wrappers
  import Text
  import JsonList
  import Query

  /**
   * A row of the `applications` table. Columns that may be NULL are Options.
   * `name` and `package_name` are NOT NULL; an unset one is "" here, which
   * is blank, as nil is. `rating` is decimal(3,2), kept as an integer number
   * of hundredths (4.5 is 450). Dates are day numbers, timestamps integers.
   * `category_id` is NOT NULL in the table but nil in an unsaved record.
   */
  datatype AppRow = AppRow(
    id: int,
    name: string,
    packageName: string,
    version: Option<string>,
    description: Option<string>,
    icon: Option<string>,
    downloadUrl: Option<string>,
    fileSize: Option<string>,
    fileSizeBytes: Option<int>,
    developer: Option<string>,
    rating: Option<int>,
    downloads: Option<int>,
    lastUpdated: Option<int>,
    minAndroidVersion: Option<string>,
    permissions: Option<string>,
    features: Option<string>,
    categoryId: Option<int>,
    createdAt: int,
    updatedAt: int)

  /** The largest rating the validation admits, 5.00, in hundredths. */
  const MaxRating: int := 500

  /** The attributes of `Application.new`: every column unset except
      `downloads`, which starts at its column default 0. */
  function NewRecord(): (r: AppRow)
    ensures r.downloads == Some(0)
    ensures r.rating.None? && r.permissions.None? && r.features.None? && r.categoryId.None?
    ensures Text.IsBlank(r.name) && Text.IsBlank(r.packageName)
  {
    AppRow(0, "", "", None, None, None, None, None, None, None, None, Some(0), None, None, None, None, None, 0, 0)
  }

  // ------------------------------------------------------------- validations

  /** The validation errors Rails reports, in the order the model declares them. */
  datatype AppError =
    | CategoryMustExist     // belongs_to :category (required by default)
    | NameBlank             // validates :name, presence
    | PackageNameBlank      // validates :package_name, presence
    | PackageNameTaken      // validates :package_name, uniqueness
    | DownloadsBlank        // validates :downloads, presence
    | DownloadsNotANumber   // validates :downloads, numericality (nil is not a number)
    | DownloadsNegative     // numericality: greater_than_or_equal_to 0
    | RatingBelowZero       // validates :rating, numericality >= 0, allow_nil
    | RatingAboveFive       // validates :rating, numericality <= 5, allow_nil

  /** Another stored application already uses `a`'s package name. */
  predicate PackageNameTakenIn(a: AppRow, stored: seq<AppRow>) {
    exists o :: o in stored && o.id != a.id && o.packageName == a.packageName
  }

  /** Every rule of the model holds for `a`, saved beside the rows `stored`
      in a database whose categories have the ids `categoryIds`. */
  predicate AppValid(a: AppRow, stored: seq<AppRow>, categoryIds: set<int>) {
    && a.categoryId.Some? && a.categoryId.value in categoryIds
    && !Text.IsBlank(a.name)
    && !Text.IsBlank(a.packageName)
    && !PackageNameTakenIn(a, stored)
    && a.downloads.Some? && a.downloads.value >= 0
    && (a.rating.Some? ==> 0 <= a.rating.value <= MaxRating)
  }

  /** Every error, in the order the model declares its validations. */
  const AllAppErrors: seq<AppError> := [
    CategoryMustExist, NameBlank, PackageNameBlank, PackageNameTaken,
    DownloadsBlank, DownloadsNotANumber, DownloadsNegative,
    RatingBelowZero, RatingAboveFive]

  /** The rule behind each error fails for `a`. */
  predicate Fails(e: AppError, a: AppRow, stored: seq<AppRow>, categoryIds: set<int>) {
    match e
    case CategoryMustExist => a.categoryId.None? || a.categoryId.value !in categoryIds
    case NameBlank => Text.IsBlank(a.name)
    case PackageNameBlank => Text.IsBlank(a.packageName)
    case PackageNameTaken => PackageNameTakenIn(a, stored)
    case DownloadsBlank => a.downloads.None?
    case DownloadsNotANumber => a.downloads.None?
    case DownloadsNegative => a.downloads.Some? && a.downloads.value < 0
    case RatingBelowZero => a.rating.Some? && a.rating.value < 0
    case RatingAboveFive => a.rating.Some? && a.rating.value > MaxRating
  }

  lemma EveryErrorListed()
    ensures forall e :: e in AllAppErrors
  {
    forall e: AppError ensures e in AllAppErrors {
      match e
      case CategoryMustExist => assert AllAppErrors[0] == e;
      case NameBlank => assert AllAppErrors[1] == e;
      case PackageNameBlank => assert AllAppErrors[2] == e;
      case PackageNameTaken => assert AllAppErrors[3] == e;
      case DownloadsBlank => assert AllAppErrors[4] == e;
      case DownloadsNotANumber => assert AllAppErrors[5] == e;
      case DownloadsNegative => assert AllAppErrors[6] == e;
      case RatingBelowZero => assert AllAppErrors[7] == e;
      case RatingAboveFive => assert AllAppErrors[8] == e;
    }
  }

  /** A record is valid exactly when no rule fails. */
  lemma ValidIffNoRuleFails(a: AppRow, stored: seq<AppRow>, categoryIds: set<int>)
    ensures AppValid(a, stored, categoryIds) <==> forall e :: !Fails(e, a, stored, categoryIds)
  {
    if !AppValid(a, stored, categoryIds) {
      if a.categoryId.None? || a.categoryId.value !in categoryIds {
        assert Fails(CategoryMustExist, a, stored, categoryIds);
      } else if Text.IsBlank(a.name) {
        assert Fails(NameBlank, a, stored, categoryIds);
      } else if Text.IsBlank(a.packageName) {
        assert Fails(PackageNameBlank, a, stored, categoryIds);
      } else if PackageNameTakenIn(a, stored) {
        assert Fails(PackageNameTaken, a, stored, categoryIds);
      } else if a.downloads.None? {
        assert Fails(DownloadsBlank, a, stored, categoryIds);
      } else if a.downloads.value < 0 {
        assert Fails(DownloadsNegative, a, stored, categoryIds);
      } else if a.rating.value < 0 {
        assert Fails(RatingBelowZero, a, stored, categoryIds);
      } else {
        assert Fails(RatingAboveFive, a, stored, categoryIds);
      }
    }
  }

  function Failing(a: AppRow, stored: seq<AppRow>, categoryIds: set<int>): AppError -> bool {
    (e: AppError) => Fails(e, a, stored, categoryIds)
  }

  /** `a.valid?` followed by `a.errors`: the failed rules, in declaration
      order; none exactly when the record is valid. */
  function AppErrors(a: AppRow, stored: seq<AppRow>, categoryIds: set<int>): (r: seq<AppError>)
    ensures forall e :: e in r <==> Fails(e, a, stored, categoryIds)
    ensures r == [] <==> AppValid(a, stored, categoryIds)
  {
    var r := Query.Where(AllAppErrors, Failing(a, stored, categoryIds));
    Query.WhereEmpty(AllAppErrors, Failing(a, stored, categoryIds));
    EveryErrorListed();
    ValidIffNoRuleFails(a, stored, categoryIds);
    r
  }

  // ------------------------------------------------------------------ scopes

  /** `a` may come before `b` in `recent`: `last_updated` descending, then
      `created_at` descending. */
  predicate RecentLe(a: AppRow, b: AppRow, nulls: Query.NullOrder) {
    && Query.NullableLe(b.lastUpdated, a.lastUpdated, nulls)
    && (a.lastUpdated == b.lastUpdated ==> a.createdAt >= b.createdAt)
  }

  /** `a` may come before `b` in `popular`: `downloads` descending. */
  predicate PopularLe(a: AppRow, b: AppRow, nulls: Query.NullOrder) {
    Query.NullableLe(b.downloads, a.downloads, nulls)
  }

  /** `a` may come before `b` in `top_rated`: `rating` descending. The scope
      removes the NULL ratings first, so where NULL would sort never matters. */
  predicate RatingLe(a: AppRow, b: AppRow) {
    Query.NullableLe(b.rating, a.rating, Query.NullsLow)
  }

  lemma RecentLeTotalPreorder(nulls: Query.NullOrder)
    ensures Query.TotalPreorder((a: AppRow, b: AppRow) => RecentLe(a, b, nulls))
  {
    Query.NullableLeTotalOrder(nulls);
  }

  lemma PopularLeTotalPreorder(nulls: Query.NullOrder)
    ensures Query.TotalPreorder((a: AppRow, b: AppRow) => PopularLe(a, b, nulls))
  {
    Query.NullableLeTotalOrder(nulls);
  }

  lemma RatingLeTotalPreorder()
    ensures Query.TotalPreorder((a: AppRow, b: AppRow) => RatingLe(a, b))
  {
    Query.NullableLeTotalOrder(Query.NullsLow);
  }

  /** `Application.recent`: the rows, newest update first, newest creation
      first among rows updated the same day. */
  function Recent(apps: seq<AppRow>, nulls: Query.NullOrder): (r: seq<AppRow>)
    ensures multiset(r) == multiset(apps)
    ensures forall i, j :: 0 <= i < j < |r| ==> RecentLe(r[i], r[j], nulls)
  {
    RecentLeTotalPreorder(nulls);
    Query.OrderBy(apps, (a: AppRow, b: AppRow) => RecentLe(a, b, nulls))
  }

  /** `Application.popular`: the rows, most downloaded first. */
  function Popular(apps: seq<AppRow>, nulls: Query.NullOrder): (r: seq<AppRow>)
    ensures multiset(r) == multiset(apps)
    ensures forall i, j :: 0 <= i < j < |r| ==> PopularLe(r[i], r[j], nulls)
  {
    PopularLeTotalPreorder(nulls);
    Query.OrderBy(apps, (a: AppRow, b: AppRow) => PopularLe(a, b, nulls))
  }

  function Rated(): AppRow -> bool {
    (a: AppRow) => a.rating.Some?
  }

  /** `Application.top_rated`: exactly the rows that have a rating, best first. */
  function TopRated(apps: seq<AppRow>): (r: seq<AppRow>)
    ensures forall x :: multiset(r)[x] == if x.rating.Some? then multiset(apps)[x] else 0
    ensures forall i :: 0 <= i < |r| ==> r[i].rating.Some?
    ensures forall i, j :: 0 <= i < j < |r| ==> r[i].rating.value >= r[j].rating.value
  {
    RatingLeTotalPreorder();
    var rated := Query.Where(apps, Rated());
    var r := Query.OrderBy(rated, (a: AppRow, b: AppRow) => RatingLe(a, b));
    assert forall i :: 0 <= i < |r| ==> r[i].rating.Some? by {
      forall i | 0 <= i < |r| ensures r[i].rating.Some? {
        assert r[i] in multiset(rated);
      }
    }
    RatedByRatingIsDescending(r);
    r
  }

  /** Among rated rows, the `rating DESC` order is descending ratings. */
  lemma RatedByRatingIsDescending(r: seq<AppRow>)
    requires forall i :: 0 <= i < |r| ==> r[i].rating.Some?
    requires forall i, j :: 0 <= i < j < |r| ==> RatingLe(r[i], r[j])
    ensures forall i, j :: 0 <= i < j < |r| ==> r[i].rating.value >= r[j].rating.value
  {
  }

  function InCategory(c: int): AppRow -> bool {
    (a: AppRow) => a.categoryId == Some(c)
  }

  /** `Application.by_category(c)`: exactly the rows of category `c`. */
  function ByCategory(apps: seq<AppRow>, c: int): (r: seq<AppRow>)
    ensures forall x :: multiset(r)[x] == if x.categoryId == Some(c) then multiset(apps)[x] else 0
    ensures forall i :: 0 <= i < |r| ==> r[i].categoryId == Some(c)
  {
    Query.Where(apps, InCategory(c))
  }

  /** The model's `by_category` keeps its input order (SQL leaves it open):
      filtering a concatenation is concatenating the filtered parts. */
  lemma ByCategoryAppend(a: seq<AppRow>, b: seq<AppRow>, c: int)
    ensures ByCategory(a + b, c) == ByCategory(a, c) + ByCategory(b, c)
  {
    Query.WhereAppend(a, b, InCategory(c));
  }

  /** A table that holds only rows of category `c` is its own `by_category(c)`. */
  lemma ByCategoryOfOneCategory(apps: seq<AppRow>, c: int)
    requires forall i :: 0 <= i < |apps| ==> apps[i].categoryId == Some(c)
    ensures ByCategory(apps, c) == apps
  {
    Query.WhereAll(apps, InCategory(c));
  }

  // --------------------------------------------------------------- list fields

  /** The value given to a list writer: an Array of strings, or a value that
      is not an Array at all. */
  datatype Value = StringArray(items: seq<string>) | NotAnArray

  /** An `Application` object in memory; its attributes change in place. */
  class Application {
    var attributes: AppRow

    constructor (row: AppRow)
      ensures attributes == row
    {
      attributes := row;
    }

    /** `permissions_array`. */
    function PermissionsArray(): (r: seq<string>)
      reads this
      ensures attributes.permissions.None? ==> r == []
      ensures attributes.permissions.Some? ==> r == JsonList.Decode(attributes.permissions.value).GetOr([])
    {
      JsonList.ReadList(attributes.permissions)
    }

    /** `features_array`. */
    function FeaturesArray(): (r: seq<string>)
      reads this
      ensures attributes.features.None? ==> r == []
      ensures attributes.features.Some? ==> r == JsonList.Decode(attributes.features.value).GetOr([])
    {
      JsonList.ReadList(attributes.features)
    }

    /** `permissions_array = value`: an Array is stored as its JSON text and
        read back unchanged; any other value leaves the record as it was. */
    method SetPermissionsArray(value: Value)
      modifies this
      ensures value.StringArray? ==>
                attributes == old(attributes).(permissions := Some(JsonList.Encode(value.items)))
      ensures value.NotAnArray? ==> attributes == old(attributes)
      ensures value.StringArray? ==> PermissionsArray() == value.items
      ensures FeaturesArray() == old(FeaturesArray())
    {
      if value.StringArray? {
        attributes := attributes.(permissions := Some(JsonList.Encode(value.items)));
        JsonList.ReadAfterWrite(value.items);
      }
    }

    /** `features_array = value`: as `SetPermissionsArray`, on `features`. */
    method SetFeaturesArray(value: Value)
      modifies this
      ensures value.StringArray? ==>
                attributes == old(attributes).(features := Some(JsonList.Encode(value.items)))
      ensures value.NotAnArray? ==> attributes == old(attributes)
      ensures value.StringArray? ==> FeaturesArray() == value.items
      ensures PermissionsArray() == old(PermissionsArray())
    {
      if value.StringArray? {
        attributes := attributes.(features := Some(JsonList.Encode(value.items)));
        JsonList.ReadAfterWrite(value.items);
      }
    }
  }
}
