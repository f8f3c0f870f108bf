/**
 * The database behind the two models: the `categories` and `applications`
 * tables, the constraints the migrations and the validations keep on them,
 * and the saves and destroys the admin pages perform. A save runs the
 * model's validations and writes the row only when they pass; destroying a
 * category destroys its applications (`has_many :applications,
 * dependent: :destroy`).
 */
module Catalog {
  import opened Wrappers
  import Text
  import Query
  import A = Applications
  import C = Categories

  /** What a save returns: the saved row's id, the failed validations, or
      no row with the requested id. */
  datatype SaveOutcome<E> = Saved(id: int) | Rejected(errors: seq<E>) | NotFound

  function CategoryKey(c: C.CategoryRow): int { c.id }
  function AppKey(a: A.AppRow): int { a.id }

  /** The primary keys of the `categories` table. */
  function CategoryIds(cats: seq<C.CategoryRow>): (ids: set<int>)
    ensures forall c :: c in cats ==> c.id in ids
    ensures forall x :: x in ids ==> exists c :: c in cats && c.id == x
  {
    set c | c in cats :: c.id
  }

  /**
   * The invariant of the two tables: primary keys are unique, every row
   * passes its model's validations against the rest of the database (so
   * the unique indexes on `categories.name`, `categories.slug` and
   * `applications.package_name` hold, NOT NULL columns are set, and every
   * `category_id` names a category).
   */
  predicate StoreValid(cats: seq<C.CategoryRow>, apps: seq<A.AppRow>) {
    && Query.DistinctBy(cats, CategoryKey)
    && Query.DistinctBy(apps, AppKey)
    && (forall c :: c in cats ==> C.CategoryValid(c, cats))
    && (forall a :: a in apps ==> A.AppValid(a, apps, CategoryIds(cats)))
  }

  /** The constraints `create_categories` declares hold in a valid store. */
  lemma CategoriesSatisfySchema(cats: seq<C.CategoryRow>, apps: seq<A.AppRow>)
    requires StoreValid(cats, apps)
    // add_index :categories, :name / :slug, unique: true
    ensures forall i, j :: 0 <= i < j < |cats| ==> cats[i].name != cats[j].name && cats[i].slug != cats[j].slug
    // name and slug null: false (and not blank); display_order null: false, a non-negative integer
    ensures forall c :: c in cats ==>
              !Text.IsBlank(c.name) && !Text.IsBlank(c.slug) && c.displayOrder.Some? && c.displayOrder.value >= 0
  {
    forall i, j | 0 <= i < j < |cats| ensures cats[i].name != cats[j].name && cats[i].slug != cats[j].slug {
      assert CategoryKey(cats[i]) != CategoryKey(cats[j]);
      assert cats[j] in cats && cats[i] in cats;
      assert C.CategoryValid(cats[i], cats);
    }
  }

  /** The constraints `create_applications` declares hold in a valid store. */
  lemma ApplicationsSatisfySchema(cats: seq<C.CategoryRow>, apps: seq<A.AppRow>)
    requires StoreValid(cats, apps)
    // add_index :applications, :package_name, unique: true
    ensures forall i, j :: 0 <= i < j < |apps| ==> apps[i].packageName != apps[j].packageName
    // t.references :category, null: false, foreign_key: true
    ensures forall a :: a in apps ==> a.categoryId.Some? && exists c :: c in cats && c.id == a.categoryId.value
    // name and package_name null: false (and not blank); downloads null: false, a non-negative integer
    ensures forall a :: a in apps ==>
              !Text.IsBlank(a.name) && !Text.IsBlank(a.packageName) && a.downloads.Some? && a.downloads.value >= 0
    // decimal(3, 2), and the validation's range: 0.00 to 5.00
    ensures forall a :: a in apps && a.rating.Some? ==> 0 <= a.rating.value <= A.MaxRating
  {
    forall i, j | 0 <= i < j < |apps| ensures apps[i].packageName != apps[j].packageName {
      assert AppKey(apps[i]) != AppKey(apps[j]);
      assert apps[j] in apps && apps[i] in apps;
      assert A.AppValid(apps[i], apps, CategoryIds(cats));
    }
  }

  // ----------------------------------------------------- keeping validity

  /** A category stays valid when the table changes only by rows that were
      there before or that clash with it neither in name nor in slug. */
  lemma CategoryStaysValid(c: C.CategoryRow, before: seq<C.CategoryRow>, after: seq<C.CategoryRow>)
    requires C.CategoryValid(c, before)
    requires forall o :: o in after && o.id != c.id ==> o in before || (o.name != c.name && o.slug != c.slug)
    ensures C.CategoryValid(c, after)
  {
  }

  /** An application stays valid when its category still exists and the
      table changes only by rows that were there before or that do not
      share its package name. */
  lemma AppStaysValid(a: A.AppRow, before: seq<A.AppRow>, after: seq<A.AppRow>, ids: set<int>, ids': set<int>)
    requires A.AppValid(a, before, ids)
    requires a.categoryId.value in ids'
    requires forall o :: o in after && o.id != a.id ==> o in before || o.packageName != a.packageName
    ensures A.AppValid(a, after, ids')
  {
  }

  /** Writing `row` at position `k` of the categories (appending when `k` is
      the length), where `row` passed its validations and either reuses the
      id of the row it replaces or has an id no row has. */
  lemma PutCategoryKeepsStore(cats: seq<C.CategoryRow>, apps: seq<A.AppRow>, k: int, row: C.CategoryRow)
    requires StoreValid(cats, apps)
    requires 0 <= k <= |cats|
    requires k < |cats| ==> cats[k].id == row.id
    requires k == |cats| ==> row.id !in CategoryIds(cats)
    requires C.CategoryValid(row, cats)
    ensures var cats' := if k == |cats| then cats + [row] else cats[k := row];
            StoreValid(cats', apps) && CategoryIds(cats) <= CategoryIds(cats')
  {
    var cats' := if k == |cats| then cats + [row] else cats[k := row];
    assert forall i :: 0 <= i < |cats'| && i != k ==> cats'[i] == cats[i];
    assert cats'[k] == row;
    forall i, j | 0 <= i < j < |cats'| ensures CategoryKey(cats'[i]) != CategoryKey(cats'[j]) {
      if i != k && j != k {
        assert CategoryKey(cats[i]) != CategoryKey(cats[j]);
      } else if k < |cats| {
        assert CategoryKey(cats[i]) != CategoryKey(cats[j]);
      } else {
        assert cats[i] in cats;
      }
    }
    forall o | o in cats' ensures o in cats || o == row {
      var i :| 0 <= i < |cats'| && cats'[i] == o;
    }
    forall c | c in cats' ensures C.CategoryValid(c, cats') {
      if c == row {
        CategoryStaysValid(row, cats, cats');
      } else {
        assert c in cats;
        assert c.id != row.id by {
          var i :| 0 <= i < |cats'| && cats'[i] == c;
          assert i != k;
          if k < |cats| {
            assert CategoryKey(cats[i]) != CategoryKey(cats[k]);
          }
        }
        assert row.name != c.name && row.slug != c.slug by {
          assert !C.NameTakenIn(row, cats) && !C.SlugTakenIn(row, cats);
        }
        CategoryStaysValid(c, cats, cats');
      }
    }
    forall x | x in CategoryIds(cats) ensures x in CategoryIds(cats') {
      var c :| c in cats && c.id == x;
      var i :| 0 <= i < |cats| && cats[i] == c;
      if i == k {
        assert cats'[k].id == x;
      } else {
        assert cats'[i] == c;
      }
    }
    forall a | a in apps ensures A.AppValid(a, apps, CategoryIds(cats')) {
      AppStaysValid(a, apps, apps, CategoryIds(cats), CategoryIds(cats'));
    }
  }

  /** Writing `row` at position `k` of the applications (appending when `k`
      is the length), where `row` passed its validations and either reuses
      the id of the row it replaces or has an id no row has. */
  lemma PutAppKeepsStore(cats: seq<C.CategoryRow>, apps: seq<A.AppRow>, k: int, row: A.AppRow)
    requires StoreValid(cats, apps)
    requires 0 <= k <= |apps|
    requires k < |apps| ==> apps[k].id == row.id
    requires k == |apps| ==> forall a :: a in apps ==> a.id != row.id
    requires A.AppValid(row, apps, CategoryIds(cats))
    ensures var apps' := if k == |apps| then apps + [row] else apps[k := row];
            StoreValid(cats, apps')
  {
    var apps' := if k == |apps| then apps + [row] else apps[k := row];
    assert forall i :: 0 <= i < |apps'| && i != k ==> apps'[i] == apps[i];
    assert apps'[k] == row;
    forall i, j | 0 <= i < j < |apps'| ensures AppKey(apps'[i]) != AppKey(apps'[j]) {
      if i != k && j != k {
        assert AppKey(apps[i]) != AppKey(apps[j]);
      } else if k < |apps| {
        assert AppKey(apps[i]) != AppKey(apps[j]);
      } else {
        assert apps[i] in apps;
      }
    }
    forall o | o in apps' ensures o in apps || o == row {
      var i :| 0 <= i < |apps'| && apps'[i] == o;
    }
    var ids := CategoryIds(cats);
    forall a | a in apps' ensures A.AppValid(a, apps', ids) {
      if a == row {
        AppStaysValid(row, apps, apps', ids, ids);
      } else {
        assert a in apps;
        assert a.id != row.id by {
          var i :| 0 <= i < |apps'| && apps'[i] == a;
          assert i != k;
          if k < |apps| {
            assert AppKey(apps[i]) != AppKey(apps[k]);
          }
        }
        assert row.packageName != a.packageName by {
          assert !A.PackageNameTakenIn(row, apps);
        }
        AppStaysValid(a, apps, apps', ids, ids);
      }
    }
  }

  // ---------------------------------------------------------------- cascade

  function NotOfCategory(id: int): A.AppRow -> bool {
    (a: A.AppRow) => a.categoryId != Some(id)
  }

  function NotWithId(id: int): C.CategoryRow -> bool {
    (c: C.CategoryRow) => c.id != id
  }

  /** The applications left when category `id` is destroyed: exactly those
      of other categories, each `by_category` list of another category
      unchanged, and none of category `id`. */
  function WithoutCategory(apps: seq<A.AppRow>, id: int): (r: seq<A.AppRow>)
    ensures forall x :: multiset(r)[x] == if x.categoryId == Some(id) then 0 else multiset(apps)[x]
    ensures A.ByCategory(r, id) == []
    ensures forall c :: c != id ==> A.ByCategory(r, c) == A.ByCategory(apps, c)
  {
    var r := Query.Where(apps, NotOfCategory(id));
    Query.WhereEmpty(r, A.InCategory(id));
    assert forall c :: c != id ==> A.ByCategory(r, c) == A.ByCategory(apps, c) by {
      forall c | c != id ensures A.ByCategory(r, c) == A.ByCategory(apps, c) {
        Query.WhereOfWhere(apps, NotOfCategory(id), A.InCategory(c));
      }
    }
    r
  }

  /** Destroying category `id` keeps the store valid: no application is left
      pointing at it, and nothing else loses what it needs. */
  lemma DestroyCategoryKeepsStore(cats: seq<C.CategoryRow>, apps: seq<A.AppRow>, id: int, n: int, m: int)
    requires StoreValid(cats, apps) && CategoryIdsBelow(cats, n) && AppIdsBelow(apps, m)
    ensures StoreValid(Query.Where(cats, NotWithId(id)), WithoutCategory(apps, id))
    ensures CategoryIdsBelow(Query.Where(cats, NotWithId(id)), n)
    ensures AppIdsBelow(WithoutCategory(apps, id), m)
    ensures id !in CategoryIds(cats) ==>
              Query.Where(cats, NotWithId(id)) == cats && WithoutCategory(apps, id) == apps
  {
    var cats' := Query.Where(cats, NotWithId(id));
    var apps' := WithoutCategory(apps, id);
    Query.WhereDistinctBy(cats, CategoryKey, NotWithId(id));
    Query.WhereDistinctBy(apps, AppKey, NotOfCategory(id));
    forall c | c in cats' ensures C.CategoryValid(c, cats') {
      CategoryStaysValid(c, cats, cats');
    }
    forall a | a in apps' ensures A.AppValid(a, apps', CategoryIds(cats')) {
      assert a in apps && a.categoryId != Some(id);
      var c :| c in cats && c.id == a.categoryId.value;
      assert c in cats';
      AppStaysValid(a, apps, apps', CategoryIds(cats), CategoryIds(cats'));
    }
    if id !in CategoryIds(cats) {
      assert forall i :: 0 <= i < |cats| ==> NotWithId(id)(cats[i]) by {
        forall i | 0 <= i < |cats| ensures NotWithId(id)(cats[i]) {
          assert cats[i] in cats;
        }
      }
      Query.WhereAll(cats, NotWithId(id));
      assert forall i :: 0 <= i < |apps| ==> NotOfCategory(id)(apps[i]) by {
        forall i | 0 <= i < |apps| ensures NotOfCategory(id)(apps[i]) {
          assert apps[i] in apps;
          assert A.AppValid(apps[i], apps, CategoryIds(cats));
        }
      }
      Query.WhereAll(apps, NotOfCategory(id));
    }
  }

  // ------------------------------------------------------------ the store

  /** The prepared row for a category being created: the form's attributes,
      a new id, the timestamps, and the slug FriendlyId generates. */
  function NewCategoryRow(draft: C.CategoryRow, id: int, slugify: string -> string, now: int): (r: C.CategoryRow)
    ensures r.slug == slugify(draft.name)
    ensures r == draft.(id := id, slug := r.slug, createdAt := now, updatedAt := now)
  {
    C.WithSlug(draft.(id := id, createdAt := now, updatedAt := now), None, slugify)
  }

  /** The prepared row for a category being updated from `before` with the
      form's attributes `edited`: the id and creation time are kept, a
      rename regenerates the slug, `updated_at` moves only when something
      changed. */
  function UpdatedCategoryRow(before: C.CategoryRow, edited: C.CategoryRow, slugify: string -> string, now: int): (r: C.CategoryRow)
    ensures r.id == before.id && r.createdAt == before.createdAt
    ensures r.name == edited.name && r.icon == edited.icon && r.description == edited.description
    ensures r.displayOrder == edited.displayOrder
    ensures edited.name != before.name ==> r.slug == slugify(edited.name)
    ensures edited.name == before.name ==> r.slug == edited.slug
    ensures r.updatedAt == if r.(updatedAt := before.updatedAt) == before then before.updatedAt else now
  {
    var row := C.WithSlug(edited.(id := before.id, createdAt := before.createdAt, updatedAt := before.updatedAt), Some(before), slugify);
    if row == before then row else row.(updatedAt := now)
  }

  /** The prepared row for an application being created. */
  function NewAppRow(draft: A.AppRow, id: int, now: int): (r: A.AppRow)
    ensures r.id == id && r.createdAt == now && r.updatedAt == now
    ensures r.(id := draft.id, createdAt := draft.createdAt, updatedAt := draft.updatedAt) == draft
  {
    draft.(id := id, createdAt := now, updatedAt := now)
  }

  /** The prepared row for an application being updated from `before`. */
  function UpdatedAppRow(before: A.AppRow, edited: A.AppRow, now: int): (r: A.AppRow)
    ensures r.(updatedAt := before.updatedAt) == edited.(id := before.id, createdAt := before.createdAt, updatedAt := before.updatedAt)
    ensures r.updatedAt == if r.(updatedAt := before.updatedAt) == before then before.updatedAt else now
  {
    var row := edited.(id := before.id, createdAt := before.createdAt, updatedAt := before.updatedAt);
    if row == before then row else row.(updatedAt := now)
  }

  /** The position of the row with primary key `id`, if any. */
  function IndexOfCategory(cats: seq<C.CategoryRow>, id: int): (r: Option<nat>)
    ensures r.Some? ==> r.value < |cats| && cats[r.value].id == id
    ensures r.None? ==> id !in CategoryIds(cats)
  {
    if cats == [] then None
    else if cats[0].id == id then Some(0)
    else match IndexOfCategory(cats[1..], id)
      case None =>
        assert cats == [cats[0]] + cats[1..];
        None
      case Some(i) => Some(i + 1)
  }

  function IndexOfApp(apps: seq<A.AppRow>, id: int): (r: Option<nat>)
    ensures r.Some? ==> r.value < |apps| && apps[r.value].id == id
    ensures r.None? ==> forall a :: a in apps ==> a.id != id
  {
    if apps == [] then None
    else if apps[0].id == id then Some(0)
    else match IndexOfApp(apps[1..], id)
      case None =>
        assert apps == [apps[0]] + apps[1..];
        None
      case Some(i) => Some(i + 1)
  }

  /** Every primary key of `cats` is below `n`, the next key to hand out. */
  predicate CategoryIdsBelow(cats: seq<C.CategoryRow>, n: int) {
    forall c :: c in cats ==> c.id < n
  }

  predicate AppIdsBelow(apps: seq<A.AppRow>, n: int) {
    forall a :: a in apps ==> a.id < n
  }

  /** Distinct positions of a table with a primary key hold distinct keys. */
  lemma KeysDiffer<T>(s: seq<T>, key: T -> int)
    requires Query.DistinctBy(s, key)
    ensures forall i, j :: 0 <= i < |s| && 0 <= j < |s| && i != j ==> key(s[i]) != key(s[j])
  {
    forall i, j | 0 <= i < |s| && 0 <= j < |s| && i != j ensures key(s[i]) != key(s[j]) {
      if i > j {
        assert key(s[j]) != key(s[i]);
      }
    }
  }

  /** Overwriting a row with one whose key is below `n` keeps every key below `n`. */
  lemma CategoryIdsBelowReplace(cats: seq<C.CategoryRow>, k: int, row: C.CategoryRow, n: int)
    requires CategoryIdsBelow(cats, n) && 0 <= k < |cats| && row.id < n
    ensures CategoryIdsBelow(cats[k := row], n)
  {
    forall c | c in cats[k := row] ensures c.id < n {
      var i :| 0 <= i < |cats[k := row]| && cats[k := row][i] == c;
      assert i == k || cats[i] in cats;
    }
  }

  lemma AppIdsBelowReplace(apps: seq<A.AppRow>, k: int, row: A.AppRow, n: int)
    requires AppIdsBelow(apps, n) && 0 <= k < |apps| && row.id < n
    ensures AppIdsBelow(apps[k := row], n)
  {
    forall a | a in apps[k := row] ensures a.id < n {
      var i :| 0 <= i < |apps[k := row]| && apps[k := row][i] == a;
      assert i == k || apps[i] in apps;
    }
  }

  /** The database: the two tables and the next primary key of each. */
  datatype Database = Database(
    categories: seq<C.CategoryRow>,
    applications: seq<A.AppRow>,
    nextCategoryId: int,
    nextApplicationId: int)

  /** The invariant of the database between requests: the tables are valid
      and every primary key handed out is below the next one. */
  predicate Invariant(db: Database) {
    && StoreValid(db.categories, db.applications)
    && CategoryIdsBelow(db.categories, db.nextCategoryId)
    && AppIdsBelow(db.applications, db.nextApplicationId)
  }

  /** The database after a save, and what the save returned. */
  datatype Saving<E> = Saving(db: Database, outcome: SaveOutcome<E>)

  /** The database after a destroy, and whether the row existed. */
  datatype Destroying = Destroying(db: Database, found: bool)

  /** `Category.new(params).save`: the slug is generated from the name, the
      validations run, and the row is inserted under the next primary key
      only if they pass. */
  function CreateCategoryStep(db: Database, draft: C.CategoryRow, slugify: string -> string, now: int)
    : (s: Saving<C.CategoryError>)
    requires CategoryIdsBelow(db.categories, db.nextCategoryId)
    ensures s.db.applications == db.applications && s.db.nextApplicationId == db.nextApplicationId
    ensures var row := NewCategoryRow(draft, db.nextCategoryId, slugify, now);
            && !s.outcome.NotFound?
            && (s.outcome.Saved? <==> C.CategoryValid(row, db.categories))
            && (s.outcome.Saved? ==> && s.outcome.id == row.id
                                     && s.db.categories == db.categories + [row]
                                     && s.db.nextCategoryId == db.nextCategoryId + 1)
            && (s.outcome.Rejected? ==> && s.outcome.errors == C.CategoryErrors(row, db.categories)
                                        && s.db == db)
  {
    var row := NewCategoryRow(draft, db.nextCategoryId, slugify, now);
    var errors := C.CategoryErrors(row, db.categories);
    if errors == [] then
      Saving(db.(categories := db.categories + [row], nextCategoryId := db.nextCategoryId + 1), Saved(row.id))
    else
      Saving(db, Rejected(errors))
  }

  lemma CreateCategoryKeepsInvariant(db: Database, draft: C.CategoryRow, slugify: string -> string, now: int)
    requires Invariant(db)
    ensures Invariant(CreateCategoryStep(db, draft, slugify, now).db)
  {
    var s := CreateCategoryStep(db, draft, slugify, now);
    if s.outcome.Saved? {
      PutCategoryKeepsStore(db.categories, db.applications, |db.categories|, NewCategoryRow(draft, db.nextCategoryId, slugify, now));
    }
  }

  /** A category created from `Category.new` with only a name is saved with
      the column default `display_order` 0 and the slug of its name, once
      the name and that slug are free. */
  lemma NewCategoryGetsDefaultDisplayOrder(db: Database, n: string, slugify: string -> string, now: int)
    requires CategoryIdsBelow(db.categories, db.nextCategoryId)
    requires !Text.IsBlank(n) && !Text.IsBlank(slugify(n))
    requires forall c :: c in db.categories ==> c.name != n && c.slug != slugify(n)
    ensures var s := CreateCategoryStep(db, C.NewRecord().(name := n), slugify, now);
            && s.outcome.Saved?
            && |s.db.categories| == |db.categories| + 1
            && var row := s.db.categories[|db.categories|];
               row.displayOrder == Some(0) && row.name == n && row.slug == slugify(n)
  {
    var row := NewCategoryRow(C.NewRecord().(name := n), db.nextCategoryId, slugify, now);
    assert !C.NameTakenIn(row, db.categories) && !C.SlugTakenIn(row, db.categories);
  }

  /** `category.update(params)` on the row with primary key `id`: a rename
      regenerates the slug, the validations run, and the row is written only
      if they pass. */
  function UpdateCategoryStep(db: Database, id: int, edited: C.CategoryRow, slugify: string -> string, now: int)
    : (s: Saving<C.CategoryError>)
    requires Query.DistinctBy(db.categories, CategoryKey)
    ensures s.outcome.NotFound? <==> id !in CategoryIds(db.categories)
    ensures !s.outcome.Saved? ==> s.db == db
    ensures s.db == db.(categories := s.db.categories)
    ensures forall k :: 0 <= k < |db.categories| && db.categories[k].id == id ==>
              var row := UpdatedCategoryRow(db.categories[k], edited, slugify, now);
              && (s.outcome.Saved? <==> C.CategoryValid(row, db.categories))
              && (s.outcome.Saved? ==> s.outcome.id == id && s.db.categories == db.categories[k := row])
              && (s.outcome.Rejected? ==> s.outcome.errors == C.CategoryErrors(row, db.categories))
  {
    match IndexOfCategory(db.categories, id)
    case None => Saving(db, NotFound)
    case Some(k) =>
      KeysDiffer(db.categories, CategoryKey);
      var row := UpdatedCategoryRow(db.categories[k], edited, slugify, now);
      var errors := C.CategoryErrors(row, db.categories);
      if errors == [] then Saving(db.(categories := db.categories[k := row]), Saved(id))
      else Saving(db, Rejected(errors))
  }

  lemma UpdateCategoryKeepsInvariant(db: Database, id: int, edited: C.CategoryRow, slugify: string -> string, now: int)
    requires Invariant(db)
    ensures Invariant(UpdateCategoryStep(db, id, edited, slugify, now).db)
  {
    var s := UpdateCategoryStep(db, id, edited, slugify, now);
    if s.outcome.Saved? {
      var cats := db.categories;
      var k := IndexOfCategory(cats, id).value;
      var row := UpdatedCategoryRow(cats[k], edited, slugify, now);
      PutCategoryKeepsStore(cats, db.applications, k, row);
      assert cats[k] in cats;
      CategoryIdsBelowReplace(cats, k, row, db.nextCategoryId);
    }
  }

  /** `category.destroy`: the row with primary key `id` goes, and with it
      every application of that category (`dependent: :destroy`). */
  function DestroyCategoryStep(db: Database, id: int): (s: Destroying)
    requires Invariant(db)
    ensures s.found <==> id in CategoryIds(db.categories)
    ensures s.db == db.(categories := s.db.categories, applications := s.db.applications)
    ensures s.db.categories == Query.Where(db.categories, NotWithId(id))
    ensures s.db.applications == WithoutCategory(db.applications, id)
    ensures !s.found ==> s.db == db
    ensures Invariant(s.db)
  {
    DestroyCategoryKeepsStore(db.categories, db.applications, id, db.nextCategoryId, db.nextApplicationId);
    Destroying(
      db.(categories := Query.Where(db.categories, NotWithId(id)),
          applications := WithoutCategory(db.applications, id)),
      IndexOfCategory(db.categories, id).Some?)
  }

  /** `Application.new(params).save`: the validations run, and the row is
      inserted under the next primary key only if they pass. */
  function CreateAppStep(db: Database, draft: A.AppRow, now: int): (s: Saving<A.AppError>)
    requires AppIdsBelow(db.applications, db.nextApplicationId)
    ensures s.db.categories == db.categories && s.db.nextCategoryId == db.nextCategoryId
    ensures var row := NewAppRow(draft, db.nextApplicationId, now);
            var ids := CategoryIds(db.categories);
            && !s.outcome.NotFound?
            && (s.outcome.Saved? <==> A.AppValid(row, db.applications, ids))
            && (s.outcome.Saved? ==> && s.outcome.id == row.id
                                     && s.db.applications == db.applications + [row]
                                     && s.db.nextApplicationId == db.nextApplicationId + 1)
            && (s.outcome.Rejected? ==> && s.outcome.errors == A.AppErrors(row, db.applications, ids)
                                        && s.db == db)
  {
    var row := NewAppRow(draft, db.nextApplicationId, now);
    var errors := A.AppErrors(row, db.applications, CategoryIds(db.categories));
    if errors == [] then
      Saving(db.(applications := db.applications + [row], nextApplicationId := db.nextApplicationId + 1), Saved(row.id))
    else
      Saving(db, Rejected(errors))
  }

  lemma CreateAppKeepsInvariant(db: Database, draft: A.AppRow, now: int)
    requires Invariant(db)
    ensures Invariant(CreateAppStep(db, draft, now).db)
  {
    var s := CreateAppStep(db, draft, now);
    if s.outcome.Saved? {
      PutAppKeepsStore(db.categories, db.applications, |db.applications|, NewAppRow(draft, db.nextApplicationId, now));
    }
  }

  /** An application created from `Application.new` with a name, a free
      package name and an existing category is saved with the column
      default `downloads` 0, no rating and no lists. */
  lemma NewApplicationGetsDefaultDownloads(db: Database, n: string, p: string, c: int, now: int)
    requires AppIdsBelow(db.applications, db.nextApplicationId)
    requires !Text.IsBlank(n) && !Text.IsBlank(p)
    requires forall a :: a in db.applications ==> a.packageName != p
    requires c in CategoryIds(db.categories)
    ensures var s := CreateAppStep(db, A.NewRecord().(name := n, packageName := p, categoryId := Some(c)), now);
            && s.outcome.Saved?
            && |s.db.applications| == |db.applications| + 1
            && var row := s.db.applications[|db.applications|];
               && row.downloads == Some(0) && row.rating.None?
               && row.permissions.None? && row.features.None?
  {
    var row := NewAppRow(A.NewRecord().(name := n, packageName := p, categoryId := Some(c)), db.nextApplicationId, now);
    assert !A.PackageNameTakenIn(row, db.applications);
  }

  /** `application.update(params)` on the row with primary key `id`. */
  function UpdateAppStep(db: Database, id: int, edited: A.AppRow, now: int): (s: Saving<A.AppError>)
    requires Query.DistinctBy(db.applications, AppKey)
    ensures s.outcome.NotFound? <==> forall a :: a in db.applications ==> a.id != id
    ensures !s.outcome.Saved? ==> s.db == db
    ensures s.db == db.(applications := s.db.applications)
    ensures forall k :: 0 <= k < |db.applications| && db.applications[k].id == id ==>
              var row := UpdatedAppRow(db.applications[k], edited, now);
              var ids := CategoryIds(db.categories);
              && (s.outcome.Saved? <==> A.AppValid(row, db.applications, ids))
              && (s.outcome.Saved? ==> s.outcome.id == id && s.db.applications == db.applications[k := row])
              && (s.outcome.Rejected? ==> s.outcome.errors == A.AppErrors(row, db.applications, ids))
  {
    match IndexOfApp(db.applications, id)
    case None => Saving(db, NotFound)
    case Some(k) =>
      KeysDiffer(db.applications, AppKey);
      var row := UpdatedAppRow(db.applications[k], edited, now);
      var errors := A.AppErrors(row, db.applications, CategoryIds(db.categories));
      if errors == [] then Saving(db.(applications := db.applications[k := row]), Saved(id))
      else Saving(db, Rejected(errors))
  }

  lemma UpdateAppKeepsInvariant(db: Database, id: int, edited: A.AppRow, now: int)
    requires Invariant(db)
    ensures Invariant(UpdateAppStep(db, id, edited, now).db)
  {
    var s := UpdateAppStep(db, id, edited, now);
    if s.outcome.Saved? {
      var apps := db.applications;
      var k := IndexOfApp(apps, id).value;
      var row := UpdatedAppRow(apps[k], edited, now);
      PutAppKeepsStore(db.categories, apps, k, row);
      assert apps[k] in apps;
      AppIdsBelowReplace(apps, k, row, db.nextApplicationId);
    }
  }

  function NotWithAppId(id: int): A.AppRow -> bool {
    (a: A.AppRow) => a.id != id
  }

  /** `application.destroy`: the row with primary key `id` goes, every other
      row stays. */
  function DestroyAppStep(db: Database, id: int): (s: Destroying)
    requires Invariant(db)
    ensures s.found <==> exists a :: a in db.applications && a.id == id
    ensures s.db == db.(applications := Query.Where(db.applications, NotWithAppId(id)))
    ensures Invariant(s.db)
  {
    var apps' := Query.Where(db.applications, NotWithAppId(id));
    Query.WhereDistinctBy(db.applications, AppKey, NotWithAppId(id));
    assert forall a :: a in apps' ==> A.AppValid(a, apps', CategoryIds(db.categories)) by {
      forall a | a in apps' ensures A.AppValid(a, apps', CategoryIds(db.categories)) {
        AppStaysValid(a, db.applications, apps', CategoryIds(db.categories), CategoryIds(db.categories));
      }
    }
    Destroying(db.(applications := apps'), IndexOfApp(db.applications, id).Some?)
  }

  /**
   * The database as the application sees it across requests. Every write
   * goes through the model's validations, so `Invariant` holds between any
   * two requests.
   */
  class Catalog {
    var db: Database

    ghost predicate Valid()
      reads this
    {
      Invariant(db)
    }

    /** An empty database. */
    constructor ()
      ensures Valid() && db.categories == [] && db.applications == []
    {
      db := Database([], [], 1, 1);
    }

    method CreateCategory(draft: C.CategoryRow, slugify: string -> string, now: int)
      returns (r: SaveOutcome<C.CategoryError>)
      requires Valid()
      modifies this
      ensures Valid()
      ensures Saving(db, r) == CreateCategoryStep(old(db), draft, slugify, now)
    {
      CreateCategoryKeepsInvariant(db, draft, slugify, now);
      var s := CreateCategoryStep(db, draft, slugify, now);
      db, r := s.db, s.outcome;
    }

    method UpdateCategory(id: int, edited: C.CategoryRow, slugify: string -> string, now: int)
      returns (r: SaveOutcome<C.CategoryError>)
      requires Valid()
      modifies this
      ensures Valid()
      ensures Saving(db, r) == UpdateCategoryStep(old(db), id, edited, slugify, now)
    {
      UpdateCategoryKeepsInvariant(db, id, edited, slugify, now);
      var s := UpdateCategoryStep(db, id, edited, slugify, now);
      db, r := s.db, s.outcome;
    }

    method DestroyCategory(id: int) returns (found: bool)
      requires Valid()
      modifies this
      ensures Valid()
      ensures Destroying(db, found) == DestroyCategoryStep(old(db), id)
    {
      var s := DestroyCategoryStep(db, id);
      db, found := s.db, s.found;
    }

    method CreateApplication(draft: A.AppRow, now: int) returns (r: SaveOutcome<A.AppError>)
      requires Valid()
      modifies this
      ensures Valid()
      ensures Saving(db, r) == CreateAppStep(old(db), draft, now)
    {
      CreateAppKeepsInvariant(db, draft, now);
      var s := CreateAppStep(db, draft, now);
      db, r := s.db, s.outcome;
    }

    method UpdateApplication(id: int, edited: A.AppRow, now: int) returns (r: SaveOutcome<A.AppError>)
      requires Valid()
      modifies this
      ensures Valid()
      ensures Saving(db, r) == UpdateAppStep(old(db), id, edited, now)
    {
      UpdateAppKeepsInvariant(db, id, edited, now);
      var s := UpdateAppStep(db, id, edited, now);
      db, r := s.db, s.outcome;
    }

    method DestroyApplication(id: int) returns (found: bool)
      requires Valid()
      modifies this
      ensures Valid()
      ensures Destroying(db, found) == DestroyAppStep(old(db), id)
    {
      var s := DestroyAppStep(db, id);
      db, found := s.db, s.found;
    }
  }
}
