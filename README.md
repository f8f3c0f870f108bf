# jingbao-store catalog model

A Dafny model of the catalog core of the jingbao-store Rails application.
It covers the two ActiveRecord models `Application` and `Category` and the
two migrations that create their tables. The model proves what those
declarations promise about the data.

- **`Category`** (`categories.dfy`): a named group of applications.
  - Validations: `name` and `slug` must be present and unique; `display_order` must be present, an integer and ≥ 0.
  - The `ordered` scope.
  - FriendlyId's rule that regenerates the slug on creation and on rename.
- **`Application`** (`applications.dfy`): one catalog entry.
  - Validations: the required `category` of `belongs_to`; `name` present; `package_name` present and unique; `downloads` present, an integer and ≥ 0; `rating` nil or between 0 and 5.
  - The scopes `recent`, `popular`, `top_rated` and `by_category`.
  - The list fields `permissions` and `features`. Each is stored as JSON text and read and written as a list through `permissions_array` / `features_array` and their writers. The writers assign in place, so they are methods of the class `Applications.Application`.
- **The list text** (`json_list.dfy`).
  - `Encode` writes what `to_json` writes for an array of strings in a Rails application.
  - `Decode` is a parser for JSON arrays of strings (RFC 8259, sections 5 and 7).
  - `ReadList` is the readers' contract: NULL, blank or unparsable text gives `[]`.
- **The database** (`catalog.dfy`).
  - The two tables, and `StoreValid`: the invariant the validations and the migrations' NOT NULL columns, unique indexes and foreign key keep.
  - The saves and destroys the admin pages perform, including `dependent: :destroy`.
  - Each operation is a function from the database to the new database. The class `Catalog.Catalog` holds the database and performs each operation as a method that keeps `Valid()`.
- **Query shapes** (`query.dfy`): the two shapes the scopes are built from, SQL `WHERE` and `ORDER BY`.
  - `WHERE` keeps the rows a predicate accepts. The model's filter keeps its input order; SQL leaves that order open.
  - `ORDER BY` returns a permutation of the rows that is sorted by a total preorder.
  - It also holds the key orders the scopes use: nullable integers and strings.
- **Helpers**: `text.dfy` has Ruby's `blank?`; `wrappers.dfy` has `Option`.

Representation choices:

- **`rating`** is `decimal(3,2)`, kept as an integer number of hundredths: 4.5 is 450 and the largest valid rating is 500.
- **Dates and timestamps** are integers.
- **Nullable columns** are `Option`s.
- **Unset NOT NULL strings.** An unset `name`, `package_name` or `slug` is `""`. It is blank, as nil is, so the presence validations treat both alike.
- **Where NULL sorts** is the database's choice, so it is a `NullOrder` parameter. `NullsHigh` is PostgreSQL; `NullsLow` is SQLite and MySQL.
- **String order** is by code points, i.e. a binary collation.
- **Slug generation** is a parameter `slugify`. FriendlyId's generator is library code.

## Model

| member | source | states |
|---|---|---|
| Applications.NewRecord | db/migrate/20251112110522_create_applications.rb:14 | a new record has `downloads` 0 (the column default), no rating, no lists, no category, and blank name and package name |
| Applications.AppErrors | app/models/application.rb:2-7 | the errors reported are exactly the rules that fail: category must exist, name present, package name present and unique among other rows, downloads present, a number and ≥ 0, rating nil or within 0..5.00; no error exactly when the record is valid |
| Applications.ValidIffNoRuleFails | app/models/application.rb:2-7 | a record is valid if and only if none of the declared rules fails |
| Applications.EveryErrorListed | app/models/application.rb:2-7 | every kind of validation error appears in the declared list the error report is filtered from |
| Applications.RecentLeTotalPreorder | app/models/application.rb:9 | the `recent` order (last_updated desc, created_at desc) is total and transitive, so it is a sort key |
| Applications.Recent | app/models/application.rb:9 | `recent` is a permutation of the rows, sorted by `last_updated` descending, ties by `created_at` descending |
| Applications.PopularLeTotalPreorder | app/models/application.rb:10 | the `popular` order (downloads desc) is total and transitive |
| Applications.Popular | app/models/application.rb:10 | `popular` is a permutation of the rows sorted by `downloads` descending |
| Applications.RatingLeTotalPreorder | app/models/application.rb:11 | the `rating desc` order is total and transitive |
| Applications.TopRated | app/models/application.rb:11 | `top_rated` holds exactly the rows with a rating, each as often as in the table, sorted by rating descending |
| Applications.RatedByRatingIsDescending | app/models/application.rb:11 | among rated rows, the `rating desc` order means each rating is at least the next one |
| Applications.ByCategory | app/models/application.rb:12 | `by_category(c)` holds exactly the rows whose category is `c`, each as often as in the table |
| Applications.ByCategoryAppend | app/models/application.rb:12 | the model's filter keeps its input order: filtering a concatenation concatenates the filtered parts |
| Applications.ByCategoryOfOneCategory | app/models/application.rb:12 | a table of rows of category `c` only is its own `by_category(c)` |
| Applications.Application.SetPermissionsArray | app/models/application.rb:26-28 | an Array of strings is stored as its `to_json` text and `permissions_array` then returns it unchanged; a value that is not an Array changes nothing; `features_array` is unchanged either way |
| Applications.Application.SetFeaturesArray | app/models/application.rb:30-32 | an Array of strings is stored as its `to_json` text and `features_array` then returns it unchanged; a value that is not an Array changes nothing; `permissions_array` is unchanged either way |
| JsonList.Encode | app/models/application.rb:27 | the text `to_json` writes is a bracketed array |
| JsonList.ReadList | app/models/application.rb:14-24 | the readers never fail: NULL gives `[]`, and stored text gives what it decodes to, or `[]` when it does not parse (the `rescue`); blank text is covered by the same rule, so the `present?` test changes no result |
| JsonList.Decode | app/models/application.rb:15 | `JSON.parse` of a list: text that decodes starts, after white space, with `[`; its partners are `RoundTrip` and `BlankNeverDecodes` |
| Applications.Application.PermissionsArray | app/models/application.rb:14-18 | `permissions_array`: `[]` for NULL, otherwise the decoded stored text, or `[]` when it does not parse |
| Applications.Application.FeaturesArray | app/models/application.rb:20-24 | `features_array`: `[]` for NULL, otherwise the decoded stored text, or `[]` when it does not parse |
| JsonList.RoundTrip | app/models/application.rb:14-31 | `Decode(Encode(xs)) == Some(xs)` for every list of strings: same strings, same order, duplicates kept |
| JsonList.ReadAfterWrite | app/models/application.rb:14-31 | reading a list field after writing an Array returns that Array |
| JsonList.EscapeCharRoundTrip | app/models/application.rb:15 | every character as `to_json` escapes it is read back by the parser as that character |
| JsonList.UnicodeEscapeDigits | app/models/application.rb:15 | the four hex digits of a `\uXXXX` escape are read back as the code unit |
| JsonList.StringBodyRoundTrip | app/models/application.rb:15 | an escaped string and its closing quote are read back as the string, whatever follows |
| JsonList.StringBodyStep | app/models/application.rb:15 | one escaped character in front of a readable string body adds that character to what is read |
| JsonList.QuoteRoundTrip | app/models/application.rb:15 | a string literal as `to_json` writes it is read back, whatever follows |
| JsonList.LastElementStep | app/models/application.rb:15 | a last element and the closing bracket read as a one-element list |
| JsonList.NextElementStep | app/models/application.rb:15 | an element and a comma in front of readable elements add that element to the list read |
| JsonList.ElementsRoundTrip | app/models/application.rb:15 | a non-empty list of elements as `to_json` joins them, and the closing bracket, is read back, whatever follows |
| JsonList.EmptyArrayRoundTrip | app/models/application.rb:15 | the text of an empty list parses as an empty array with nothing after it |
| JsonList.NonEmptyArrayRoundTrip | app/models/application.rb:15 | the text of a non-empty list parses as that array with nothing after it |
| JsonList.BlankNeverDecodes | app/models/application.rb:15 | blank text never decodes, so the reader's `present?` test changes no result |
| JsonList.NotJsonReadsEmpty | app/models/application.rb:14-18 | the factory value `"MyText"` reads as `[]` |
| JsonList.TruncatedArrayReadsEmpty | app/models/application.rb:16-17 | a truncated array is a parse error and reads as `[]` |
| JsonList.MissingReadsEmpty | app/models/application.rb:15 | NULL, empty and blank text read as `[]` |
| JsonList.VerbatimString | app/models/application.rb:27 | a string with nothing to escape is written verbatim |
| JsonList.EncodeSeedExample | db/seeds.rb:55 | the seed data's permissions `["网络访问", "存储权限"]` are written as `["网络访问","存储权限"]` |
| JsonList.EncodeQuoteExample | app/models/application.rb:27 | a quote inside a string is written `\"`, and an empty list as `[]` |
| JsonList.HtmlCharsEscaped | app/models/application.rb:27 | `<`, `&` and `>` are written as the escapes `\u003c`, `\u0026`, `\u003e` |
| JsonList.EncodeHtmlExample | app/models/application.rb:27 | `["<&>"]` is written with all three characters escaped |
| Categories.NewRecord | db/migrate/20251112110513_create_categories.rb:8 | a new record has `display_order` 0 (the column default), no icon or description, blank name and slug |
| Categories.CategoryErrors | app/models/category.rb:7-9 | the errors reported are exactly the rules that fail: name present and unique, slug present and unique, display order present, a number and ≥ 0; none exactly when the record is valid |
| Categories.ValidIffNoRuleFails | app/models/category.rb:7-9 | a category is valid if and only if none of the declared rules fails |
| Categories.EveryErrorListed | app/models/category.rb:7-9 | every kind of validation error appears in the declared list the report is filtered from |
| Categories.ShouldGenerateNewSlug | app/models/category.rb:13-15 | `should_generate_new_friendly_id?` as its `name_changed?` part: always for a new record given a name (as the admin form always does, the model having no unassigned name); for a saved record exactly when its name changed |
| Categories.WithSlug | app/models/category.rb:13-15 | on creation and on a change of name the slug becomes `slugify(name)`; otherwise the slug is kept; nothing else changes |
| Categories.OrderedLeTotalPreorder | app/models/category.rb:11 | the `ordered` order (display_order asc, name asc) is total and transitive |
| Categories.Ordered | app/models/category.rb:11 | `ordered` is a permutation of the categories sorted by display order, then name |
| Categories.OrderedIsByDisplayOrderThenName | app/models/category.rb:11 | in `ordered`, a smaller display order comes first and equal display orders have ascending names |
| Query.Where | app/models/application.rb:11-12 | `WHERE p` keeps exactly the rows `p` accepts, each as often as in the table, and only those |
| Query.WhereAppend | app/models/application.rb:12 | the model's filter keeps its input order: it distributes over concatenation |
| Query.WhereEmpty | app/models/application.rb:12 | `WHERE p` is empty if and only if `p` rejects every row |
| Query.WhereAll | app/models/application.rb:12 | `WHERE p` of rows that all satisfy `p` is the rows themselves |
| Query.WhereOfWhere | app/models/application.rb:11-12 | filtering by `p` and then by a stricter `q` is filtering by `q` |
| Query.ConsDistinctBy | db/migrate/20251112110522_create_applications.rb:24 | a row whose key no row has keeps a unique column unique when added |
| Query.WhereDistinctBy | app/models/category.rb:5 | deleting rows keeps a unique column unique |
| Query.Insert | app/models/application.rb:9-11 | inserting into a sorted list gives a sorted list with one more copy of the row |
| Query.OrderBy | app/models/category.rb:11 | `ORDER BY` returns a permutation of the rows sorted by the key |
| Query.NullableLeTotalOrder | app/models/application.rb:9-10 | ordering a nullable integer column is total, antisymmetric and transitive for either NULL placement |
| Query.StringLeTotal | app/models/category.rb:11 | string order is total |
| Query.StringLeAntisymmetric | app/models/category.rb:11 | string order is antisymmetric |
| Query.StringLeTransitive | app/models/category.rb:11 | string order is transitive |
| Catalog.CategoryIds | db/migrate/20251112110522_create_applications.rb:19 | the set of category primary keys holds the id of every category row and nothing else |
| Catalog.CategoriesSatisfySchema | db/migrate/20251112110513_create_categories.rb:4-14 | in a valid store no two categories share a name or a slug, names and slugs are set, and `display_order` is a non-negative integer |
| Catalog.ApplicationsSatisfySchema | db/migrate/20251112110522_create_applications.rb:4-24 | in a valid store no two applications share a package name, every application references an existing category, names and package names are set, downloads are non-negative integers, ratings lie within 0..5.00 |
| Catalog.CategoryStaysValid | app/models/category.rb:7-8 | a valid category stays valid when the table changes only by rows that clash with it in neither name nor slug |
| Catalog.AppStaysValid | app/models/application.rb:2-5 | a valid application stays valid while its category exists and no other row takes its package name |
| Catalog.PutCategoryKeepsStore | app/models/category.rb:7-9 | inserting or overwriting a category that passed its validations keeps the store valid and loses no category id |
| Catalog.PutAppKeepsStore | app/models/application.rb:2-7 | inserting or overwriting an application that passed its validations keeps the store valid |
| Catalog.WithoutCategory | app/models/category.rb:5 | after the cascade exactly the applications of other categories remain, every other category's `by_category` is unchanged, and the destroyed category has none |
| Catalog.DestroyCategoryKeepsStore | app/models/category.rb:5 | destroying a category with its applications keeps the store valid, leaves no application without its category, and changes nothing when no category has the id |
| Catalog.NewCategoryRow | app/models/category.rb:3 | a created category gets the slug generated from its name, a new id and both timestamps |
| Catalog.UpdatedCategoryRow | app/models/category.rb:13-15 | an update keeps the id and creation time, takes the edited attributes, regenerates the slug on a rename, and moves `updated_at` only when something changed |
| Catalog.UpdatedAppRow | app/controllers/admin/applications_controller.rb:29 | an update keeps the id and creation time, takes the edited attributes, and moves `updated_at` only when something changed |
| Catalog.CreateCategoryStep | app/models/category.rb:7-9 | when every stored id is below the next id (as `Invariant` keeps), a create saves if and only if the prepared row is valid; a save appends the row under the next id; a rejection reports the failing rules and changes nothing |
| Catalog.NewCategoryGetsDefaultDisplayOrder | db/migrate/20251112110513_create_categories.rb:8 | a category created from `Category.new` with only a free, non-blank name (and a free, non-blank slug for it) is saved, and the stored row has `display_order` 0, that name and the slug generated from it |
| Catalog.CreateCategoryKeepsInvariant | db/migrate/20251112110513_create_categories.rb:13-14 | creating a category keeps the database invariant |
| Catalog.UpdateCategoryStep | app/models/category.rb:7-15 | an update of a missing id is not found; otherwise it saves if and only if the updated row is valid, overwriting only that row; a rejection changes nothing |
| Catalog.UpdateCategoryKeepsInvariant | db/migrate/20251112110513_create_categories.rb:13-14 | updating a category keeps the database invariant |
| Catalog.DestroyCategoryStep | app/models/category.rb:5 | destroying a category removes it and exactly its applications, reports whether it existed, keeps the invariant, and changes nothing for an unknown id |
| Catalog.NewAppRow | app/controllers/admin/applications_controller.rb:16-18 | the row `Application.new(params).save` writes: the given id, both timestamps `now`, every other attribute from the form |
| Catalog.CreateAppStep | app/models/application.rb:2-7 | when every stored id is below the next id (as `Invariant` keeps), a create saves if and only if the row is valid against the current tables; a save appends it under the next id; a rejection reports the failing rules and changes nothing |
| Catalog.NewApplicationGetsDefaultDownloads | db/migrate/20251112110522_create_applications.rb:14 | an application created from `Application.new` with a name, an unused package name and an existing category is saved, and the stored row has `downloads` 0, no rating and no permission or feature lists |
| Catalog.CreateAppKeepsInvariant | db/migrate/20251112110522_create_applications.rb:19-24 | creating an application keeps the database invariant |
| Catalog.UpdateAppStep | app/models/application.rb:2-7 | an update of a missing id is not found; otherwise it saves if and only if the updated row is valid, overwriting only that row; a rejection changes nothing |
| Catalog.UpdateAppKeepsInvariant | db/migrate/20251112110522_create_applications.rb:24 | updating an application keeps the database invariant |
| Catalog.DestroyAppStep | app/controllers/admin/applications_controller.rb:36-37 | destroying an application removes exactly the row with that id, reports whether it existed, and keeps the invariant |
| Catalog.Catalog.constructor | db/migrate/20251112110513_create_categories.rb:3 | the empty database satisfies the invariant |
| Catalog.Catalog.CreateCategory | app/controllers/admin/categories_controller.rb:15-18 | the database becomes what `CreateCategoryStep` gives and stays valid |
| Catalog.Catalog.UpdateCategory | app/controllers/admin/categories_controller.rb:29 | the database becomes what `UpdateCategoryStep` gives and stays valid |
| Catalog.Catalog.DestroyCategory | app/controllers/admin/categories_controller.rb:37 | the database becomes what `DestroyCategoryStep` gives (the cascade) and stays valid |
| Catalog.Catalog.CreateApplication | app/controllers/admin/applications_controller.rb:16-18 | the database becomes what `CreateAppStep` gives and stays valid |
| Catalog.Catalog.UpdateApplication | app/controllers/admin/applications_controller.rb:29 | the database becomes what `UpdateAppStep` gives and stays valid |
| Catalog.Catalog.DestroyApplication | app/controllers/admin/applications_controller.rb:37 | the database becomes what `DestroyAppStep` gives and stays valid |

## Left out

- Controllers, views, JSON rendering, strong parameters and pagination: HTTP plumbing, not part of the models. The admin controllers are cited only as the callers of `save`, `update` and `destroy`.
- File-size formatting, download-URL resolution, and icon and screenshot resolution: the model files define none of them.
- `db/seeds.rb`: a seeding script. Its permission lists appear only as an encoding example.
- Categories.WithSlug: FriendlyId's slug algorithm is the parameter `slugify`. FriendlyId makes a clashing slug unique by appending a UUID; the model does not, and a clashing slug is rejected by the uniqueness validation instead.
- Categories.ShouldGenerateNewSlug, Categories.WithSlug: the `super` rule (a new slug when the slug is nil and the name is not) is not modelled. A saved record whose slug is set to nil is therefore rejected with a blank slug instead of getting a new one. The model also writes a missing name as `""`, so it always regenerates for a new record. Rails does not when no name was assigned: `name_changed?` and `super` are both false then, and the draft's slug is kept. Such a record is rejected for its blank name either way; only the slug errors reported can differ.
- SQL execution and collation: uniqueness compares strings exactly, so a case-insensitive collation is not modelled. `name asc` orders by code points.
- Query.Where, Applications.ByCategory: SQL leaves the row order of a query without ORDER BY to the database (in PostgreSQL an updated row usually moves). The model's filter keeps sequence order, and an update overwrites a row in place.
- Query.OrderBy: the order SQL leaves open among rows with equal keys is not promised. The contract states only sortedness and permutation.
- Decimal arithmetic and type casting: `rating` is hundredths, so form input such as `"4.5"` or `"abc"` appears only as an already-cast value. "Not a number" is modelled only as nil.
- JsonList.Decode: JSON values that are not arrays of strings (`null`, `{}`, `[1]`) count as decode failures and read as `[]`. Ruby would return them as they are.
- JsonList.Decode: the JSON parser's leniencies beyond RFC 8259 (comments, unknown escapes) are not accepted. A lone surrogate escape is a failure.
- JsonList.Encode: models only arrays of strings. Arrays holding numbers, `nil`, booleans or nested values are not modelled.
- Applications.Application.SetPermissionsArray, Applications.Application.SetFeaturesArray: Arrays with non-string elements are not modelled. The writers store any Array (`[1, nil]` becomes `[1,null]`); the model's `Value` has only Arrays of strings and values that are not Arrays.
- Column widths: `downloads` and `display_order` are 32-bit `integer` columns and `file_size_bytes` a `bigint`. The model's integers are unbounded, so a value the validations admit but the column cannot hold is not modelled.
- Catalog.UpdatedCategoryRow, Catalog.UpdatedAppRow: `updated_at` moves on any changed attribute. Rails' dirty tracking of individual attributes and time zones are not modelled; the clock is the parameter `now`.
- Catalog.Catalog.DestroyCategory: destroy callbacks run one row at a time in Rails. The model removes the rows in one step, and the intermediate states are not modelled.
- Concurrency: two requests saving at once can both pass a uniqueness validation; the unique index then rejects one of them. The model runs requests one at a time.
- Active Storage attachments (icon, screenshots, package file): not declared in the model files.
