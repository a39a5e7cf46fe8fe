# Blog data layer in Dafny

This project models the server-side data layer of a small blogging platform: the
three tables `posts`, `categories` and `posts_to_categories`, and the remote
procedures that read and change them (`post.createPost`, `post.getAll`,
`post.getById`, `post.update`, `post.delete`, `category.getAll`,
`category.createCategory`). It also models the two slug rules, which differ: posts use
`toLowerCase().replace(/ /g, "-").replace(/[^\w-]+/g, "")`, categories use
`toLowerCase().replace(/\s+/g, "-")`.

Layout:

- `text.dfy` (module `Text`): the JavaScript character classes `\s` and `\w`,
  ASCII `toLowerCase`, and the code-point order on strings used for `ORDER BY name`.
- `schema.dfy` (module `Schema`): the row datatypes and the class `Database`. Its
  fields are the three tables: a map from post id to post, a map from category id
  to category, and a set of association pairs, plus the sequence behind the
  categories' `serial` id. `Database.Valid()` states the schema's constraints. These
  are the primary keys, the 24-character post id, the serial range and both foreign
  keys. The statements that change a table are `Database` methods: the inserts into
  `posts`, `posts_to_categories` and `categories`, the update of a post by id, and
  the two deletes. Each checks the constraints and either takes full effect or fails
  with the constraint it broke. The reads are functions: `Database.PostIdsInCategory`
  is the `SELECT post_id ... WHERE category_id = ...` of `getAll`, and
  `Database.PostView` is a post loaded with its joined categories.
- `post_router.dfy` (module `PostRouter`) and `category_router.dfy` (module
  `CategoryRouter`): the procedures. Those that change the tables (`createPost`,
  `update`, `delete`, `createCategory`) are methods. They issue the same statements in
  the same order as the source. `getAll` of both routers is a method too, because
  taking the rows of a table into an ordered list is a loop (`PostRouter.FindMany`
  for the `findMany` query of posts). `getById` is the function `PostRouter.GetById`.
- `scenario.dfy` (module `Scenario`): a client that runs the procedures one after
  another and asserts what their contracts let it conclude.

Inputs from outside the program are parameters: the fresh post id from `createId()`
and the time from `new Date()`. Statements run in sequence and nothing wraps them in a
transaction. So when `createPost`'s association insert fails, the new post row stays,
with no categories. When `update`'s insert fails, the new fields and the deleted
associations stay. The procedure then answers with the error (`Err(...)`), which
stands for the exception the router lets through.

A post title may be empty: its input schema is `z.string()` with no minimum. The
category slug collapses whitespace runs and strips nothing, unlike the post slug.

## Model

| member | source | states |
|---|---|---|
| `PostRouter.CreateSlugCharset` | src/server/api/routers/post.ts:8-13 | every post slug consists only of `[a-z0-9_-]` and is no longer than its title |
| `PostRouter.CreateSlugIdempotent` | src/server/api/routers/post.ts:8-13 | applying the post slug rule to a slug returns it unchanged |
| `PostRouter.CreateSlugOfSlug` | src/server/api/routers/post.ts:8-13 | a string made only of slug characters is its own slug |
| `PostRouter.CreateSlugConcat` | src/server/api/routers/post.ts:8-13 | the slug of a concatenation is the concatenation of the slugs (the rule works character by character) |
| `PostRouter.CreateSlugOfChar` | src/server/api/routers/post.ts:10-12 | one character becomes `-` if it is a space, its lower-case form if that is in `[\w-]`, and nothing otherwise |
| `PostRouter.CreateSlugIsPerCharacter` | src/server/api/routers/post.ts:8-13 | the slug of a title is the first character's contribution followed by the slug of the rest |
| `PostRouter.CreateSlugSpace` | src/server/api/routers/post.ts:11 | each space becomes exactly one `-`, whatever surrounds it, so runs of spaces are not collapsed |
| `PostRouter.CreateSlugOtherWhitespace` | src/server/api/routers/post.ts:11-12 | a tab, newline or any other whitespace character besides the space is deleted, not hyphenated |
| `PostRouter.CreateSlugExamples` | src/server/api/routers/post.ts:8-13 | `"a  b"` becomes `"a--b"` and `"a\tb"` becomes `"ab"` |
| `PostRouter.AssociationRowsFacts` | src/server/api/routers/post.ts:41-46 | the mapped rows are exactly the pairs of the post with each given category, and they are duplicate-free exactly when the ids are |
| `PostRouter.CategoryIdsAfterWrite` | src/server/api/routers/post.ts:40-47 | once the rows for a post are written over a table with none for it, the post's category set is exactly the given ids |
| `PostRouter.CreatePost` | src/server/api/routers/post.ts:25-50 | after the post is inserted, a post with the fresh id holds the given title, content and flag, `slug == CreateSlug(title)` and `createdAt == updatedAt == now`. On success its category set equals `categoryIds` and `getById` reads the post back. An empty `categoryIds` writes no association row. Every failure (over-long or reused id, duplicate or unknown category id) is reported. A failed association insert leaves the post row in place. Categories are never touched |
| `PostRouter.InsertNewestFirst` | src/server/api/routers/post.ts:92 | inserting into a list ordered by `createdAt` descending keeps it ordered and duplicate-free and adds exactly one element |
| `PostRouter.FindMany` | src/server/api/routers/post.ts:82-93 | returns each post that meets every condition exactly once, newest first, each with its association rows joined to their categories |
| `PostRouter.SatisfiesAppend` | src/server/api/routers/post.ts:61-79 | pushing a condition onto the array conjoins it with the earlier ones |
| `PostRouter.InCategory` | src/server/api/routers/post.ts:70-73 | the ids selected from the association table for a category are exactly the posts that have that category |
| `PostRouter.GetAll` | src/server/api/routers/post.ts:52-94 | lists exactly the qualifying posts, each once, newest first, each with its joined categories. Without `includeDrafts: true` only posts whose `published` is true qualify, so a null flag is excluded. A truthy `categoryId` keeps only posts in that category, and gives `[]` when no association row names it. An absent `categoryId` or `0` filters nothing. With `includeDrafts: true` and no category, every post is listed |
| `PostRouter.GetById` | src/server/api/routers/post.ts:96-109 | returns a value exactly when the id exists: the row itself, with nested rows that carry exactly the post's category ids, each joined to the category with that id |
| `PostRouter.Update` | src/server/api/routers/post.ts:111-147 | sets title, content, `slug = CreateSlug(title)`, `published` and `updatedAt = now`, and keeps `id` and `createdAt`. Afterwards the post's categories are exactly `categoryIds` on success and none after a failed insert. Other posts and their rows are unchanged. A missing id with empty `categoryIds` is a no-op that succeeds. A missing id with non-empty `categoryIds` fails |
| `PostRouter.Delete` | src/server/api/routers/post.ts:149-159 | always succeeds. It removes every association row of the id and then the post, so `getById` finds nothing afterwards. Other posts, their rows and all categories are unchanged. A missing id changes nothing |
| `CategoryRouter.GetAll` | src/server/api/routers/category.ts:9-13 | returns every category exactly once, unfiltered, ordered by name ascending |
| `CategoryRouter.InsertByName` | src/server/api/routers/category.ts:11 | inserting into a list ordered by name keeps it ordered and duplicate-free and adds exactly one element |
| `CategoryRouter.CreateCategory` | src/server/api/routers/category.ts:18-39 | a name of length 0 is rejected before any insert, and a whitespace-only name passes. On success exactly one row is added, with an id no existing category has, the given name, a null description and `slug == CategorySlug(name)`, and that row is returned. When the insert fails the table is unchanged and the caller gets the message "Failed to create category in the database.". Posts and associations are never touched |
| `CategoryRouter.DropWhitespace` | src/server/api/routers/category.ts:28 | what remains after a leading whitespace run starts with a non-whitespace character and holds only characters of the input |
| `CategoryRouter.CategorySlugShape` | src/server/api/routers/category.ts:28 | the category slug has no whitespace and is no longer than the name. It is empty only for an empty name. Each of its characters is `-` or a character of the lower-cased name |
| `CategoryRouter.HyphenateRunsShape` | src/server/api/routers/category.ts:28 | the same facts for the whitespace replacement alone |
| `CategoryRouter.CategorySlugOfWord` | src/server/api/routers/category.ts:28 | a name without whitespace keeps every character, lower-cased and in order, punctuation included |
| `CategoryRouter.HyphenateRunsOfWord` | src/server/api/routers/category.ts:28 | the replacement leaves a string without whitespace unchanged |
| `CategoryRouter.CategorySlugRun` | src/server/api/routers/category.ts:28 | a maximal whitespace run of any length and mix becomes exactly one `-` between the slugs of its two sides |
| `CategoryRouter.HyphenateRunsJoin` | src/server/api/routers/category.ts:28 | splitting after a non-whitespace character does not change the replacement |
| `CategoryRouter.HyphenateRunsRun` | src/server/api/routers/category.ts:28 | a leading whitespace run becomes one `-` |
| `CategoryRouter.DropWhitespaceConcat` | src/server/api/routers/category.ts:28 | skipping leading whitespace stops inside a part that is not all whitespace |
| `CategoryRouter.DropWhitespaceLast` | src/server/api/routers/category.ts:28 | skipping leading whitespace keeps the last character of a string that is not all whitespace |
| `CategoryRouter.DropWhitespaceRun` | src/server/api/routers/category.ts:28 | skipping a whole whitespace run lands on what follows it |
| `CategoryRouter.CategorySlugIdempotent` | src/server/api/routers/category.ts:28 | applying the category slug rule to a category slug returns it unchanged |
| `CategoryRouter.CategorySlugTech` | src/server/api/routers/category.ts:28 | `"Tech"` becomes `"tech"` |
| `CategoryRouter.CategorySlugPunctuation` | src/server/api/routers/category.ts:28 | `"C++ Tips"` becomes `"c++-tips"` |
| `CategoryRouter.CategorySlugCollapses` | src/server/api/routers/category.ts:28 | `"a  b"` becomes `"a-b"` and `" "` becomes `"-"` |
| `Schema.Database.constructor` | src/server/db/schema.ts:13-43 | empty tables satisfy every constraint and the id sequence starts at 1 |
| `Schema.Database.JoinedIsExact` | src/server/db/schema.ts:45-65 | loading a post's relations yields exactly its category ids, each row joined to the category with that id |
| `Schema.Database.InsertPost` | src/server/db/schema.ts:13-21 | a post insert fails on an id over 24 characters or an id already present, and otherwise adds exactly that row |
| `Schema.Database.InsertPostsToCategories` | src/server/db/schema.ts:30-43 | an association insert adds all its rows or none. It fails on an over-long post id, on a pair repeated in the batch or already stored (composite key), or on an unknown post or category (foreign keys) |
| `Schema.Database.UpdatePostWhereId` | src/server/db/schema.ts:13-21 | an update by id rewrites the named fields of that row and changes nothing when no row has the id |
| `Schema.Database.DeletePostsToCategoriesWherePostId` | src/server/db/schema.ts:30-43 | removes exactly the association rows of that post |
| `Schema.Database.DeletePostWhereId` | src/server/db/schema.ts:33-35 | deleting a post still referenced by an association row violates the foreign key and changes nothing, and otherwise removes the row |
| `Schema.Database.InsertCategory` | src/server/db/schema.ts:23-28 | a category insert takes its id from the sequence, never an id in use, and leaves the description null. Of the failures the model has, it fails only when the four-byte sequence is exhausted, and then changes nothing (the U+0000 rejection is under Left out) |
| `Text.LowerCharFacts` | src/server/api/routers/post.ts:10 | lower-casing leaves no upper-case letter, preserves membership in `\s` and `\w`, and is idempotent |
| `Text.LexLeTotal` | src/server/api/routers/category.ts:11 | any two names are comparable in the order used for `ORDER BY name` |
| `Text.LexLeTransitive` | src/server/api/routers/category.ts:11 | that order is transitive |
| `Text.LexLeAntisymmetric` | src/server/api/routers/category.ts:11 | that order is antisymmetric |
| `Text.LexLeReflexive` | src/server/api/routers/category.ts:11 | that order is reflexive |

## Left out

- The pages under `src/app/`, router wiring (`src/server/api/root.ts`) and the database configuration (`drizzle.config.ts`). They are rendering, routing and configuration, with no data-layer logic.
- The database engine, SQL generation, the RPC transport and the input-schema library. Only the constraints they state are kept: `min(1)` on a category name, the optional `categoryId`, and `includeDrafts` defaulting to false.
- `async` interleaving and concurrent requests. Calls run one after another.
- `createId()` and the system clock. They are parameters: the fresh post id and `now`.
- Failures of the database server itself, such as a lost connection. The only failures modelled are the schema's constraints and the exhausted id sequence; the value rejections PostgreSQL adds are listed below.
- How the transport wraps a thrown error. `createPost` and `update` return `Err(kind)` where the router lets the exception through.
- Non-ASCII case mapping. `LowerChar` lower-cases only `A`–`Z`, so the model does not follow `toLowerCase` where it maps a non-ASCII character to ASCII (the Kelvin sign to `k`, `İ` to `i` plus a combining dot). It also ignores the other non-ASCII lower-casings that the category slug keeps. The classes `\s` and `\w` are modelled exactly.
- Collation. `ORDER BY name` is modelled as code-point lexicographic order (the "C" collation); the server's locale collation may order names differently.
- Ties. Among posts with the same `createdAt`, or categories with the same name, SQL fixes no order: the contracts allow any order and the model picks one.
- Element order. The nested association rows of a loaded post are a set, because their order is not specified.
- Schema.Database.InsertPost: does not model two PostgreSQL behaviours. First, `varchar(24)` truncates instead of failing when everything past character 24 is spaces; the model reports `Err(ValueTooLong)`. `createPost` cannot reach this, because `createId()` produces no spaces. Second, a `text` column rejects the character U+0000, so a title or content holding it makes the insert fail; the model inserts the row.
- Schema.Database.InsertPostsToCategories: does not model the `varchar(24)` truncation of a `post_id` whose characters past the 24th are all spaces, and reports `Err(ValueTooLong)` for it. Its `categoryId` values are integers, so an id outside the four-byte range of `category_id` gets `Err(ForeignKeyViolation)`. PostgreSQL would reject that id as out of range, and it would reject a fractional one as invalid integer input.
- Schema.Database.UpdatePostWhereId: does not model that a `text` column rejects U+0000. PostgreSQL fails an update whose title or content holds it; the model rewrites the row.
- Schema.Database.InsertCategory: does not model that a `text` column rejects U+0000. PostgreSQL fails an insert whose name holds it, so the statement can fail while the sequence is not exhausted. The model inserts the row.
- PostRouter.CreatePost: a title or content holding U+0000 makes the source's first insert throw, with nothing written; the model succeeds. `categoryIds` is a sequence of integers, so a fractional JSON number cannot be passed at all. PostgreSQL rejects a fractional id as invalid integer input and an out-of-range one as out of range. The model reports a foreign-key error for an integer outside the four-byte range.
- PostRouter.Update: does not model the `varchar(24)` truncation. Take an existing 24-character id P plus a trailing space. The source's UPDATE and DELETE match no row, so P keeps its fields and its association rows. The INSERT then stores the rows under P, and the call succeeds unless P already has one of those categories, which breaks the composite key (src/server/db/schema.ts:41) and throws. The model reports `Err(ValueTooLong)` and writes nothing. A title or content holding U+0000 makes the source's UPDATE throw, with nothing changed; the model succeeds. `categoryIds` is limited as for `PostRouter.CreatePost`.
- PostRouter.GetAll: `categoryId` is an `Option<int>`, so a fractional value such as `1.5` cannot be passed. `z.number()` accepts it and it is truthy. PostgreSQL then rejects the int4 parameter of the SELECT as invalid input, and the query throws. An integer outside the four-byte range (such as 3000000000) is rejected the same way, while the model finds no association row and returns `[]`.
- CategoryRouter.CreateCategory: does not model that a `text` column rejects U+0000. A name holding it makes the insert fail, so the source answers "Failed to create category in the database."; the model returns `Created`.
- Error kinds. When one statement breaks several constraints at once, the model reports the over-long id first, then the uniqueness violation, then the foreign key.
- The column default `published = false`. Every modelled insert supplies the flag, so the default is never applied. The column's nullability is modelled, and a null flag is excluded by the `published = true` filter.
- Console logging in `createCategory`.
- Timestamp precision. A `Date` is an integer number of milliseconds, and the column's own precision is not modelled.
