/** The three tables of the blog (`posts`, `categories`, `posts_to_categories`),
    their keys, foreign keys and nullable columns, and the single SQL statements
    the routers issue against them. Each statement either takes effect in full or
    fails and changes nothing; there is no transaction spanning statements. */
module Schema {

  type PostId = string

  /** A JavaScript `Date`: milliseconds since the epoch. */
  type Timestamp = int

  /** `varchar("id", { length: 24 })` on `posts.id` and `posts_to_categories.post_id`. */
  const PostIdMaxLength: nat := 24

  /** A `serial` column is a four-byte integer fed by a sequence that stops here. */
  const SerialMax: int := 2147483647

  datatype Option<T> = None | Some(value: T)

  /** A row of `posts`. `published` is the one nullable column. */
  datatype Post = Post(
    id: PostId,
    title: string,
    content: string,
    slug: string,
    published: Option<bool>,
    createdAt: Timestamp,
    updatedAt: Timestamp)

  /** A row of `categories`; only `description` may be null. */
  datatype Category = Category(id: int, name: string, description: Option<string>, slug: string)

  /** A row of `posts_to_categories`; the pair is the table's primary key. */
  datatype PostToCategory = PostToCategory(postId: PostId, categoryId: int)

  /** An association row loaded together with its category (`with: { category: true }`). */
  datatype CategoryLink = CategoryLink(postId: PostId, categoryId: int, category: Category)

  /** A post loaded with its association rows (`with: { postsToCategories: ... }`);
      the order of the nested rows is not specified, so they form a set. */
  datatype PostWithCategories = PostWithCategories(post: Post, postsToCategories: set<CategoryLink>)

  /** The constraint a failing statement violated. */
  datatype DbError = ValueTooLong | UniqueViolation | ForeignKeyViolation | SequenceExhausted

  /** The outcome of a statement, and of a procedure that answers `{ success: true }`
      or throws. */
  datatype Outcome = Ok | Err(error: DbError)

  /** The outcome of an insert into `categories` with `.returning()`. */
  datatype CategoryInsert = Inserted(row: Category) | InsertFailed(error: DbError)

  /** No two positions of `s` hold the same value. */
  predicate Distinct<T(==)>(s: seq<T>) {
    forall i, j :: 0 <= i < j < |s| ==> s[i] != s[j]
  }

  class Database {
    var posts: map<PostId, Post>
    var categories: map<int, Category>
    var postsToCategories: set<PostToCategory>
    /** The next value of the sequence behind `categories.id`. */
    var nextCategoryId: int

    /** The constraints the schema declares: primary keys, the length of post ids,
        the serial id of categories, and both foreign keys of the association table. */
    ghost predicate Valid()
      reads this
    {
      && (forall id :: id in posts ==> posts[id].id == id && |id| <= PostIdMaxLength)
      && 1 <= nextCategoryId <= SerialMax + 1
      && (forall id :: id in categories ==> categories[id].id == id && 1 <= id < nextCategoryId)
      && (forall l :: l in postsToCategories ==> l.postId in posts && l.categoryId in categories)
    }

    constructor ()
      ensures Valid()
      ensures posts == map[] && categories == map[] && postsToCategories == {}
      ensures nextCategoryId == 1
    {
      posts := map[];
      categories := map[];
      postsToCategories := {};
      nextCategoryId := 1;
    }

    /** The category ids associated with post `id`. */
    function CategoryIdsOf(id: PostId): set<int>
      reads this
    {
      set l | l in postsToCategories && l.postId == id :: l.categoryId
    }

    /** The association rows of post `id`, each joined to its category. */
    function Joined(id: PostId): set<CategoryLink>
      reads this
    {
      set l | l in postsToCategories && l.postId == id && l.categoryId in categories
        :: CategoryLink(l.postId, l.categoryId, categories[l.categoryId])
    }

    /** Post `id` as a query with the nested relations loads it. */
    function PostView(id: PostId): PostWithCategories
      reads this
      requires id in posts
    {
      PostWithCategories(posts[id], Joined(id))
    }

    /** `SELECT post_id FROM posts_to_categories WHERE category_id = c`. */
    function PostIdsInCategory(c: int): set<PostId>
      reads this
    {
      set l | l in postsToCategories && l.categoryId == c :: l.postId
    }

    /** The nested rows hold exactly the post's categories, each joined to the
        category row with that id; the join loses no association row because of
        the foreign key. */
    lemma JoinedIsExact(id: PostId)
      requires Valid()
      ensures forall l :: l in Joined(id) ==>
        l.postId == id && l.categoryId in categories && l.category == categories[l.categoryId]
        && l.category.id == l.categoryId
      ensures (set l | l in Joined(id) :: l.categoryId) == CategoryIdsOf(id)
    {
      var left := set l | l in Joined(id) :: l.categoryId;
      forall c | c in CategoryIdsOf(id) ensures c in left {
        var l :| l in postsToCategories && l.postId == id && l.categoryId == c;
        assert CategoryLink(id, c, categories[c]) in Joined(id);
      }
    }

    // -------------------------------------------------------------------
    // Statements
    // -------------------------------------------------------------------

    /** `INSERT INTO posts VALUES (row)`. */
    method InsertPost(row: Post) returns (r: Outcome)
      requires Valid()
      modifies this
      ensures Valid()
      ensures r == if |row.id| > PostIdMaxLength then Err(ValueTooLong)
                   else if row.id in old(posts) then Err(UniqueViolation)
                   else Ok
      ensures posts == if r.Ok? then old(posts)[row.id := row] else old(posts)
      ensures categories == old(categories) && postsToCategories == old(postsToCategories)
      ensures nextCategoryId == old(nextCategoryId)
    {
      if |row.id| > PostIdMaxLength {
        return Err(ValueTooLong);
      }
      if row.id in posts {
        return Err(UniqueViolation);
      }
      posts := posts[row.id := row];
      r := Ok;
    }

    /** `INSERT INTO posts_to_categories VALUES rows...`: one statement, so it adds
        every row or none. Drizzle refuses an empty list of values. */
    method InsertPostsToCategories(rows: seq<PostToCategory>) returns (r: Outcome)
      requires Valid()
      requires |rows| > 0
      modifies this
      ensures Valid()
      ensures r == if exists i :: 0 <= i < |rows| && |rows[i].postId| > PostIdMaxLength then Err(ValueTooLong)
                   else if !Distinct(rows) || exists i :: 0 <= i < |rows| && rows[i] in old(postsToCategories)
                     then Err(UniqueViolation)
                   else if exists i :: 0 <= i < |rows| && (rows[i].postId !in old(posts) || rows[i].categoryId !in old(categories))
                     then Err(ForeignKeyViolation)
                   else Ok
      ensures postsToCategories == if r.Ok? then old(postsToCategories) + (set i | 0 <= i < |rows| :: rows[i])
                                   else old(postsToCategories)
      ensures posts == old(posts) && categories == old(categories) && nextCategoryId == old(nextCategoryId)
    {
      if exists i :: 0 <= i < |rows| && |rows[i].postId| > PostIdMaxLength {
        return Err(ValueTooLong);
      }
      if !Distinct(rows) || exists i :: 0 <= i < |rows| && rows[i] in postsToCategories {
        return Err(UniqueViolation);
      }
      if exists i :: 0 <= i < |rows| && (rows[i].postId !in posts || rows[i].categoryId !in categories) {
        return Err(ForeignKeyViolation);
      }
      postsToCategories := postsToCategories + (set i | 0 <= i < |rows| :: rows[i]);
      r := Ok;
    }

    /** `UPDATE posts SET ... WHERE id = id`: no row matches a missing id. */
    method UpdatePostWhereId(id: PostId, title: string, content: string, slug: string,
                             published: Option<bool>, updatedAt: Timestamp)
      requires Valid()
      modifies this
      ensures Valid()
      ensures posts == if id in old(posts)
                       then old(posts)[id := old(posts)[id].(title := title, content := content, slug := slug,
                                                             published := published, updatedAt := updatedAt)]
                       else old(posts)
      ensures categories == old(categories) && postsToCategories == old(postsToCategories)
      ensures nextCategoryId == old(nextCategoryId)
    {
      if id in posts {
        posts := posts[id := posts[id].(title := title, content := content, slug := slug,
                                        published := published, updatedAt := updatedAt)];
      }
    }

    /** `DELETE FROM posts_to_categories WHERE post_id = id`. */
    method DeletePostsToCategoriesWherePostId(id: PostId)
      requires Valid()
      modifies this
      ensures Valid()
      ensures postsToCategories == set l | l in old(postsToCategories) && l.postId != id
      ensures posts == old(posts) && categories == old(categories) && nextCategoryId == old(nextCategoryId)
    {
      postsToCategories := set l | l in postsToCategories && l.postId != id;
    }

    /** `DELETE FROM posts WHERE id = id`: refused while an association row still
        references the post, because the foreign key has no cascade. */
    method DeletePostWhereId(id: PostId) returns (r: Outcome)
      requires Valid()
      modifies this
      ensures Valid()
      ensures r == if exists l :: l in old(postsToCategories) && l.postId == id then Err(ForeignKeyViolation) else Ok
      ensures posts == if r.Ok? then old(posts) - {id} else old(posts)
      ensures categories == old(categories) && postsToCategories == old(postsToCategories)
      ensures nextCategoryId == old(nextCategoryId)
    {
      if exists l :: l in postsToCategories && l.postId == id {
        return Err(ForeignKeyViolation);
      }
      posts := posts - {id};
      r := Ok;
    }

    /** `INSERT INTO categories (name, slug) VALUES (...) RETURNING *`: the id comes
        from the sequence, `description` is left null. */
    method InsertCategory(name: string, slug: string) returns (r: CategoryInsert)
      requires Valid()
      modifies this
      ensures Valid()
      ensures r.InsertFailed? <==> old(nextCategoryId) > SerialMax
      ensures r.InsertFailed? ==> r.error == SequenceExhausted
      ensures r.Inserted? ==>
        && r.row == Category(old(nextCategoryId), name, None, slug)
        && r.row.id !in old(categories)
        && categories == old(categories)[r.row.id := r.row]
        && nextCategoryId == old(nextCategoryId) + 1
      ensures r.InsertFailed? ==> categories == old(categories) && nextCategoryId == old(nextCategoryId)
      ensures posts == old(posts) && postsToCategories == old(postsToCategories)
    {
      if nextCategoryId > SerialMax {
        return InsertFailed(SequenceExhausted);
      }
      var row := Category(nextCategoryId, name, None, slug);
      categories := categories[row.id := row];
      nextCategoryId := nextCategoryId + 1;
      r := Inserted(row);
    }
  }
}
