/** The post procedures: the post slug rule, `createPost`, `getAll`, `getById`,
    `update` and `delete`, each issuing the same statements in the same order as
    the router does. A fresh post id and the current time are parameters. */
module PostRouter {
  import opened Text
  import opened Schema

  // ---------------------------------------------------------------------
  // The post slug: `title.toLowerCase().replace(/ /g, "-").replace(/[^\w-]+/g, "")`
  // ---------------------------------------------------------------------

  /** `.replace(/ /g, "-")`: the space character, and no other, becomes a hyphen. */
  function SpacesToHyphens(s: string): string {
    seq(|s|, i requires 0 <= i < |s| => if s[i] == ' ' then '-' else s[i])
  }

  /** The characters `[\w-]` that the last replacement keeps. */
  predicate KeptBySlug(c: char) {
    IsWordChar(c) || c == '-'
  }

  /** `.replace(/[^\w-]+/g, "")`: deleting each maximal run of other characters
      is deleting each such character. */
  function StripNonWord(s: string): string {
    if s == [] then [] else (if KeptBySlug(s[0]) then [s[0]] else []) + StripNonWord(s[1..])
  }

  function CreateSlug(title: string): string {
    StripNonWord(SpacesToHyphens(ToLower(title)))
  }

  /** The characters a post slug is made of: `[a-z0-9_-]`. */
  predicate IsSlugChar(c: char) {
    ('a' <= c <= 'z') || ('0' <= c <= '9') || c == '_' || c == '-'
  }

  /** What a single character of a title turns into. */
  function SlugOfChar(c: char): string {
    if c == ' ' then "-" else if KeptBySlug(LowerChar(c)) then [LowerChar(c)] else []
  }

  lemma {:induction false} StripNonWordConcat(a: string, b: string)
    ensures StripNonWord(a + b) == StripNonWord(a) + StripNonWord(b)
  {
    if a == [] {
      assert a + b == b;
    } else {
      assert (a + b)[0] == a[0] && (a + b)[1..] == a[1..] + b;
      StripNonWordConcat(a[1..], b);
    }
  }

  /** The slug is computed character by character: it distributes over concatenation. */
  lemma CreateSlugConcat(a: string, b: string)
    ensures CreateSlug(a + b) == CreateSlug(a) + CreateSlug(b)
  {
    ToLowerConcat(a, b);
    var la, lb := ToLower(a), ToLower(b);
    assert SpacesToHyphens(la + lb) == SpacesToHyphens(la) + SpacesToHyphens(lb);
    StripNonWordConcat(SpacesToHyphens(la), SpacesToHyphens(lb));
  }

  lemma CreateSlugOfChar(c: char)
    ensures CreateSlug([c]) == SlugOfChar(c)
  {
    var l := LowerChar(c);
    assert ToLower([c]) == [l];
    assert SpacesToHyphens([l]) == [if l == ' ' then '-' else l];
    var h := if l == ' ' then '-' else l;
    assert StripNonWord([h]) == (if KeptBySlug(h) then [h] else []) + StripNonWord([h][1..]);
    assert [h][1..] == [];
  }

  /** Together with CreateSlugConcat this determines the slug of every title. */
  lemma {:induction false} CreateSlugIsPerCharacter(t: string)
    ensures t != [] ==> CreateSlug(t) == SlugOfChar(t[0]) + CreateSlug(t[1..])
    ensures t == [] ==> CreateSlug(t) == []
  {
    if t != [] {
      assert t == [t[0]] + t[1..];
      CreateSlugConcat([t[0]], t[1..]);
      CreateSlugOfChar(t[0]);
    }
  }

  lemma {:induction false} StripNonWordCharset(s: string)
    requires forall i :: 0 <= i < |s| ==> !IsUpper(s[i])
    ensures forall i :: 0 <= i < |StripNonWord(s)| ==> IsSlugChar(StripNonWord(s)[i])
    ensures |StripNonWord(s)| <= |s|
  {
    if s != [] {
      StripNonWordCharset(s[1..]);
    }
  }

  /** Every slug is made of `[a-z0-9_-]` only, and is no longer than its title. */
  lemma CreateSlugCharset(title: string)
    ensures forall i :: 0 <= i < |CreateSlug(title)| ==> IsSlugChar(CreateSlug(title)[i])
    ensures |CreateSlug(title)| <= |title|
  {
    var s := SpacesToHyphens(ToLower(title));
    forall i | 0 <= i < |s| ensures !IsUpper(s[i]) {
      LowerCharFacts(title[i]);
    }
    StripNonWordCharset(s);
  }

  lemma {:induction false} StripNonWordOfKept(s: string)
    requires forall i :: 0 <= i < |s| ==> KeptBySlug(s[i])
    ensures StripNonWord(s) == s
  {
    if s != [] {
      StripNonWordOfKept(s[1..]);
      assert s == [s[0]] + s[1..];
    }
  }

  /** A string already made of slug characters is its own slug. */
  lemma CreateSlugOfSlug(s: string)
    requires forall i :: 0 <= i < |s| ==> IsSlugChar(s[i])
    ensures CreateSlug(s) == s
  {
    ToLowerOfLower(s);
    assert SpacesToHyphens(s) == s;
    StripNonWordOfKept(s);
  }

  lemma CreateSlugIdempotent(title: string)
    ensures CreateSlug(CreateSlug(title)) == CreateSlug(title)
  {
    CreateSlugCharset(title);
    CreateSlugOfSlug(CreateSlug(title));
  }

  /** Each space becomes exactly one hyphen, whatever surrounds it, so runs of
      spaces are not collapsed. */
  lemma CreateSlugSpace(a: string, b: string)
    ensures CreateSlug(a + " " + b) == CreateSlug(a) + "-" + CreateSlug(b)
  {
    CreateSlugConcat(a + " ", b);
    CreateSlugConcat(a, " ");
    CreateSlugOfChar(' ');
  }

  /** Whitespace other than the space character (tab, newline, ...) is deleted,
      not turned into a hyphen. */
  lemma CreateSlugOtherWhitespace(a: string, c: char, b: string)
    requires IsWhitespace(c) && c != ' '
    ensures CreateSlug(a + [c] + b) == CreateSlug(a) + CreateSlug(b)
  {
    CreateSlugConcat(a + [c], b);
    CreateSlugConcat(a, [c]);
    CreateSlugOfChar(c);
  }

  lemma CreateSlugExamples()
    ensures CreateSlug("a  b") == "a--b"
    ensures CreateSlug("a\tb") == "ab"
  {
    CreateSlugIsPerCharacter("a  b");
    CreateSlugIsPerCharacter("  b");
    CreateSlugIsPerCharacter(" b");
    CreateSlugIsPerCharacter("b");
    CreateSlugIsPerCharacter("");
    CreateSlugIsPerCharacter("a\tb");
    CreateSlugIsPerCharacter("\tb");
  }

  // ---------------------------------------------------------------------
  // Rows written for a post's categories
  // ---------------------------------------------------------------------

  /** `categoryIds.map((categoryId) => ({ postId, categoryId }))`. */
  function AssociationRows(postId: PostId, categoryIds: seq<int>): seq<PostToCategory> {
    seq(|categoryIds|, i requires 0 <= i < |categoryIds| => PostToCategory(postId, categoryIds[i]))
  }

  /** The membership pairs of post `postId` in the categories `categoryIds`. */
  function Links(postId: PostId, categoryIds: seq<int>): set<PostToCategory> {
    set c | c in categoryIds :: PostToCategory(postId, c)
  }

  lemma AssociationRowsFacts(postId: PostId, categoryIds: seq<int>)
    ensures (set i | 0 <= i < |AssociationRows(postId, categoryIds)| :: AssociationRows(postId, categoryIds)[i])
            == Links(postId, categoryIds)
    ensures Distinct(AssociationRows(postId, categoryIds)) <==> Distinct(categoryIds)
    ensures forall i :: 0 <= i < |AssociationRows(postId, categoryIds)| ==>
              AssociationRows(postId, categoryIds)[i].postId == postId
  {
    var rows := AssociationRows(postId, categoryIds);
    var s := set i | 0 <= i < |rows| :: rows[i];
    forall l | l in Links(postId, categoryIds) ensures l in s {
      var i :| 0 <= i < |categoryIds| && l == PostToCategory(postId, categoryIds[i]);
      assert rows[i] == l;
    }
    if !Distinct(categoryIds) {
      var i, j :| 0 <= i < j < |categoryIds| && categoryIds[i] == categoryIds[j];
      assert rows[i] == rows[j];
    }
  }

  /** After these rows are written, nothing else refers to `postId`, so the post's
      category ids are exactly `categoryIds`. */
  lemma CategoryIdsAfterWrite(db: Database, postId: PostId, categoryIds: seq<int>, before: set<PostToCategory>)
    requires forall l :: l in before ==> l.postId != postId
    requires db.postsToCategories == before + Links(postId, categoryIds)
    ensures db.CategoryIdsOf(postId) == set c | c in categoryIds
  {
    var ids := set c | c in categoryIds;
    forall c | c in ids ensures c in db.CategoryIdsOf(postId) {
      assert PostToCategory(postId, c) in db.postsToCategories;
    }
  }

  /** What `getById` returns for `id` afterwards: the row `p`, joined to exactly
      the categories `categoryIds`. */
  ghost predicate ReadsBack(db: Database, id: PostId, p: Post, categoryIds: seq<int>)
    reads db
  {
    && id in db.posts
    && db.PostView(id).post == p
    && (set l | l in db.PostView(id).postsToCategories :: l.categoryId) == set c | c in categoryIds
  }

  // ---------------------------------------------------------------------
  // createPost
  // ---------------------------------------------------------------------

  /** The row `createPost` inserts. */
  function NewPost(postId: PostId, now: Timestamp, title: string, content: string, published: bool): Post {
    Post(postId, title, content, CreateSlug(title), Some(published), now, now)
  }

  /** `post.createPost`: insert the post, then, when `categoryIds` is non-empty,
      its association rows in one statement. A failure of that second statement
      leaves the new post in place without categories. */
  method CreatePost(db: Database, postId: PostId, now: Timestamp, title: string, content: string,
                    categoryIds: seq<int>, published: bool) returns (r: Outcome)
    requires db.Valid()
    modifies db
    ensures db.Valid()
    ensures r == if |postId| > PostIdMaxLength then Err(ValueTooLong)
                 else if postId in old(db.posts) then Err(UniqueViolation)
                 else if |categoryIds| > 0 && !Distinct(categoryIds) then Err(UniqueViolation)
                 else if exists c :: c in categoryIds && c !in old(db.categories) then Err(ForeignKeyViolation)
                 else Ok
    ensures db.posts == if |postId| <= PostIdMaxLength && postId !in old(db.posts)
                        then old(db.posts)[postId := NewPost(postId, now, title, content, published)]
                        else old(db.posts)
    ensures db.postsToCategories == if r.Ok? then old(db.postsToCategories) + Links(postId, categoryIds)
                                    else old(db.postsToCategories)
    ensures db.categories == old(db.categories) && db.nextCategoryId == old(db.nextCategoryId)
    ensures r.Ok? ==> db.CategoryIdsOf(postId) == set c | c in categoryIds
    ensures r.Ok? ==> ReadsBack(db, postId, NewPost(postId, now, title, content, published), categoryIds)
    ensures |categoryIds| == 0 ==> db.postsToCategories == old(db.postsToCategories)
  {
    var postSlug := CreateSlug(title);
    r := db.InsertPost(Post(postId, title, content, postSlug, Some(published), now, now));
    if r.Err? {
      return;
    }
    assert forall l :: l in old(db.postsToCategories) ==> l.postId != postId;
    if |categoryIds| > 0 {
      var rows := AssociationRows(postId, categoryIds);
      AssociationRowsFacts(postId, categoryIds);
      r := db.InsertPostsToCategories(rows);
      if r.Err? {
        return;
      }
    }
    CategoryIdsAfterWrite(db, postId, categoryIds, old(db.postsToCategories));
    db.JoinedIsExact(postId);
  }

  // ---------------------------------------------------------------------
  // getAll
  // ---------------------------------------------------------------------

  /** One entry of the `conditions` array. */
  datatype Condition = PublishedIsTrue | IdIn(ids: set<PostId>)

  /** SQL truth of a condition: `published = true` is not true of a null `published`. */
  predicate Holds(p: Post, c: Condition) {
    match c
    case PublishedIsTrue => p.published == Some(true)
    case IdIn(ids) => p.id in ids
  }

  /** `and(...conditions)`, or no filter for an empty array. */
  predicate Satisfies(p: Post, conditions: seq<Condition>) {
    forall i :: 0 <= i < |conditions| ==> Holds(p, conditions[i])
  }

  predicate NewestFirst(s: seq<PostWithCategories>) {
    forall i, j :: 0 <= i < j < |s| ==> s[i].post.createdAt >= s[j].post.createdAt
  }

  predicate DistinctIds(s: seq<PostWithCategories>) {
    forall i, j :: 0 <= i < j < |s| ==> s[i].post.id != s[j].post.id
  }

  function Ids(s: seq<PostWithCategories>): set<PostId> {
    set v | v in s :: v.post.id
  }

  /** `if (categoryId)`: an absent id and the id 0 are both falsy. */
  predicate Truthy(categoryId: Option<int>) {
    categoryId.Some? && categoryId.value != 0
  }

  /** Whether `getAll` lists post `p`, stated on the tables: published unless drafts
      are asked for (`includeDrafts` defaults to false), and in the category when
      one is given. */
  ghost predicate Listed(db: Database, p: Post, categoryId: Option<int>, includeDrafts: Option<bool>)
    reads db
  {
    && (includeDrafts == Some(true) || p.published == Some(true))
    && (Truthy(categoryId) ==> categoryId.value in db.CategoryIdsOf(p.id))
  }

  ghost function ListedIds(db: Database, categoryId: Option<int>, includeDrafts: Option<bool>): set<PostId>
    reads db
  {
    set id | id in db.posts && Listed(db, db.posts[id], categoryId, includeDrafts)
  }

  /** Inserting into a list ordered by `createdAt` descending; the result holds
      the same posts plus `x`. */
  function InsertNewestFirst(s: seq<PostWithCategories>, x: PostWithCategories): (r: seq<PostWithCategories>)
    requires NewestFirst(s) && DistinctIds(s)
    requires x.post.id !in Ids(s)
    ensures NewestFirst(r) && DistinctIds(r)
    ensures |r| == |s| + 1
    ensures forall v :: v in r <==> v in s || v == x
  {
    if s == [] then [x]
    else if s[0].post.createdAt <= x.post.createdAt then [x] + s
    else
      assert x.post.id !in Ids(s[1..]) by {
        assert forall v :: v in s[1..] ==> v in s;
      }
      var rest := InsertNewestFirst(s[1..], x);
      assert forall v :: v in rest ==> v.post.createdAt <= s[0].post.createdAt && v.post.id != s[0].post.id;
      [s[0]] + rest
  }

  /** `findMany({ with: ..., where: and(...conditions), orderBy: desc(createdAt) })`. */
  method FindMany(db: Database, conditions: seq<Condition>) returns (r: seq<PostWithCategories>)
    requires db.Valid()
    ensures NewestFirst(r) && DistinctIds(r)
    ensures forall v :: v in r ==> v.post.id in db.posts && v == db.PostView(v.post.id)
    ensures Ids(r) == set id | id in db.posts && Satisfies(db.posts[id], conditions)
  {
    r := [];
    var todo := db.posts.Keys;
    while todo != {}
      invariant todo <= db.posts.Keys
      invariant NewestFirst(r) && DistinctIds(r)
      invariant forall v :: v in r ==> v.post.id in db.posts && v.post.id !in todo && v == db.PostView(v.post.id)
      invariant Ids(r) == set id | id in db.posts && id !in todo && Satisfies(db.posts[id], conditions)
      decreases todo
    {
      var id :| id in todo;
      if Satisfies(db.posts[id], conditions) {
        ghost var before := r;
        var v := db.PostView(id);
        r := InsertNewestFirst(r, v);
        assert Ids(r) == Ids(before) + {id} by {
          forall k | k in Ids(r) ensures k in Ids(before) + {id} {
            var w :| w in r && w.post.id == k;
          }
          forall k | k in Ids(before) + {id} ensures k in Ids(r) {
            if k == id {
              assert v in r;
            } else {
              var w :| w in before && w.post.id == k;
              assert w in r;
            }
          }
        }
      }
      todo := todo - {id};
    }
  }

  /** `post.getAll`: builds the conditions, returns early when the category has no
      association row, and otherwise lists the matching posts newest first, each
      with its categories. */
  method GetAll(db: Database, categoryId: Option<int>, includeDrafts: Option<bool>)
    returns (r: seq<PostWithCategories>)
    requires db.Valid()
    ensures NewestFirst(r) && DistinctIds(r)
    ensures forall v :: v in r ==> v.post.id in db.posts && v == db.PostView(v.post.id)
    ensures Ids(r) == ListedIds(db, categoryId, includeDrafts)
    ensures includeDrafts != Some(true) ==> forall v :: v in r ==> v.post.published == Some(true)
    ensures Truthy(categoryId) ==> forall v :: v in r ==> categoryId.value in db.CategoryIdsOf(v.post.id)
    ensures Truthy(categoryId) && db.PostIdsInCategory(categoryId.value) == {} ==> r == []
    ensures includeDrafts == Some(true) && !Truthy(categoryId) ==> Ids(r) == db.posts.Keys
  {
    var drafts := if includeDrafts.Some? then includeDrafts.value else false;
    var conditions: seq<Condition> := [];
    if !drafts {
      conditions := conditions + [PublishedIsTrue];
    }
    assert forall p :: Satisfies(p, conditions) <==> drafts || p.published == Some(true) by {
      forall p ensures Satisfies(p, conditions) <==> drafts || p.published == Some(true) {
        if !drafts {
          SatisfiesAppend(p, [], PublishedIsTrue);
        }
      }
    }
    if categoryId.Some? && categoryId.value != 0 {
      var c := categoryId.value;
      var postIds := db.PostIdsInCategory(c);
      if |postIds| == 0 {
        forall id | id in db.posts ensures !Listed(db, db.posts[id], categoryId, includeDrafts) {
          InCategory(db, id, c);
        }
        return [];
      }
      ghost var before := conditions;
      conditions := conditions + [IdIn(postIds)];
      forall p ensures Satisfies(p, conditions) <==> Satisfies(p, before) && p.id in postIds {
        SatisfiesAppend(p, before, IdIn(postIds));
      }
    }
    r := FindMany(db, conditions);
    forall id | id in db.posts
      ensures Satisfies(db.posts[id], conditions) <==> Listed(db, db.posts[id], categoryId, includeDrafts)
    {
      if Truthy(categoryId) {
        InCategory(db, id, categoryId.value);
      }
    }
    forall v | v in r ensures Listed(db, v.post, categoryId, includeDrafts) {
      assert v.post.id in Ids(r);
    }
  }

  lemma SatisfiesAppend(p: Post, conditions: seq<Condition>, c: Condition)
    ensures Satisfies(p, conditions + [c]) <==> Satisfies(p, conditions) && Holds(p, c)
  {
    assert forall i :: 0 <= i < |conditions| ==> (conditions + [c])[i] == conditions[i];
    assert (conditions + [c])[|conditions|] == c;
  }

  /** The two ways of reading the association table agree. */
  lemma InCategory(db: Database, id: PostId, c: int)
    ensures id in db.PostIdsInCategory(c) <==> c in db.CategoryIdsOf(id)
  {
    if c in db.CategoryIdsOf(id) {
      var l :| l in db.postsToCategories && l.postId == id && l.categoryId == c;
    }
    if id in db.PostIdsInCategory(c) {
      var l :| l in db.postsToCategories && l.categoryId == c && l.postId == id;
    }
  }

  // ---------------------------------------------------------------------
  // getById
  // ---------------------------------------------------------------------

  /** `post.getById`: the post with its categories, or nothing (`undefined`) for an
      id that no row has. */
  function GetById(db: Database, id: PostId): (r: Option<PostWithCategories>)
    reads db
    requires db.Valid()
    ensures r.Some? <==> id in db.posts
    ensures r.Some? ==> r.value.post == db.posts[id] && r.value.post.id == id
    ensures r.Some? ==> (set l | l in r.value.postsToCategories :: l.categoryId) == db.CategoryIdsOf(id)
    ensures r.Some? ==> forall l :: l in r.value.postsToCategories ==>
              l.postId == id && l.categoryId in db.categories && l.category == db.categories[l.categoryId]
  {
    if id in db.posts then
      db.JoinedIsExact(id);
      Some(db.PostView(id))
    else
      None
  }

  // ---------------------------------------------------------------------
  // update
  // ---------------------------------------------------------------------

  /** The row after `update` has set its fields. */
  function Edited(p: Post, now: Timestamp, title: string, content: string, published: bool): Post {
    p.(title := title, content := content, slug := CreateSlug(title), published := Some(published), updatedAt := now)
  }

  /** `post.update`: overwrite the post's fields, delete all its association rows,
      then insert rows for `categoryIds` when there are any. The statements are not
      wrapped in a transaction: when the insert fails, the new fields and the
      deletion stay. */
  method Update(db: Database, id: PostId, now: Timestamp, title: string, content: string,
                categoryIds: seq<int>, published: bool) returns (r: Outcome)
    requires db.Valid()
    modifies db
    ensures db.Valid()
    ensures db.posts == if id in old(db.posts) then old(db.posts)[id := Edited(old(db.posts)[id], now, title, content, published)]
                        else old(db.posts)
    ensures id in old(db.posts) ==> db.posts[id].id == id && db.posts[id].createdAt == old(db.posts[id].createdAt)
    ensures r == if |categoryIds| == 0 then Ok
                 else if |id| > PostIdMaxLength then Err(ValueTooLong)
                 else if !Distinct(categoryIds) then Err(UniqueViolation)
                 else if id !in old(db.posts) || exists c :: c in categoryIds && c !in old(db.categories)
                   then Err(ForeignKeyViolation)
                 else Ok
    ensures db.postsToCategories == (set l | l in old(db.postsToCategories) && l.postId != id)
                                    + (if r.Ok? then Links(id, categoryIds) else {})
    ensures db.categories == old(db.categories) && db.nextCategoryId == old(db.nextCategoryId)
    ensures r.Ok? ==> db.CategoryIdsOf(id) == set c | c in categoryIds
    ensures r.Ok? && id in old(db.posts) ==>
              ReadsBack(db, id, Edited(old(db.posts)[id], now, title, content, published), categoryIds)
    ensures r.Err? ==> db.CategoryIdsOf(id) == {}
    ensures id !in old(db.posts) && |categoryIds| == 0 ==>
              db.posts == old(db.posts) && db.postsToCategories == old(db.postsToCategories)
    ensures id !in old(db.posts) && |categoryIds| > 0 ==> r.Err?
  {
    db.UpdatePostWhereId(id, title, content, CreateSlug(title), Some(published), now);
    db.DeletePostsToCategoriesWherePostId(id);
    ghost var kept := db.postsToCategories;
    r := Ok;
    if |categoryIds| > 0 {
      var rows := AssociationRows(id, categoryIds);
      AssociationRowsFacts(id, categoryIds);
      assert rows[0].postId == id;
      r := db.InsertPostsToCategories(rows);
    }
    if r.Ok? {
      CategoryIdsAfterWrite(db, id, categoryIds, kept);
      db.JoinedIsExact(id);
    } else {
      CategoryIdsAfterWrite(db, id, [], kept);
    }
  }

  // ---------------------------------------------------------------------
  // delete
  // ---------------------------------------------------------------------

  /** `post.delete`: first the association rows, which the foreign key demands,
      then the post. Always answers success. */
  method Delete(db: Database, id: PostId) returns (r: Outcome)
    requires db.Valid()
    modifies db
    ensures db.Valid()
    ensures r == Ok
    ensures db.posts == old(db.posts) - {id}
    ensures db.postsToCategories == set l | l in old(db.postsToCategories) && l.postId != id
    ensures db.categories == old(db.categories) && db.nextCategoryId == old(db.nextCategoryId)
    ensures GetById(db, id) == None
    ensures id !in old(db.posts) ==> db.posts == old(db.posts) && db.postsToCategories == old(db.postsToCategories)
  {
    db.DeletePostsToCategoriesWherePostId(id);
    r := db.DeletePostWhereId(id);
  }
}
