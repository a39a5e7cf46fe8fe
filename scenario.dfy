/** A client of the procedures: a category, a post in it, an update that empties
    the post's categories, and its deletion, each observed through the queries.
    Everything asserted here follows from the procedures' contracts alone. */
module Scenario {
  import opened Schema
  import PostRouter
  import CategoryRouter

  method HelloWorld(postId: PostId, title: string, content: string, t0: Timestamp, t1: Timestamp)
    requires |postId| <= PostIdMaxLength
  {
    var db := new Database();

    var tech := CategoryRouter.CreateCategory(db, "Tech");
    CategoryRouter.CategorySlugTech();
    assert tech == CategoryRouter.Created(Category(1, "Tech", None, "tech"));

    var created := PostRouter.CreatePost(db, postId, t0, title, content, [1], true);
    assert created == Ok;

    var listed := PostRouter.GetAll(db, None, None);
    assert postId in PostRouter.ListedIds(db, None, None);
    assert postId in PostRouter.Ids(listed);
    var v :| v in listed && v.post.id == postId;
    db.JoinedIsExact(postId);
    assert (set l | l in v.postsToCategories :: l.categoryId) == {1};

    InCategory(db, postId);
    UpdateThenDelete(db, postId, title, content, t0, t1);
  }

  method InCategory(db: Database, postId: PostId)
    requires db.Valid() && postId in db.posts && db.posts[postId].published == Some(true)
    requires 1 in db.CategoryIdsOf(postId) && 2 !in db.categories
  {
    var inTech := PostRouter.GetAll(db, Some(1), None);
    assert postId in PostRouter.ListedIds(db, Some(1), None);
    assert postId in PostRouter.Ids(inTech);
    assert db.PostIdsInCategory(2) == {};
    var empty := PostRouter.GetAll(db, Some(2), None);
    assert empty == [];
  }

  method UpdateThenDelete(db: Database, postId: PostId, title: string, content: string, t0: Timestamp, t1: Timestamp)
    requires db.Valid() && postId in db.posts && db.posts[postId].createdAt == t0
    modifies db
  {
    var updated := PostRouter.Update(db, postId, t1, title, content, [], true);
    assert updated == Ok;
    var fetched := PostRouter.GetById(db, postId);
    assert fetched.Some? && fetched.value.post.createdAt == t0 && fetched.value.post.updatedAt == t1;
    assert (set l | l in fetched.value.postsToCategories :: l.categoryId) == {};

    var deleted := PostRouter.Delete(db, postId);
    assert PostRouter.GetById(db, postId) == None;
    var missing := PostRouter.Delete(db, postId);
    assert missing == Ok;
  }
}
