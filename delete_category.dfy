/**
 * `deleteCategory`: an ordered chain of guards, then the reassignment of posts that would lose
 * their last link, then the delete of the category row. Every modelled store fault (a per-post call,
 * the category delete) surfaces as `{ error }`.
 */
module CategoryDeletion {
  import opened Results
  import opened Store
  import opened PostsCategories

  const UNAUTHORIZED := "Unauthorized!"
  const NO_CATEGORY := "There are no category for deleting!"
  const NO_PERMISSION := "You have no permission to delete this category!"
  const CANNOT_DELETE_FALLBACK := "Cannot delete \"Uncategorized\" category!"
  const NO_FALLBACK := "There is no \"Uncategorized\" category to link post with!"
  const REASSIGN_FAILED := "Failed to update post categories before deleting category!"
  const DELETE_FAILED := "Failed to delete category!"
  const DELETE_SUCCESS := "The category was successfully deleted!"

  /**
   * The guards of `deleteCategory`, in source order; on success it yields the fallback id.
   * `fallback` is what `fetchUncategorizedCategory` returned.
   */
  function DeletePrecheck(
    session: Option<SessionUser>, users: set<UserId>, categories: set<CategoryId>,
    fallback: Option<CategoryId>, categoryId: CategoryId)
    : (r: Result<CategoryId>)
    ensures r.Ok? <==>
      && session.Some? && session.value.id in users
      && categoryId in categories
      && session.value.role == ADMIN
      && fallback.Some? && fallback.value != categoryId
    ensures r.Ok? ==> r.value == fallback.value
    ensures fallback == Some(categoryId) ==> r.Err?
    ensures session.None? || session.value.id !in users ==> r == Err(UNAUTHORIZED)
    ensures session.Some? && session.value.id in users && categoryId !in categories ==> r == Err(NO_CATEGORY)
    ensures session.Some? && session.value.id in users && categoryId in categories && session.value.role != ADMIN
      ==> r == Err(NO_PERMISSION)
    ensures r == Err(CANNOT_DELETE_FALLBACK) <==>
      && session.Some? && session.value.id in users && categoryId in categories
      && session.value.role == ADMIN && fallback == Some(categoryId)
    ensures r == Err(NO_FALLBACK) <==>
      && session.Some? && session.value.id in users && categoryId in categories
      && session.value.role == ADMIN && fallback.None?
  {
    if session.None? then Err(UNAUTHORIZED)
    else if session.value.id !in users then Err(UNAUTHORIZED)
    else if categoryId !in categories then Err(NO_CATEGORY)
    else if session.value.role != ADMIN then Err(NO_PERMISSION)
    else if fallback.Some? && fallback.value == categoryId then Err(CANNOT_DELETE_FALLBACK)
    else if fallback.None? then Err(NO_FALLBACK)
    else Ok(fallback.value)
  }

  /** `fetchPostsIdsInCategory`: the posts linked to category `c`, in table order. */
  function PostsInCategory(rows: seq<Link>, c: CategoryId): (ps: seq<PostId>)
    ensures forall p :: p in ps <==> Link(p, c) in rows
    ensures NoDup(rows) ==> NoDup(ps)
  {
    if rows == [] then []
    else
      var rest := PostsInCategory(rows[1..], c);
      assert forall l :: l in rows <==> l == rows[0] || l in rows[1..];
      if rows[0].category == c then
        assert NoDup(rows) ==> NoDup([rows[0].post] + rest) by {
          if NoDup(rows) {
            NoDupTail(rows);
            var all := [rows[0].post] + rest;
            forall i, j | 0 <= i < j < |all| ensures all[i] != all[j] {
              assert all[j] == rest[j - 1];
              if i > 0 {
                assert all[i] == rest[i - 1];
              }
            }
          }
        }
        [rows[0].post] + rest
      else rest
  }

  /** The store and the result after the part of `deleteCategory` that follows the guards. */
  datatype Deletion = Deletion(links: seq<Link>, categories: map<CategoryId, Category>, result: ActionResult)

  /**
   * Reassign the posts of `c` to `u`; if that reports an error, stop with the category in place;
   * otherwise delete the category, which the store may refuse or fail.
   */
  function DeletionTail(
    rows: seq<Link>, cats: map<CategoryId, Category>, c: CategoryId, u: CategoryId,
    faulty: set<PostId>, deleteFault: bool, action: ReferentialAction)
    : (d: Deletion)
    ensures d.result.Error? ==> d.categories == cats
    ensures d.result.Success? <==>
      !Reassign(rows, Job(c, u, cats.Keys, faulty), PostsInCategory(rows, c)).failed
      && !deleteFault && c in cats
      && CategoryDelete(Reassign(rows, Job(c, u, cats.Keys, faulty), PostsInCategory(rows, c)).links, c, action).Some?
    ensures d.result.Success? ==> d.categories == cats - {c} && !Referenced(d.links, c)
    ensures d.result.Success? ==>
      d.links == CategoryDelete(Reassign(rows, Job(c, u, cats.Keys, faulty), PostsInCategory(rows, c)).links, c, action).value
    ensures d.result.Error? ==> d.links == Reassign(rows, Job(c, u, cats.Keys, faulty), PostsInCategory(rows, c)).links
    ensures d.result in {Success(DELETE_SUCCESS), Error(REASSIGN_FAILED), Error(DELETE_FAILED)}
    ensures Reassign(rows, Job(c, u, cats.Keys, faulty), PostsInCategory(rows, c)).failed ==> d.result == Error(REASSIGN_FAILED)
    ensures !Reassign(rows, Job(c, u, cats.Keys, faulty), PostsInCategory(rows, c)).failed && !d.result.Success? ==>
      d.result == Error(DELETE_FAILED)
  {
    var pass := Reassign(rows, Job(c, u, cats.Keys, faulty), PostsInCategory(rows, c));
    if pass.failed then Deletion(pass.links, cats, Error(REASSIGN_FAILED))
    else
      var deleted := CategoryDelete(pass.links, c, action);
      if deleteFault || c !in cats || deleted.None? then Deletion(pass.links, cats, Error(DELETE_FAILED))
      else Deletion(deleted.value, cats - {c}, Success(DELETE_SUCCESS))
  }

  /** A successful reassignment means no listed post was faulty. */
  lemma ListedPostNotFaulty(rows: seq<Link>, job: Job, ps: seq<PostId>, p: PostId)
    requires p in ps && !Reassign(rows, job, ps).failed
    ensures p !in job.faulty
  {
    if p in job.faulty {
      var i :| 0 <= i < |ps| && ps[i] == p;
      FaultFails(rows, job, ps, i);
    }
  }

  /**
   * A successful reassignment leaves every post that had a link with a link to some category
   * other than the one being emptied.
   */
  lemma ReassignLeavesOtherLink(rows: seq<Link>, job: Job, ps: seq<PostId>, p: PostId)
    requires NoDup(rows) && job.fallback in job.known && job.fallback != job.category
    requires forall q :: q in ps <==> Link(q, job.category) in rows
    requires !Reassign(rows, job, ps).failed && Count(rows, p) >= 1
    ensures exists l :: l in Reassign(rows, job, ps).links && l.post == p && l.category != job.category
  {
    var pass := Reassign(rows, job, ps).links;
    ReassignShape(rows, job, ps);
    var l :| l in rows && l.post == p;
    var k :| 0 <= k < |rows| && rows[k] == l;
    if l.category != job.category {
      assert pass[k] == rows[k] && pass[k] in pass;
    } else {
      ListedPostNotFaulty(rows, job, ps, p);
      if Count(rows, p) == 1 {
        RelinksSoleLink(rows, job, ps, p);
        assert Link(p, job.fallback) in pass;
      } else {
        var j := SecondLink(rows, p, k);
        assert pass[j] == rows[j] && pass[j] in pass;
      }
    }
  }

  /**
   * The invariant of the cascade: after a successful deletion, every post that had at least one
   * category link still has one.
   */
  lemma DeletionKeepsPostsLinked(
    rows: seq<Link>, cats: map<CategoryId, Category>, c: CategoryId, u: CategoryId,
    faulty: set<PostId>, deleteFault: bool, action: ReferentialAction)
    requires NoDup(rows) && u in cats && u != c
    requires DeletionTail(rows, cats, c, u, faulty, deleteFault, action).result.Success?
    ensures forall p :: Count(rows, p) >= 1 ==> Count(DeletionTail(rows, cats, c, u, faulty, deleteFault, action).links, p) >= 1
  {
    forall p | Count(rows, p) >= 1
      ensures Count(DeletionTail(rows, cats, c, u, faulty, deleteFault, action).links, p) >= 1
    {
      var job := Job(c, u, cats.Keys, faulty);
      var ps := PostsInCategory(rows, c);
      ReassignLeavesOtherLink(rows, job, ps, p);
      var l :| l in Reassign(rows, job, ps).links && l.post == p && l.category != c;
      assert l in DeletionTail(rows, cats, c, u, faulty, deleteFault, action).links;
    }
  }

  /** After a successful deletion, a post whose only link was to the category links to the fallback only. */
  lemma DeletionRelinksOrphans(
    rows: seq<Link>, cats: map<CategoryId, Category>, c: CategoryId, u: CategoryId,
    faulty: set<PostId>, deleteFault: bool, action: ReferentialAction, p: PostId)
    requires u in cats && u != c
    requires DeletionTail(rows, cats, c, u, faulty, deleteFault, action).result.Success?
    requires Count(rows, p) == 1 && Link(p, c) in rows
    ensures Link(p, u) in DeletionTail(rows, cats, c, u, faulty, deleteFault, action).links
    ensures forall x :: Link(p, x) in DeletionTail(rows, cats, c, u, faulty, deleteFault, action).links ==> x == u
  {
    var job := Job(c, u, cats.Keys, faulty);
    var ps := PostsInCategory(rows, c);
    ListedPostNotFaulty(rows, job, ps, p);
    RelinksSoleLink(rows, job, ps, p);
  }

  /** A post linked to the deleted category and to another one keeps its other link. */
  lemma DeletionKeepsOtherLinks(
    rows: seq<Link>, cats: map<CategoryId, Category>, c: CategoryId, u: CategoryId,
    faulty: set<PostId>, deleteFault: bool, action: ReferentialAction, p: PostId, other: CategoryId)
    requires DeletionTail(rows, cats, c, u, faulty, deleteFault, action).result.Success?
    requires Link(p, c) in rows && Link(p, other) in rows && other != c
    ensures Link(p, other) in DeletionTail(rows, cats, c, u, faulty, deleteFault, action).links
  {
    var job := Job(c, u, cats.Keys, faulty);
    var ps := PostsInCategory(rows, c);
    if Count(rows, p) == 1 {
      var i :| 0 <= i < |rows| && rows[i] == Link(p, c);
      var j :| 0 <= j < |rows| && rows[j] == Link(p, other);
      CountOneUnique(rows, p, i, j);
    }
    LeavesOtherPostsAlone(rows, job, ps, p);
  }

  /**
   * Without cascading deletes, the category can only go once no row points at it, so a successful
   * deletion means every post of the category had it as its only link.
   */
  lemma RestrictNeedsSoleLinks(
    rows: seq<Link>, cats: map<CategoryId, Category>, c: CategoryId, u: CategoryId,
    faulty: set<PostId>, deleteFault: bool, p: PostId)
    requires DeletionTail(rows, cats, c, u, faulty, deleteFault, Restrict).result.Success?
    requires Link(p, c) in rows
    ensures Count(rows, p) == 1
  {
    var job := Job(c, u, cats.Keys, faulty);
    var ps := PostsInCategory(rows, c);
    if Count(rows, p) != 1 {
      LeavesOtherPostsAlone(rows, job, ps, p);
    }
  }

  /**
   * Conversely, without cascading deletes and without faults, the deletion succeeds when every post
   * of the category has it as its only link.
   */
  lemma RestrictSucceedsWithSoleLinks(
    rows: seq<Link>, cats: map<CategoryId, Category>, c: CategoryId, u: CategoryId)
    requires NoDup(rows) && c in cats && u in cats && u != c
    requires forall p :: Link(p, c) in rows ==> Count(rows, p) == 1
    ensures DeletionTail(rows, cats, c, u, {}, false, Restrict).result.Success?
  {
    var job := Job(c, u, cats.Keys, {});
    var ps := PostsInCategory(rows, c);
    DistinctLinkedPostsSucceed(rows, job, ps);
    var pass := Reassign(rows, job, ps).links;
    ReassignShape(rows, job, ps);
    if Referenced(pass, c) {
      var l :| l in pass && l.category == c;
      var k :| 0 <= k < |pass| && pass[k] == l;
      assert rows[k] == l;
      SoleLinkPosition(rows, job, ps, l.post, k);
      assert false;
    }
  }

  /** With cascading deletes and no store fault, the deletion always succeeds once the guards pass. */
  lemma CascadeWithoutFaultsSucceeds(rows: seq<Link>, cats: map<CategoryId, Category>, c: CategoryId, u: CategoryId)
    requires NoDup(rows) && c in cats && u in cats
    ensures DeletionTail(rows, cats, c, u, {}, false, Cascade).result == Success(DELETE_SUCCESS)
  {
    DistinctLinkedPostsSucceed(rows, Job(c, u, cats.Keys, {}), PostsInCategory(rows, c));
  }

  /** `deleteCategory(categoryId)` for the session `session`. */
  method DeleteCategory(
    db: Database, session: Option<SessionUser>, categoryId: CategoryId,
    uncategorized: Option<CategoryId>, faulty: set<PostId>, deleteFault: bool)
    returns (r: ActionResult)
    requires db.Valid()
    requires uncategorized.Some? ==> uncategorized.value in db.categories
    modifies db`postCategories, db`categories
    ensures db.Valid()
    ensures var pre := DeletePrecheck(session, db.users, old(db.categories).Keys, uncategorized, categoryId);
      pre.Err? ==> r == Error(pre.message) && db.postCategories == old(db.postCategories) && db.categories == old(db.categories)
    ensures var pre := DeletePrecheck(session, db.users, old(db.categories).Keys, uncategorized, categoryId);
      pre.Ok? ==> (Deletion(db.postCategories, db.categories, r) ==
        DeletionTail(old(db.postCategories), old(db.categories), categoryId, pre.value, faulty, deleteFault, db.onCategoryDelete))
    ensures r.Success? ==> forall p :: Count(old(db.postCategories), p) >= 1 ==> Count(db.postCategories, p) >= 1
    ensures r.Success? ==> categoryId !in db.categories && !Referenced(db.postCategories, categoryId)
    ensures r.Success? ==> uncategorized.Some? && forall p :: Count(old(db.postCategories), p) == 1 && Link(p, categoryId) in old(db.postCategories) ==>
      Link(p, uncategorized.value) in db.postCategories
    ensures r.Success? ==> forall p, d :: Link(p, categoryId) in old(db.postCategories) && Link(p, d) in old(db.postCategories) && d != categoryId ==>
      Link(p, d) in db.postCategories
  {
    var pre := DeletePrecheck(session, db.users, db.categories.Keys, uncategorized, categoryId);
    if pre.Err? {
      return Error(pre.message);
    }
    var fallback := pre.value;
    ghost var rows, cats := db.postCategories, db.categories;
    var postsInCategory := PostsInCategory(db.postCategories, categoryId);
    var updating := UpdatePostsCategories(db, postsInCategory, categoryId, fallback, faulty);
    if updating.Error? {
      return Error(REASSIGN_FAILED);
    }
    var ok := db.DeleteCategoryRow(categoryId, deleteFault);
    if !ok {
      return Error(DELETE_FAILED);
    }
    r := Success(DELETE_SUCCESS);
    DeletionKeepsPostsLinked(rows, cats, categoryId, fallback, faulty, deleteFault, db.onCategoryDelete);
    forall p | Count(rows, p) == 1 && Link(p, categoryId) in rows ensures Link(p, fallback) in db.postCategories {
      DeletionRelinksOrphans(rows, cats, categoryId, fallback, faulty, deleteFault, db.onCategoryDelete, p);
    }
    forall p, d | Link(p, categoryId) in rows && Link(p, d) in rows && d != categoryId ensures Link(p, d) in db.postCategories {
      DeletionKeepsOtherLinks(rows, cats, categoryId, fallback, faulty, deleteFault, db.onCategoryDelete, p, d);
    }
  }
}
