/**
 * `updatePostsCategories`: for every listed post, count its category links; when there is exactly
 * one, re-point the link (post, categoryId) to the "Uncategorized" category. The per-post callbacks
 * are independent store calls joined by `Promise.all`; they are modelled here as a loop in list
 * order that carries on past a failed call, since a rejected promise does not stop the others.
 */
module PostsCategories {
  import opened Results
  import opened Store

  const UPDATE_SUCCESS := "Posts categories were successfuly updated!"
  const UPDATE_FAILED := "Failed to update posts categories!"

  /**
   * The fixed inputs of one reassignment: the category being emptied, the fallback category,
   * the ids of the categories that exist, and the posts whose store calls throw.
   */
  datatype Job = Job(category: CategoryId, fallback: CategoryId, known: set<CategoryId>, faulty: set<PostId>)

  /** The join table after a prefix of the posts, and whether any of their calls failed. */
  datatype Pass = Pass(links: seq<Link>, failed: bool)

  /** The callback for one post: count its links and, when there is exactly one, update it. */
  function Step(rows: seq<Link>, job: Job, p: PostId): (s: Pass)
    ensures |s.links| == |rows|
    ensures forall k :: 0 <= k < |rows| ==>
      s.links[k] == rows[k]
      || (rows[k] == Link(p, job.category) && s.links[k] == Link(p, job.fallback) && Count(rows, p) == 1)
    ensures p in job.faulty ==> s.failed
    ensures NoDup(rows) ==> NoDup(s.links)
    ensures forall l :: l in s.links ==> l in rows || l == Link(p, job.fallback)
    ensures s.links != rows ==> Link(p, job.category) in rows && job.fallback in job.known
  {
    if p in job.faulty then Pass(rows, true)
    else if Count(rows, p) != 1 then Pass(rows, false)
    else
      match UpdateLinkRows(rows, job.known, p, job.category, job.fallback)
      case None => Pass(rows, true)
      case Some(r) => Pass(r, false)
  }

  /** The callbacks for `ps`, one after the other. */
  function Reassign(rows: seq<Link>, job: Job, ps: seq<PostId>): (s: Pass)
    ensures |s.links| == |rows|
    decreases |ps|
  {
    if ps == [] then Pass(rows, false)
    else
      var prev := Reassign(rows, job, ps[..|ps| - 1]);
      var s := Step(prev.links, job, ps[|ps| - 1]);
      Pass(s.links, prev.failed || s.failed)
  }

  /**
   * Rows are only rewritten in place, never inserted or removed: each position keeps its post, and
   * a position changes only when it held (p, category) for a listed post p whose count was exactly one;
   * it then holds (p, fallback).
   */
  lemma {:induction false} ReassignShape(rows: seq<Link>, job: Job, ps: seq<PostId>)
    ensures |Reassign(rows, job, ps).links| == |rows|
    ensures forall k :: 0 <= k < |rows| ==> Reassign(rows, job, ps).links[k].post == rows[k].post
    ensures forall k :: 0 <= k < |rows| ==>
      Reassign(rows, job, ps).links[k] == rows[k]
      || (&& rows[k] == Link(rows[k].post, job.category)
          && Reassign(rows, job, ps).links[k] == Link(rows[k].post, job.fallback)
          && rows[k].post in ps
          && Count(rows, rows[k].post) == 1)
    decreases |ps|
  {
    if ps != [] {
      var init := ps[..|ps| - 1];
      var x := ps[|ps| - 1];
      ReassignShape(rows, job, init);
      var prev := Reassign(rows, job, init).links;
      CountSamePosts(rows, prev, x);
      assert forall q :: q in init ==> q in ps;
    }
  }

  /** Every post has as many links afterwards as before. */
  lemma ReassignKeepsCounts(rows: seq<Link>, job: Job, ps: seq<PostId>, q: PostId)
    ensures Count(Reassign(rows, job, ps).links, q) == Count(rows, q)
  {
    ReassignShape(rows, job, ps);
    CountSamePosts(rows, Reassign(rows, job, ps).links, q);
  }

  /** The links of a post that is not listed, or whose count is not exactly one, are left as they were. */
  lemma LeavesOtherPostsAlone(rows: seq<Link>, job: Job, ps: seq<PostId>, q: PostId)
    requires q !in ps || Count(rows, q) != 1
    ensures |Reassign(rows, job, ps).links| == |rows|
    ensures forall k :: 0 <= k < |rows| && rows[k].post == q ==> Reassign(rows, job, ps).links[k] == rows[k]
    ensures forall c :: Link(q, c) in Reassign(rows, job, ps).links <==> Link(q, c) in rows
  {
    ReassignShape(rows, job, ps);
    var r := Reassign(rows, job, ps).links;
    forall c ensures Link(q, c) in r <==> Link(q, c) in rows {
      if Link(q, c) in r {
        var k :| 0 <= k < |r| && r[k] == Link(q, c);
        assert r[k] == rows[k];
      }
      if Link(q, c) in rows {
        var k :| 0 <= k < |rows| && rows[k] == Link(q, c);
        assert r[k] == rows[k];
      }
    }
  }

  /**
   * A post whose only link is (p, category) ends up linked to the fallback: once p has been
   * visited, the position of that link holds (p, fallback); before, it is untouched.
   */
  lemma {:induction false} SoleLinkPosition(rows: seq<Link>, job: Job, ps: seq<PostId>, p: PostId, k0: int)
    requires p !in job.faulty && job.fallback in job.known
    requires Count(rows, p) == 1 && 0 <= k0 < |rows| && rows[k0] == Link(p, job.category)
    ensures Reassign(rows, job, ps).links[k0] == if p in ps then Link(p, job.fallback) else rows[k0]
    decreases |ps|
  {
    if ps != [] {
      var init := ps[..|ps| - 1];
      var x := ps[|ps| - 1];
      assert ps == init + [x];
      SoleLinkPosition(rows, job, init, p, k0);
      var prev := Reassign(rows, job, init).links;
      var s := Step(prev, job, x);
      assert Reassign(rows, job, ps).links == s.links;
      if x != p {
        ReassignShape(rows, job, init);
        assert prev[k0].post == p;
        assert s.links[k0] == prev[k0];
      } else if p in init {
        assert prev[k0] == Link(p, job.fallback);
        assert s.links[k0] == Link(p, job.fallback);
      } else {
        ReassignShape(rows, job, init);
        CountSamePosts(rows, prev, p);
        assert prev[k0] == Link(p, job.category);
        if job.category != job.fallback && Link(p, job.fallback) in prev {
          var j :| 0 <= j < |prev| && prev[j] == Link(p, job.fallback);
          assert rows[j].post == p;
          CountOneUnique(rows, p, j, k0);
          assert false;
        }
        assert UpdateLinkRows(prev, job.known, p, job.category, job.fallback).Some?;
        assert s.links[k0] == Link(p, job.fallback);
      }
    }
  }

  /** The relinking promise: a listed post whose count was exactly one now links to the fallback only. */
  lemma RelinksSoleLink(rows: seq<Link>, job: Job, ps: seq<PostId>, p: PostId)
    requires p in ps && p !in job.faulty && job.fallback in job.known
    requires Count(rows, p) == 1 && Link(p, job.category) in rows
    ensures Link(p, job.fallback) in Reassign(rows, job, ps).links
    ensures forall c :: Link(p, c) in Reassign(rows, job, ps).links ==> c == job.fallback
    ensures job.category != job.fallback ==> Link(p, job.category) !in Reassign(rows, job, ps).links
  {
    var k0 :| 0 <= k0 < |rows| && rows[k0] == Link(p, job.category);
    SoleLinkPosition(rows, job, ps, p, k0);
    ReassignShape(rows, job, ps);
    var r := Reassign(rows, job, ps).links;
    forall c | Link(p, c) in r ensures c == job.fallback {
      var k :| 0 <= k < |r| && r[k] == Link(p, c);
      CountOneUnique(rows, p, k, k0);
    }
  }

  /** The primary key stays unique and the foreign keys stay valid. */
  lemma {:induction false} ReassignWellFormed(rows: seq<Link>, job: Job, ps: seq<PostId>, posts: set<PostId>)
    requires LinksWellFormed(rows, posts, job.known)
    ensures LinksWellFormed(Reassign(rows, job, ps).links, posts, job.known)
    decreases |ps|
  {
    if ps != [] {
      ReassignWellFormed(rows, job, ps[..|ps| - 1], posts);
    }
  }

  /** Any faulty listed post makes the whole call report failure. */
  lemma {:induction false} FaultFails(rows: seq<Link>, job: Job, ps: seq<PostId>, i: int)
    requires 0 <= i < |ps| && ps[i] in job.faulty
    ensures Reassign(rows, job, ps).failed
    decreases |ps|
  {
    if i < |ps| - 1 {
      FaultFails(rows, job, ps[..|ps| - 1], i);
    }
  }

  /** A failure flag, once raised by a prefix, stays raised. */
  lemma {:induction false} FailureSticks(rows: seq<Link>, job: Job, ps: seq<PostId>, n: nat)
    requires n <= |ps| && Reassign(rows, job, ps[..n]).failed
    ensures Reassign(rows, job, ps).failed
    decreases |ps|
  {
    if n < |ps| {
      assert ps[..|ps| - 1][..n] == ps[..n];
      FailureSticks(rows, job, ps[..|ps| - 1], n);
    } else {
      assert ps[..n] == ps;
    }
  }

  /**
   * With distinct listed posts that each link to the category, no faulty post and an existing
   * fallback, every update is accepted by the store.
   */
  lemma {:induction false} DistinctLinkedPostsSucceed(rows: seq<Link>, job: Job, ps: seq<PostId>)
    requires NoDup(ps) && job.fallback in job.known
    requires forall p :: p in ps ==> Link(p, job.category) in rows && p !in job.faulty
    ensures !Reassign(rows, job, ps).failed
    decreases |ps|
  {
    if ps != [] {
      var init := ps[..|ps| - 1];
      var p := ps[|ps| - 1];
      assert NoDup(init) && p !in init by {
        assert forall a :: 0 <= a < |init| ==> init[a] == ps[a];
      }
      DistinctLinkedPostsSucceed(rows, job, init);
      ReassignShape(rows, job, init);
      LeavesOtherPostsAlone(rows, job, init, p);
      var prev := Reassign(rows, job, init).links;
      CountSamePosts(rows, prev, p);
      assert Link(p, job.category) in prev;
      if Count(rows, p) == 1 && job.category != job.fallback && Link(p, job.fallback) in prev {
        var j :| 0 <= j < |rows| && rows[j] == Link(p, job.fallback);
        var k0 :| 0 <= k0 < |rows| && rows[k0] == Link(p, job.category);
        CountOneUnique(rows, p, j, k0);
        assert false;
      }
    }
  }

  /** Once a sole-linked post has been visited, visiting it again fails: its row (p, category) is gone. */
  lemma RevisitFails(rows: seq<Link>, job: Job, before: seq<PostId>, p: PostId)
    requires p in before && p !in job.faulty && job.fallback in job.known && job.category != job.fallback
    requires Count(rows, p) == 1 && Link(p, job.category) in rows
    ensures Reassign(rows, job, before + [p]).failed
  {
    RelinksSoleLink(rows, job, before, p);
    ReassignKeepsCounts(rows, job, before, p);
    var prev := Reassign(rows, job, before).links;
    assert Step(prev, job, p).failed;
    assert (before + [p])[..|before|] == before;
  }

  /**
   * A post listed twice whose sole link is (p, category) makes the call fail: the second callback
   * still counts one link, but the row (p, category) is gone, so the update is refused.
   */
  lemma DuplicateSoleLinkFails(rows: seq<Link>, job: Job, ps: seq<PostId>, p: PostId, i: int, j: int)
    requires 0 <= i < j < |ps| && ps[i] == p && ps[j] == p
    requires p !in job.faulty && job.fallback in job.known && job.category != job.fallback
    requires Count(rows, p) == 1 && Link(p, job.category) in rows
    ensures Reassign(rows, job, ps).failed
  {
    assert ps[..j][i] == p;
    RevisitFails(rows, job, ps[..j], p);
    assert ps[..j + 1] == ps[..j] + [p];
    FailureSticks(rows, job, ps, j + 1);
  }

  /** Visiting one more post extends the fold by one step. */
  lemma ReassignSnoc(rows: seq<Link>, job: Job, ps: seq<PostId>, i: int)
    requires 0 <= i < |ps|
    ensures var prev := Reassign(rows, job, ps[..i]);
      var s := Step(prev.links, job, ps[i]);
      Reassign(rows, job, ps[..i + 1]) == Pass(s.links, prev.failed || s.failed)
  {
    assert ps[..i + 1][..i] == ps[..i];
  }

  /**
   * The callback for one post: count its links and, when there is exactly one, re-point it;
   * `ok` is false when the callback's promise rejects.
   */
  method UpdatePostCategory(
    db: Database, postId: PostId, categoryId: CategoryId, uncategorizedCategoryId: CategoryId, faulty: set<PostId>)
    returns (ok: bool)
    requires db.Valid()
    modifies db`postCategories
    ensures db.Valid()
    ensures Pass(db.postCategories, !ok) ==
      Step(old(db.postCategories), Job(categoryId, uncategorizedCategoryId, db.categories.Keys, faulty), postId)
  {
    if postId in faulty {
      return false;
    }
    var categoryCount := db.CountLinks(postId);
    if categoryCount == 1 {
      ok := db.UpdateLink(postId, categoryId, uncategorizedCategoryId);
    } else {
      ok := true;
    }
  }

  /**
   * `updatePostsCategories`: walk the posts, count each one's links, and re-point a sole link to
   * the fallback. Returns `{ error }` when any call failed; updates that went through stay.
   */
  method UpdatePostsCategories(
    db: Database, postsInCategory: seq<PostId>, categoryId: CategoryId,
    uncategorizedCategoryId: CategoryId, faulty: set<PostId>)
    returns (r: ActionResult)
    requires db.Valid()
    modifies db`postCategories
    ensures db.Valid()
    ensures db.postCategories ==
      Reassign(old(db.postCategories), Job(categoryId, uncategorizedCategoryId, db.categories.Keys, faulty), postsInCategory).links
    ensures r == if Reassign(old(db.postCategories), Job(categoryId, uncategorizedCategoryId, db.categories.Keys, faulty), postsInCategory).failed
                 then Error(UPDATE_FAILED) else Success(UPDATE_SUCCESS)
    ensures postsInCategory == [] ==> r == Success(UPDATE_SUCCESS) && db.postCategories == old(db.postCategories)
  {
    ghost var job := Job(categoryId, uncategorizedCategoryId, db.categories.Keys, faulty);
    ghost var start := db.postCategories;
    var failed := false;
    var i := 0;
    while i < |postsInCategory|
      invariant 0 <= i <= |postsInCategory|
      invariant db.Valid() && db.categories.Keys == job.known
      invariant Reassign(start, job, postsInCategory[..i]) == Pass(db.postCategories, failed)
    {
      var postId := postsInCategory[i];
      var ok := UpdatePostCategory(db, postId, categoryId, uncategorizedCategoryId, faulty);
      if !ok {
        failed := true;
      }
      ReassignSnoc(start, job, postsInCategory, i);
      i := i + 1;
    }
    assert postsInCategory[..i] == postsInCategory;
    r := if failed then Error(UPDATE_FAILED) else Success(UPDATE_SUCCESS);
  }
}
