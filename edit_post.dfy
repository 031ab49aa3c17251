/**
 * `editPost`: validate the form, check the session and the author, then overwrite the post's
 * scalar fields and replace its whole set of category links in one nested store update.
 */
module PostEditing {
  import opened Results
  import opened Store

  const INVALID_FIELDS := "Invalid fields!"
  const UNAUTHORIZED := "Unauthorized!"
  const NOT_EXIST := "The post you are trying to edit does not exist"
  const NO_PERMISSION := "You have no permission to edit this post!"
  const EDIT_FAILED := "Failed to update the post!"
  const EDIT_SUCCESS := "Post has been successfully edited!"

  /** The validated form data: the scalar fields and the submitted category ids. */
  datatype PostForm = PostForm(fields: PostFields, categories: seq<CategoryId>)

  /** What `getSinglePost` hands back; only the author id is read by `editPost`. */
  datatype FullPost = FullPost(authorId: Option<UserId>)

  /**
   * `getSinglePost` as written: it spreads the query result into a fresh object, so even a missing
   * post comes back as a non-null object (with no author id). Only a thrown query yields null,
   * and store faults are not modelled here.
   */
  function GetSinglePostAsWritten(posts: map<PostId, Post>, id: PostId): (r: Option<FullPost>)
    ensures r.Some?
    ensures r.value.authorId == if id in posts then Some(posts[id].authorId) else None
  {
    if id in posts then Some(FullPost(Some(posts[id].authorId))) else Some(FullPost(None))
  }

  /** `getSinglePost` as its caller evidently intends it: null exactly when the post is missing. */
  function GetSinglePost(posts: map<PostId, Post>, id: PostId): (r: Option<FullPost>)
    ensures r.Some? <==> id in posts
    ensures r.Some? ==> r.value.authorId == Some(posts[id].authorId)
  {
    if id in posts then Some(FullPost(Some(posts[id].authorId))) else None
  }

  /**
   * The guards of `editPost`, in source order. `validated` is the outcome of the schema check,
   * `session` the current user and `found` the lookup of the post; on success the form is returned.
   */
  function EditPrecheck(
    validated: Option<PostForm>, session: Option<SessionUser>, users: set<UserId>,
    postId: PostId, found: Option<FullPost>)
    : (r: Result<PostForm>)
    ensures validated.None? ==> r == Err(INVALID_FIELDS)
    ensures validated.Some? && (session.None? || session.value.id !in users) ==> r == Err(UNAUTHORIZED)
    ensures r.Ok? <==>
      && validated.Some? && session.Some? && session.value.id in users
      && postId != "" && found.Some? && found.value.authorId == Some(session.value.id)
    ensures r.Ok? ==> r.value == validated.value
    ensures r == Err(NOT_EXIST) <==>
      validated.Some? && session.Some? && session.value.id in users && (postId == "" || found.None?)
    ensures r == Err(NO_PERMISSION) <==>
      && validated.Some? && session.Some? && session.value.id in users
      && postId != "" && found.Some? && found.value.authorId != Some(session.value.id)
  {
    if validated.None? then Err(INVALID_FIELDS)
    else if session.None? then Err(UNAUTHORIZED)
    else if session.value.id !in users then Err(UNAUTHORIZED)
    else if postId == "" then Err(NOT_EXIST)
    else if found.None? then Err(NOT_EXIST)
    else if found.value.authorId != Some(session.value.id) then Err(NO_PERMISSION)
    else Ok(validated.value)
  }

  /**
   * As written, asking to edit a post that does not exist, with a valid form and a known user,
   * is answered with the permission error rather than the "does not exist" one.
   */
  lemma MissingPostAsWrittenIsPermissionError(
    form: PostForm, user: SessionUser, users: set<UserId>, posts: map<PostId, Post>, postId: PostId)
    requires user.id in users && postId != "" && postId !in posts
    ensures EditPrecheck(Some(form), Some(user), users, postId, GetSinglePostAsWritten(posts, postId)) == Err(NO_PERMISSION)
  {
  }

  /** With the intended lookup, a missing post is reported as missing. */
  lemma MissingPostIsReportedMissing(
    form: PostForm, user: SessionUser, users: set<UserId>, posts: map<PostId, Post>, postId: PostId)
    requires user.id in users && postId !in posts
    ensures EditPrecheck(Some(form), Some(user), users, postId, GetSinglePost(posts, postId)) == Err(NOT_EXIST)
  {
  }

  /** The two lookups agree on every post that exists, so the guards differ only on missing posts. */
  lemma LookupsAgreeOnExistingPosts(
    form: Option<PostForm>, session: Option<SessionUser>, users: set<UserId>, posts: map<PostId, Post>, postId: PostId)
    requires postId in posts
    ensures EditPrecheck(form, session, users, postId, GetSinglePost(posts, postId))
         == EditPrecheck(form, session, users, postId, GetSinglePostAsWritten(posts, postId))
  {
  }

  /** `editPost(values, postId)`; `fault` stands for any store failure of the final update. */
  method EditPost(
    db: Database, validated: Option<PostForm>, session: Option<SessionUser>, postId: PostId, fault: bool)
    returns (r: ActionResult)
    requires db.Valid()
    modifies db`posts, db`postCategories
    ensures db.Valid()
    ensures var pre := EditPrecheck(validated, session, db.users, postId, GetSinglePost(old(db.posts), postId));
      pre.Err? ==> r == Error(pre.message) && db.posts == old(db.posts) && db.postCategories == old(db.postCategories)
    ensures var pre := EditPrecheck(validated, session, db.users, postId, GetSinglePost(old(db.posts), postId));
      pre.Ok? ==> (r.Success? <==> !fault && NoDup(pre.value.categories) && forall c :: c in pre.value.categories ==> c in db.categories)
    ensures r.Success? ==>
      && validated.Some? && postId in old(db.posts)
      && db.posts == old(db.posts)[postId := Post(old(db.posts)[postId].authorId, validated.value.fields)]
      && (forall c :: Link(postId, c) in db.postCategories <==> c in validated.value.categories)
      && (forall l: Link :: l.post != postId ==> (l in db.postCategories <==> l in old(db.postCategories)))
    ensures var pre := EditPrecheck(validated, session, db.users, postId, GetSinglePost(old(db.posts), postId));
      pre.Ok? && !r.Success? ==> r == Error(EDIT_FAILED)
    ensures r == Error(EDIT_FAILED) ==> db.posts == old(db.posts) && db.postCategories == old(db.postCategories)
    ensures r.Success? ==> r == Success(EDIT_SUCCESS)
  {
    var pre := EditPrecheck(validated, session, db.users, postId, GetSinglePost(db.posts, postId));
    if pre.Err? {
      return Error(pre.message);
    }
    var form := pre.value;
    var ok := db.UpdatePost(postId, form.fields, form.categories, fault);
    if !ok {
      return Error(EDIT_FAILED);
    }
    assert forall l :: l in LinksFor(postId, form.categories) <==> l.post == postId && l.category in form.categories by {
      var added := LinksFor(postId, form.categories);
      forall l ensures l in added <==> l.post == postId && l.category in form.categories {
        if l.post == postId && l.category in form.categories {
          var m :| 0 <= m < |form.categories| && form.categories[m] == l.category;
          assert added[m] == l;
        }
      }
    }
    r := Success(EDIT_SUCCESS);
  }
}
