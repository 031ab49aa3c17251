/**
 * The relational store behind the server actions: the Prisma tables the core reads and writes
 * (`user`, `post`, `categories`, `postCategories`, `verificationToken`, `passwordResetToken`),
 * the constraints the database itself enforces on them, and the individual store calls the
 * actions issue (count, update, delete, nested post update, token find/delete/create).
 */
module Store {
  import opened Results

  type PostId = string
  type CategoryId = string
  type UserId = string
  type TokenId = string

  /** A row of the `postCategories` join table; the pair is its primary key. */
  datatype Link = Link(post: PostId, category: CategoryId)

  datatype Post = Post(authorId: UserId, fields: PostFields)

  /** The scalar columns of a post that `editPost` overwrites. */
  datatype PostFields = PostFields(title: string, content: string, imageUrls: seq<string>, published: bool)

  datatype Category = Category(name: string)

  /** A row of `verificationToken` or `passwordResetToken`; `expires` is a timestamp in milliseconds. */
  datatype Token = Token(email: string, token: string, expires: int)

  /** What the database does with `postCategories` rows when the category they point at is deleted. */
  datatype ReferentialAction = Cascade | Restrict

  datatype UserRole = ADMIN | USER

  /** The user of the current session, as the authentication layer reports it. */
  datatype SessionUser = SessionUser(id: UserId, role: UserRole)

  predicate NoDup<T(==)>(s: seq<T>) {
    forall i, j :: 0 <= i < j < |s| ==> s[i] != s[j]
  }

  lemma NoDupTail<T>(s: seq<T>)
    requires s != [] && NoDup(s)
    ensures NoDup(s[1..]) && s[0] !in s[1..]
  {
    forall i, j | 0 <= i < j < |s| - 1 ensures s[1..][i] != s[1..][j] {
      assert s[1..][i] == s[i + 1] && s[1..][j] == s[j + 1];
    }
  }

  /** The elements of `s` that `keep` accepts, in their original order. */
  function Filter<T(==,!new)>(s: seq<T>, keep: T -> bool): (r: seq<T>)
    ensures forall x :: x in r <==> x in s && keep(x)
    ensures NoDup(s) ==> NoDup(r)
  {
    if s == [] then []
    else
      var rest := Filter(s[1..], keep);
      assert NoDup(s) ==> NoDup(s[1..]) && s[0] !in s[1..] by {
        if NoDup(s) { NoDupTail(s); }
      }
      if keep(s[0]) then
        assert NoDup(s) ==> NoDup([s[0]] + rest) by {
          if NoDup(s) {
            forall i, j | 0 <= i < j < |rest| + 1 ensures ([s[0]] + rest)[i] != ([s[0]] + rest)[j] {
              if i > 0 {
                assert ([s[0]] + rest)[i] == rest[i - 1];
              }
              assert ([s[0]] + rest)[j] == rest[j - 1];
            }
          }
        }
        [s[0]] + rest
      else rest
  }

  /** The number of `postCategories` rows that belong to post `p` (`count({ where: { postId } })`). */
  function Count(rows: seq<Link>, p: PostId): (n: nat)
    ensures n <= |rows|
    ensures n > 0 <==> exists l :: l in rows && l.post == p
  {
    if rows == [] then 0
    else
      assert forall l :: l in rows <==> l == rows[0] || l in rows[1..];
      (if rows[0].post == p then 1 else 0) + Count(rows[1..], p)
  }

  /** Two tables whose rows belong, position by position, to the same posts have the same counts. */
  lemma {:induction false} CountSamePosts(a: seq<Link>, b: seq<Link>, p: PostId)
    requires |a| == |b|
    requires forall k :: 0 <= k < |a| ==> a[k].post == b[k].post
    ensures Count(a, p) == Count(b, p)
  {
    if a != [] {
      CountSamePosts(a[1..], b[1..], p);
    }
  }

  /** A post with exactly one row has it at a single position. */
  lemma {:induction false} CountOneUnique(rows: seq<Link>, p: PostId, i: int, j: int)
    requires Count(rows, p) == 1
    requires 0 <= i < |rows| && 0 <= j < |rows|
    requires rows[i].post == p && rows[j].post == p
    ensures i == j
  {
    if rows[0].post == p {
      assert forall m :: 0 < m < |rows| ==> rows[m] == rows[1..][m - 1] && rows[1..][m - 1] in rows[1..];
    } else {
      CountOneUnique(rows[1..], p, i - 1, j - 1);
    }
  }

  /** A post with two or more rows has one besides any given one. */
  lemma {:induction false} SecondLink(rows: seq<Link>, p: PostId, k: int) returns (j: int)
    requires Count(rows, p) >= 2
    requires 0 <= k < |rows| && rows[k].post == p
    ensures 0 <= j < |rows| && j != k && rows[j].post == p
  {
    if rows[0].post == p && k != 0 {
      j := 0;
    } else if rows[0].post == p {
      var l :| l in rows[1..] && l.post == p;
      var m :| 0 <= m < |rows[1..]| && rows[1..][m] == l;
      j := m + 1;
    } else {
      var j' := SecondLink(rows[1..], p, k - 1);
      j := j' + 1;
    }
  }

  /** The constraints the database enforces on the join table: the primary key and both foreign keys. */
  predicate LinksWellFormed(rows: seq<Link>, posts: set<PostId>, categories: set<CategoryId>) {
    && NoDup(rows)
    && forall l :: l in rows ==> l.post in posts && l.category in categories
  }

  /** `rows` with every row equal to `from` replaced, in place, by `to`. */
  function Rewrite(rows: seq<Link>, from: Link, to: Link): (r: seq<Link>)
    ensures |r| == |rows|
    ensures forall k :: 0 <= k < |rows| ==> r[k] == (if rows[k] == from then to else rows[k])
  {
    seq(|rows|, k requires 0 <= k < |rows| => if rows[k] == from then to else rows[k])
  }

  /**
   * `postCategories.update({ where: { postId_categoryId: { p, from } }, data: { categoryId: to } })`:
   * the store refuses (None) when the row is missing, when the new pair would duplicate a primary
   * key, or when `to` is not a category; otherwise that one row is re-pointed in place.
   */
  function UpdateLinkRows(rows: seq<Link>, categories: set<CategoryId>, p: PostId, from: CategoryId, to: CategoryId)
    : (r: Option<seq<Link>>)
    ensures r.Some? <==> Link(p, from) in rows && (from == to || Link(p, to) !in rows) && to in categories
    ensures r.Some? ==> |r.value| == |rows|
    ensures r.Some? ==> forall k :: 0 <= k < |rows| ==>
      r.value[k] == rows[k] || (rows[k] == Link(p, from) && r.value[k] == Link(p, to))
    ensures r.Some? ==> forall k :: 0 <= k < |rows| && rows[k] == Link(p, from) ==> r.value[k] == Link(p, to)
    ensures r.Some? && NoDup(rows) ==> NoDup(r.value)
    ensures r.Some? ==> forall l :: l in r.value ==> l in rows || l == Link(p, to)
  {
    if Link(p, from) !in rows || (from != to && Link(p, to) in rows) || to !in categories then None
    else Some(Rewrite(rows, Link(p, from), Link(p, to)))
  }

  /** True when some row points at category `c`. */
  predicate Referenced(rows: seq<Link>, c: CategoryId) {
    exists l :: l in rows && l.category == c
  }

  /**
   * The join table after `categories.delete({ where: { id: c } })`: with Cascade the rows that
   * point at `c` go with it; with Restrict the delete is refused (None) while any such row exists.
   */
  function CategoryDelete(rows: seq<Link>, c: CategoryId, action: ReferentialAction): (r: Option<seq<Link>>)
    ensures r.None? <==> action == Restrict && Referenced(rows, c)
    ensures r.Some? ==> forall l :: l in r.value <==> l in rows && l.category != c
    ensures r.Some? && NoDup(rows) ==> NoDup(r.value)
  {
    match action
    case Cascade => Some(Filter(rows, (l: Link) => l.category != c))
    case Restrict => if Referenced(rows, c) then None else Some(rows)
  }

  /** One new row per category id, all for post `p`, in the order given. */
  function LinksFor(p: PostId, categories: seq<CategoryId>): (r: seq<Link>)
    ensures |r| == |categories|
    ensures forall k :: 0 <= k < |r| ==> r[k] == Link(p, categories[k])
  {
    seq(|categories|, k requires 0 <= k < |categories| => Link(p, categories[k]))
  }

  class Database {
    /** The referential action of `postCategories.category`; the schema is not part of this model. */
    const onCategoryDelete: ReferentialAction
    var users: set<UserId>
    var posts: map<PostId, Post>
    var categories: map<CategoryId, Category>
    var postCategories: seq<Link>
    var verificationTokens: map<TokenId, Token>
    var passwordResetTokens: map<TokenId, Token>

    /** The constraints the database keeps on its own. */
    ghost predicate Valid()
      reads this
    {
      LinksWellFormed(postCategories, posts.Keys, categories.Keys)
    }

    constructor (onDelete: ReferentialAction)
      ensures Valid() && onCategoryDelete == onDelete
      ensures users == {} && posts == map[] && categories == map[] && postCategories == []
      ensures verificationTokens == map[] && passwordResetTokens == map[]
    {
      onCategoryDelete := onDelete;
      users, posts, categories, postCategories := {}, map[], map[], [];
      verificationTokens, passwordResetTokens := map[], map[];
    }

    /** `postCategories.count({ where: { postId } })`. */
    method CountLinks(p: PostId) returns (n: nat)
      ensures n > 0 <==> exists l :: l in postCategories && l.post == p
      ensures n == Count(postCategories, p)
    {
      n := Count(postCategories, p);
    }

    /** `postCategories.update` by primary key; `ok` is false when the store throws. */
    method UpdateLink(p: PostId, from: CategoryId, to: CategoryId) returns (ok: bool)
      requires Valid()
      modifies this`postCategories
      ensures Valid()
      ensures ok == UpdateLinkRows(old(postCategories), categories.Keys, p, from, to).Some?
      ensures postCategories ==
        if ok then UpdateLinkRows(old(postCategories), categories.Keys, p, from, to).value
        else old(postCategories)
    {
      var r := UpdateLinkRows(postCategories, categories.Keys, p, from, to);
      ok := r.Some?;
      if ok {
        postCategories := r.value;
      }
    }

    /** `categories.delete({ where: { id: c } })`; `fault` stands for any other store failure. */
    method DeleteCategoryRow(c: CategoryId, fault: bool) returns (ok: bool)
      requires Valid()
      modifies this`categories, this`postCategories
      ensures Valid()
      ensures ok == (!fault && c in old(categories) && CategoryDelete(old(postCategories), c, onCategoryDelete).Some?)
      ensures ok ==> categories == old(categories) - {c}
      ensures ok ==> postCategories == CategoryDelete(old(postCategories), c, onCategoryDelete).value
      ensures !ok ==> categories == old(categories) && postCategories == old(postCategories)
    {
      var r := CategoryDelete(postCategories, c, onCategoryDelete);
      ok := !fault && c in categories && r.Some?;
      if ok {
        categories := categories - {c};
        postCategories := r.value;
      }
    }

    /**
     * `post.update` with nested `categories: { deleteMany: { postId }, create: [connect …] }`,
     * run by the store as one transaction: the scalar fields are overwritten, the post's rows are
     * dropped and one row per listed category is created. A create that names an unknown category
     * or repeats an id fails, and then nothing is written; `fault` stands for any other failure.
     */
    method UpdatePost(id: PostId, fields: PostFields, cats: seq<CategoryId>, fault: bool) returns (ok: bool)
      requires Valid() && id in posts
      modifies this`posts, this`postCategories
      ensures Valid()
      ensures ok <==> !fault && NoDup(cats) && forall c :: c in cats ==> c in categories
      ensures ok ==> posts == old(posts)[id := Post(old(posts)[id].authorId, fields)]
      ensures ok ==> postCategories == Filter(old(postCategories), (l: Link) => l.post != id) + LinksFor(id, cats)
      ensures !ok ==> posts == old(posts) && postCategories == old(postCategories)
    {
      var kept := Filter(postCategories, (l: Link) => l.post != id);
      var rows := kept;
      ok := !fault;
      var i := 0;
      while ok && i < |cats|
        invariant 0 <= i <= |cats|
        invariant posts == old(posts) && postCategories == old(postCategories)
        invariant ok ==> !fault && rows == kept + LinksFor(id, cats[..i])
        invariant ok ==> NoDup(cats[..i]) && forall c :: c in cats[..i] ==> c in categories
        invariant !ok ==> fault || !NoDup(cats) || exists j :: 0 <= j < |cats| && cats[j] !in categories
      {
        var c := cats[i];
        if c !in categories {
          ok := false;
        } else if Link(id, c) in rows {
          RepeatedCreate(kept, id, cats, i);
          ok := false;
        } else {
          FreshCreate(kept, id, cats, i);
          assert cats[..i + 1] == cats[..i] + [c];
          rows := rows + [Link(id, c)];
          i := i + 1;
        }
      }
      if ok {
        assert cats[..i] == cats;
        RowsReplacedWellFormed(postCategories, posts.Keys, categories.Keys, id, cats);
        posts := posts[id := Post(posts[id].authorId, fields)];
        postCategories := rows;
      }
    }

    /** `findFirst({ where: { email } })` on the verification tokens. */
    method FindVerificationTokenByEmail(email: string) returns (found: Option<TokenId>)
      ensures found.Some? ==> found.value in verificationTokens && verificationTokens[found.value].email == email
      ensures found.None? ==> forall k :: k in verificationTokens ==> verificationTokens[k].email != email
    {
      if k :| k in verificationTokens && verificationTokens[k].email == email {
        found := Some(k);
      } else {
        found := None;
      }
    }

    method DeleteVerificationToken(id: TokenId)
      requires Valid()
      modifies this`verificationTokens
      ensures Valid()
      ensures verificationTokens == old(verificationTokens) - {id}
    {
      verificationTokens := verificationTokens - {id};
    }

    /** `create`: the store allocates the fresh row id `id`. */
    method CreateVerificationToken(id: TokenId, t: Token)
      requires Valid() && id !in verificationTokens
      modifies this`verificationTokens
      ensures Valid()
      ensures verificationTokens == old(verificationTokens)[id := t]
    {
      verificationTokens := verificationTokens[id := t];
    }

    /** `findFirst({ where: { email } })` on the password-reset tokens. */
    method FindPasswordResetTokenByEmail(email: string) returns (found: Option<TokenId>)
      ensures found.Some? ==> found.value in passwordResetTokens && passwordResetTokens[found.value].email == email
      ensures found.None? ==> forall k :: k in passwordResetTokens ==> passwordResetTokens[k].email != email
    {
      if k :| k in passwordResetTokens && passwordResetTokens[k].email == email {
        found := Some(k);
      } else {
        found := None;
      }
    }

    method DeletePasswordResetToken(id: TokenId)
      requires Valid()
      modifies this`passwordResetTokens
      ensures Valid()
      ensures passwordResetTokens == old(passwordResetTokens) - {id}
    {
      passwordResetTokens := passwordResetTokens - {id};
    }

    /** `create`: the store allocates the fresh row id `id`. */
    method CreatePasswordResetToken(id: TokenId, t: Token)
      requires Valid() && id !in passwordResetTokens
      modifies this`passwordResetTokens
      ensures Valid()
      ensures passwordResetTokens == old(passwordResetTokens)[id := t]
    {
      passwordResetTokens := passwordResetTokens[id := t];
    }
  }

  /** A create that meets an existing row of the post can only come from a repeated category id. */
  lemma RepeatedCreate(kept: seq<Link>, id: PostId, cats: seq<CategoryId>, i: int)
    requires 0 <= i < |cats| && forall l :: l in kept ==> l.post != id
    requires Link(id, cats[i]) in kept + LinksFor(id, cats[..i])
    ensures !NoDup(cats)
  {
    var added := LinksFor(id, cats[..i]);
    assert Link(id, cats[i]) in added;
    var m :| 0 <= m < |added| && added[m] == Link(id, cats[i]);
    assert cats[m] == cats[i];
  }

  /** A create that meets no row of the post extends the created rows and keeps the ids distinct. */
  lemma FreshCreate(kept: seq<Link>, id: PostId, cats: seq<CategoryId>, i: int)
    requires 0 <= i < |cats| && NoDup(cats[..i])
    requires Link(id, cats[i]) !in kept + LinksFor(id, cats[..i])
    ensures NoDup(cats[..i + 1])
    ensures LinksFor(id, cats[..i + 1]) == LinksFor(id, cats[..i]) + [Link(id, cats[i])]
  {
    var added := LinksFor(id, cats[..i]);
    forall j | 0 <= j < i ensures cats[..i][j] != cats[i] {
      assert added[j] in kept + added;
    }
    assert cats[..i + 1] == cats[..i] + [cats[i]];
  }

  /** Replacing a post's rows by one row per distinct known category keeps the table well formed. */
  lemma RowsReplacedWellFormed(rows: seq<Link>, posts: set<PostId>, categories: set<CategoryId>, id: PostId, cats: seq<CategoryId>)
    requires LinksWellFormed(rows, posts, categories)
    requires id in posts && NoDup(cats) && forall c :: c in cats ==> c in categories
    ensures LinksWellFormed(Filter(rows, (l: Link) => l.post != id) + LinksFor(id, cats), posts, categories)
  {
    var kept := Filter(rows, (l: Link) => l.post != id);
    var added := LinksFor(id, cats);
    var all := kept + added;
    forall i, j | 0 <= i < j < |all| ensures all[i] != all[j] {
      if j < |kept| {
      } else if i >= |kept| {
        assert all[i] == added[i - |kept|] && all[j] == added[j - |kept|];
      } else {
        assert all[i] in kept && all[j] == added[j - |kept|];
      }
    }
    forall l | l in all ensures l.post in posts && l.category in categories {
      if l !in kept {
        var m :| 0 <= m < |added| && added[m] == l;
        assert cats[m] in cats;
      }
    }
  }
}
