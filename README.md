# Blog server actions: category deletion, post editing, token regeneration and the route middleware

This project models the server-side core of a Next.js blog backed by a Prisma/PostgreSQL store:

- **`updatePostsCategories`** runs before a category is deleted. Any post whose only category link is to that category gets the link re-pointed to the "Uncategorized" category.
- **`deleteCategory`** is a chain of guards:
  1. there is a session user;
  2. the user exists;
  3. the category exists;
  4. the user is an administrator;
  5. the category is not the fallback;
  6. a fallback exists.

  It then reassigns orphans and deletes the category row.
- **`editPost`** validates the form, checks the session and the author, and then overwrites the post's fields. In the same nested update it replaces the post's category links.
- **`generateVerificationToken` / `generatePasswordResetToken`** delete the token row of an email, if one exists, and create a fresh one.
- **the middleware** makes the routing decision (pass through or redirect) and sets the device-type header. It builds the `callbackUrl` as well.

The store is the class `Store.Database`. Its tables are fields:

- the `postCategories` join table is a `seq<Link>` kept free of duplicate pairs, which is its primary key;
- posts, categories and the two token tables are maps.

The store calls that write the join table, the posts or the categories are methods that state the new table, including their refusal cases:

- a missing row;
- a primary-key clash;
- a foreign-key violation;
- an injected fault.

The token calls (find, delete, create) are methods that state the new token table; they model no refusal. `fetchPostsIdsInCategory` is the function `CategoryDeletion.PostsInCategory`. The other guard lookups are inputs or map membership.

What the database does with `postCategories` rows when their category is deleted is the constant `onCategoryDelete` (`Cascade` or `Restrict`). The schema is not part of this model, so each deletion property is stated for both settings.

`Promise.all` in `updatePostsCategories` is modelled as a loop over the posts in list order. A rejected call does not undo the calls that went through, so the loop goes on past failures. The effect of the loop is the fold `PostsCategories.Reassign`, whose properties are proved as lemmas.

## Model

| member | source | states |
|---|---|---|
| PostsCategories.UpdatePostsCategories | actions/update-posts-categories.ts:11-48 | the join table becomes exactly the fold `Reassign` of the per-post callbacks over the listed posts; the result is `{ error }` iff some callback failed, else `{ success }`; the store constraints are kept; an empty list is a success that changes nothing |
| PostsCategories.UpdatePostCategory | actions/update-posts-categories.ts:17-39 | one callback leaves the join table and its rejection flag exactly as `Step` describes, and keeps the store constraints |
| PostsCategories.Reassign | actions/update-posts-categories.ts:17-41 | the callbacks for the listed posts, one after the other, keep the table length; what the fold does is stated by the lemmas below |
| PostsCategories.Step | actions/update-posts-categories.ts:17-39 | one callback rewrites at most the row (p, category), and only into (p, fallback) when p has exactly one link; a faulty post fails; no duplicate pair and no row outside the old rows plus (p, fallback) appears |
| PostsCategories.ReassignShape | actions/update-posts-categories.ts:17-41 | rows are rewritten in place, never added or removed; each position keeps its post; a position changes only from (p, category) to (p, fallback), for a listed p with exactly one link |
| PostsCategories.ReassignKeepsCounts | actions/update-posts-categories.ts:20-35 | every post keeps its number of category links through the reassignment |
| PostsCategories.LeavesOtherPostsAlone | actions/update-posts-categories.ts:24-38 | links of a post that is not listed, or has other than one link, are left as they were |
| PostsCategories.SoleLinkPosition | actions/update-posts-categories.ts:24-35 | the row holding a non-faulty post's only link ends up as (p, fallback) iff the post is listed |
| PostsCategories.RelinksSoleLink | actions/update-posts-categories.ts:24-35 | a listed, non-faulty post whose only link was to the category ends up linked to the fallback and to nothing else |
| PostsCategories.ReassignWellFormed | actions/update-posts-categories.ts:25-35 | the reassignment keeps the join table free of duplicate pairs and pointing only at existing posts and categories |
| PostsCategories.FaultFails | actions/update-posts-categories.ts:41-46 | one rejected callback anywhere in the list makes the whole call fail |
| PostsCategories.FailureSticks | actions/update-posts-categories.ts:41-46 | a failure among the first n posts is still a failure for the whole list |
| PostsCategories.DistinctLinkedPostsSucceed | actions/update-posts-categories.ts:17-43 | distinct listed posts, each linked to the category, with no faults and an existing fallback, always succeed |
| PostsCategories.DuplicateSoleLinkFails | actions/update-posts-categories.ts:24-46 | a sole-linked post listed twice makes the second update miss its row, so the call fails |
| CategoryDeletion.DeletePrecheck | actions/delete-category.ts:16-48 | the guards in source order with their messages: unauthorized (no session or unknown user), missing category, not an administrator, deleting the fallback, no fallback; it passes iff all hold and yields the fallback id |
| CategoryDeletion.PostsInCategory | actions/delete-category.ts:50 | the listed posts are exactly those with a link to the category, without repeats |
| CategoryDeletion.DeletionTail | actions/delete-category.ts:50-72 | a failed reassignment stops with the category kept; success iff the reassignment and the category delete both succeed, and then the category is gone, the links are exactly what the category delete leaves of the reassigned table, and no row points at the category; a failed reassignment answers "Failed to update post categories before deleting category!" and any other failure "Failed to delete category!" |
| CategoryDeletion.ReassignLeavesOtherLink | actions/delete-category.ts:50-58 | after a successful reassignment every post that had a link has one to a category other than the one being deleted |
| CategoryDeletion.DeletionKeepsPostsLinked | actions/delete-category.ts:50-68 | after a successful deletion every post that had a category link still has one |
| CategoryDeletion.DeletionRelinksOrphans | actions/delete-category.ts:50-68 | after a successful deletion, a post whose only link was to the deleted category is linked to the fallback and nothing else |
| CategoryDeletion.DeletionKeepsOtherLinks | actions/delete-category.ts:50-68 | after a successful deletion, a post linked to the deleted category and to another one keeps its link to the other one |
| CategoryDeletion.RestrictNeedsSoleLinks | actions/delete-category.ts:52-66 | without cascading deletes, success means every post of the category had it as its only link |
| CategoryDeletion.RestrictSucceedsWithSoleLinks | actions/delete-category.ts:52-68 | without cascading deletes or faults, the deletion succeeds when every post of the category has it as its only link |
| CategoryDeletion.CascadeWithoutFaultsSucceeds | actions/delete-category.ts:50-68 | with cascading deletes and no faults, the deletion succeeds whenever the guards pass |
| CategoryDeletion.DeleteCategory | actions/delete-category.ts:14-73 | a failing guard returns its message and changes nothing; otherwise the new store and result are those of `DeletionTail`; on success every linked post stays linked, sole-linked posts are moved to the fallback, links to other categories are kept, and the category is gone and unreferenced |
| PostEditing.GetSinglePostAsWritten | services/posts/posts.server.ts:6-31 | the lookup as written never returns null, and gives no author for a missing post |
| PostEditing.GetSinglePost | services/posts/posts.server.ts:6-31 | the lookup as `editPost` needs it: a post is returned iff it exists, with its author |
| PostEditing.EditPrecheck | actions/edit-post.ts:16-46 | the guards in source order with their messages: invalid fields, unauthorized (no session or unknown user), missing post (empty id or not found), not the author; it passes iff all hold and yields the validated form |
| PostEditing.MissingPostAsWrittenIsPermissionError | actions/edit-post.ts:38-46 | with the lookup as written, editing a missing post is answered with the permission error |
| PostEditing.MissingPostIsReportedMissing | actions/edit-post.ts:38-42 | with the intended lookup, editing a missing post is answered with "does not exist" |
| PostEditing.LookupsAgreeOnExistingPosts | actions/edit-post.ts:38-46 | on existing posts both lookups lead to the same guard outcome |
| PostEditing.EditPost | actions/edit-post.ts:12-81 | with the corrected post lookup `GetSinglePost`: a failing guard returns its message and changes nothing; after the guards, success iff no fault, no repeated category and every category exists; on success the fields are replaced, the author is kept, the post's links are exactly the submitted categories and other posts' links are unchanged; a failed update answers "Failed to update the post!" and changes nothing |
| Store.Database.UpdatePost | actions/edit-post.ts:52-75 | the nested update is all or nothing: it succeeds iff no fault, no repeated category and all categories exist; then it is the old post rows with the fields replaced and the post's links deleted and recreated from the list |
| Store.Database.CountLinks | actions/update-posts-categories.ts:20-22 | the number of link rows of the post |
| Store.Database.UpdateLink | actions/update-posts-categories.ts:25-35 | the compound-key update succeeds iff `UpdateLinkRows` accepts it, and then the table is its result |
| Store.UpdateLinkRows | actions/update-posts-categories.ts:25-35 | refused iff the row is missing, the new pair already exists or the target category is missing; otherwise exactly that row is re-pointed in place and no duplicate appears |
| Store.Database.DeleteCategoryRow | actions/delete-category.ts:64-66 | succeeds iff no fault, the category exists and the referential action allows it; then the category is removed and the links are those of `CategoryDelete`; otherwise nothing changes |
| Store.CategoryDelete | actions/delete-category.ts:64-66 | refused iff the action is Restrict and a row points at the category; otherwise exactly the rows pointing elsewhere remain |
| Store.Count | actions/update-posts-categories.ts:20-22 | positive iff the post has some link, and at most the table size |
| Store.Database.FindVerificationTokenByEmail | libs/tokens.ts:11 | returns a row of that email when there is one, and none exactly when there is none |
| Store.Database.FindPasswordResetTokenByEmail | libs/tokens.ts:34 | returns a row of that email when there is one, and none exactly when there is none |
| Store.Database.DeleteVerificationToken | libs/tokens.ts:13-17 | the verification table loses exactly the row with that id; the store constraints are kept |
| Store.Database.CreateVerificationToken | libs/tokens.ts:19-25 | the verification table gains exactly the new row under the fresh id; the store constraints are kept |
| Store.Database.DeletePasswordResetToken | libs/tokens.ts:36-40 | the reset table loses exactly the row with that id; the store constraints are kept |
| Store.Database.CreatePasswordResetToken | libs/tokens.ts:42-48 | the reset table gains exactly the new row under the fresh id; the store constraints are kept |
| Tokens.Regenerated | libs/tokens.ts:7-28 | the new row is present, rows of other emails are kept, no other row of the email is left, and one row per email is preserved |
| Tokens.DeleteThenCreate | libs/tokens.ts:13-25 | deleting the row found for the email and then creating the new row gives `Regenerated`, while the table has one row per email |
| Tokens.RegeneratedTwiceKeepsLast | libs/tokens.ts:7-28 | regenerating twice for one email leaves only the second token of that email |
| Tokens.GenerateVerificationToken | libs/tokens.ts:7-28 | returns the created row (email, token, expiry), which is stored; rows of other emails stay; with one row per email before, the table becomes `Regenerated` and still has one row per email; the reset-token table is unchanged |
| Tokens.GeneratePasswordResetToken | libs/tokens.ts:30-51 | the same for the password-reset table, with the verification table unchanged |
| Middleware.BuildCallbackUrl | middleware.ts:53-57 | the callback is the pathname followed by the search string |
| Middleware.HandleRequest | middleware.ts:16-71 | API-auth paths pass; on auth routes only logged-in users are redirected, to the default redirect; elsewhere exactly anonymous users on non-public routes are redirected to the log-in page with the encoded callback; of the headers the middleware sets, pass-through responses get exactly `x-device-type`, which is "mobile" iff the device is a mobile one and "desktop" otherwise, and redirects get none (the redirect target is the location) |

## Left out

- Authentication (`getCurrentUser`, NextAuth) is an input: the optional session user. The user lookup is membership in `users`.
- The schema check (`ManagePostSchema.safeParse`) is an input: the validated form, or none. The schema is not part of this model.
- `fetchSingleCategoryById` is modelled as membership in `categories`. `fetchUncategorizedCategory` is the fallback id, an input that must name an existing category. Their query code is not part of this model.
- `fetchPostsIdsInCategory` returns its posts in join-table order. The query's real order is unspecified.
- Store faults are not modelled in the guard lookups or in `fetchPostsIdsInCategory` (actions/delete-category.ts:50). Neither is the outer `catch` that would answer "Failed to delete category!" for them (actions/delete-category.ts:69-72). Faults are modelled for the category update calls (`faulty`), the category delete (`deleteFault`) and the nested post update (`fault`).
- The concurrency of `Promise.all` is left out: the callbacks run in list order. A duplicate id of a sole-linked post fails in every interleaving, because the second update misses its row. Other duplicates change nothing in any order, so the reported result and the final table agree.
- `console.error` logging is left out.
- The uuid and the row id of a new token are parameters. `ONE_HOUR_EXPIRE` is the `expires` parameter, because its definition is not part of this model.
- The token functions have no `try`/`catch`, and store faults in them are not modelled.
- The token lookups `getVerificationTokenByEmail` / `getPasswordResetTokenByEmail` are modelled by what they return, not how they query.
- The middleware takes `isPublicRoute`, `encodeURIComponent` and the route constants (`API_AUTH_PREFIX`, `AUTH_ROUTES`, `DEFAULT_LOGIN_REDIRECT`) as parameters. Resolving the redirect against the request URL is left out, and the location is kept as the relative reference. The `matcher` config does not have a model.
- `userAgent` parsing is left out: the device type is an input.
- PostEditing.EditPost: `editPost` does not keep every post linked. An empty category list deletes all of the post's links (actions/edit-post.ts:59-70), and the model keeps that behaviour.
- PostEditing.EditPost: runs its guards on the corrected lookup `GetSinglePost`, not on the lookup as written. For a missing, non-empty post id it answers "The post you are trying to edit does not exist", where the source answers "You have no permission to edit this post!". Both outcomes are stated, by `MissingPostIsReportedMissing` and `MissingPostAsWrittenIsPermissionError` (see "## Findings"). `LookupsAgreeOnExistingPosts` shows the two agree on every existing post.
- Store.Database.DeleteVerificationToken / DeletePasswordResetToken: deleting an id that is not in the table is a no-op here, where Prisma would throw. The only callers pass an id they have just found.
- Prisma's real SQL, transactions and isolation are not modelled. The nested update is all or nothing, and the other calls are single-row.
- The UI, the API routes and the other services are not part of this model.

## Findings

| source | as written | input that shows it | evidently intended | confidence | as-written member | corrected member |
|---|---|---|---|---|---|---|
| services/posts/posts.server.ts:21-27 | `getSinglePost` spreads the (possibly null) query result into a new object, so a missing post comes back as a non-null object without `authorId` | `editPost(validForm, "missing-id")` by a known user: the `!editablePost` guard (actions/edit-post.ts:40) lets it through, and the call returns "You have no permission to edit this post!" | null for a missing post, so the call returns "The post you are trying to edit does not exist" | not executed | PostEditing.MissingPostAsWrittenIsPermissionError | PostEditing.MissingPostIsReportedMissing |
