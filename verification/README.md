# Blogicum post visibility and permissions, in Dafny

Blogicum is a small blog: posts grouped in categories, optional locations,
comments on posts, and a profile page per user. This project models the
rules its views apply on top of the data store:

- which posts are public;
- who may open a post's detail page;
- what the index, category and profile listings hold, in which order, and
  with which comment counts;
- how listings are cut into pages of ten;
- who may edit or delete a post or a comment, and what everyone else gets;
- how new posts and comments get their author;
- what the store does to dependent rows when a category, location, post or
  user is deleted;
- how a post's comments are ordered, and how records print as short strings.

Everything is a pure function. The store is an immutable `Store` value with
one sequence per table. The current time (`now`) and the requesting viewer
(`Anonymous` or `Authenticated(user)`) are parameters. A handler answers with
a `Reply`:

- `Ok`;
- `NotFound`;
- `RedirectToPost(id)`, the soft denial the edit and delete handlers give;
- `RedirectToLogin`;
- `FormInvalid`.

A handler that writes returns the new store inside `Ok`. Every other reply
carries no store, so the store stays as it was.

Files:

- `seqs.dfy` (module `Seqs`): generic `Filter`, `Find`, `FreshKey`,
  insertion `SortBy` and `Concat`, with contracts. These are the query
  primitives the listings are built from. `UniqueBy` states a primary key
  or unique column by position: no two rows hold the same key, so a table
  cannot hold one row twice. Lemmas show that filtering, and appending a
  row with an unused key, keep such a key unique.
- `models.dfy` (module `Models`): records, the store's integrity rules
  (`WF`), `__str__` truncation, the comment ordering and the on-delete rules.
  It also proves that each deletion keeps the store well-formed.
- `views.dfy` (module `Views`): the visibility predicate, listings,
  pagination, the detail, category and profile pages, and the write handlers
  with their ownership gates.
- `properties.dfy` (module `Properties`): lemmas that relate handlers to one
  another and to the integrity rules.

Two rules of the code are worth spelling out:

- **Null category.** A post whose category is null is *not* public. The
  filter `category__is_published=True` is a join, so a null category fails
  it (`IsPublic`).
- **Non-owner profile page.** For anyone but the owner, the profile handler
  returns the whole public listing, not only the owner's posts. This is
  recorded under Findings. `Views.ProfileAsWritten` models the handler as
  written. `Views.Profile` is the corrected page that the lemmas use.

A post's `author`, `title`, `text` and `pubDate` are always present, because
they are plain fields of the `Post` datatype. `location` and `category` are
`Option`s. The category column is nullable but not blank, so the post form
requires a category (`ValidPostFields`). Only deleting the category later
makes it null.

## Model

| member | source | states |
|---|---|---|
| Models.Truncate | blogicum/blog/models.py:8 | the result is a prefix of the text, at most 20 characters long; it is the whole text when that is at most 20 characters, and exactly 20 characters otherwise |
| Models.CategoryStr | blogicum/blog/models.py:31-32 | a category prints as a prefix of its title of at most 20 characters: the whole title when it is short enough, and exactly its first 20 characters otherwise |
| Models.LocationStr | blogicum/blog/models.py:42-43 | a location prints as a prefix of its name of at most 20 characters: the whole name when it is short enough, and exactly its first 20 characters otherwise |
| Models.PostStr | blogicum/blog/models.py:91-92 | a post prints as a prefix of its title of at most 20 characters: the whole title when it is short enough, and exactly its first 20 characters otherwise |
| Models.CommentThread | blogicum/blog/models.py:113-116 | a post's comments are exactly the comment rows pointing at it, oldest `createdAt` first, and there are as many as its comment count |
| Models.DeleteCategory | blogicum/blog/models.py:71-76 | deleting a category removes that category row and nulls the category of exactly the posts that referenced it; every other post, user, location and comment is unchanged |
| Models.DeleteLocation | blogicum/blog/models.py:64-70 | deleting a location nulls the location of exactly the posts that referenced it; nothing else changes |
| Models.DeletePost | blogicum/blog/models.py:97-102 | deleting a post removes that post and exactly the comments on it |
| Models.DeleteComment | blogicum/blog/models.py:95-111 | deleting a comment removes exactly the rows with that id; no other table changes, because no row refers to a comment |
| Models.DeleteUser | blogicum/blog/models.py:59-63 | deleting a user removes their posts, their own comments and every comment on one of their posts, and nothing else |
| Models.DeleteCategoryKeepsWF | blogicum/blog/models.py:71-76 | the set-null on category deletion leaves every foreign key resolving and ids unique |
| Models.DeleteLocationKeepsWF | blogicum/blog/models.py:64-70 | the set-null on location deletion leaves the store well-formed |
| Models.DeletePostKeepsWF | blogicum/blog/models.py:97-102 | the comment cascade on post deletion leaves no comment pointing at a missing post |
| Models.DeleteCommentKeepsWF | blogicum/blog/models.py:95-111 | removing a comment row leaves the store well-formed |
| Models.DeleteUserKeepsWF | blogicum/blog/models.py:107-111 | the post and comment cascades on user deletion leave no dangling author or post reference |
| Views.Listing | blogicum/blog/views.py:77-79 | a listing holds exactly the given posts (as a multiset), latest `pubDate` first, each with the number of comments on it |
| Views.PublicListing | blogicum/blog/views.py:67-80 | the index listing holds exactly the posts that are published, have a published category and have `pubDate <= now`, latest first, with true comment counts |
| Views.Pages | blogicum/blog/views.py:63-65 | pages hold at most 10 entries; every page but the last holds exactly 10; there are max(1, ceil(n/10)) of them; concatenated they give back the listing |
| Views.PostDetail | blogicum/blog/views.py:101-121 | the detail page is found exactly when a post with the id exists that the viewer wrote or that is public; it then shows that post and its comments oldest first; otherwise not found |
| Views.CategoryPosts | blogicum/blog/views.py:127-134 | not found exactly when no published category has the slug; otherwise the public posts of that category, each listed once (the multiset of the filtered table), latest first, with counts |
| Views.Profile | blogicum/blog/views.py:171-186 | not found exactly when no user has the username; the owner sees every post the user wrote; anyone else sees the user's public posts (corrected non-owner branch); in both branches each post is listed once (the multiset of the filtered table) |
| Views.ProfileAsWritten | blogicum/blog/views.py:171-186 | as written: the owner sees every post they wrote; anyone else gets the whole public listing, with the same multiset of posts as the index |
| Views.PostCreate | blogicum/blog/views.py:142-147 | anonymous requests go to login; a form whose category is missing or dangling is invalid; otherwise exactly one post is appended with a fresh id, the requester as author and the form's fields |
| Views.PostUpdate | blogicum/blog/views.py:83-90 | not found exactly when no post has the id; a viewer who is not the author is redirected to that post with no write; an invalid form is answered only to the author and writes nothing; a write happens only for the author and a valid form, changes that post's fields, and every other row stays as it was |
| Views.PostDelete | blogicum/blog/views.py:83-90 | same gate as editing; the author's delete is the post cascade rule `DeletePost`: the post and exactly its comments go |
| Views.CommentCreate | blogicum/blog/views.py:205-216 | anonymous requests go to login; not found exactly when the post does not exist, with no visibility check; otherwise one comment is appended with a fresh id, the requester as author, the given post and text, and `createdAt = now` |
| Views.CommentUpdate | blogicum/blog/views.py:41-56 | not found exactly when no comment has the id; anyone but the comment's author is redirected to the post id of the request; the author's edit changes only that comment's text |
| Views.CommentDelete | blogicum/blog/views.py:52-56 | same gate as comment editing; the author's delete is `DeleteComment`: exactly that comment goes |
| Properties.SignedInDetailRule | blogicum/blog/views.py:101-114 | a signed-in viewer gets an existing post if and only if they wrote it or it is public |
| Properties.AnonymousDetailRule | blogicum/blog/views.py:24-33 | an anonymous viewer gets an existing post if and only if it is public |
| Properties.ListedCountMatchesDetail | blogicum/blog/views.py:77-79 | the comment count a listing shows equals the length of the comment list on that post's detail page |
| Properties.ScheduledNowIsListed | blogicum/blog/views.py:72-74 | a published post in a published category whose `pubDate` equals `now` is already listed |
| Properties.HiddenCategoryHidesPost | blogicum/blog/views.py:101-115 | a post in an unpublished category is missing from the public listing and from every category page, yet its author can open it |
| Properties.TwentyFiveMakeThreePages | blogicum/blog/views.py:21 | 25 listed posts make three pages of 10, 10 and 5, in listing order |
| Properties.CategoryPageWithinPublic | blogicum/blog/views.py:133-134 | every post on a category page is also in the public listing |
| Properties.CategoryPageOf | blogicum/blog/views.py:127-134 | for a published category, its page holds exactly that category's public posts |
| Properties.WrittenByIsAuthor | blogicum/blog/views.py:181 | filtering by the author's username selects exactly the posts whose author is that user, because usernames are unique |
| Properties.OwnerProfileListsAllOwnPosts | blogicum/blog/views.py:177-184 | the owner's profile lists every post whose author is the owner, whatever its publication flag, date or category |
| Properties.OthersSeeOwnersPublicPosts | blogicum/blog/views.py:185-186 | on the corrected profile, anyone else sees exactly the owner's public posts |
| Properties.ProfileAsWrittenListsOtherAuthors | blogicum/blog/views.py:185-186 | as written, a profile opened by anyone but its owner lists public posts by other authors; the corrected page does not |
| Properties.PostGateRedirects | blogicum/blog/views.py:87-90 | anyone but the post's author, anonymous viewers included, who edits or deletes it is redirected to that post |
| Properties.AuthorEditRule | blogicum/blog/views.py:83-90 | once the author passes the gate, the edit is answered with the form again exactly when the form is invalid, and saved exactly when it is valid |
| Properties.CommentGateRedirects | blogicum/blog/views.py:52-56 | anyone but the comment's author, anonymous viewers included, is redirected to the post id of the request, whatever it is |
| Properties.CommentGateIgnoresPostId | blogicum/blog/views.py:46-56 | the comment's author passes the gate through any post id, even one that is not the comment's post |
| Properties.CreatedPostHasCategory | blogicum/blog/models.py:71-76 | a post created through the form always has a category |
| Properties.CommentCreateCounts | blogicum/blog/views.py:211-216 | adding a comment raises its post's comment count by one and leaves every other post's count unchanged |
| Properties.DeleteCategoryUnlistsItsPosts | blogicum/blog/models.py:71-76 | after a category is deleted, the public listing holds exactly the posts it held before that were not in that category |
| Properties.PostCreateKeepsWF | blogicum/blog/views.py:145-147 | creating a post keeps ids unique and every reference resolving |
| Properties.PostUpdateKeepsWF | blogicum/blog/views.py:153-154 | editing a post keeps the store well-formed |
| Properties.PostDeleteKeepsWF | blogicum/blog/views.py:157-158 | deleting a post through the handler keeps the store well-formed |
| Properties.CommentCreateKeepsWF | blogicum/blog/views.py:211-216 | adding a comment keeps the store well-formed |
| Properties.CommentUpdateKeepsWF | blogicum/blog/views.py:223-224 | editing a comment keeps the store well-formed |
| Properties.CommentDeleteKeepsWF | blogicum/blog/views.py:227-228 | deleting a comment keeps the store well-formed |

## Findings

| source | as written | input that shows it | evidently intended | confidence | as-written member | corrected member |
|---|---|---|---|---|---|---|
| blogicum/blog/views.py:185-186 | for any viewer other than the profile owner, the profile queryset is the whole public listing; it is not filtered by author | users alice and bob, and one public post by bob; an anonymous viewer opens alice's profile and sees bob's post | a profile lists only that user's posts, and only the public ones for other viewers | high; not executed | Views.ProfileAsWritten | Views.Profile |

`Properties.ProfileAsWrittenListsOtherAuthors` states the discrepancy for
every store. `Properties.OthersSeeOwnersPublicPosts` proves the intended
property of the corrected page.

## Left out

- URL routing (`urls.py`) and path converters are left out. Each handler
  takes its URL arguments (`id`, `post_id`, `comment_id`, slug, username)
  as parameters.
- Templates, context dictionaries, `reverse()` URL strings and success URLs
  are left out. A redirect is the tagged reply `RedirectToPost(id)`, and a
  sign-in redirect is `RedirectToLogin` without its URL.
- `ProfileUpdateView`, image upload, and the GET requests that only render a
  form or a delete confirmation are left out. The form classes are defined
  in a file that is not part of this model.
- Form validation is reduced to the post form's reference checks
  (`ValidPostFields`). Field lengths, empty text and the comment form's own
  checks are not modelled. `CommentCreate` treats the comment form as valid.
- The set of post fields a form may change is taken to be title, text,
  publication time, location, category and the published flag. The author
  is never changed.
- Paginator internals are left out: page lookup by number, invalid page
  numbers and orphans. `Pages` models only the split into pages.
- The order among posts with equal `pubDate` is up to the database. Only
  non-increasing `pubDate` is stated; the insertion sort in the model is one
  admissible order.
- `timezone.now()` and session authentication are left out. Both are
  parameters (`now`, `Viewer`); timestamps are integers on one clock.
- Row ids come from the database. A new row's id is modelled as one above
  the largest id in use (`FreshKey`); any unused id would satisfy the
  contracts.
- `BaseModel` is not part of this model. Its `is_published` and `created_at`
  fields are plain record fields; a new post's `createdAt` is `now`.
- `Comment.__str__` is left out. It formats a datetime and related objects'
  strings, and there is no rule to state about that.
- The ORM's eager loading (`select_related`), query compilation and the
  `Count` aggregate are left out. They are modelled by their results:
  filter, count, sort.
- Running a listing twice with the same store and `now` gives the same
  result. This needs no lemma because every handler is a pure function.
