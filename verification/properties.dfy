/**
  Properties that relate several handlers, or a handler and the store's
  integrity rules: the detail-page rule stated per post, what each
  listing holds for a given post, the ownership gates, how comment counts
  move, and that every write keeps the store well-formed.
 */
module Properties {
  import opened Seqs
  import opened Models
  import opened Views

  // ---------------------------------------------------------------------
  // Detail page
  // ---------------------------------------------------------------------

  /** A signed-in viewer gets an existing post exactly when they wrote it or
      it is public. */
  lemma SignedInDetailRule(s: Store, u: UserId, p: Post, now: int)
    requires UniquePostIds(s) && p in s.posts
    ensures PostDetail(s, Authenticated(u), p.id, now).Ok? <==> p.author == u || IsPublic(s, p, now)
  {
    var r := PostDetail(s, Authenticated(u), p.id, now);
    if r.Ok? {
      SamePostId(s, r.value.post, p);
    } else {
      assert !CanView(s, Authenticated(u), p, now);
    }
  }

  /** An anonymous viewer gets an existing post exactly when it is public. */
  lemma AnonymousDetailRule(s: Store, p: Post, now: int)
    requires UniquePostIds(s) && p in s.posts
    ensures PostDetail(s, Anonymous, p.id, now).Ok? <==> IsPublic(s, p, now)
  {
    var r := PostDetail(s, Anonymous, p.id, now);
    if r.Ok? {
      SamePostId(s, r.value.post, p);
    } else {
      assert !CanView(s, Anonymous, p, now);
    }
  }

  /** The comment count a listing shows for a post is the length of the
      comment list on that post's detail page. */
  lemma ListedCountMatchesDetail(s: Store, now: int, v: Viewer, i: nat)
    requires i < |PublicListing(s, now)|
    ensures var e := PublicListing(s, now)[i];
            var d := PostDetail(s, v, e.post.id, now);
            d.Ok? && |d.value.comments| == e.commentCount
  {
  }

  // ---------------------------------------------------------------------
  // Listings
  // ---------------------------------------------------------------------

  /** A post scheduled for exactly `now` is already listed. */
  lemma ScheduledNowIsListed(s: Store, p: Post, c: Category, now: int)
    requires p in s.posts && p.isPublished && p.pubDate == now
    requires c in s.categories && c.isPublished && p.category == Some(c.id)
    ensures p in PostsOf(PublicListing(s, now))
  {
  }

  /** A published post in an unpublished category is missing from the
      public listing and from every category page, yet its author can
      open it. */
  lemma HiddenCategoryHidesPost(s: Store, p: Post, c: Category, slug: string, now: int)
    requires UniqueCategories(s) && p in s.posts
    requires c in s.categories && !c.isPublished && p.category == Some(c.id)
    ensures p !in PostsOf(PublicListing(s, now))
    ensures var r := CategoryPosts(s, slug, now); r.Ok? ==> p !in PostsOf(r.value)
    ensures PostDetail(s, Authenticated(p.author), p.id, now).Ok?
  {
    assert !CategoryIsPublished(s, c.id) by {
      UniqueByMembers(s.categories, (c: Category) => c.id);
      forall d | d in s.categories && d.id == c.id
        ensures !d.isPublished
      {
        assert d == c;
      }
    }
    assert CanView(s, Authenticated(p.author), p, now);
  }

  /** With 25 posts in a listing there are three pages, of 10, 10 and 5. */
  lemma {:induction false} TwentyFiveMakeThreePages<T(!new)>(xs: seq<T>)
    requires |xs| == 25
    ensures |Pages(xs)| == 3
    ensures |Pages(xs)[0]| == 10 && |Pages(xs)[1]| == 10 && |Pages(xs)[2]| == 5
    ensures Pages(xs)[0] == xs[..10] && Pages(xs)[1] == xs[10..20] && Pages(xs)[2] == xs[20..]
  {
    var rest := xs[10..];
    assert Pages(xs) == [xs[..10]] + Pages(rest);
    assert Pages(rest) == [rest[..10]] + Pages(rest[10..]);
    assert Pages(rest[10..]) == [rest[10..]];
    assert rest[..10] == xs[10..20];
    assert rest[10..] == xs[20..];
  }

  /** A category page lists only posts the public listing also shows. */
  lemma CategoryPageWithinPublic(s: Store, slug: string, now: int, p: Post)
    requires CategoryPosts(s, slug, now).Ok?
    requires p in PostsOf(CategoryPosts(s, slug, now).value)
    ensures p in PostsOf(PublicListing(s, now))
  {
  }

  /** For a published category, the category page holds exactly that
      category's public posts. */
  lemma CategoryPageOf(s: Store, c: Category, now: int)
    requires UniqueCategories(s) && c in s.categories && c.isPublished
    ensures CategoryPosts(s, c.slug, now).Ok?
    ensures forall p :: p in PostsOf(CategoryPosts(s, c.slug, now).value) <==>
              p in s.posts && IsPublic(s, p, now) && p.category == Some(c.id)
  {
    UniqueByMembers(s.categories, (c: Category) => c.slug);
    var d := Find(s.categories, (x: Category) => x.slug == c.slug && x.isPublished).value;
    assert d == c;
  }

  /** Under the store's rules, "written by the user named `u.username`"
      is "written by `u`". */
  lemma WrittenByIsAuthor(s: Store, u: User, p: Post)
    requires UniqueUsers(s) && u in s.users
    ensures WrittenBy(s, p, u.username) <==> p.author == u.id
  {
    UniqueByMembers(s.users, (u: User) => u.id);
    UniqueByMembers(s.users, (u: User) => u.username);
  }

  /** The owner's profile lists every post they wrote, whatever its
      publication flag, date or category. */
  lemma OwnerProfileListsAllOwnPosts(s: Store, u: User, now: int)
    requires UniqueUsers(s) && u in s.users
    ensures var r := Profile(s, Authenticated(u.id), u.username, now);
            r.Ok? && forall p :: p in PostsOf(r.value) <==> p in s.posts && p.author == u.id
  {
    UniqueByMembers(s.users, (u: User) => u.username);
    var w := Find(s.users, (x: User) => x.username == u.username).value;
    assert w == u;
    forall p ensures WrittenBy(s, p, u.username) <==> p.author == u.id {
      WrittenByIsAuthor(s, u, p);
    }
  }

  /** Anyone else sees only the owner's public posts on the profile. */
  lemma OthersSeeOwnersPublicPosts(s: Store, u: User, v: Viewer, now: int)
    requires UniqueUsers(s) && u in s.users && v != Authenticated(u.id)
    ensures var r := Profile(s, v, u.username, now);
            r.Ok? && forall p :: p in PostsOf(r.value) <==>
                       p in s.posts && p.author == u.id && IsPublic(s, p, now)
  {
    UniqueByMembers(s.users, (u: User) => u.username);
    var w := Find(s.users, (x: User) => x.username == u.username).value;
    assert w == u;
    forall p ensures WrittenBy(s, p, u.username) <==> p.author == u.id {
      WrittenByIsAuthor(s, u, p);
    }
  }

  /** As written, a profile viewed by anyone but its owner also lists public
      posts by other authors. */
  lemma ProfileAsWrittenListsOtherAuthors(s: Store, u: User, v: Viewer, p: Post, now: int)
    requires UniqueUsers(s) && u in s.users && v != Authenticated(u.id)
    requires p in s.posts && IsPublic(s, p, now) && p.author != u.id
    ensures var r := ProfileAsWritten(s, v, u.username, now);
            r.Ok? && p in PostsOf(r.value)
    ensures var r := Profile(s, v, u.username, now);
            r.Ok? && p !in PostsOf(r.value)
  {
    UniqueByMembers(s.users, (u: User) => u.username);
    var w := Find(s.users, (x: User) => x.username == u.username).value;
    assert w == u;
    OthersSeeOwnersPublicPosts(s, u, v, now);
  }

  // ---------------------------------------------------------------------
  // Ownership gates
  // ---------------------------------------------------------------------

  /** Anyone but the author, anonymous viewers included, who tries to edit
      or delete a post is redirected to it. */
  lemma PostGateRedirects(s: Store, v: Viewer, p: Post, f: PostFields)
    requires UniquePostIds(s) && p in s.posts && !IsAuthor(v, p)
    ensures PostUpdate(s, v, p.id, f) == RedirectToPost(p.id)
    ensures PostDelete(s, v, p.id) == RedirectToPost(p.id)
  {
    FindPostFinds(s, p);
  }

  /** The post's author always gets past the gate: an invalid form is
      answered with the form again and writes nothing, a valid one is
      saved. */
  lemma AuthorEditRule(s: Store, v: Viewer, p: Post, f: PostFields)
    requires UniquePostIds(s) && p in s.posts && IsAuthor(v, p)
    ensures PostUpdate(s, v, p.id, f).FormInvalid? <==> !ValidPostFields(s, f)
    ensures PostUpdate(s, v, p.id, f).Ok? <==> ValidPostFields(s, f)
  {
    FindPostFinds(s, p);
  }

  /** Anyone but a comment's author is redirected to the post named in the
      request, whichever post that is. */
  lemma CommentGateRedirects(s: Store, v: Viewer, c: Comment, postId: PostId, text: string)
    requires UniqueCommentIds(s) && c in s.comments && v != Authenticated(c.author)
    ensures CommentUpdate(s, v, postId, c.id, text) == RedirectToPost(postId)
    ensures CommentDelete(s, v, postId, c.id) == RedirectToPost(postId)
  {
    FindCommentFinds(s, c);
  }

  /** The comment gate never compares the request's post with the comment's
      post: its author may edit or delete it through any post id. */
  lemma CommentGateIgnoresPostId(s: Store, v: Viewer, c: Comment, postId: PostId, text: string)
    requires UniqueCommentIds(s) && c in s.comments && v == Authenticated(c.author)
    ensures CommentUpdate(s, v, postId, c.id, text).Ok?
    ensures CommentDelete(s, v, postId, c.id).Ok?
  {
    FindCommentFinds(s, c);
  }

  /** A post created through the form always has a category; only deleting
      that category can leave it null afterwards. */
  lemma CreatedPostHasCategory(s: Store, v: Viewer, f: PostFields, now: int)
    requires PostCreate(s, v, f, now).Ok?
    ensures var s' := PostCreate(s, v, f, now).value;
            s'.posts[|s.posts|].category.Some?
  {
  }

  // ---------------------------------------------------------------------
  // Comment counts
  // ---------------------------------------------------------------------

  /** Adding a comment raises its post's count by one and leaves every other
      post's count alone. */
  lemma CommentCreateCounts(s: Store, v: Viewer, postId: PostId, text: string, now: int, q: PostId)
    requires CommentCreate(s, v, postId, text, now).Ok?
    ensures var s' := CommentCreate(s, v, postId, text, now).value;
            CommentCount(s', q) == CommentCount(s, q) + (if q == postId then 1 else 0)
  {
    var s' := CommentCreate(s, v, postId, text, now).value;
    var c := s'.comments[|s.comments|];
    assert s'.comments == s.comments + [c];
    FilterAppend(s.comments, [c], (d: Comment) => d.post == q);
  }

  // ---------------------------------------------------------------------
  // Deleting a category
  // ---------------------------------------------------------------------

  /** After a category is deleted, the public listing holds exactly the
      posts it held before that were not in the category. */
  lemma DeleteCategoryUnlistsItsPosts(s: Store, cid: CategoryId, now: int)
    ensures var s' := DeleteCategory(s, cid);
            forall p :: p in PostsOf(PublicListing(s', now)) <==>
              p in PostsOf(PublicListing(s, now)) && p.category != Some(cid)
  {
  }

  // ---------------------------------------------------------------------
  // Every write keeps the store well-formed
  // ---------------------------------------------------------------------

  /** The session's user is a row of the user table. */
  predicate KnownViewer(s: Store, v: Viewer) {
    v.Authenticated? ==> HasUser(s, v.user)
  }

  lemma PostCreateKeepsWF(s: Store, v: Viewer, f: PostFields, now: int)
    requires WF(s) && KnownViewer(s, v)
    requires PostCreate(s, v, f, now).Ok?
    ensures WF(PostCreate(s, v, f, now).value)
  {
    var s' := PostCreate(s, v, f, now).value;
    var p := s'.posts[|s.posts|];
    assert s'.posts == s.posts + [p];
    AppendKeepsUnique(s.posts, p, (p: Post) => p.id);
  }

  lemma PostUpdateKeepsWF(s: Store, v: Viewer, postId: PostId, f: PostFields)
    requires WF(s)
    requires PostUpdate(s, v, postId, f).Ok?
    ensures WF(PostUpdate(s, v, postId, f).value)
  {
    var s' := PostUpdate(s, v, postId, f).value;
    RowEditKeepsUniquePostIds(s, s');
    EditedPostsResolve(s, s', postId, f);
    RowEditKeepsPostKeys(s, s');
  }

  /** Rewriting one post's fields with fields that pass the form's checks
      keeps every post's references resolving. */
  lemma EditedPostsResolve(s: Store, s': Store, postId: PostId, f: PostFields)
    requires forall p :: p in s.posts ==> PostLinksResolve(s, p)
    requires ValidPostFields(s, f)
    requires s'.users == s.users && s'.categories == s.categories && s'.locations == s.locations
    requires |s'.posts| == |s.posts|
    requires forall i :: 0 <= i < |s.posts| && s.posts[i].id == postId ==>
               s'.posts[i] == WithFields(s.posts[i], f)
    requires forall i :: 0 <= i < |s.posts| && s.posts[i].id != postId ==> s'.posts[i] == s.posts[i]
    ensures forall q :: q in s'.posts ==> PostLinksResolve(s', q)
  {
    forall q | q in s'.posts
      ensures PostLinksResolve(s', q)
    {
      var i :| 0 <= i < |s'.posts| && s'.posts[i] == q;
      assert PostLinksResolve(s, s.posts[i]);
    }
  }

  lemma PostDeleteKeepsWF(s: Store, v: Viewer, postId: PostId)
    requires WF(s)
    requires PostDelete(s, v, postId).Ok?
    ensures WF(PostDelete(s, v, postId).value)
  {
    DeletePostKeepsWF(s, postId);
  }

  lemma CommentCreateKeepsWF(s: Store, v: Viewer, postId: PostId, text: string, now: int)
    requires WF(s) && KnownViewer(s, v)
    requires CommentCreate(s, v, postId, text, now).Ok?
    ensures WF(CommentCreate(s, v, postId, text, now).value)
  {
    var s' := CommentCreate(s, v, postId, text, now).value;
    var c := s'.comments[|s.comments|];
    assert s'.comments == s.comments + [c];
    AppendKeepsUnique(s.comments, c, (c: Comment) => c.id);
  }

  lemma CommentUpdateKeepsWF(s: Store, v: Viewer, postId: PostId, commentId: CommentId, text: string)
    requires WF(s)
    requires CommentUpdate(s, v, postId, commentId, text).Ok?
    ensures WF(CommentUpdate(s, v, postId, commentId, text).value)
  {
    var s' := CommentUpdate(s, v, postId, commentId, text).value;
    RowEditKeepsUniqueCommentIds(s, s');
    EditedCommentsResolve(s, s', commentId, text);
  }

  /** Rewriting one comment's text keeps every comment's references
      resolving. */
  lemma EditedCommentsResolve(s: Store, s': Store, commentId: CommentId, text: string)
    requires forall c :: c in s.comments ==> CommentLinksResolve(s, c)
    requires s'.users == s.users && s'.posts == s.posts
    requires |s'.comments| == |s.comments|
    requires forall i :: 0 <= i < |s.comments| && s.comments[i].id == commentId ==>
               s'.comments[i] == s.comments[i].(text := text)
    requires forall i :: 0 <= i < |s.comments| && s.comments[i].id != commentId ==>
               s'.comments[i] == s.comments[i]
    ensures forall c :: c in s'.comments ==> CommentLinksResolve(s', c)
  {
    forall c | c in s'.comments
      ensures CommentLinksResolve(s', c)
    {
      var i :| 0 <= i < |s'.comments| && s'.comments[i] == c;
      assert CommentLinksResolve(s, s.comments[i]);
    }
  }

  lemma CommentDeleteKeepsWF(s: Store, v: Viewer, postId: PostId, commentId: CommentId)
    requires WF(s)
    requires CommentDelete(s, v, postId, commentId).Ok?
    ensures WF(CommentDelete(s, v, postId, commentId).value)
  {
    DeleteCommentKeepsWF(s, commentId);
  }
}
