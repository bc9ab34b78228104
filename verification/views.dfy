/**
  The blog's request handlers as pure functions of the store, the viewer
  and the current time: who may see a post, what each listing page shows,
  and who may change a post or a comment.

  A handler that writes returns the new store inside `Ok`; every other
  reply carries no store, so the store stays as it was.
 */
module Views {
  import opened Seqs
  import opened Models

  /** Posts per listing page (MAX_QUANTITY_POST). */
  const MaxQuantityPost := 10

  /** Who is making the request. */
  datatype Viewer = Anonymous | Authenticated(user: UserId)

  /** What a handler answers. `RedirectToPost` is the soft denial the
      edit and delete handlers give to anyone but the author. */
  datatype Reply<+T> =
    | Ok(value: T)
    | NotFound
    | RedirectToPost(postId: PostId)
    | RedirectToLogin
    | FormInvalid

  /** One row of a listing: a post and the number of its comments. */
  datatype Entry = Entry(post: Post, commentCount: nat)

  /** What the detail page shows: the post and its comments. */
  datatype PostPage = PostPage(post: Post, comments: seq<Comment>)

  // ---------------------------------------------------------------------
  // Visibility
  // ---------------------------------------------------------------------

  /** Some category with id `cid` exists and is published. */
  predicate CategoryIsPublished(s: Store, cid: CategoryId) {
    exists c :: c in s.categories && c.id == cid && c.isPublished
  }

  /** The public-visibility rule. The category condition is a join, so a
      post whose category is null is not public. */
  predicate IsPublic(s: Store, p: Post, now: int) {
    && p.isPublished
    && p.category.Some?
    && CategoryIsPublished(s, p.category.value)
    && p.pubDate <= now
  }

  predicate IsAuthor(v: Viewer, p: Post) {
    v == Authenticated(p.author)
  }

  /** Who may open a post's detail page: its author, or anyone once the
      post is public. */
  predicate CanView(s: Store, v: Viewer, p: Post, now: int) {
    IsAuthor(v, p) || IsPublic(s, p, now)
  }

  // ---------------------------------------------------------------------
  // Listings
  // ---------------------------------------------------------------------

  function PostsOf(entries: seq<Entry>): (r: seq<Post>)
    ensures |r| == |entries|
    ensures forall i :: 0 <= i < |r| ==> r[i] == entries[i].post
  {
    seq(|entries|, i requires 0 <= i < |entries| => entries[i].post)
  }

  /** Listing order: latest publication time first. */
  ghost predicate NewestFirst(entries: seq<Entry>) {
    forall i, j :: 0 <= i < j < |entries| ==> entries[i].post.pubDate >= entries[j].post.pubDate
  }

  /** Every entry's count is the number of comments on its post. */
  ghost predicate CountsAreTrue(s: Store, entries: seq<Entry>) {
    forall i :: 0 <= i < |entries| ==> entries[i].commentCount == CommentCount(s, entries[i].post.id)
  }

  function Annotate(s: Store, posts: seq<Post>): (r: seq<Entry>)
    ensures PostsOf(r) == posts
    ensures CountsAreTrue(s, r)
  {
    var r := seq(|posts|, i requires 0 <= i < |posts| => Entry(posts[i], CommentCount(s, posts[i].id)));
    assert PostsOf(r) == posts;
    r
  }

  /** A set of posts as a listing shows them: each with its comment count,
      latest first. */
  function Listing(s: Store, posts: seq<Post>): (r: seq<Entry>)
    ensures multiset(PostsOf(r)) == multiset(posts)
    ensures forall p :: p in PostsOf(r) <==> p in posts
    ensures NewestFirst(r)
    ensures CountsAreTrue(s, r)
  {
    var sorted := SortBy(posts, (p: Post) => -p.pubDate);
    var r := Annotate(s, sorted);
    assert forall p :: p in sorted <==> p in posts by {
      forall p ensures p in sorted <==> p in posts {
        assert p in sorted <==> p in multiset(sorted);
        assert p in posts <==> p in multiset(posts);
      }
    }
    assert NewestFirst(r) by {
      forall i, j | 0 <= i < j < |r|
        ensures r[i].post.pubDate >= r[j].post.pubDate
      {
        assert PostsOf(r)[i] == sorted[i] && PostsOf(r)[j] == sorted[j];
      }
    }
    r
  }

  /** The posts anybody may see, in table order. */
  function PublicPosts(s: Store, now: int): (r: seq<Post>)
    ensures forall p :: p in r <==> p in s.posts && IsPublic(s, p, now)
  {
    Filter(s.posts, (p: Post) => IsPublic(s, p, now))
  }

  /** The public listing shared by the index page, the category page and
      other viewers' profile pages. */
  function PublicListing(s: Store, now: int): (r: seq<Entry>)
    ensures forall p :: p in PostsOf(r) <==> p in s.posts && IsPublic(s, p, now)
    ensures multiset(PostsOf(r)) == multiset(PublicPosts(s, now))
    ensures NewestFirst(r)
    ensures CountsAreTrue(s, r)
  {
    Listing(s, PublicPosts(s, now))
  }

  /** Splits a listing into pages of at most `MaxQuantityPost` entries. An
      empty listing still has one (empty) page. */
  function Pages<T(!new)>(xs: seq<T>): (pages: seq<seq<T>>)
    ensures |pages| == if |xs| == 0 then 1 else (|xs| + MaxQuantityPost - 1) / MaxQuantityPost
    ensures forall k :: 0 <= k < |pages| ==> |pages[k]| <= MaxQuantityPost
    ensures forall k :: 0 <= k < |pages| - 1 ==> |pages[k]| == MaxQuantityPost
    ensures Concat(pages) == xs
    decreases |xs|
  {
    if |xs| <= MaxQuantityPost then [xs]
    else
      var rest := Pages(xs[MaxQuantityPost..]);
      var pages := [xs[..MaxQuantityPost]] + rest;
      assert pages[1..] == rest;
      assert xs == xs[..MaxQuantityPost] + xs[MaxQuantityPost..];
      pages
  }

  /** The category page: not found unless a published category has the
      slug; otherwise the public posts of that category. */
  function CategoryPosts(s: Store, slug: string, now: int): (r: Reply<seq<Entry>>)
    ensures r.Ok? || r.NotFound?
    ensures r.NotFound? <==> forall c :: c in s.categories && c.slug == slug ==> !c.isPublished
    ensures r.Ok? ==>
              exists c :: c in s.categories && c.slug == slug && c.isPublished &&
                (forall p :: p in PostsOf(r.value) <==>
                   p in s.posts && IsPublic(s, p, now) && p.category == Some(c.id)) &&
                multiset(PostsOf(r.value)) ==
                  multiset(Filter(s.posts, (p: Post) => IsPublic(s, p, now) && p.category == Some(c.id)))
    ensures r.Ok? ==> NewestFirst(r.value) && CountsAreTrue(s, r.value)
  {
    match Find(s.categories, (c: Category) => c.slug == slug && c.isPublished)
    case None => NotFound
    case Some(c) =>
      Ok(Listing(s, Filter(s.posts, (p: Post) => IsPublic(s, p, now) && p.category == Some(c.id))))
  }

  /** Post `p`'s author has the given username (the join the profile page
      filters on). */
  predicate WrittenBy(s: Store, p: Post, username: string) {
    exists u :: u in s.users && u.id == p.author && u.username == username
  }

  /** The profile page: all of the owner's posts when the owner looks,
      otherwise the owner's public posts. */
  function Profile(s: Store, v: Viewer, username: string, now: int): (r: Reply<seq<Entry>>)
    ensures r.Ok? || r.NotFound?
    ensures r.NotFound? <==> forall u :: u in s.users ==> u.username != username
    ensures r.Ok? ==>
              exists u :: u in s.users && u.username == username &&
                (v == Authenticated(u.id) ==>
                   && (forall p :: p in PostsOf(r.value) <==> p in s.posts && WrittenBy(s, p, username))
                   && multiset(PostsOf(r.value)) ==
                        multiset(Filter(s.posts, (p: Post) => WrittenBy(s, p, username)))) &&
                (v != Authenticated(u.id) ==>
                   && (forall p :: p in PostsOf(r.value) <==>
                         p in s.posts && WrittenBy(s, p, username) && IsPublic(s, p, now))
                   && multiset(PostsOf(r.value)) ==
                        multiset(Filter(s.posts, (p: Post) => WrittenBy(s, p, username) && IsPublic(s, p, now))))
    ensures r.Ok? ==> NewestFirst(r.value) && CountsAreTrue(s, r.value)
  {
    match Find(s.users, (u: User) => u.username == username)
    case None => NotFound
    case Some(u) =>
      if v == Authenticated(u.id) then
        Ok(Listing(s, Filter(s.posts, (p: Post) => WrittenBy(s, p, username))))
      else
        Ok(Listing(s, Filter(s.posts, (p: Post) => WrittenBy(s, p, username) && IsPublic(s, p, now))))
  }

  /** The profile page as the handler is written: any viewer but the owner
      gets the whole public listing, whoever wrote the posts. */
  function ProfileAsWritten(s: Store, v: Viewer, username: string, now: int): (r: Reply<seq<Entry>>)
    ensures r.Ok? || r.NotFound?
    ensures r.NotFound? <==> forall u :: u in s.users ==> u.username != username
    ensures r.Ok? ==>
              exists u :: u in s.users && u.username == username &&
                (v == Authenticated(u.id) ==>
                   && (forall p :: p in PostsOf(r.value) <==> p in s.posts && WrittenBy(s, p, username))
                   && multiset(PostsOf(r.value)) ==
                        multiset(Filter(s.posts, (p: Post) => WrittenBy(s, p, username)))) &&
                (v != Authenticated(u.id) ==>
                   && (forall p :: p in PostsOf(r.value) <==> p in s.posts && IsPublic(s, p, now))
                   && multiset(PostsOf(r.value)) == multiset(PublicPosts(s, now)))
    ensures r.Ok? ==> NewestFirst(r.value) && CountsAreTrue(s, r.value)
  {
    match Find(s.users, (u: User) => u.username == username)
    case None => NotFound
    case Some(u) =>
      if v == Authenticated(u.id) then
        Ok(Listing(s, Filter(s.posts, (p: Post) => WrittenBy(s, p, username))))
      else
        Ok(PublicListing(s, now))
  }

  // ---------------------------------------------------------------------
  // Detail page
  // ---------------------------------------------------------------------

  /** The detail page. A signed-in viewer may see their own post whatever
      its state; everyone may see public posts; the rest is not found. */
  function PostDetail(s: Store, v: Viewer, id: PostId, now: int): (r: Reply<PostPage>)
    ensures r.Ok? || r.NotFound?
    ensures r.Ok? <==> exists p :: p in s.posts && p.id == id && CanView(s, v, p, now)
    ensures r.Ok? ==> r.value.post in s.posts && r.value.post.id == id && CanView(s, v, r.value.post, now)
    ensures r.Ok? ==> forall c :: c in r.value.comments <==> c in s.comments && c.post == id
    ensures r.Ok? ==> |r.value.comments| == CommentCount(s, id)
    ensures r.Ok? ==> forall i, j :: 0 <= i < j < |r.value.comments| ==>
              r.value.comments[i].createdAt <= r.value.comments[j].createdAt
  {
    var found := match v
      case Authenticated(u) =>
        Find(s.posts, (p: Post) => p.id == id && (p.author == u || IsPublic(s, p, now)))
      case Anonymous =>
        Find(s.posts, (p: Post) => p.id == id && IsPublic(s, p, now));
    match found
    case None => NotFound
    case Some(p) => Ok(PostPage(p, CommentThread(s, p.id)))
  }

  // ---------------------------------------------------------------------
  // Writes
  // ---------------------------------------------------------------------

  /** The post fields a submitted form supplies. */
  datatype PostFields = PostFields(
    title: string,
    text: string,
    pubDate: int,
    location: Option<LocationId>,
    category: Option<CategoryId>,
    isPublished: bool)

  /** The reference checks the post form makes: the category is required
      (the column is nullable but not blank) and must exist; the location
      is optional but must exist when given. */
  predicate ValidPostFields(s: Store, f: PostFields) {
    && f.category.Some? && HasCategory(s, f.category.value)
    && (f.location.None? || HasLocation(s, f.location.value))
  }

  function WithFields(p: Post, f: PostFields): Post {
    p.(title := f.title, text := f.text, pubDate := f.pubDate,
       location := f.location, category := f.category, isPublished := f.isPublished)
  }

  /** Creating a post: sign-in required; the author is the requester. */
  function PostCreate(s: Store, v: Viewer, f: PostFields, now: int): (r: Reply<Store>)
    ensures r.Ok? || r.RedirectToLogin? || r.FormInvalid?
    ensures r.RedirectToLogin? <==> v.Anonymous?
    ensures r.FormInvalid? <==> v.Authenticated? && !ValidPostFields(s, f)
    ensures r.Ok? ==>
              && r.value.users == s.users && r.value.categories == s.categories
              && r.value.locations == s.locations && r.value.comments == s.comments
              && |r.value.posts| == |s.posts| + 1
              && r.value.posts[..|s.posts|] == s.posts
              && var p := r.value.posts[|s.posts|];
                 && p.author == v.user
                 && !HasPost(s, p.id)
                 && WithFields(p, f) == p
                 && p.createdAt == now
  {
    match v
    case Anonymous => RedirectToLogin
    case Authenticated(u) =>
      if !ValidPostFields(s, f) then FormInvalid
      else
        var id := FreshKey(s.posts, (p: Post) => p.id);
        var p := Post(id, f.title, f.text, f.pubDate, u, f.location, f.category, f.isPublished, now);
        var posts := s.posts + [p];
        assert posts[..|s.posts|] == s.posts;
        Ok(s.(posts := posts))
  }

  /** Editing a post. Only its author gets past the gate; anybody else,
      signed in or not, is sent back to the post. */
  function PostUpdate(s: Store, v: Viewer, postId: PostId, f: PostFields): (r: Reply<Store>)
    ensures r.Ok? || r.NotFound? || r.RedirectToPost? || r.FormInvalid?
    ensures r.NotFound? <==> !HasPost(s, postId)
    ensures r.RedirectToPost? ==>
              r.postId == postId && exists p :: p in s.posts && p.id == postId && !IsAuthor(v, p)
    ensures r.FormInvalid? ==>
              !ValidPostFields(s, f) && exists p :: p in s.posts && p.id == postId && IsAuthor(v, p)
    ensures r.Ok? ==>
              && (exists p :: p in s.posts && p.id == postId && IsAuthor(v, p))
              && ValidPostFields(s, f)
              && r.value.users == s.users && r.value.categories == s.categories
              && r.value.locations == s.locations && r.value.comments == s.comments
              && |r.value.posts| == |s.posts|
              && (forall i :: 0 <= i < |s.posts| && s.posts[i].id == postId ==>
                    r.value.posts[i] == WithFields(s.posts[i], f))
              && (forall i :: 0 <= i < |s.posts| && s.posts[i].id != postId ==>
                    r.value.posts[i] == s.posts[i])
  {
    match FindPost(s, postId)
    case None => NotFound
    case Some(p) =>
      if !IsAuthor(v, p) then RedirectToPost(postId)
      else if !ValidPostFields(s, f) then FormInvalid
      else
        Ok(s.(posts := seq(|s.posts|, i requires 0 <= i < |s.posts| =>
                             if s.posts[i].id == postId then WithFields(s.posts[i], f) else s.posts[i])))
  }

  /** Deleting a post: the same gate, then the post goes with its comments. */
  function PostDelete(s: Store, v: Viewer, postId: PostId): (r: Reply<Store>)
    ensures r.Ok? || r.NotFound? || r.RedirectToPost?
    ensures r.NotFound? <==> !HasPost(s, postId)
    ensures r.RedirectToPost? ==>
              r.postId == postId && exists p :: p in s.posts && p.id == postId && !IsAuthor(v, p)
    ensures r.Ok? ==>
              && (exists p :: p in s.posts && p.id == postId && IsAuthor(v, p))
              && (forall p :: p in r.value.posts <==> p in s.posts && p.id != postId)
              && (forall c :: c in r.value.comments <==> c in s.comments && c.post != postId)
              && r.value.users == s.users && r.value.categories == s.categories
              && r.value.locations == s.locations
              && r.value == DeletePost(s, postId)
  {
    match FindPost(s, postId)
    case None => NotFound
    case Some(p) =>
      if !IsAuthor(v, p) then RedirectToPost(postId)
      else Ok(DeletePost(s, postId))
  }

  /** Adding a comment: sign-in required; the author is the requester; the
      target post must exist but its visibility is not checked. */
  function CommentCreate(s: Store, v: Viewer, postId: PostId, text: string, now: int): (r: Reply<Store>)
    ensures r.Ok? || r.RedirectToLogin? || r.NotFound?
    ensures r.RedirectToLogin? <==> v.Anonymous?
    ensures r.NotFound? <==> v.Authenticated? && !HasPost(s, postId)
    ensures r.Ok? ==>
              && r.value.users == s.users && r.value.categories == s.categories
              && r.value.locations == s.locations && r.value.posts == s.posts
              && |r.value.comments| == |s.comments| + 1
              && r.value.comments[..|s.comments|] == s.comments
              && var c := r.value.comments[|s.comments|];
                 && c.author == v.user
                 && c.post == postId
                 && c.text == text
                 && c.createdAt == now
                 && forall d :: d in s.comments ==> d.id != c.id
  {
    match v
    case Anonymous => RedirectToLogin
    case Authenticated(u) =>
      if !HasPost(s, postId) then NotFound
      else
        var c := Comment(FreshKey(s.comments, (d: Comment) => d.id), text, postId, now, u);
        var comments := s.comments + [c];
        assert comments[..|s.comments|] == s.comments;
        Ok(s.(comments := comments))
  }

  /** Editing a comment. Only its author gets past the gate; anybody else
      is sent to the post named in the request, which need not be the
      comment's own post. */
  function CommentUpdate(s: Store, v: Viewer, postId: PostId, commentId: CommentId, text: string)
    : (r: Reply<Store>)
    ensures r.Ok? || r.NotFound? || r.RedirectToPost?
    ensures r.NotFound? <==> forall c :: c in s.comments ==> c.id != commentId
    ensures r.RedirectToPost? ==>
              r.postId == postId &&
              exists c :: c in s.comments && c.id == commentId && v != Authenticated(c.author)
    ensures r.Ok? ==>
              && (exists c :: c in s.comments && c.id == commentId && v == Authenticated(c.author))
              && r.value.users == s.users && r.value.categories == s.categories
              && r.value.locations == s.locations && r.value.posts == s.posts
              && |r.value.comments| == |s.comments|
              && (forall i :: 0 <= i < |s.comments| && s.comments[i].id == commentId ==>
                    r.value.comments[i] == s.comments[i].(text := text))
              && (forall i :: 0 <= i < |s.comments| && s.comments[i].id != commentId ==>
                    r.value.comments[i] == s.comments[i])
  {
    match FindComment(s, commentId)
    case None => NotFound
    case Some(c) =>
      if v != Authenticated(c.author) then RedirectToPost(postId)
      else
        Ok(s.(comments := seq(|s.comments|, i requires 0 <= i < |s.comments| =>
                                if s.comments[i].id == commentId then s.comments[i].(text := text)
                                else s.comments[i])))
  }

  /** Deleting a comment: the same gate, then the comment row goes. */
  function CommentDelete(s: Store, v: Viewer, postId: PostId, commentId: CommentId): (r: Reply<Store>)
    ensures r.Ok? || r.NotFound? || r.RedirectToPost?
    ensures r.NotFound? <==> forall c :: c in s.comments ==> c.id != commentId
    ensures r.RedirectToPost? ==>
              r.postId == postId &&
              exists c :: c in s.comments && c.id == commentId && v != Authenticated(c.author)
    ensures r.Ok? ==>
              && (exists c :: c in s.comments && c.id == commentId && v == Authenticated(c.author))
              && r.value.users == s.users && r.value.categories == s.categories
              && r.value.locations == s.locations && r.value.posts == s.posts
              && (forall c :: c in r.value.comments <==> c in s.comments && c.id != commentId)
              && r.value == DeleteComment(s, commentId)
  {
    match FindComment(s, commentId)
    case None => NotFound
    case Some(c) =>
      if v != Authenticated(c.author) then RedirectToPost(postId)
      else Ok(DeleteComment(s, commentId))
  }
}
