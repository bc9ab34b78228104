/**
  The blog's records and the rules the data store keeps about them: which
  references are optional, what happens to dependent rows when a row is
  deleted, how a post's comments are ordered, and how each record is shown
  as a short string.

  The store is a set of tables held as sequences. Row identity is the `id`
  field; timestamps are integers on one clock (earlier is smaller).
 */
module Models {
  import opened Seqs

  type UserId = nat
  type CategoryId = nat
  type LocationId = nat
  type PostId = nat
  type CommentId = nat

  /** Display strings of categories, locations and posts are cut to this
      many characters. */
  const LengthOutput := 20

  datatype User = User(id: UserId, username: string)

  datatype Category = Category(
    id: CategoryId,
    title: string,
    description: string,
    slug: string,
    isPublished: bool,
    createdAt: int)

  datatype Location = Location(
    id: LocationId,
    name: string,
    isPublished: bool,
    createdAt: int)

  /** A post. Author, title, text and publication time are always present;
      location and category are nullable references. */
  datatype Post = Post(
    id: PostId,
    title: string,
    text: string,
    pubDate: int,
    author: UserId,
    location: Option<LocationId>,
    category: Option<CategoryId>,
    isPublished: bool,
    createdAt: int)

  datatype Comment = Comment(
    id: CommentId,
    text: string,
    post: PostId,
    createdAt: int,
    author: UserId)

  datatype Store = Store(
    users: seq<User>,
    categories: seq<Category>,
    locations: seq<Location>,
    posts: seq<Post>,
    comments: seq<Comment>)

  // ---------------------------------------------------------------------
  // Display strings
  // ---------------------------------------------------------------------

  /** The first `LengthOutput` characters of `text`, or all of it when it is
      shorter. */
  function Truncate(text: string): (r: string)
    ensures r <= text
    ensures |r| <= LengthOutput
    ensures |text| <= LengthOutput ==> r == text
    ensures LengthOutput <= |text| ==> |r| == LengthOutput
  {
    if |text| <= LengthOutput then text else text[..LengthOutput]
  }

  function CategoryStr(c: Category): (r: string)
    ensures r <= c.title && |r| <= LengthOutput
    ensures |c.title| <= LengthOutput ==> r == c.title
    ensures LengthOutput <= |c.title| ==> |r| == LengthOutput
  {
    Truncate(c.title)
  }

  function LocationStr(l: Location): (r: string)
    ensures r <= l.name && |r| <= LengthOutput
    ensures |l.name| <= LengthOutput ==> r == l.name
    ensures LengthOutput <= |l.name| ==> |r| == LengthOutput
  {
    Truncate(l.name)
  }

  function PostStr(p: Post): (r: string)
    ensures r <= p.title && |r| <= LengthOutput
    ensures |p.title| <= LengthOutput ==> r == p.title
    ensures LengthOutput <= |p.title| ==> |r| == LengthOutput
  {
    Truncate(p.title)
  }

  // ---------------------------------------------------------------------
  // References and store well-formedness
  // ---------------------------------------------------------------------

  predicate HasUser(s: Store, id: UserId) {
    exists u :: u in s.users && u.id == id
  }

  predicate HasCategory(s: Store, id: CategoryId) {
    exists c :: c in s.categories && c.id == id
  }

  predicate HasLocation(s: Store, id: LocationId) {
    exists l :: l in s.locations && l.id == id
  }

  predicate HasPost(s: Store, id: PostId) {
    exists p :: p in s.posts && p.id == id
  }

  /** Every reference a post holds points at an existing row; the nullable
      ones may instead be null. */
  predicate PostLinksResolve(s: Store, p: Post) {
    && HasUser(s, p.author)
    && (p.category.None? || HasCategory(s, p.category.value))
    && (p.location.None? || HasLocation(s, p.location.value))
  }

  /** A comment's post and author are both required and both exist. */
  predicate CommentLinksResolve(s: Store, c: Comment) {
    HasPost(s, c.post) && HasUser(s, c.author)
  }

  /** The store's integrity rules: primary keys, the unique username and
      slug columns, and every foreign key resolving. */
  ghost predicate WF(s: Store) {
    && UniqueUsers(s)
    && UniqueCategories(s)
    && UniqueBy(s.locations, (l: Location) => l.id)
    && UniquePostIds(s)
    && UniqueCommentIds(s)
    && (forall p :: p in s.posts ==> PostLinksResolve(s, p))
    && (forall c :: c in s.comments ==> CommentLinksResolve(s, c))
  }

  /** User ids and usernames are both unique. */
  ghost predicate UniqueUsers(s: Store) {
    UniqueBy(s.users, (u: User) => u.id) && UniqueBy(s.users, (u: User) => u.username)
  }

  /** Category ids and slugs are both unique. */
  ghost predicate UniqueCategories(s: Store) {
    UniqueBy(s.categories, (c: Category) => c.id) && UniqueBy(s.categories, (c: Category) => c.slug)
  }

  ghost predicate UniquePostIds(s: Store) {
    UniqueBy(s.posts, (p: Post) => p.id)
  }

  ghost predicate UniqueCommentIds(s: Store) {
    UniqueBy(s.comments, (c: Comment) => c.id)
  }

  // ---------------------------------------------------------------------
  // Lookup by primary key
  // ---------------------------------------------------------------------

  function FindPost(s: Store, id: PostId): (r: Option<Post>)
    ensures r.Some? ==> r.value in s.posts && r.value.id == id
    ensures r.None? <==> !HasPost(s, id)
  {
    Find(s.posts, (p: Post) => p.id == id)
  }

  function FindComment(s: Store, id: CommentId): (r: Option<Comment>)
    ensures r.Some? ==> r.value in s.comments && r.value.id == id
    ensures r.None? <==> forall c :: c in s.comments ==> c.id != id
  {
    Find(s.comments, (c: Comment) => c.id == id)
  }

  /** With unique ids, two posts sharing an id are the same post. */
  lemma SamePostId(s: Store, p: Post, q: Post)
    requires UniquePostIds(s) && p in s.posts && q in s.posts && p.id == q.id
    ensures p == q
  {
    UniqueByMembers(s.posts, (p: Post) => p.id);
  }

  /** With unique ids, looking up a post's id finds that post. */
  lemma FindPostFinds(s: Store, p: Post)
    requires UniquePostIds(s) && p in s.posts
    ensures FindPost(s, p.id) == Some(p)
  {
    SamePostId(s, FindPost(s, p.id).value, p);
  }

  /** With unique ids, looking up a comment's id finds that comment. */
  lemma FindCommentFinds(s: Store, c: Comment)
    requires UniqueCommentIds(s) && c in s.comments
    ensures FindComment(s, c.id) == Some(c)
  {
    UniqueByMembers(s.comments, (c: Comment) => c.id);
  }

  // ---------------------------------------------------------------------
  // A post's comments
  // ---------------------------------------------------------------------

  /** The comments whose post is `pid`, in table order. */
  function CommentsOn(s: Store, pid: PostId): (r: seq<Comment>)
    ensures forall c :: c in r <==> c in s.comments && c.post == pid
  {
    Filter(s.comments, (c: Comment) => c.post == pid)
  }

  /** Number of comment rows that point at post `pid`. */
  function CommentCount(s: Store, pid: PostId): nat {
    |CommentsOn(s, pid)|
  }

  /** A post's comments as the store returns them: oldest first. */
  function CommentThread(s: Store, pid: PostId): (r: seq<Comment>)
    ensures forall c :: c in r <==> c in s.comments && c.post == pid
    ensures forall i, j :: 0 <= i < j < |r| ==> r[i].createdAt <= r[j].createdAt
    ensures multiset(r) == multiset(CommentsOn(s, pid))
    ensures |r| == CommentCount(s, pid)
  {
    var on := CommentsOn(s, pid);
    var r := SortBy(on, (c: Comment) => c.createdAt);
    assert |multiset(r)| == |multiset(on)|;
    assert forall c :: c in r <==> c in on by {
      forall c ensures c in r <==> c in on {
        assert c in r <==> c in multiset(r);
        assert c in on <==> c in multiset(on);
      }
    }
    r
  }

  // ---------------------------------------------------------------------
  // Deletion rules
  // ---------------------------------------------------------------------

  function ClearCategory(p: Post, cid: CategoryId): Post {
    if p.category == Some(cid) then p.(category := None) else p
  }

  /** Deleting a category nulls the category of exactly the posts that
      referenced it; no other row changes. */
  function DeleteCategory(s: Store, cid: CategoryId): (r: Store)
    ensures forall c :: c in r.categories <==> c in s.categories && c.id != cid
    ensures |r.posts| == |s.posts|
    ensures forall i :: 0 <= i < |s.posts| && s.posts[i].category == Some(cid) ==>
              r.posts[i] == s.posts[i].(category := None)
    ensures forall i :: 0 <= i < |s.posts| && s.posts[i].category != Some(cid) ==>
              r.posts[i] == s.posts[i]
    ensures forall p :: p in r.posts ==> p.category != Some(cid)
    ensures r.users == s.users && r.locations == s.locations && r.comments == s.comments
  {
    s.(categories := Filter(s.categories, (c: Category) => c.id != cid),
       posts := seq(|s.posts|, i requires 0 <= i < |s.posts| => ClearCategory(s.posts[i], cid)))
  }

  function ClearLocation(p: Post, lid: LocationId): Post {
    if p.location == Some(lid) then p.(location := None) else p
  }

  /** Deleting a location nulls the location of exactly the posts that
      referenced it; no other row changes. */
  function DeleteLocation(s: Store, lid: LocationId): (r: Store)
    ensures forall l :: l in r.locations <==> l in s.locations && l.id != lid
    ensures |r.posts| == |s.posts|
    ensures forall i :: 0 <= i < |s.posts| && s.posts[i].location == Some(lid) ==>
              r.posts[i] == s.posts[i].(location := None)
    ensures forall i :: 0 <= i < |s.posts| && s.posts[i].location != Some(lid) ==>
              r.posts[i] == s.posts[i]
    ensures forall p :: p in r.posts ==> p.location != Some(lid)
    ensures r.users == s.users && r.categories == s.categories && r.comments == s.comments
  {
    s.(locations := Filter(s.locations, (l: Location) => l.id != lid),
       posts := seq(|s.posts|, i requires 0 <= i < |s.posts| => ClearLocation(s.posts[i], lid)))
  }

  /** Deleting a post deletes exactly the comments on it. */
  function DeletePost(s: Store, pid: PostId): (r: Store)
    ensures forall p :: p in r.posts <==> p in s.posts && p.id != pid
    ensures forall c :: c in r.comments <==> c in s.comments && c.post != pid
    ensures r.users == s.users && r.categories == s.categories && r.locations == s.locations
  {
    s.(posts := Filter(s.posts, (p: Post) => p.id != pid),
       comments := Filter(s.comments, (c: Comment) => c.post != pid))
  }

  /** Deleting a comment removes exactly that row; nothing depends on it. */
  function DeleteComment(s: Store, cid: CommentId): (r: Store)
    ensures forall c :: c in r.comments <==> c in s.comments && c.id != cid
    ensures r.users == s.users && r.categories == s.categories && r.locations == s.locations
    ensures r.posts == s.posts
  {
    s.(comments := Filter(s.comments, (c: Comment) => c.id != cid))
  }

  /** Post `pid` exists and was written by `uid`. */
  predicate PostByAuthor(s: Store, pid: PostId, uid: UserId) {
    exists p :: p in s.posts && p.id == pid && p.author == uid
  }

  /** Deleting a user deletes their posts, their comments, and every
      comment on one of their posts. */
  function DeleteUser(s: Store, uid: UserId): (r: Store)
    ensures forall u :: u in r.users <==> u in s.users && u.id != uid
    ensures forall p :: p in r.posts <==> p in s.posts && p.author != uid
    ensures forall c :: c in r.comments <==>
              c in s.comments && c.author != uid && !PostByAuthor(s, c.post, uid)
    ensures r.categories == s.categories && r.locations == s.locations
  {
    s.(users := Filter(s.users, (u: User) => u.id != uid),
       posts := Filter(s.posts, (p: Post) => p.author != uid),
       comments := Filter(s.comments,
                          (c: Comment) => c.author != uid && !PostByAuthor(s, c.post, uid)))
  }

  // ---------------------------------------------------------------------
  // The deletion rules keep the store well-formed
  // ---------------------------------------------------------------------

  /** Rewriting post rows one for one, each keeping its id, keeps post ids
      unique. */
  lemma RowEditKeepsUniquePostIds(s: Store, s': Store)
    requires UniquePostIds(s) && |s'.posts| == |s.posts|
    requires forall i :: 0 <= i < |s.posts| ==> s'.posts[i].id == s.posts[i].id
    ensures UniquePostIds(s')
  {
    forall i, j | 0 <= i < j < |s'.posts|
      ensures s'.posts[i].id != s'.posts[j].id
    {
      assert s.posts[i].id != s.posts[j].id;
    }
  }

  /** The same for comment rows. */
  lemma RowEditKeepsUniqueCommentIds(s: Store, s': Store)
    requires UniqueCommentIds(s) && |s'.comments| == |s.comments|
    requires forall i :: 0 <= i < |s.comments| ==> s'.comments[i].id == s.comments[i].id
    ensures UniqueCommentIds(s')
  {
    forall i, j | 0 <= i < j < |s'.comments|
      ensures s'.comments[i].id != s'.comments[j].id
    {
      assert s.comments[i].id != s.comments[j].id;
    }
  }

  /** Rewriting post rows one for one, each keeping its id, keeps every
      post id that a comment could point at. */
  lemma RowEditKeepsPostKeys(s: Store, s': Store)
    requires |s'.posts| == |s.posts|
    requires forall i :: 0 <= i < |s.posts| ==> s'.posts[i].id == s.posts[i].id
    ensures forall id :: HasPost(s, id) ==> HasPost(s', id)
  {
    forall id | HasPost(s, id)
      ensures HasPost(s', id)
    {
      var p :| p in s.posts && p.id == id;
      var i :| 0 <= i < |s.posts| && s.posts[i] == p;
      assert s'.posts[i] in s'.posts;
    }
  }

  lemma DeleteCategoryKeepsWF(s: Store, cid: CategoryId)
    requires WF(s)
    ensures WF(DeleteCategory(s, cid))
  {
    var r := DeleteCategory(s, cid);
    FilterKeepsUnique(s.categories, (c: Category) => c.id != cid, (c: Category) => c.id);
    FilterKeepsUnique(s.categories, (c: Category) => c.id != cid, (c: Category) => c.slug);
    RowEditKeepsUniquePostIds(s, r);
    RowEditKeepsPostKeys(s, r);
    forall p | p in r.posts
      ensures PostLinksResolve(r, p)
    {
      var i :| 0 <= i < |r.posts| && r.posts[i] == p;
      assert PostLinksResolve(s, s.posts[i]);
      if p.category.Some? {
        var c :| c in s.categories && c.id == p.category.value;
        assert c in r.categories;
      }
    }
  }

  lemma DeleteLocationKeepsWF(s: Store, lid: LocationId)
    requires WF(s)
    ensures WF(DeleteLocation(s, lid))
  {
    var r := DeleteLocation(s, lid);
    FilterKeepsUnique(s.locations, (l: Location) => l.id != lid, (l: Location) => l.id);
    RowEditKeepsUniquePostIds(s, r);
    RowEditKeepsPostKeys(s, r);
    forall p | p in r.posts
      ensures PostLinksResolve(r, p)
    {
      var i :| 0 <= i < |r.posts| && r.posts[i] == p;
      assert PostLinksResolve(s, s.posts[i]);
      if p.location.Some? {
        var l :| l in s.locations && l.id == p.location.value;
        assert l in r.locations;
      }
    }
  }

  lemma DeletePostKeepsWF(s: Store, pid: PostId)
    requires WF(s)
    ensures WF(DeletePost(s, pid))
  {
    FilterKeepsUnique(s.posts, (p: Post) => p.id != pid, (p: Post) => p.id);
    FilterKeepsUnique(s.comments, (c: Comment) => c.post != pid, (c: Comment) => c.id);
  }

  lemma DeleteCommentKeepsWF(s: Store, cid: CommentId)
    requires WF(s)
    ensures WF(DeleteComment(s, cid))
  {
    FilterKeepsUnique(s.comments, (c: Comment) => c.id != cid, (c: Comment) => c.id);
  }

  lemma DeleteUserKeepsWF(s: Store, uid: UserId)
    requires WF(s)
    ensures WF(DeleteUser(s, uid))
  {
    var r := DeleteUser(s, uid);
    FilterKeepsUnique(s.users, (u: User) => u.id != uid, (u: User) => u.id);
    FilterKeepsUnique(s.users, (u: User) => u.id != uid, (u: User) => u.username);
    FilterKeepsUnique(s.posts, (p: Post) => p.author != uid, (p: Post) => p.id);
    FilterKeepsUnique(s.comments,
                      (c: Comment) => c.author != uid && !PostByAuthor(s, c.post, uid),
                      (c: Comment) => c.id);
    forall c | c in r.comments
      ensures CommentLinksResolve(r, c)
    {
      assert CommentLinksResolve(s, c);
      var q :| q in s.posts && q.id == c.post;
      assert q in r.posts;
    }
  }
}
