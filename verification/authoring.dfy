/**
 * Who may change what: only a post's author edits it, and an edit keeps
 * the post's identity, author and date; comments land on the post they
 * were written for; a refused request leaves the database as it was.
 */
module Authoring {
  import opened Wrappers
  import opened Seqs
  import opened Chrono
  import opened Models
  import opened Views

  /** Post `p` is the one a URL naming `username` and `postId` refers to. */
  predicate Addressed(s: Store, p: Post, username: string, postId: PostId) {
    p in s.posts && p.id == postId && Named(s.users, p.author, username)
  }

  /** Ids are unique, so the lookup by id and author's username finds exactly the addressed post. */
  lemma FindAddressed(s: Store, username: string, postId: PostId)
    requires Valid(s)
    ensures Find(s.posts, AuthoredPost(s.users, postId, username)).Some? <==>
              exists p :: Addressed(s, p, username, postId)
    ensures forall p :: Addressed(s, p, username, postId) ==>
              Find(s.posts, AuthoredPost(s.users, postId, username)) == Some(p)
  {
    var found := Find(s.posts, AuthoredPost(s.users, postId, username));
    if found.Some? {
      assert AuthoredPost(s.users, postId, username)(found.value);
      assert Addressed(s, found.value, username, postId);
    }
    forall p | Addressed(s, p, username, postId)
      ensures Find(s.posts, AuthoredPost(s.users, postId, username)) == Some(p)
    {
      assert AuthoredPost(s.users, postId, username)(p);
      var q := Find(s.posts, AuthoredPost(s.users, postId, username)).value;
      assert q.id == p.id;
    }
  }

  /**
   * The author's valid edit replaces the text and group of that one post
   * and keeps its id, date and author, and its place in every listing;
   * every other row stays; the response is the post's page.
   */
  lemma EditByAuthor(s: Store, p: Post, username: string, form: PostForm)
    requires Valid(s) && Addressed(s, p, username, p.id) && PostFormValid(s, form)
    ensures var o := PostEdit(s, Some(p.author), username, p.id, form);
      var edited := p.(text := form.text, group := form.group);
      && o.response == Redirect(PostRoute(username, p.id))
      && Valid(o.store)
      && o.store == s.(posts := o.store.posts)
      && |o.store.posts| == |s.posts|
      && (forall i :: 0 <= i < |s.posts| ==>
            o.store.posts[i] == if s.posts[i].id == p.id then edited else s.posts[i])
      && edited in o.store.posts
      && (p.text != form.text ==> p !in o.store.posts)
  {
    FindAddressed(s, username, p.id);
    var edited := p.(text := form.text, group := form.group);
    assert Find(s.posts, AuthoredPost(s.users, p.id, username)) == Some(p);
    assert PostEdit(s, Some(p.author), username, p.id, form)
        == Outcome(s.(posts := UpdatePost(s.posts, edited)), Redirect(PostRoute(username, p.id)));
    SavePostValid(s, p, edited);
  }

  /**
   * Saving post `p` back with new contents but the same id, date and
   * author keeps the database valid, puts the new version in the old one's
   * place, and keeps every other post.
   */
  lemma SavePostValid(s: Store, p: Post, q: Post)
    requires Valid(s) && p in s.posts
    requires q.id == p.id && q.pubDate == p.pubDate && q.author == p.author
    requires q.group.Some? ==> q.group.value in GroupIds(s)
    ensures var s' := s.(posts := UpdatePost(s.posts, q));
      && Valid(s')
      && q in s'.posts
      && (p != q ==> p !in s'.posts)
  {
    var s' := s.(posts := UpdatePost(s.posts, q));
    UpdateKeepsListing(s.posts, p, q);
    assert UserIds(s') == UserIds(s) && GroupIds(s') == GroupIds(s) && PostIds(s') == PostIds(s);
    assert PostsValid(s');
    assert CommentsValid(s');
  }

  /**
   * In a listing with unique ids, replacing post `p` by `q` with the same
   * id and date keeps the listing's
   * order and ids, and every row is `q` or a post with another id.
   */
  lemma UpdateKeepsListing(xs: seq<Post>, p: Post, q: Post)
    requires NewestFirst(xs, PostStamp) && p in xs
    requires forall a, b :: a in xs && b in xs && a.id == b.id ==> a == b
    requires q.id == p.id && q.pubDate == p.pubDate
    ensures var ys := UpdatePost(xs, q);
      && NewestFirst(ys, PostStamp)
      && IdsOf(ys) == IdsOf(xs)
      && q in ys
      && (forall x :: x in ys ==> x == q || (x in xs && x.id != p.id))
      && (p != q ==> p !in ys)
  {
    var ys := UpdatePost(xs, q);
    assert forall i :: 0 <= i < |ys| ==> PostStamp(ys[i]) == PostStamp(xs[i]);
    forall x | x in ys ensures x == q || (x in xs && x.id != p.id) {
      var i :| 0 <= i < |ys| && ys[i] == x;
    }
    forall x | x in IdsOf(xs) ensures x in IdsOf(ys) {
      var i :| 0 <= i < |xs| && xs[i].id == x;
      assert ys[i] in ys;
    }
    var k :| 0 <= k < |xs| && xs[k] == p;
    assert ys[k] == q;
  }


  /**
   * Nobody but the author changes a post: an unknown post is not found, a
   * visitor who is not its author is sent to the index, and an invalid
   * form is shown again, each leaving the database as it was.
   */
  lemma EditRefused(s: Store, viewer: Viewer, username: string, postId: PostId, form: PostForm)
    requires Valid(s)
    ensures (forall p :: !Addressed(s, p, username, postId)) ==>
              PostEdit(s, viewer, username, postId, form) == Outcome(s, Failed(NotFound))
    ensures forall p :: Addressed(s, p, username, postId) && viewer != Some(p.author) ==>
              PostEdit(s, viewer, username, postId, form) == Outcome(s, Redirect(Index))
    ensures forall p :: Addressed(s, p, username, postId) && viewer == Some(p.author) && !PostFormValid(s, form) ==>
              PostEdit(s, viewer, username, postId, form) == Outcome(s, Rerender)
    ensures PostEdit(s, viewer, username, postId, form).store != s ==>
              exists p :: Addressed(s, p, username, postId) && viewer == Some(p.author) && PostFormValid(s, form)
  {
    FindAddressed(s, username, postId);
  }

  /**
   * A signed-in user's valid comment on an existing post becomes one new
   * comment by that user on that post, with the next id; the database
   * stays valid and the response is the post's page.
   */
  lemma CommentAdded(s: Store, u: UserId, username: string, postId: PostId, form: CommentForm, now: nat)
    requires Valid(s) && u in UserIds(s) && postId in PostIds(s) && form.wellFormed
    ensures var o := AddComment(s, Some(u), username, postId, form, now);
      var c := Comment(s.nextCommentId, Some(postId), u, form.text, now);
      && o.response == Redirect(PostRoute(username, postId))
      && Valid(o.store)
      && o.store == s.(comments := Insert(s.comments, c, CommentStamp), nextCommentId := s.nextCommentId + 1)
      && multiset(o.store.comments) == multiset(s.comments) + multiset{c}
  {
    var c := Comment(s.nextCommentId, Some(postId), u, form.text, now);
    var p := FindPost(s, postId).value;
    assert p.id == postId;
    SaveCommentValid(s, c);
  }

  /** Saving a comment with the next id, an existing author and an existing post keeps the database valid. */
  lemma SaveCommentValid(s: Store, c: Comment)
    requires Valid(s)
    requires c.id == s.nextCommentId && c.author in UserIds(s) && (c.post.Some? ==> c.post.value in PostIds(s))
    ensures Valid(s.(comments := Insert(s.comments, c, CommentStamp), nextCommentId := s.nextCommentId + 1))
  {
    var s' := s.(comments := Insert(s.comments, c, CommentStamp), nextCommentId := s.nextCommentId + 1);
    assert UserIds(s') == UserIds(s) && GroupIds(s') == GroupIds(s) && PostIds(s') == PostIds(s);
    assert PostsValid(s') && FollowsValid(s');
    InsertSorted(s.comments, c, CommentStamp);
    forall q | q in s'.comments ensures q in s.comments || q == c {
      assert q in multiset(s'.comments);
    }
  }

  /**
   * The new comment joins the comments of the post it was written for,
   * still newest first, and every other post's comments stay as they were.
   */
  lemma CommentJoinsItsPost(s: Store, u: UserId, username: string, postId: PostId, form: CommentForm, now: nat, id: PostId)
    requires Valid(s) && u in UserIds(s) && postId in PostIds(s) && form.wellFormed
    ensures var s' := AddComment(s, Some(u), username, postId, form, now).store;
      var c := Comment(s.nextCommentId, Some(postId), u, form.text, now);
      && (id == postId ==> PostComments(s', id) == Insert(PostComments(s, id), c, CommentStamp))
      && (id != postId ==> PostComments(s', id) == PostComments(s, id))
  {
    CommentAdded(s, u, username, postId, form, now);
    var c := Comment(s.nextCommentId, Some(postId), u, form.text, now);
    FilterInsert(s.comments, c, OnPost(id), CommentStamp);
  }

  /**
   * A comment request that is not carried out changes nothing: an
   * anonymous visitor is sent to log in, a missing post is a server error,
   * an invalid form is shown again.
   */
  lemma CommentRefused(s: Store, viewer: Viewer, username: string, postId: PostId, form: CommentForm, now: nat)
    requires Valid(s)
    ensures viewer.None? ==> AddComment(s, viewer, username, postId, form, now) == Outcome(s, Failed(LoginRequired))
    ensures viewer.Some? && postId !in PostIds(s) ==>
              AddComment(s, viewer, username, postId, form, now) == Outcome(s, Failed(ServerError))
    ensures viewer.Some? && postId in PostIds(s) && !form.wellFormed ==>
              AddComment(s, viewer, username, postId, form, now) == Outcome(s, Rerender)
    ensures AddComment(s, viewer, username, postId, form, now).store != s ==>
              viewer.Some? && postId in PostIds(s) && form.wellFormed
  {
    if viewer.Some? && postId in PostIds(s) {
      var q :| q in s.posts && q.id == postId;
      assert HasPostId(postId)(q);
    }
  }

  /**
   * Every write that needs a signed-in user sends an anonymous visitor to
   * log in and leaves the database as it was.
   */
  lemma AnonymousWritesRefused(s: Store, username: string, postId: PostId, pf: PostForm, cf: CommentForm, now: nat)
    ensures NewPost(s, None, pf, now) == Outcome(s, Failed(LoginRequired))
    ensures AddComment(s, None, username, postId, cf, now) == Outcome(s, Failed(LoginRequired))
    ensures ProfileFollow(s, None, username) == Outcome(s, Failed(LoginRequired))
    ensures ProfileUnfollow(s, None, username) == Outcome(s, Failed(LoginRequired))
    ensures FollowIndex(s, None) == Err(LoginRequired)
  {
  }

  /**
   * A signed-in user's invalid post form is shown again and changes
   * nothing.
   */
  lemma NewPostRejected(s: Store, u: UserId, form: PostForm, now: nat)
    requires !PostFormValid(s, form)
    ensures NewPost(s, Some(u), form, now) == Outcome(s, Rerender)
  {
  }

  /**
   * The post page shows the addressed post, its author, how many posts
   * that author has and exactly the comments on it, newest first; a URL
   * that addresses no post is not found.
   */
  lemma PostViewExact(s: Store, username: string, postId: PostId)
    requires Valid(s)
    ensures PostView(s, username, postId).Err? <==> forall p :: !Addressed(s, p, username, postId)
    ensures PostView(s, username, postId).Err? ==> PostView(s, username, postId).failure == NotFound
    ensures PostView(s, username, postId).Ok? ==>
      var pg := PostView(s, username, postId).value;
      && Addressed(s, pg.post, username, postId)
      && pg.author == pg.post.author
      && pg.postCount == |Matching(s.posts, ByAuthor(pg.author))|
      && (forall c :: c in pg.comments <==> c in s.comments && c.post == Some(postId))
      && NewestFirst(pg.comments, CommentStamp)
  {
    FindAddressed(s, username, postId);
    if PostView(s, username, postId).Ok? {
      var pg := PostView(s, username, postId).value;
      SortedNoDup(s.posts, PostStamp);
      FilterCount(s.posts, ByAuthor(pg.author));
      FilterSorted(s.comments, OnPost(postId), CommentStamp);
    }
  }
}
