/**
 * What the listing views show: every listing is newest first, the
 * followed feed holds exactly the posts of followed authors, a new post
 * reaches exactly its author's followers, and a run of new posts pages
 * out newest first.
 */
module Feeds {
  import opened Wrappers
  import opened Seqs
  import opened Chrono
  import opened Models
  import opened Paginator
  import opened Views
  import opened FollowGraph

  /** Every listing the views produce keeps the default newest-first order. */
  lemma ListingsNewestFirst(s: Store, g: GroupId, a: UserId, v: UserId, id: PostId)
    requires Valid(s)
    ensures NewestFirst(PublicFeed(s), PostStamp)
    ensures NewestFirst(GroupFeed(s, g), PostStamp)
    ensures NewestFirst(AuthorFeed(s, a), PostStamp)
    ensures NewestFirst(FollowedFeed(s, v), PostStamp)
    ensures NewestFirst(PostComments(s, id), CommentStamp)
  {
    FilterSorted(s.posts, InGroup(g), PostStamp);
    FilterSorted(s.posts, ByAuthor(a), PostStamp);
    FilterSorted(s.posts, ByFollowed(s.follows, v), PostStamp);
    FilterSorted(s.comments, OnPost(id), CommentStamp);
  }

  /**
   * The followed feed holds a post exactly when the viewer follows its
   * author, newest first, and is empty when the viewer follows nobody.
   */
  lemma FollowedFeedExact(s: Store, v: UserId)
    requires Valid(s)
    ensures forall p :: p in FollowedFeed(s, v) <==> p in s.posts && (v, p.author) in Edges(s)
    ensures NewestFirst(FollowedFeed(s, v), PostStamp)
    ensures (forall f :: f in s.follows ==> f.user != v) ==> FollowedFeed(s, v) == []
  {
    forall p: Post ensures (v, p.author) in Edges(s) <==> Follow(v, p.author) in s.follows {
      EdgeIsRow(s, v, p.author);
    }
    FilterSorted(s.posts, ByFollowed(s.follows, v), PostStamp);
    var feed := FollowedFeed(s, v);
    assert |feed| == 0 || feed[0] in feed;
  }

  /**
   * The followed feed is the one newest-first listing of the posts whose
   * authors the viewer follows: any such listing equals it.
   */
  lemma FollowedFeedUnique(s: Store, v: UserId, listing: seq<Post>)
    requires Valid(s)
    requires NewestFirst(listing, PostStamp)
    requires forall p :: p in listing <==> p in s.posts && (v, p.author) in Edges(s)
    ensures listing == FollowedFeed(s, v)
  {
    FollowedFeedExact(s, v);
    SortedUnique(listing, FollowedFeed(s, v), PostStamp);
  }

  /**
   * A signed-in user's valid new post adds exactly that one post, by that
   * user, with the form's text and group and the next id; the database
   * stays valid, and when no post is dated later the new post heads the
   * public feed, in front of all the others in their old order.
   */
  lemma NewPostLands(s: Store, u: UserId, form: PostForm, now: nat)
    requires Valid(s) && u in UserIds(s) && PostFormValid(s, form)
    ensures var o := NewPost(s, Some(u), form, now);
      var p := Post(s.nextPostId, form.text, now, u, form.group);
      && o.response == Redirect(Index)
      && |o.store.posts| == |s.posts| + 1
      && multiset(o.store.posts) == multiset(s.posts) + multiset{p}
      && o.store == s.(posts := o.store.posts, nextPostId := s.nextPostId + 1)
      && Valid(o.store)
      && ((forall q :: q in s.posts ==> q.pubDate <= now) ==> PublicFeed(o.store) == [p] + s.posts)
  {
    SaveNewPostValid(s, Post(s.nextPostId, form.text, now, u, form.group));
  }

  /**
   * Saving a post with the next id, an existing author and no group or an
   * existing one keeps the database valid; a post dated no earlier than
   * any other goes in front of the listing.
   */
  lemma SaveNewPostValid(s: Store, p: Post)
    requires Valid(s)
    requires p.id == s.nextPostId && p.author in UserIds(s) && (p.group.Some? ==> p.group.value in GroupIds(s))
    ensures var s' := s.(posts := Insert(s.posts, p, PostStamp), nextPostId := s.nextPostId + 1);
      && Valid(s')
      && ((forall q :: q in s.posts ==> q.pubDate <= p.pubDate) ==> s'.posts == [p] + s.posts)
  {
    var s' := s.(posts := Insert(s.posts, p, PostStamp), nextPostId := s.nextPostId + 1);
    InsertSorted(s.posts, p, PostStamp);
    forall q | q in s'.posts ensures q in s.posts || q == p {
      assert q in multiset(s'.posts);
    }
    assert UserIds(s') == UserIds(s) && GroupIds(s') == GroupIds(s);
    assert PostsValid(s');
    assert PostIds(s) <= PostIds(s') by {
      forall x | x in PostIds(s) ensures x in PostIds(s') {
        var q :| q in s.posts && q.id == x;
        assert q in multiset(s'.posts);
      }
    }
    assert CommentsValid(s');
    if forall q :: q in s.posts ==> q.pubDate <= p.pubDate {
      forall q | q in s.posts ensures Newer(PostStamp(p), PostStamp(q)) {
        assert q.id < p.id;
      }
      InsertNewest(s.posts, p, PostStamp);
    }
  }

  /**
   * A valid new post by `u` enters the followed feed of each follower of
   * `u`, one post longer and still newest first, and leaves every other
   * viewer's followed feed exactly as it was.
   */
  lemma NewPostReachesFollowers(s: Store, u: UserId, form: PostForm, now: nat, v: UserId)
    requires Valid(s) && u in UserIds(s) && PostFormValid(s, form)
    ensures var s' := NewPost(s, Some(u), form, now).store;
      var p := Post(s.nextPostId, form.text, now, u, form.group);
      && ((v, u) in Edges(s) ==>
            && FollowedFeed(s', v) == Insert(FollowedFeed(s, v), p, PostStamp)
            && |FollowedFeed(s', v)| == |FollowedFeed(s, v)| + 1
            && p in FollowedFeed(s', v))
      && ((v, u) !in Edges(s) ==> FollowedFeed(s', v) == FollowedFeed(s, v))
  {
    var p := Post(s.nextPostId, form.text, now, u, form.group);
    EdgeIsRow(s, v, u);
    FilterInsert(s.posts, p, ByFollowed(s.follows, v), PostStamp);
    var s' := NewPost(s, Some(u), form, now).store;
    assert p in multiset(Insert(FollowedFeed(s, v), p, PostStamp));
  }

  /**
   * The profile of an existing user shows exactly that user's posts,
   * newest first, and counts them; an unknown username is not found.
   */
  lemma ProfileExact(s: Store, name: string)
    requires Valid(s)
    ensures ProfileOf(s, name).Err? <==> forall u :: u in s.users ==> u.username != name
    ensures ProfileOf(s, name).Err? ==> ProfileOf(s, name).failure == NotFound
    ensures ProfileOf(s, name).Ok? ==>
      var l := ProfileOf(s, name).value;
      && l.user in s.users && l.user.username == name
      && (forall p :: p in l.posts <==> p in s.posts && p.author == l.user.id)
      && NewestFirst(l.posts, PostStamp)
      && l.postCount == |Matching(s.posts, ByAuthor(l.user.id))|
  {
    if FindUser(s, name).Some? {
      var u := FindUser(s, name).value;
      SortedNoDup(s.posts, PostStamp);
      FilterCount(s.posts, ByAuthor(u.id));
      FilterSorted(s.posts, ByAuthor(u.id), PostStamp);
      var l := ProfileOf(s, name).value;
      assert l.user == u && l.postCount == |Filter(s.posts, ByAuthor(u.id))|;
    }
  }

  /**
   * The group page of an existing slug shows that one group and exactly
   * its posts, newest first; an unknown slug is not found.
   */
  lemma GroupPostsExact(s: Store, slug: string)
    requires Valid(s)
    ensures GroupPosts(s, slug).Err? <==> forall g :: g in s.groups ==> g.slug != slug
    ensures GroupPosts(s, slug).Err? ==> GroupPosts(s, slug).failure == NotFound
    ensures GroupPosts(s, slug).Ok? ==>
      var l := GroupPosts(s, slug).value;
      && l.group in s.groups && l.group.slug == slug
      && (forall g :: g in s.groups && g.slug == slug ==> g == l.group)
      && (forall p :: p in l.posts <==> p in s.posts && p.group == Some(l.group.id))
      && NewestFirst(l.posts, PostStamp)
  {
    if FindGroup(s, slug).Some? {
      var g := FindGroup(s, slug).value;
      FilterSorted(s.posts, InGroup(g.id), PostStamp);
    }
  }

  // ---------------------------------------------------------------------
  // A run of new posts

  /** User `u` submits `forms` one after another, the i-th at time `times[i]`. */
  function PostAll(s: Store, u: UserId, forms: seq<PostForm>, times: seq<nat>): Store
    requires |forms| == |times|
    decreases |forms|
  {
    if |forms| == 0 then s
    else PostAll(NewPost(s, Some(u), forms[0], times[0]).store, u, forms[1..], times[1..])
  }

  /** The posts such a run creates, in the order it creates them. */
  function Created(s: Store, u: UserId, forms: seq<PostForm>, times: seq<nat>): seq<Post>
    requires |forms| == |times|
  {
    seq(|forms|, i requires 0 <= i < |forms| => Post(s.nextPostId + i, forms[i].text, times[i], u, forms[i].group))
  }

  /** What the run asks of its start: valid forms, non-decreasing times, no post dated later. */
  predicate RunReady(s: Store, u: UserId, forms: seq<PostForm>, times: seq<nat>) {
    && Valid(s) && u in UserIds(s)
    && |forms| == |times|
    && (forall i :: 0 <= i < |forms| ==> PostFormValid(s, forms[i]))
    && (forall i, j :: 0 <= i < j < |times| ==> times[i] <= times[j])
    && (forall q, i :: q in s.posts && 0 <= i < |times| ==> q.pubDate <= times[i])
  }

  /**
   * The first post of a run goes in front of the feed, and the rest of the
   * run starts from a database that is ready for it.
   */
  lemma PostStep(s: Store, u: UserId, forms: seq<PostForm>, times: seq<nat>)
    requires RunReady(s, u, forms, times) && |forms| > 0
    ensures var s1 := NewPost(s, Some(u), forms[0], times[0]).store;
      && s1.posts == [Created(s, u, forms, times)[0]] + s.posts
      && RunReady(s1, u, forms[1..], times[1..])
      && Created(s1, u, forms[1..], times[1..]) == Created(s, u, forms, times)[1..]
  {
    var created := Created(s, u, forms, times);
    NewPostLands(s, u, forms[0], times[0]);
    var s1 := NewPost(s, Some(u), forms[0], times[0]).store;
    assert s1 == s.(posts := [created[0]] + s.posts, nextPostId := s.nextPostId + 1);
    assert UserIds(s1) == UserIds(s) && GroupIds(s1) == GroupIds(s);
    var forms', times' := forms[1..], times[1..];
    forall i | 0 <= i < |forms'| ensures PostFormValid(s1, forms'[i]) {
      assert forms'[i] == forms[i + 1];
    }
    forall q, i | q in s1.posts && 0 <= i < |times'| ensures q.pubDate <= times'[i] {
      assert times'[i] == times[i + 1];
      assert times[0] <= times[i + 1];
    }
  }

  /**
   * Valid posts submitted one after another, never dated before anything
   * already posted, end up in front of the public feed in reverse order
   * of submission (the tie-break by id orders posts of the same second).
   */
  lemma {:induction false} PostAllPrepends(s: Store, u: UserId, forms: seq<PostForm>, times: seq<nat>)
    requires RunReady(s, u, forms, times)
    ensures Valid(PostAll(s, u, forms, times))
    ensures PostAll(s, u, forms, times).posts == Reverse(Created(s, u, forms, times)) + s.posts
    decreases |forms|
  {
    if |forms| > 0 {
      var created := Created(s, u, forms, times);
      PostStep(s, u, forms, times);
      var s1 := NewPost(s, Some(u), forms[0], times[0]).store;
      PostAllPrepends(s1, u, forms[1..], times[1..]);
      assert Reverse(created) == Reverse(created[1..]) + [created[0]];
    }
  }

  /**
   * Thirteen valid posts into an empty blog: the public feed has two
   * pages; the first holds ten posts which, read backwards, are posts 4
   * to 13 in the order they were made; the second holds the first three,
   * newest first.
   */
  lemma ThirteenPostsPaginate(s: Store, u: UserId, forms: seq<PostForm>, times: seq<nat>)
    requires Valid(s) && u in UserIds(s) && |s.posts| == 0
    requires |forms| == |times| == RECORDS_ON_THE_PAGE + 3
    requires forall i :: 0 <= i < |forms| ==> PostFormValid(s, forms[i])
    requires forall i, j :: 0 <= i < j < |times| ==> times[i] <= times[j]
    ensures var feed := PublicFeed(PostAll(s, u, forms, times));
      var created := Created(s, u, forms, times);
      && PageCount(|feed|, RECORDS_ON_THE_PAGE) == 2
      && |Page(feed, 1)| == RECORDS_ON_THE_PAGE
      && Reverse(Page(feed, 1)) == created[3..]
      && Page(feed, 2) == Reverse(created[..3])
  {
    PostAllPrepends(s, u, forms, times);
    var created := Created(s, u, forms, times);
    assert PublicFeed(PostAll(s, u, forms, times)) == Reverse(created);
    assert RunReady(s, u, forms, times);
    OverflowPages(created);
  }
}
