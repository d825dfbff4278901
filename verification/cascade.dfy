/**
 * What the foreign-key rules of `posts/models.py` guarantee when a row is
 * deleted: the cascades leave no dangling reference behind, remove exactly
 * the rows that depended on the deleted one, and keep everything else.
 */
module Cascades {
  import opened Wrappers
  import opened Seqs
  import opened Chrono
  import opened Models

  /**
   * Deleting a post removes it and exactly the comments on it, keeps every
   * other post and comment, and leaves a database whose rules all hold.
   */
  lemma DeletePostCascade(s: Store, id: PostId)
    requires Valid(s)
    ensures var r := DeletePost(s, id);
      && Valid(r)
      && id !in PostIds(r)
      && (forall p :: p in r.posts <==> p in s.posts && p.id != id)
      && (forall c :: c in r.comments <==> c in s.comments && c.post != Some(id))
      && (id in PostIds(s) ==> |r.posts| == |s.posts| - 1)
      && r.users == s.users && r.groups == s.groups && r.follows == s.follows
      && r.nextPostId == s.nextPostId && r.nextCommentId == s.nextCommentId
  {
    var r := DeletePost(s, id);
    FilterSorted(s.posts, NotPost(id), PostStamp);
    FilterSorted(s.comments, NotOnPost(id), CommentStamp);
    assert UserIds(r) == UserIds(s);
    forall c | c in r.comments && c.post.Some?
      ensures c.post.value in PostIds(r)
    {
      var q :| q in s.posts && q.id == c.post.value;
      assert q in r.posts;
    }
    if id in PostIds(s) {
      var q :| q in s.posts && q.id == id;
      SortedNoDup(s.posts, PostStamp);
      FilterRemovesOne(s.posts, q, NotPost(id));
    }
  }

  /**
   * Deleting a user removes the user, their posts, the comments on those
   * posts, their own comments and every follow row that names them; every
   * other row stays, and the database's rules all hold afterwards.
   */
  lemma DeleteUserCascade(s: Store, u: UserId)
    requires Valid(s)
    ensures var r := DeleteUser(s, u);
      && Valid(r)
      && u !in UserIds(r)
      && (forall v :: v in r.users <==> v in s.users && v.id != u)
      && (forall p :: p in r.posts <==> p in s.posts && p.author != u)
      && (forall c :: c in r.comments <==>
            c in s.comments && c.author != u && !(c.post.Some? && c.post.value in PostsOf(s, u)))
      && (forall f :: f in r.follows <==> f in s.follows && f.user != u && f.author != u)
      && r.groups == s.groups
      && r.nextPostId == s.nextPostId && r.nextCommentId == s.nextCommentId
  {
    var r := DeleteUser(s, u);
    assert UserIds(r) == UserIds(s) - {u} by {
      forall x | x in UserIds(s) && x != u ensures x in UserIds(r) {
        var v :| v in s.users && v.id == x;
        assert v in r.users;
      }
    }
    FilterSorted(s.posts, NotByAuthor(u), PostStamp);
    FilterSorted(s.comments, SurvivesUser(u, PostsOf(s, u)), CommentStamp);
    FilterNoDup(s.follows, NotTouching(u));
    forall c | c in r.comments && c.post.Some?
      ensures c.post.value in PostIds(r)
    {
      var q :| q in s.posts && q.id == c.post.value;
      assert q.author != u;
      assert q in r.posts;
    }
  }

  /**
   * Deleting a group removes it and nothing else: its posts stay, in the
   * same order and with the same id, text, date and author, with their
   * group cleared; posts of other groups keep theirs.
   */
  lemma DeleteGroupCascade(s: Store, g: GroupId)
    requires Valid(s)
    ensures var r := DeleteGroup(s, g);
      && Valid(r)
      && g !in GroupIds(r)
      && (forall h :: h in r.groups <==> h in s.groups && h.id != g)
      && |r.posts| == |s.posts|
      && (forall i :: 0 <= i < |s.posts| ==>
            && r.posts[i].id == s.posts[i].id
            && r.posts[i].text == s.posts[i].text
            && r.posts[i].pubDate == s.posts[i].pubDate
            && r.posts[i].author == s.posts[i].author
            && r.posts[i].group == (if s.posts[i].group == Some(g) then None else s.posts[i].group))
      && r.users == s.users && r.comments == s.comments && r.follows == s.follows
      && r.nextPostId == s.nextPostId && r.nextCommentId == s.nextCommentId
  {
    var r := DeleteGroup(s, g);
    assert GroupIds(r) == GroupIds(s) - {g} by {
      forall x | x in GroupIds(s) && x != g ensures x in GroupIds(r) {
        var h :| h in s.groups && h.id == x;
        assert h in r.groups;
      }
    }
    UngroupAllKeepsPosts(s.posts, g);
    assert PostsValid(r);
  }

  /** Clearing one group from a listing keeps its order, its ids and where each post came from. */
  lemma UngroupAllKeepsPosts(xs: seq<Post>, g: GroupId)
    requires NewestFirst(xs, PostStamp)
    ensures NewestFirst(UngroupAll(xs, g), PostStamp)
    ensures forall q :: q in UngroupAll(xs, g) ==> exists p :: p in xs && q == Ungroup(p, g)
    ensures IdsOf(UngroupAll(xs, g)) == IdsOf(xs)
    ensures (forall a, b :: a in xs && b in xs && a.id == b.id ==> a == b) ==>
              (forall a, b :: a in UngroupAll(xs, g) && b in UngroupAll(xs, g) && a.id == b.id ==> a == b)
  {
    var ys := UngroupAll(xs, g);
    assert forall i :: 0 <= i < |ys| ==> PostStamp(ys[i]) == PostStamp(xs[i]);
    forall q | q in ys ensures exists p :: p in xs && q == Ungroup(p, g) {
      var i :| 0 <= i < |ys| && ys[i] == q;
      assert xs[i] in xs;
    }
    forall x | x in IdsOf(xs) ensures x in IdsOf(ys) {
      var i :| 0 <= i < |xs| && xs[i].id == x;
      assert ys[i] in ys;
    }
    if forall a, b :: a in xs && b in xs && a.id == b.id ==> a == b {
      forall a, b | a in ys && b in ys && a.id == b.id ensures a == b {
        var i :| 0 <= i < |ys| && ys[i] == a;
        var j :| 0 <= j < |ys| && ys[j] == b;
        assert xs[i] in xs && xs[j] in xs;
      }
    }
  }
}
