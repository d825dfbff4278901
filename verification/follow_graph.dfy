/**
 * The follow graph kept by the `Follow` table and changed by
 * `profile_follow` and `profile_unfollow`: directed (follower, author)
 * edges, at most one per ordered pair, never created for a self-follow.
 */
module FollowGraph {
  import opened Wrappers
  import opened Seqs
  import opened Models
  import opened Views

  /** The (follower, author) pairs the follow table records. */
  function Edges(s: Store): set<(UserId, UserId)> {
    set f | f in s.follows :: (f.user, f.author)
  }

  function OfAuthor(a: UserId): Follow -> bool {
    (f: Follow) => f.author == a
  }

  /** `Follow.objects.filter(author=a).count()`: how many rows name `a` as the followed author. */
  function FollowerCount(s: Store, a: UserId): nat {
    |Filter(s.follows, OfAuthor(a))|
  }

  /** Nobody follows themselves. */
  predicate NoSelfFollows(s: Store) {
    forall f :: f in s.follows ==> f.user != f.author
  }

  lemma EdgeIsRow(s: Store, u: UserId, a: UserId)
    ensures (u, a) in Edges(s) <==> Follow(u, a) in s.follows
  {
    if (u, a) in Edges(s) {
      var f :| f in s.follows && (f.user, f.author) == (u, a);
      assert f == Follow(u, a);
    }
  }

  /**
   * Following another existing user puts the pair in the graph and changes
   * nothing else; the author's follower count grows by one unless the edge
   * was already there; a second identical request changes nothing
   * (get-or-create).
   */
  lemma FollowAddsEdge(s: Store, u: UserId, a: User)
    requires Valid(s) && u in UserIds(s) && a in s.users && a.id != u
    ensures var o := ProfileFollow(s, Some(u), a.username);
      && o.response == Redirect(ProfileRoute(a.username))
      && Edges(o.store) == Edges(s) + {(u, a.id)}
      && o.store == s.(follows := o.store.follows)
      && Valid(o.store)
      && FollowerCount(o.store, a.id) == FollowerCount(s, a.id) + (if (u, a.id) in Edges(s) then 0 else 1)
      && ProfileFollow(o.store, Some(u), a.username) == o
  {
    FindUserExact(s, a.username, a);
    EdgeIsRow(s, u, a.id);
    if Follow(u, a.id) !in s.follows {
      AppendFollow(s, Follow(u, a.id));
    }
  }

  /**
   * Saving a new follow row between existing users keeps the database
   * valid, adds its edge and raises its author's follower count by one.
   */
  lemma AppendFollow(s: Store, f: Follow)
    requires Valid(s) && f.user in UserIds(s) && f.author in UserIds(s) && f !in s.follows
    ensures var s' := s.(follows := s.follows + [f]);
      && Valid(s')
      && Edges(s') == Edges(s) + {(f.user, f.author)}
      && FollowerCount(s', f.author) == FollowerCount(s, f.author) + 1
  {
    var s' := s.(follows := s.follows + [f]);
    NoDupAppend(s.follows, f);
    FilterAppend(s.follows, [f], OfAuthor(f.author));
    assert Filter([f], OfAuthor(f.author)) == [f];
    assert UserIds(s') == UserIds(s) && GroupIds(s') == GroupIds(s) && PostIds(s') == PostIds(s);
    assert FollowsValid(s');
  }

  /** A self-follow request changes nothing, and answers with the profile as any follow does. */
  lemma SelfFollowIgnored(s: Store, a: User)
    requires UsersValid(s) && a in s.users
    ensures ProfileFollow(s, Some(a.id), a.username) == Outcome(s, Redirect(ProfileRoute(a.username)))
  {
    FindUserExact(s, a.username, a);
  }

  /** No follow or unfollow request, by anyone and with any name, makes anyone follow themselves. */
  lemma FollowingNeverSelf(s: Store, viewer: Viewer, name: string)
    requires NoSelfFollows(s)
    ensures NoSelfFollows(ProfileFollow(s, viewer, name).store)
    ensures NoSelfFollows(ProfileUnfollow(s, viewer, name).store)
  {
  }

  /**
   * Unfollowing an author one follows removes exactly that edge (one row)
   * and nothing else; without the edge the request is not found and
   * changes nothing.
   */
  lemma UnfollowRemovesEdge(s: Store, u: UserId, a: User)
    requires Valid(s) && a in s.users
    ensures var o := ProfileUnfollow(s, Some(u), a.username);
      && ((u, a.id) in Edges(s) ==>
            && o.response == Redirect(ProfileRoute(a.username))
            && Edges(o.store) == Edges(s) - {(u, a.id)}
            && |o.store.follows| == |s.follows| - 1
            && o.store == s.(follows := o.store.follows)
            && Valid(o.store))
      && ((u, a.id) !in Edges(s) ==> o == Outcome(s, Failed(NotFound)))
  {
    EdgeIsRow(s, u, a.id);
    var p := FollowRowOf(s.users, u, a.username);
    forall f | f in s.follows ensures p(f) <==> f == Follow(u, a.id) {
      if p(f) {
        var v :| v in s.users && v.id == f.author && v.username == a.username;
        assert v == a;
      }
    }
    if (u, a.id) in Edges(s) {
      var f := Follow(u, a.id);
      assert Find(s.follows, p) == Some(f);
      RemoveFollow(s, f);
    }
  }

  /**
   * Deleting an existing follow row keeps the database valid, removes its
   * edge and only that one, and shortens the table by one row.
   */
  lemma RemoveFollow(s: Store, f: Follow)
    requires Valid(s) && f in s.follows
    ensures var s' := s.(follows := Filter(s.follows, NotRow(f)));
      && Valid(s')
      && Edges(s') == Edges(s) - {(f.user, f.author)}
      && |s'.follows| == |s.follows| - 1
  {
    var s' := s.(follows := Filter(s.follows, NotRow(f)));
    FilterRemovesOne(s.follows, f, NotRow(f));
    FilterNoDup(s.follows, NotRow(f));
    assert UserIds(s') == UserIds(s) && GroupIds(s') == GroupIds(s) && PostIds(s') == PostIds(s);
    forall e | e in Edges(s) && e != (f.user, f.author) ensures e in Edges(s') {
      var g :| g in s.follows && (g.user, g.author) == e;
      assert g in s'.follows;
    }
    forall e | e in Edges(s') ensures e != (f.user, f.author) {
      var g :| g in s'.follows && (g.user, g.author) == e;
    }
  }

  /** Following or unfollowing a username nobody has is not found and changes nothing. */
  lemma UnknownAuthorNotFound(s: Store, u: UserId, name: string)
    requires forall a :: a in s.users ==> a.username != name
    ensures ProfileFollow(s, Some(u), name) == Outcome(s, Failed(NotFound))
    ensures ProfileUnfollow(s, Some(u), name) == Outcome(s, Failed(NotFound))
  {
    var p := FollowRowOf(s.users, u, name);
    assert forall f :: f in s.follows ==> !p(f);
  }

  /**
   * Following someone one did not follow and then unfollowing them gives
   * back the original database, so the author's follower count goes up by
   * one and back down.
   */
  lemma FollowThenUnfollowRestores(s: Store, u: UserId, a: User)
    requires Valid(s) && u in UserIds(s) && a in s.users && a.id != u
    requires (u, a.id) !in Edges(s)
    ensures var s1 := ProfileFollow(s, Some(u), a.username).store;
      && FollowerCount(s1, a.id) == FollowerCount(s, a.id) + 1
      && ProfileUnfollow(s1, Some(u), a.username) == Outcome(s, Redirect(ProfileRoute(a.username)))
  {
    FollowAddsEdge(s, u, a);
    var s1 := ProfileFollow(s, Some(u), a.username).store;
    var f := Follow(u, a.id);
    EdgeIsRow(s, u, a.id);
    assert s1.follows == s.follows + [f];
    UnfollowRemovesEdge(s1, u, a);
    EdgeIsRow(s1, u, a.id);
    assert Find(s1.follows, FollowRowOf(s1.users, u, a.username)) == Some(f) by {
      var p := FollowRowOf(s1.users, u, a.username);
      forall g | g in s1.follows ensures p(g) <==> g == f {
        if p(g) {
          var v :| v in s1.users && v.id == g.author && v.username == a.username;
          assert v == a;
        }
      }
    }
    FilterAppend(s.follows, [f], NotRow(f));
    FilterKeepsAll(s.follows, NotRow(f));
    assert Filter([f], NotRow(f)) == [];
  }
}
