/**
 * The request handlers of `posts/views.py` as functions of the database.
 * A read handler returns the listing it hands to the paginator (or the
 * failure it raises); a write handler returns the database after the
 * request together with the response. The authenticated user is an input
 * (`None` for an anonymous visitor); clocks are an input too (`now`).
 */
module Views {
  import opened Wrappers
  import opened Seqs
  import opened Chrono
  import opened Models
  import opened Paginator

  /** The authenticated user of a request; None for an anonymous visitor. */
  type Viewer = Option<UserId>

  /** Where a handler redirects to. */
  datatype Route =
    | Index
    | ProfileRoute(username: string)
    | PostRoute(username: string, postId: PostId)

  /** Why a request does not get its page. */
  datatype Failure =
    | NotFound       // `get_object_or_404` found no row: a 404 response
    | LoginRequired  // `login_required` sends the anonymous visitor to log in
    | ServerError    // `Post.objects.get` raised `DoesNotExist`: a 500 response

  /** What a write handler answers. `Rerender` shows the form again, with its errors. */
  datatype Response = Redirect(to: Route) | Rerender | Failed(failure: Failure)

  /** The database after a write request, and the response to it. */
  datatype Outcome = Outcome(store: Store, response: Response)

  /** What a read handler answers. */
  datatype Result<+T> = Ok(value: T) | Err(failure: Failure)

  /**
   * A submitted post form. `wellFormed` stands for the form's own field
   * checks (an unbound form, as on a GET, is not well formed); the group
   * choice is additionally checked against the existing groups.
   */
  datatype PostForm = PostForm(text: string, group: Option<GroupId>, wellFormed: bool)

  /** A submitted comment form; `wellFormed` stands for the form's field checks. */
  datatype CommentForm = CommentForm(text: string, wellFormed: bool)

  /** `form.is_valid()` for a post form: its fields check out and the chosen group exists. */
  predicate PostFormValid(s: Store, f: PostForm) {
    f.wellFormed && (f.group.Some? ==> f.group.value in GroupIds(s))
  }

  // ---------------------------------------------------------------------
  // Listings

  /** Page `k` of a listing, `RECORDS_ON_THE_PAGE` rows per page. */
  function Page(listing: seq<Post>, k: nat): seq<Post>
    requires 1 <= k <= PageCount(|listing|, RECORDS_ON_THE_PAGE)
  {
    Paginate(listing, k, RECORDS_ON_THE_PAGE)
  }

  /** `index`: every post, newest first. */
  function PublicFeed(s: Store): seq<Post> {
    s.posts
  }

  function InGroup(g: GroupId): Post -> bool {
    (p: Post) => p.group == Some(g)
  }

  /** `group.posts.all()`: the posts of group `g`, newest first. */
  function GroupFeed(s: Store, g: GroupId): seq<Post> {
    Filter(s.posts, InGroup(g))
  }

  datatype GroupListing = GroupListing(group: Group, posts: seq<Post>)

  /** `group_posts`: the group named by `slug` and its posts; not found for an unknown slug. */
  function GroupPosts(s: Store, slug: string): Result<GroupListing> {
    match FindGroup(s, slug)
    case None => Err(NotFound)
    case Some(g) => Ok(GroupListing(g, GroupFeed(s, g.id)))
  }

  function ByAuthor(a: UserId): Post -> bool {
    (p: Post) => p.author == a
  }

  /** `user.posts.all()`: the posts written by `a`, newest first. */
  function AuthorFeed(s: Store, a: UserId): seq<Post> {
    Filter(s.posts, ByAuthor(a))
  }

  datatype ProfileListing = ProfileListing(user: User, posts: seq<Post>, postCount: nat)

  /** `profile`: the user named `username`, their posts and how many there are. */
  function ProfileOf(s: Store, username: string): Result<ProfileListing> {
    match FindUser(s, username)
    case None => Err(NotFound)
    case Some(u) =>
      var posts := AuthorFeed(s, u.id);
      Ok(ProfileListing(u, posts, |posts|))
  }

  function ByFollowed(follows: seq<Follow>, v: UserId): Post -> bool {
    (p: Post) => Follow(v, p.author) in follows
  }

  /** `Post.objects.filter(author__following__user=v)`: posts of authors `v` follows, newest first. */
  function FollowedFeed(s: Store, v: UserId): seq<Post> {
    Filter(s.posts, ByFollowed(s.follows, v))
  }

  /** `follow_index`: the viewer's followed feed; login first. */
  function FollowIndex(s: Store, viewer: Viewer): Result<seq<Post>> {
    match viewer
    case None => Err(LoginRequired)
    case Some(v) => Ok(FollowedFeed(s, v))
  }

  function OnPost(id: PostId): Comment -> bool {
    (c: Comment) => c.post == Some(id)
  }

  /** `post.comments.all()`: the comments on post `id`, newest first. */
  function PostComments(s: Store, id: PostId): seq<Comment> {
    Filter(s.comments, OnPost(id))
  }

  function AuthoredPost(users: seq<User>, postId: PostId, username: string): Post -> bool {
    (p: Post) => p.id == postId && Named(users, p.author, username)
  }

  datatype PostPage = PostPage(post: Post, author: UserId, postCount: nat, comments: seq<Comment>)

  /**
   * `post_view`: the post with id `postId` whose author is called
   * `username` (not found otherwise), its author's post count and its
   * comments.
   */
  function PostView(s: Store, username: string, postId: PostId): Result<PostPage> {
    match Find(s.posts, AuthoredPost(s.users, postId, username))
    case None => Err(NotFound)
    case Some(p) => Ok(PostPage(p, p.author, |AuthorFeed(s, p.author)|, PostComments(s, p.id)))
  }

  // ---------------------------------------------------------------------
  // Writes

  /**
   * `new_post`: a signed-in user's valid form becomes a post by that user,
   * stamped `now` with the next id, and the response goes to the index.
   */
  function NewPost(s: Store, viewer: Viewer, form: PostForm, now: nat): Outcome {
    match viewer
    case None => Outcome(s, Failed(LoginRequired))
    case Some(u) =>
      if PostFormValid(s, form) then
        var p := Post(s.nextPostId, form.text, now, u, form.group);
        Outcome(s.(posts := Insert(s.posts, p, PostStamp), nextPostId := s.nextPostId + 1),
                Redirect(Index))
      else
        Outcome(s, Rerender)
  }

  /** `xs` with the post whose id is `q.id` replaced by `q` (saving an existing row). */
  function UpdatePost(xs: seq<Post>, q: Post): seq<Post> {
    seq(|xs|, i requires 0 <= i < |xs| => if xs[i].id == q.id then q else xs[i])
  }

  /**
   * `post_edit`: looks the post up by id and author's username (not found
   * otherwise); anyone but its author is sent to the index; the author's
   * valid form replaces text and group and leads to the post's page.
   */
  function PostEdit(s: Store, viewer: Viewer, username: string, postId: PostId, form: PostForm): Outcome {
    match Find(s.posts, AuthoredPost(s.users, postId, username))
    case None => Outcome(s, Failed(NotFound))
    case Some(p) =>
      if viewer != Some(p.author) then Outcome(s, Redirect(Index))
      else if PostFormValid(s, form) then
        Outcome(s.(posts := UpdatePost(s.posts, p.(text := form.text, group := form.group))),
                Redirect(PostRoute(username, postId)))
      else
        Outcome(s, Rerender)
  }

  /**
   * `add_comment`: login first; the post is fetched by id alone, and a
   * missing one raises; a valid form becomes a comment by the viewer on
   * that post, stamped `now` with the next id.
   */
  function AddComment(s: Store, viewer: Viewer, username: string, postId: PostId,
                      form: CommentForm, now: nat): Outcome {
    match viewer
    case None => Outcome(s, Failed(LoginRequired))
    case Some(u) =>
      match FindPost(s, postId)
      case None => Outcome(s, Failed(ServerError))
      case Some(p) =>
        if form.wellFormed then
          var c := Comment(s.nextCommentId, Some(p.id), u, form.text, now);
          Outcome(s.(comments := Insert(s.comments, c, CommentStamp), nextCommentId := s.nextCommentId + 1),
                  Redirect(PostRoute(username, p.id)))
        else
          Outcome(s, Rerender)
  }

  /** `Follow.objects.get_or_create(user=u, author=a)`: adds the row only when it is missing. */
  function GetOrCreateFollow(s: Store, u: UserId, a: UserId): Store {
    if Follow(u, a) in s.follows then s
    else s.(follows := s.follows + [Follow(u, a)])
  }

  /**
   * `profile_follow`: login first; the author must exist; following
   * yourself is silently skipped; either way the response is the author's
   * profile.
   */
  function ProfileFollow(s: Store, viewer: Viewer, username: string): Outcome {
    match viewer
    case None => Outcome(s, Failed(LoginRequired))
    case Some(u) =>
      match FindUser(s, username)
      case None => Outcome(s, Failed(NotFound))
      case Some(a) =>
        var s' := if u != a.id then GetOrCreateFollow(s, u, a.id) else s;
        Outcome(s', Redirect(ProfileRoute(username)))
  }

  function FollowRowOf(users: seq<User>, u: UserId, username: string): Follow -> bool {
    (f: Follow) => f.user == u && Named(users, f.author, username)
  }

  function NotRow(f: Follow): Follow -> bool {
    (x: Follow) => x != f
  }

  /**
   * `profile_unfollow`: login first; the viewer's follow row for the author
   * named `username` must exist (not found otherwise) and is deleted.
   */
  function ProfileUnfollow(s: Store, viewer: Viewer, username: string): Outcome {
    match viewer
    case None => Outcome(s, Failed(LoginRequired))
    case Some(u) =>
      match Find(s.follows, FollowRowOf(s.users, u, username))
      case None => Outcome(s, Failed(NotFound))
      case Some(f) =>
        Outcome(s.(follows := Filter(s.follows, NotRow(f))), Redirect(ProfileRoute(username)))
  }
}
