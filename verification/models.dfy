/**
 * The content store of the blog (`posts/models.py`): users, groups, posts,
 * comments and follow rows, the integrity rules the database keeps for
 * them (unique slugs, unique follow pairs, foreign keys), their default
 * orderings, their string forms, and what deleting a row does to the rows
 * that refer to it.
 */
module Models {
  import opened Wrappers
  import opened Seqs
  import opened Chrono

  type UserId = nat
  type GroupId = nat
  type PostId = nat
  type CommentId = nat

  /** An account of the identity collaborator, reduced to what the blog reads. */
  datatype User = User(id: UserId, username: string)

  /** A community posts may belong to; its slug names it in URLs. */
  datatype Group = Group(id: GroupId, title: string, slug: string, description: string)

  /** A post; `pubDate` is the creation time the server stamps on it. */
  datatype Post = Post(id: PostId, text: string, pubDate: nat, author: UserId, group: Option<GroupId>)

  /** A comment on a post; `created` is its creation time. */
  datatype Comment = Comment(id: CommentId, post: Option<PostId>, author: UserId, text: string, created: nat)

  /** A follow row: `user` follows `author`. */
  datatype Follow = Follow(user: UserId, author: UserId)

  /**
   * The database. Posts and comments are kept in their default listing
   * order, newest first; follow rows in the order they were saved.
   * `nextPostId` and `nextCommentId` are the next values of the
   * auto-increment primary keys.
   */
  datatype Store = Store(
    users: seq<User>,
    groups: seq<Group>,
    posts: seq<Post>,
    comments: seq<Comment>,
    follows: seq<Follow>,
    nextPostId: PostId,
    nextCommentId: CommentId)

  /** Default post ordering: by publication date, newest first. */
  function PostStamp(p: Post): Stamp {
    Stamp(p.pubDate, p.id)
  }

  /** Default comment ordering: by creation date, newest first. */
  function CommentStamp(c: Comment): Stamp {
    Stamp(c.created, c.id)
  }

  function UserIds(s: Store): set<UserId> {
    set u | u in s.users :: u.id
  }

  function GroupIds(s: Store): set<GroupId> {
    set g | g in s.groups :: g.id
  }

  function PostIds(s: Store): set<PostId> {
    IdsOf(s.posts)
  }

  function IdsOf(xs: seq<Post>): set<PostId> {
    set p | p in xs :: p.id
  }

  // ---------------------------------------------------------------------
  // Integrity rules

  /** User ids and usernames are unique. */
  predicate UsersValid(s: Store) {
    forall a, b :: a in s.users && b in s.users && (a.id == b.id || a.username == b.username) ==> a == b
  }

  /** Group ids are unique and so are slugs (`slug = SlugField(unique=True)`). */
  predicate GroupsValid(s: Store) {
    forall a, b :: a in s.groups && b in s.groups && (a.id == b.id || a.slug == b.slug) ==> a == b
  }

  /**
   * Posts are listed newest first, have unique ids below the next key, an
   * existing author (a required foreign key) and no group or an existing one.
   */
  predicate PostsValid(s: Store) {
    && NewestFirst(s.posts, PostStamp)
    && (forall a, b :: a in s.posts && b in s.posts && a.id == b.id ==> a == b)
    && (forall p :: p in s.posts ==>
          && p.id < s.nextPostId
          && p.author in UserIds(s)
          && (p.group.Some? ==> p.group.value in GroupIds(s)))
  }

  /**
   * Comments are listed newest first, have unique ids below the next key,
   * an existing author, and no post or an existing one.
   */
  predicate CommentsValid(s: Store) {
    && NewestFirst(s.comments, CommentStamp)
    && (forall a, b :: a in s.comments && b in s.comments && a.id == b.id ==> a == b)
    && (forall c :: c in s.comments ==>
          && c.id < s.nextCommentId
          && c.author in UserIds(s)
          && (c.post.Some? ==> c.post.value in PostIds(s)))
  }

  /**
   * At most one follow row per ordered (user, author) pair
   * (`unique_together = ['user', 'author']`), between existing users.
   */
  predicate FollowsValid(s: Store) {
    && NoDup(s.follows)
    && (forall f :: f in s.follows ==> f.user in UserIds(s) && f.author in UserIds(s))
  }

  /** Every integrity rule of the database holds. */
  predicate Valid(s: Store) {
    UsersValid(s) && GroupsValid(s) && PostsValid(s) && CommentsValid(s) && FollowsValid(s)
  }

  // ---------------------------------------------------------------------
  // Lookups

  function HasUsername(name: string): User -> bool {
    (u: User) => u.username == name
  }

  function HasSlug(slug: string): Group -> bool {
    (g: Group) => g.slug == slug
  }

  function HasPostId(id: PostId): Post -> bool {
    (p: Post) => p.id == id
  }

  /** `User.objects.get(username=name)`, None when no such user exists. */
  function FindUser(s: Store, name: string): Option<User> {
    Find(s.users, HasUsername(name))
  }

  /** `Group.objects.get(slug=slug)`, None when no such group exists. */
  function FindGroup(s: Store, slug: string): Option<Group> {
    Find(s.groups, HasSlug(slug))
  }

  /** `Post.objects.get(id=id)`, None when no such post exists. */
  function FindPost(s: Store, id: PostId): Option<Post> {
    Find(s.posts, HasPostId(id))
  }

  /** Among `users`, the one with id `id` exists and is called `name`. */
  predicate Named(users: seq<User>, id: UserId, name: string) {
    exists u :: u in users && u.id == id && u.username == name
  }

  /**
   * Because usernames are unique, the username lookup finds exactly the
   * user of that name, and fails exactly when nobody has it.
   */
  lemma FindUserExact(s: Store, name: string, u: User)
    requires UsersValid(s)
    ensures FindUser(s, name) == Some(u) <==> u in s.users && u.username == name
    ensures FindUser(s, name).None? <==> forall v :: v in s.users ==> v.username != name
  {
  }

  /**
   * Slugs are unique: at most one group has a given slug, and the slug
   * lookup finds exactly that group, failing exactly when none has it.
   */
  lemma FindGroupExact(s: Store, slug: string, g: Group)
    requires GroupsValid(s)
    ensures forall h :: h in s.groups && h.slug == slug && g in s.groups && g.slug == slug ==> h == g
    ensures FindGroup(s, slug) == Some(g) <==> g in s.groups && g.slug == slug
    ensures FindGroup(s, slug).None? <==> forall h :: h in s.groups ==> h.slug != slug
  {
  }

  // ---------------------------------------------------------------------
  // String forms

  /** `str(post)`: the first fifteen characters of the text. */
  function PostStr(p: Post): (r: string)
    ensures |r| == if |p.text| < 15 then |p.text| else 15
    ensures r <= p.text
  {
    if |p.text| <= 15 then p.text else p.text[..15]
  }

  /** `str(group)`: the group's title. */
  function GroupStr(g: Group): (r: string)
    ensures r == g.title
  {
    g.title
  }

  // ---------------------------------------------------------------------
  // Deletion and its cascades

  function NotPost(id: PostId): Post -> bool {
    (p: Post) => p.id != id
  }

  function NotOnPost(id: PostId): Comment -> bool {
    (c: Comment) => c.post != Some(id)
  }

  /**
   * Deleting a post deletes its comments (`Comment.post` is
   * `on_delete=CASCADE`).
   */
  function DeletePost(s: Store, id: PostId): Store {
    s.(posts := Filter(s.posts, NotPost(id)),
       comments := Filter(s.comments, NotOnPost(id)))
  }

  function NotUser(u: UserId): User -> bool {
    (x: User) => x.id != u
  }

  function NotByAuthor(u: UserId): Post -> bool {
    (p: Post) => p.author != u
  }

  function SurvivesUser(u: UserId, gone: set<PostId>): Comment -> bool {
    (c: Comment) => c.author != u && !(c.post.Some? && c.post.value in gone)
  }

  function NotTouching(u: UserId): Follow -> bool {
    (f: Follow) => f.user != u && f.author != u
  }

  /** Ids of the posts `u` wrote. */
  function PostsOf(s: Store, u: UserId): set<PostId> {
    set p | p in s.posts && p.author == u :: p.id
  }

  /**
   * Deleting a user deletes their posts (`Post.author` cascades), the
   * comments on those posts, their own comments (`Comment.author`
   * cascades), and every follow row naming them as follower or author
   * (`Follow.user`, `Follow.author` cascade).
   */
  function DeleteUser(s: Store, u: UserId): Store {
    s.(users := Filter(s.users, NotUser(u)),
       posts := Filter(s.posts, NotByAuthor(u)),
       comments := Filter(s.comments, SurvivesUser(u, PostsOf(s, u))),
       follows := Filter(s.follows, NotTouching(u)))
  }

  function NotGroup(g: GroupId): Group -> bool {
    (x: Group) => x.id != g
  }

  /** `p` with its group cleared if it was `g`. */
  function Ungroup(p: Post, g: GroupId): Post {
    if p.group == Some(g) then p.(group := None) else p
  }

  /** Every post of `xs`, in order, with its group cleared if it was `g`. */
  function UngroupAll(xs: seq<Post>, g: GroupId): seq<Post> {
    seq(|xs|, i requires 0 <= i < |xs| => Ungroup(xs[i], g))
  }

  /**
   * Deleting a group keeps its posts and sets their group to null
   * (`Post.group` is `on_delete=SET_NULL`).
   */
  function DeleteGroup(s: Store, g: GroupId): Store {
    s.(groups := Filter(s.groups, NotGroup(g)),
       posts := UngroupAll(s.posts, g))
  }
}
