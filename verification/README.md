# Yatube posts: follow graph and feeds, in Dafny

A model of the `posts` application of the Yatube blog: the content store of
`posts/models.py` (users, groups, posts, comments, follow rows, their
integrity rules, default orderings, string forms and deletion cascades) and
the request handlers of `posts/views.py` as pure functions over that store.
Read handlers `index`, `group_posts`, `profile` and `follow_index` return
the listing they hand to the paginator, and `post_view` returns the post
page; each returns the failure it raises instead. Write handlers
(`new_post`, `post_edit`, `add_comment`, `profile_follow`,
`profile_unfollow`) return the database after the request together with the
response.

Modules:

- `Wrappers` (wrappers.dfy): `Option`, the result of a lookup that may find nothing.
- `Seqs` (seqs.dfy): `Filter`, `Find`, `Reverse`, `Flatten`, `NoDup` and the facts about them.
- `Chrono` (chrono.dfy): newest-first listings. A row's place is given by its `Stamp`: its timestamp and, on equal timestamps, the larger id first. The database leaves the order of equal timestamps unspecified; the tie-break by id is a choice of this model that makes every listing deterministic. Saving a row inserts it at its place (`Insert`), so no assumption about the clock is needed.
- `Paginator` (paginator.dfy): 1-indexed pages of `RECORDS_ON_THE_PAGE` = 10 rows; an empty listing has one empty page.
- `Models` (models.dfy): the entities, the `Valid` invariant (unique ids, usernames and slugs, one follow row per ordered pair, every foreign key resolving, listings newest first), lookups, `str()`, and the deletion functions `DeletePost`, `DeleteUser`, `DeleteGroup`.
- `Cascades` (cascade.dfy): what the `on_delete` rules guarantee.
- `Views` (views.dfy): the handlers. The signed-in user is an input (`Viewer = Option<UserId>`, `None` for an anonymous visitor); the creation time of a new row is an input (`now`); form validity is an input flag, plus the existence check on the chosen group.
- `FollowGraph` (follow_graph.dfy): the follow table seen as a set of directed (follower, author) edges, and what follow and unfollow do to it.
- `Feeds` (feeds.dfy): what the listings contain and how a new post reaches them.
- `Authoring` (authoring.dfy): who may edit a post, where comments land, and that refused requests change nothing.

`str(group)` is `GroupStr`, the group's title; `str(post)` is `PostStr`, the first fifteen characters of the text.

Two behaviours of the code a reader may not expect; the model follows the code:

- `post_edit` carries no `login_required`; an anonymous visitor is simply not the author and is sent to the index (`posts/views.py:87-93`). The URL tests (`posts/tests/test_urls.py:144-153`) expect a login redirect, which would come from routing that is not part of this model.
- `add_comment` fetches the post by id alone with `Post.objects.get`, so a missing post raises and becomes a server error (`ServerError`), not a not-found; the username in the URL is not checked against the post's author and is only used for the redirect (`posts/views.py:111-118`).

## Model

| member | source | states |
|---|---|---|
| Seqs.Filter | posts/views.py:140 | filtering keeps exactly the matching rows and never lengthens the table |
| Seqs.Find | posts/views.py:54 | the lookup returns a matching row, and fails exactly when no row matches |
| Chrono.Insert | posts/models.py:43-44 | saving a row gives a listing one longer holding exactly the old rows plus the new one |
| Chrono.InsertSorted | posts/models.py:43-44 | saving a row whose stamp no listed row has keeps the table newest first |
| Chrono.FilterInsert | posts/views.py:140 | filtering a table after saving a row equals saving the row into the filtered listing when it matches, and the filtered listing unchanged otherwise |
| Chrono.SortedUnique | posts/models.py:43-44 | two newest-first listings of the same rows are identical, so the ordering determines a listing completely |
| Paginator.PageCount | posts/views.py:16 | the page count is the least number of full pages that hold every row, and 1 for an empty listing |
| Paginator.Paginate | posts/views.py:16-18 | page k is the run of at most 10 rows starting at position (k-1)*10, full on every page but the last, the last one ending at the end of the listing, non-empty when the listing is |
| Paginator.PagesCover | posts/views.py:15-18 | there are exactly PageCount pages, and laid end to end they give back the whole listing, each row once, in order |
| Paginator.OverflowPages | posts/tests/test_views.py:195-214 | 13 rows newest first make two pages: ten rows that read backwards are rows 4..13 in insertion order, then the three oldest |
| Models.FindUserExact | posts/views.py:54 | the username lookup finds exactly the user with that name and fails exactly when nobody has it |
| Models.FindGroupExact | posts/models.py:13 | at most one group has a slug; the slug lookup finds that group and fails exactly when none has it |
| Models.PostStr | posts/models.py:46-47 | `str(post)` is a prefix of the text, fifteen characters long or the whole text when shorter |
| Models.GroupStr | posts/models.py:16-17 | `str(group)` is the group's title |
| Cascades.DeletePostCascade | posts/models.py:51-59 | deleting a post removes it and exactly the comments on it, keeps all else including the id counters, and the database stays valid |
| Cascades.DeleteUserCascade | posts/models.py:27-86 | deleting a user removes the user, their posts, the comments on those posts, their comments and every follow row naming them, keeps every other user, group and row and the id counters, and the database stays valid |
| Cascades.DeleteGroupCascade | posts/models.py:32-40 | deleting a group removes only the group and keeps the id counters; its posts stay in place with id, text, date and author intact and their group set to null; other posts keep their group |
| Cascades.UngroupAllKeepsPosts | posts/models.py:36 | clearing a group from the posts keeps their order, their ids and their id uniqueness |
| FollowGraph.EdgeIsRow | posts/models.py:76-89 | a (follower, author) edge is in the graph exactly when the follow table has that row |
| FollowGraph.FollowAddsEdge | posts/views.py:152-161 | following another existing user adds exactly that edge, keeps the database valid, raises the author's follower count by one unless already following, and repeating the request changes nothing |
| FollowGraph.AppendFollow | posts/views.py:157-160 | saving a missing follow row between existing users keeps every row unique and the database valid, adds exactly its edge and raises the author's follower count by one |
| FollowGraph.SelfFollowIgnored | posts/views.py:156 | a self-follow leaves the database unchanged and answers with the profile, however often it is sent |
| FollowGraph.FollowingNeverSelf | posts/views.py:152-168 | no follow or unfollow request creates a self-follow |
| FollowGraph.UnfollowRemovesEdge | posts/views.py:164-168 | unfollowing an existing edge removes exactly that edge and one row and keeps the database valid; without the edge the answer is not found and nothing changes |
| FollowGraph.RemoveFollow | posts/views.py:166-167 | deleting an existing follow row keeps the database valid, removes exactly its edge and shortens the table by one row |
| FollowGraph.UnknownAuthorNotFound | posts/views.py:155 | following or unfollowing an unknown username is not found and changes nothing |
| FollowGraph.FollowThenUnfollowRestores | posts/tests/test_views.py:253-282 | follow then unfollow of a new author raises the follower count by one and then gives back the original database |
| Feeds.ListingsNewestFirst | posts/models.py:43-73 | the public, group, author and followed feeds and every post's comments are newest first |
| Feeds.FollowedFeedExact | posts/views.py:137-149 | the followed feed holds exactly the posts whose author the viewer follows, newest first, and is empty when the viewer follows nobody |
| Feeds.FollowedFeedUnique | posts/views.py:140 | any newest-first listing of the followed authors' posts is the followed feed |
| Feeds.NewPostLands | posts/views.py:41-48 | a valid new post adds exactly one post by the requesting user with the form's text and group, keeps every other table and the database valid, and when nothing is dated later goes in front of the public feed ahead of the old posts in their old order |
| Feeds.SaveNewPostValid | posts/views.py:45-47 | saving a post with the next id, an existing author and no group or an existing one keeps the database valid, and a post dated no earlier than the rest goes in front of the listing |
| Feeds.NewPostReachesFollowers | posts/tests/test_follows.py:70-104 | a new post joins the followed feed of each follower of its author, one longer and in order, and leaves every other viewer's feed unchanged |
| Feeds.ProfileExact | posts/views.py:53-56 | an unknown username is not found; otherwise the profile lists exactly that user's posts, newest first, and its post count is the number of posts they wrote |
| Feeds.GroupPostsExact | posts/views.py:26-29 | an unknown slug is not found; otherwise the page shows the one group with that slug and exactly its posts, newest first |
| Feeds.PostAllPrepends | posts/tests/test_views.py:179-186 | posts made one after another end up in front of the public feed in reverse order of creation, and the database stays valid |
| Feeds.ThirteenPostsPaginate | posts/tests/test_views.py:195-214 | thirteen posts into an empty blog give two pages: ten that read backwards are posts 4..13, then the first three, newest first |
| Authoring.FindAddressed | posts/views.py:89-90 | the lookup by post id and author's username finds the addressed post and fails exactly when there is none |
| Authoring.EditByAuthor | posts/views.py:95-101 | the author's valid edit replaces text and group of that post only, keeps its id, date, author and place, keeps the post count and validity, and answers with the post's page |
| Authoring.SavePostValid | posts/views.py:98-99 | saving a post back with the same id, date and author keeps the database valid and replaces the old version |
| Authoring.EditRefused | posts/views.py:87-105 | an unknown post is not found, a non-author is sent to the index, an invalid form is shown again, each with the database unchanged; only the author's valid form changes anything |
| Authoring.CommentAdded | posts/views.py:108-118 | a signed-in user's valid comment on an existing post adds exactly one comment by that user on that post, keeps the database valid, and answers with the post's page |
| Authoring.SaveCommentValid | posts/models.py:50-70 | a comment with the next id, an existing author and an existing post keeps the database valid |
| Authoring.CommentJoinsItsPost | posts/views.py:113-116 | the new comment joins its post's comments in order; every other post's comments are unchanged |
| Authoring.CommentRefused | posts/views.py:108-121 | an anonymous visitor is sent to log in, a missing post is a server error, an invalid form is shown again, each with the database unchanged |
| Authoring.AnonymousWritesRefused | posts/views.py:41-168 | every login-required handler sends an anonymous visitor to log in and changes nothing |
| Authoring.NewPostRejected | posts/views.py:43-50 | an invalid post form is shown again and changes nothing |
| Authoring.PostViewExact | posts/views.py:69-84 | the post page shows the addressed post, its author, that author's post count and exactly its comments, newest first; otherwise not found |

## Left out

- The 20-second page cache on `index`: time-based and provided by the framework.
- How `Paginator.get_page` treats a missing, non-numeric or out-of-range page number: framework code; pages are requested with 1 <= k <= page count.
- The login flow, sessions and the `?next=` parameter: a login-required refusal is the single response `Failed(LoginRequired)`.
- Templates, context dictionaries, the 404 and 500 page handlers, and field metadata (`verbose_name`, `help_text`): presentation only.
- Image upload and media storage: file I/O.
- Form validation beyond valid or invalid, including the field length limits (title 200, slug 255, description and comment text 400): the forms module is not part of this model, so validity is an input flag.
- Concurrent `get_or_create` requests: uniqueness of follow rows is a state invariant only.
- Creating and deleting accounts in the identity store: users are given; deleting rows is modelled as functions (`DeletePost`, `DeleteUser`, `DeleteGroup`), not as requests.
- The server clock: the timestamp of a new post or comment is a parameter.
- Order among rows with equal timestamps: listings are ordered by timestamp and then by id; the database itself promises nothing about rows with equal timestamps.
