# yatube in Dafny

This project models the request-handling core of yatube, a Django blog, in
Dafny. The store is an immutable value that holds:

- users, groups, posts (newest first) and comments (newest first);
- the follow edges, in creation order;
- the set of client IPs, and each post's set of viewer IPs;
- the per-(user, path) page-hit counters;
- the next primary key of each table (users, posts, comments), each a
  sequence of its own.

Every request handler is a pure function from a store and a request to a new
store and an outcome. The outcome of an HTML view is a rendered page, a
redirect, a redirect to the login page, or "not found". The outcome of an API
call is an HTTP status with a body.

The model covers:

- the entities and their database constraints: unique keys, usernames, group
  slugs and follow pairs, and foreign keys that point at existing rows;
- the on-delete policies of the foreign keys (cascade, or set-null for a
  post's group);
- the `__str__` of posts, comments and groups;
- fixed-size pagination (ten posts per page);
- the client-IP rule and the post viewer set;
- the HTML views, the first-match URL table and the hit-counting decorator;
- the REST API's object permission, serializer rules and viewsets.

Modules follow the source layout:

- `Util`: filtering, ordered insertion, `split`/`join`, whitespace strip and
  decimal numerals.
- `Models`: entities, `__str__`, lookups and the store invariant `Valid`.
- `OnDelete`: the deletion policies.
- `Pagination`: the paginator.
- `Urls`: the route table, resolution and reversal.
- `Views` and `ViewProps`: the views and their properties.
- `Decorators`: the `counted` decorator.
- `Api` and `ApiProps`: the REST API and its properties.

A few inputs come from outside the store and are passed in as parameters:

- the clock reading that stamps new rows;
- the X-Forwarded-For and REMOTE_ADDR values;
- the path's query string, and the `page` number already read from it;
- a post's `is_recently_pub`;
- the hit counter's initial value.

The Referer header's contents are never inspected, so a redirect back to it
is the opaque target `Referrer`.

## Model

| member | source | states |
|---|---|---|
| Views.ClientIp | yatube/posts/views.py:13-19 | An empty forwarded-for value yields REMOTE_ADDR. Otherwise the result is a prefix of the header with no ','. It is cut exactly at the first ',' when there is one, and is the whole header when there is none. |
| Util.FirstPiece | yatube/posts/views.py:16 | The first piece of `split(',')` is the longest ','-free prefix, followed by ',' or by the end of the text. |
| Util.JoinSplit | yatube/posts/views.py:16 | Splitting loses nothing: joining the pieces back gives the input. |
| Pagination.NumPages | yatube/posts/views.py:10 | There is always at least one page. There are exactly enough pages of ten to hold n items, and none more. |
| Pagination.PageNumber | yatube/posts/views.py:27-28 | The page served is always a real page. A missing number gives page 1, an in-range number gives itself, and any other number gives the last page. |
| Pagination.PageItems | yatube/posts/views.py:26-28 | Page k holds min(10, n-10(k-1)) items: the items from position 10(k-1) on, in their original order. |
| Pagination.Paginate | yatube/posts/views.py:26-28 | A page holds between one and ten items, and none only when the listing is empty. It is the slice of the listing for the page number served. |
| Pagination.PagesCover | yatube/posts/views.py:26-28 | Pages k, k+1, …, last, read in order, are exactly the listing from position 10(k-1) on. |
| Pagination.AllPages | yatube/posts/views.py:26-28 | All pages in order give back the listing: no item is lost or repeated. |
| Pagination.ThirteenItems | yatube/posts/tests/test_views.py:221-241 | Thirteen items give a first page of 10 and a second of 3. A page number past the end serves the last page. |
| Views.GroupFeed | yatube/posts/views.py:33-34 | Each post appears in a group's feed as often as it is stored if it belongs to that group, and otherwise not at all. The feed keeps the newest-first order of the store. |
| Views.AuthorFeed | yatube/posts/views.py:43-44 | Each post appears in an author's feed as often as it is stored if that author wrote it, and otherwise not at all. The feed keeps the newest-first order. |
| Views.FollowFeed | yatube/posts/views.py:132-134 | Each post appears in the follow feed as often as it is stored if the requester follows its author, and otherwise not at all. The feed keeps the newest-first order. |
| Views.CommentsOf | yatube/posts/views.py:61 | Each comment is listed as often as it is stored if it is on that post, and otherwise not at all. The list keeps the newest-first order. |
| Views.PostOf | yatube/posts/views.py:60 | A found post has the requested id, and its stored author has the requested username. |
| ViewProps.PostOfExact | yatube/posts/views.py:60 | Under unique keys, the lookup succeeds iff some stored post has that id and an author with that username. |
| Views.IndexView | yatube/posts/views.py:23-29 | Writes nothing, and renders the requested page of all posts. |
| Views.GroupPostsView | yatube/posts/views.py:32-39 | Writes nothing. Not found iff no group has the slug. Otherwise renders the group with the requested page of its feed. |
| ViewProps.GroupPageShowsGroup | yatube/posts/views.py:32-39 | The group page shows the slug's group and at most ten posts, all of that group and newest first. Thirteen posts give ten on the first page and three on the second. |
| Views.ProfileView | yatube/posts/views.py:42-56 | Writes nothing. Not found iff no user has the name. Otherwise renders that author with the requested page of their feed. `following` is unknown exactly for the anonymous user. |
| ViewProps.ProfilePageShowsAuthor | yatube/posts/views.py:42-56 | The profile shows the named author and at most ten of their posts, newest first. `following` is whether the signed-in requester follows them, and unknown for the anonymous user. Thirteen posts give pages of ten and three. |
| Pagination.PageOfList | yatube/posts/views.py:26-28 | Every item on a page comes from the listing, and a newest-first listing gives newest-first pages. |
| Views.RecordView | yatube/posts/views.py:64-66 | The IP joins the IP table and the post's viewer set. Every other viewer set and every other table are unchanged. |
| Views.PostView | yatube/posts/views.py:59-77 | Not found, with nothing written, iff the id/username pair matches no post. Otherwise it always renders that post and its author with the post's comments and the follow state, and records the client IP as a viewer. |
| ViewProps.ViewIdempotent | yatube/posts/views.py:64-66 | A second view from the same client leaves the store as the first left it. |
| ViewProps.ViewOnlyRecords | yatube/posts/views.py:59-77 | A view changes no posts, comments, follows or users, and no other post's viewers. |
| Views.FullPath | yatube/posts/views.py:79 | The login `next` target starts with the path, and is the path alone iff there is no query string. Otherwise '?' and the query string follow the path. |
| Views.AddComment | yatube/posts/views.py:80-89 | An anonymous requester is sent to login with the full path, query string included, as `next`. An unknown post is not found. Otherwise the response is always the post's page, and an unbound or invalid form writes nothing. |
| ViewProps.CommentOwned | yatube/posts/views.py:84-88 | A stored comment has the requester as author and the path's post as post. It is added to the existing comments, and posts and follows are unchanged. |
| Views.NewPost | yatube/posts/views.py:92-105 | An anonymous requester is sent to login. An unbound or invalid form writes nothing and re-renders the form. A valid form redirects to the index. |
| ViewProps.NewPostOwned | yatube/posts/views.py:94-98 | A stored post has the requester as author and a fresh id. It is added to the existing posts, and comments and follows are unchanged. |
| Views.Edited | yatube/posts/views.py:114-119 | An edit keeps the id, date and author, takes the new text and group, and keeps the old image unless a new one is uploaded. |
| Views.Replace | yatube/posts/views.py:117-119 | The post with the edited id is replaced in place. All others stay. |
| Views.PostEdit | yatube/posts/views.py:108-127 | A requester other than the path user is redirected to the post with nothing written. A missing post is not found. A post outside its edit window goes back to the Referer. For the author in the window, a valid form saves the edited post in place and redirects to the post's page; an unbound or invalid form writes nothing and re-renders the form with the post. |
| ViewProps.EditTouchesOnlyOwnPost | yatube/posts/views.py:108-120 | An edit changes at most the named post, only for the path user within the edit window, and keeps every id and author. |
| ViewProps.NonAuthorRedirected | yatube/posts/views.py:109-110 | A signed-in non-author who edits or deletes is redirected to the post's page and nothing changes. |
| Views.FollowIndex | yatube/posts/views.py:130-138 | Writes nothing. The anonymous user is sent to login. Otherwise renders the requested page of the follow feed. |
| Views.AddFollow | yatube/posts/views.py:146 | The edge exists afterwards, and the edges are the old ones plus that one. An existing edge leaves the store unchanged. |
| Views.RemoveFollow | yatube/posts/views.py:153 | The edge is gone afterwards, and every other edge is kept. |
| Views.ProfileFollow | yatube/posts/views.py:141-147 | Anonymous goes to login. Following oneself writes nothing and returns to the Referer. An unknown author is not found. Otherwise the edge is ensured. |
| ViewProps.FollowIdempotent | yatube/posts/views.py:141-147 | Following twice is the same as following once. |
| ViewProps.FollowNoSelfEdge | yatube/posts/views.py:143-146 | With unique ids and names, no edge from a user to themself is ever added. |
| Views.ProfileUnfollow | yatube/posts/views.py:150-154 | Anonymous goes to login. An unknown author is not found. Otherwise that one edge is removed. |
| ViewProps.UnfollowIdempotent | yatube/posts/views.py:150-154 | Unfollowing twice is the same as unfollowing once. |
| ViewProps.UnfollowAbsent | yatube/posts/views.py:153 | Unfollowing an author one does not follow changes nothing. |
| ViewProps.UnfollowUndoesFollow | yatube/posts/views.py:141-154 | Following a new author and then unfollowing restores the store exactly. |
| ViewProps.FeedAfterFollow | yatube/posts/views.py:132-134 | After a follow, the feed is the old feed plus exactly the author's posts. |
| ViewProps.FeedAfterUnfollow | yatube/posts/views.py:132-134 | After an unfollow, the feed is the old feed minus exactly the author's posts. |
| ViewProps.FeedEmptyAgain | yatube/posts/tests/test_views.py:316-334 | Starting with no follows, a follow puts the author's posts in the feed, and the unfollow empties it again. |
| Views.PostDelete | yatube/posts/views.py:157-163 | Anonymous goes to login. A non-author is redirected to the post with nothing written. A missing post is not found. The author's delete cascades and returns to the Referer. |
| ViewProps.AuthorDeleteRemovesOne | yatube/posts/views.py:161-162 | The author's delete removes exactly one post: the named one. |
| ViewProps.PostViewValid | yatube/posts/views.py:64-66 | Recording a view keeps every store constraint. |
| ViewProps.NewPostValid | yatube/posts/views.py:95-98 | A new post keeps every store constraint, including newest-first order. |
| ViewProps.AddCommentValid | yatube/posts/views.py:84-88 | A new comment keeps every store constraint. |
| ViewProps.ReplaceValid | yatube/posts/views.py:117-119 | Saving an edited post in place keeps every store constraint. |
| ViewProps.PostEditValid | yatube/posts/views.py:108-127 | `post_edit` keeps every store constraint. |
| ViewProps.ProfileFollowValid | yatube/posts/models.py:107-112 | `profile_follow` keeps the follow pair unique, and every other constraint. |
| ViewProps.ProfileUnfollowValid | yatube/posts/views.py:150-154 | `profile_unfollow` keeps every store constraint. |
| ViewProps.PostDeleteValid | yatube/posts/views.py:157-163 | `post_delete` keeps every store constraint. |
| Models.PostStr | yatube/posts/models.py:62-63 | The result is a prefix of the text, of length min(15, length of the text). |
| Models.CommentStr | yatube/posts/models.py:91-92 | The result is a prefix of the text, of length min(15, length of the text). |
| Models.StrShapes | yatube/posts/models.py:24-25 | A short post or comment text is shown whole, and a long one is cut at 15. A group shows its title. |
| OnDelete.DeletePost | yatube/posts/models.py:67-71 | Exactly the post and exactly its comments are removed, along with its viewer set. Users, groups and follows are unchanged. |
| OnDelete.DeleteUser | yatube/posts/models.py:37-105 | Removes the user, their posts and their comments, the comments on their posts, every edge with them at either end, and the viewer sets of the removed posts. Groups, the IP table, the hit counters, the key sequences and every surviving viewer set are unchanged. |
| OnDelete.DetachAll | yatube/posts/models.py:42-48 | Each post loses the deleted group and is otherwise unchanged. |
| OnDelete.DeleteGroup | yatube/posts/models.py:42-48 | The group is removed and every post survives, in place. A post of that group is the same post without a group; all others are unchanged. Users, comments, follows, viewers, IPs, hit counters and key sequences are unchanged. |
| OnDelete.DeletePostValid | yatube/posts/models.py:66-71 | The post cascade leaves no dangling comment or viewer row. |
| OnDelete.DeleteUserValid | yatube/posts/models.py:37-105 | The user cascade leaves no dangling post, comment or follow row. |
| OnDelete.DeleteGroupValid | yatube/posts/models.py:42-48 | Set-null leaves no post pointing at the deleted group. |
| Urls.FirstMatch | yatube/posts/urls.py:7-23 | The result is the match of the first route that matches. There is no result iff no route matches. |
| Urls.MatchShape | yatube/posts/urls.py:8-22 | A pattern matches iff there is one accepted piece per segment, then the empty piece after the final '/'. |
| Urls.RouteFits | yatube/posts/urls.py:8-22 | Each route matches a path iff its pieces fit the pattern, and the match carries that route's view. |
| Urls.ReversePieces | yatube/posts/urls.py:8-22 | A reversed path splits into the view's pieces. |
| Urls.CatchesAll | yatube/posts/urls.py:8-22 | A view's own route captures its parameters. An earlier route also matches iff the parameters are shadowed. |
| Urls.ResolveReverse | yatube/posts/urls.py:7-23 | Resolving a reversed path gives the view and parameters back iff no earlier route shadows them. A user named "new" or "follow" loses their profile, and one named "group" loses their post, follow and unfollow pages. |
| Urls.NeedsFinalSlash | yatube/posts/urls.py:8-22 | A non-empty path without a final '/' resolves to nothing. |
| Urls.ResolvesIndex | yatube/posts/urls.py:8 | The empty path resolves to `index`. |
| Urls.ResolvesGroup | yatube/posts/urls.py:9 | "group/<slug>/" resolves to `group_posts` with that slug, for every slug. |
| Urls.ResolvesNew | yatube/posts/urls.py:10 | "new/" resolves to `new_post`, not to a profile. |
| Urls.ResolvesFollowIndex | yatube/posts/urls.py:11 | "follow/" resolves to `follow_index`, not to a profile. |
| Urls.ResolvesDelete | yatube/posts/urls.py:12 | "<user>/<id>/delete/" resolves to `post_delete` with that user name and the id read back, for every user name. |
| Urls.ResolvesProfile | yatube/posts/urls.py:13 | "<user>/" resolves to `profile` for every user name except "new" and "follow". |
| Urls.ResolvesPost | yatube/posts/urls.py:14 | "<user>/<id>/" resolves to `post_view` with the id read back, for every user name except "group". |
| Urls.ResolvesEdit | yatube/posts/urls.py:15-16 | "<user>/<id>/edit/" resolves to `post_edit` with that user name and id, for every user name. |
| Urls.ResolvesComment | yatube/posts/urls.py:17-18 | "<user>/<id>/comment/" resolves to `add_comment` with that user name and id, for every user name. |
| Urls.ResolvesFollow | yatube/posts/urls.py:19-20 | "<user>/follow/" resolves to `profile_follow`, not to a post page, for every user name except "group". |
| Urls.ResolvesUnfollow | yatube/posts/urls.py:21-22 | "<user>/unfollow/" resolves to `profile_unfollow` for every user name except "group". |
| Decorators.Hit | yatube/posts/decorators.py:12-17 | A signed-in hit raises the (user, path) counter by exactly one, creating it from the initial value on the first hit. An anonymous hit changes nothing. Every other counter and table is unchanged. |
| Decorators.Counted | yatube/posts/decorators.py:8-20 | For an anonymous request the wrapped view runs on the unchanged store. For a signed-in one it runs on the store after the hit. In both cases its result is returned. |
| Decorators.HitsAccumulate | yatube/posts/decorators.py:16-17 | After n further hits, an existing counter is exactly n higher and nothing else changed. |
| Decorators.HitMonotone | yatube/posts/decorators.py:13-17 | Counters never go down or disappear, and a counted visit keeps every store constraint. |
| Api.HasObjectPermission | yatube/api/permissions.py:5-9 | Safe methods are always allowed and the author is always allowed. A non-author with an unsafe method is refused. |
| ApiProps.PermissionOnlyAuthorshipAndVerb | yatube/api/permissions.py:5-9 | The decision depends only on authorship and the verb. |
| ApiProps.NonAuthorWritesNothing | yatube/api/permissions.py:5-9 | A non-author's update or delete of a post changes nothing and is refused with 401 or 403. |
| Api.PostRepOf | yatube/api/serializers.py:33-41 | A post is rendered with its id, text and author's username. |
| Api.CommentRepOf | yatube/api/serializers.py:21-30 | A comment is rendered with its id, post id and author's username. |
| Api.FollowRepOf | yatube/api/serializers.py:50-63 | A follow is rendered as the two usernames, and nothing else. |
| Api.ApiCreatePost | yatube/api/views.py:23-24 | An invalid payload is 400 with nothing written. Anonymous saving fails. A created post is the requester's and gets a fresh id. Only a created outcome writes. |
| ApiProps.CreatePostIgnoresAuthor | yatube/api/serializers.py:34-37 | A submitted `author` has no effect on the create. |
| ApiProps.CreatePostOwned | yatube/api/views.py:23-24 | The stored post has the requester as author. It is added to the existing posts, and nothing else changes. |
| Api.Updated | yatube/api/serializers.py:33-41 | An update keeps id, date and author. Fields absent from the payload keep their values. |
| Api.ApiUpdatePost | yatube/api/views.py:12-15 | A missing post is 404. A non-author is refused with nothing written. For the author, an invalid payload is 400, and a valid one replaces the post in place and returns it with 200. |
| Api.ApiDestroyPost | yatube/api/views.py:12-15 | A missing post is 404. A non-author is refused. The author's delete cascades. |
| Api.ApiListComments | yatube/api/views.py:49-51 | 404 iff the post is missing. Otherwise 200, and the list is exactly that post's comments, rendered. |
| Api.ApiCreateComment | yatube/api/views.py:53-55 | Invalid text is 400 and a missing post is 404. A created comment is on the path's post, by the requester. Only a created outcome writes. |
| ApiProps.CreateCommentIgnoresReadOnly | yatube/api/serializers.py:22-26 | A submitted `post` or `author` has no effect. |
| ApiProps.CreateCommentOwned | yatube/api/views.py:53-55 | The stored comment is the requester's, on the path's post, and is added to the existing comments. |
| Api.ApiDestroyComment | yatube/api/views.py:39-51 | A missing post, or no comment of that post with the id, is 404. Only the author of such a comment writes: the outcome is 204 and exactly the comments with that id are removed. |
| ApiProps.DestroyCommentDecided | yatube/api/views.py:39-51 | With unique comment keys, the comment of the path's post with the id decides: its author's delete is 204 and removes exactly it, and anyone else is refused with nothing written. |
| Api.ApiListFollows | yatube/api/views.py:69-70 | Anonymous is 401. Otherwise the list is exactly the requester's outgoing edges. |
| Api.ApiFollowPosts | yatube/api/views.py:75-81 | Anonymous is 401. Otherwise the posts whose author the requester follows. |
| Api.FollowFields | yatube/api/serializers.py:51-70 | The author must be named and exist. The user defaults to the requester, or must exist if named. The pair must not be an edge yet. |
| Api.FollowValidateAsWritten | yatube/api/serializers.py:72-76 | Without a 'following' key, `validate` fails. Any data it passes is unchanged. |
| Api.ApiCreateFollowAsWritten | yatube/api/views.py:72-73 | As written, the follow create never changes the store. |
| ApiProps.FollowCreateAsWrittenFails | yatube/api/serializers.py:72-76 | As written, every signed-in follow create is 400 or 500 and writes nothing. |
| ApiProps.FollowCreateCounterexample | yatube/api/serializers.py:72-76 | Alice following Bob is 500 as written, while the intended check creates the edge (1, 2). |
| Api.FollowValidate | yatube/api/serializers.py:72-76 | The intended check passes iff author and user differ, and it passes the data unchanged. |
| Api.ApiCreateFollow | yatube/api/views.py:72-73 | Anonymous is 401. Any write is created: exactly the edge from the requester to the named author, appended. |
| ApiProps.FollowCreateAddsEdge | yatube/api/views.py:72-73 | With no submitted user, the create succeeds iff the author exists, is someone else and is not yet followed. It then appends exactly that edge; otherwise nothing changes. |
| ApiProps.FollowCreateNoSelfEdge | yatube/api/serializers.py:72-76 | With no submitted user, no self edge is ever created. |
| ApiProps.FollowSelfCheckUsesSubmittedUser | yatube/api/serializers.py:51-55 | The self check compares against the submitted `user`, while the save uses the requester, so naming someone else lets a requester follow themself. |
| Api.ApiGroups | yatube/api/views.py:27-36 | Nothing is written. GET and HEAD list exactly the groups, OPTIONS returns the view's description, and every unsafe verb is 405. |
| ApiProps.GroupsAfterDelete | yatube/api/views.py:27-36 | After a group is deleted, a read lists every other group and not that one. |
| ApiProps.OptionsDescribes | yatube/api/views.py:27-96 | OPTIONS on the group and account views writes nothing and returns the description, never rows. On the account detail this holds whether or not the key exists. |
| Api.AdminOnly | yatube/api/views.py:87 | Only staff pass. Anonymous is 401 and other users are 403. |
| Api.ApiUsers | yatube/api/views.py:84-87 | A refused requester gets the permission's answer before the verb is looked at. Staff GET and HEAD list every account, and OPTIONS describes the view. PUT, PATCH and DELETE are 405 on the list. An invalid create is 400. A valid create appends the account under the next user key, with its password encoded, and returns it with 201. Nothing else writes. |
| Api.ApiUser | yatube/api/views.py:84-87 | A refused requester gets the permission's answer. POST is 405 and OPTIONS describes the view without a lookup. Otherwise a missing account is 404. GET and HEAD return the account. DELETE is 204 and runs the user cascade. An invalid PUT or PATCH is 400. A valid one replaces the account in place, keeping absent fields, and returns it. |
| Api.UserUpdated | yatube/api/serializers.py:7-11 | An update keeps the key. Submitted fields replace the old values, a submitted password is stored encoded, and absent fields keep their values. |
| Api.ApiUsersAsWritten | yatube/api/serializers.py:7-11 | As written, the create is the same as the intended one, except that the created account keeps its password as sent. |
| Api.UserUpdatedAsWritten | yatube/api/serializers.py:7-11 | As written, an update is the same as the intended one, except that a submitted password is stored as sent. |
| ApiProps.SentPasswordNeverMatches | yatube/api/serializers.py:7-11 | As written, an account created or given a password through the API matches no password at sign-in. |
| ApiProps.EncodedPasswordMatches | yatube/api/serializers.py:7-11 | With the password encoded, the created or updated account matches exactly the stripped password it was given. |
| ApiProps.CreatedUserFound | yatube/api/views.py:84-87 | A created account is found by its name afterwards, and no post or follow edge points at it yet. |
| ApiProps.UpdatedUserFound | yatube/api/views.py:84-87 | An accepted update returns the new account, and the key then finds exactly it. |
| ApiProps.DeletedUserGone | yatube/posts/models.py:37-105 | After a delete, the account is gone, and so are its posts and every follow edge at either end. |
| ApiProps.ApiUsersValid | yatube/api/views.py:84-87 | An account create keeps every store constraint, including unique usernames. |
| ApiProps.ApiUserValid | yatube/api/views.py:84-87 | An account update or delete keeps every store constraint. |
| ApiProps.ApiCreatePostValid | yatube/api/views.py:23-24 | An API post create keeps every store constraint. |
| ApiProps.ApiCreateCommentValid | yatube/api/views.py:53-55 | An API comment create keeps every store constraint. |
| ApiProps.ApiUpdatePostValid | yatube/api/views.py:12-15 | An API post update keeps every store constraint. |
| ApiProps.ApiDestroyPostValid | yatube/api/views.py:12-15 | An API post delete keeps every store constraint. |
| ApiProps.ApiDestroyCommentValid | yatube/api/views.py:39-51 | An API comment delete keeps every store constraint. |
| ApiProps.ApiCreateFollowValid | yatube/posts/models.py:107-112 | An API follow create keeps the follow pair unique, and every other constraint. |

## Left out

- Templates, rendering, the 404/500 handlers, the about app, the admin, the `post_form` template tag and the users app are not modelled. They hold no domain logic.
- yatube/posts/forms.py is not part of this model. A post form is taken to be valid when its text is not blank and its group exists, and a comment form when its text is not blank.
- Util.Strip: submitted text is stored with leading and trailing ASCII whitespace removed. Unicode whitespace is not modelled.
- Image uploads, image validation and clearing an image are not modelled. An uploaded image is an opaque path.
- `Post.is_recently_pub`, the `Ip` and `PageHit` models, and the `Post.views` relation are not part of this model. The edit window is a boolean parameter, and the counter's initial value is a parameter. The viewer rows are the store's `ips` and `viewers`. The derived view count is not modelled.
- The page cache is not modelled: it is commented out in the views.
- `transaction.atomic` and the atomic `F()` increment are not modelled. Requests are sequential, so the increment is a plain +1.
- ORM query mechanics and `select_related`/`prefetch_related` are not modelled.
- The JWT endpoints and API routing are not modelled. API handlers are called directly with the post id from the path.
- DRF search and ordering filters are not modelled. This includes the groups' title ordering, the follows' id ordering and the users' `date_joined` ordering. Lists come back in store order.
- Pagination.PageNumber: Django's `get_page` clamping comes from the framework, not the views. A missing or non-numeric page is page 1, and any other out-of-range number is the last page.
- Urls: the `str`, `int` and `slug` converters are assumed to be Django's: `[^/]+`, `[0-9]+` and `[-a-zA-Z0-9_]+`.
- Views.ClientIp: REMOTE_ADDR is assumed to be present.
- Comment update and follow update/destroy through the API are not modelled.
- The API's default authentication and permission settings are not part of this model. A failed permission is 401 for the anonymous user and 403 otherwise.
- Api.ApiCreatePost and Api.ApiCreateComment: an anonymous create passes validation and then fails when the anonymous user is saved as author. It is modelled as a 500 with nothing written.
- Api.ApiCreateFollow: when a submitted `user` differs from the requester, the uniqueness validator checks the submitted pair, but the requester's row is the one saved. A duplicate for the requester is then a unique-constraint failure (500). This is modelled as the code behaves; `ApiProps.FollowSelfCheckUsesSubmittedUser` shows the self-follow that this permits.
- Api.ApiCreateFollow: a duplicate of the submitted pair is rejected with 400 by the uniqueness validator (yatube/api/serializers.py:65-70). A self-follow is meant to be rejected with 400 by `validate` (yatube/api/serializers.py:72-76). As written, `validate` fails with a server error on every request that reaches it (see Findings). The model keeps that as `Api.ApiCreateFollowAsWritten` and uses the intended check elsewhere.
- Views: the `page` number is taken as already read from the query string.
- Api.ApiUsers and Api.ApiUser: of an account's fields, only the username, the staff flag and the password are kept. The other account fields are not modelled. Usernames allow ASCII letters and digits only, not all Unicode word characters. The password's 128-character limit is not modelled.
- Api.PasswordMatches: the encoding is not modelled; `Encoded(p)` stands for some encoding of `p`. A password sent in a form that a hasher happens to recognise is not modelled: a text stored as sent matches nothing.
- Api.ApiGroups, Api.ApiUsers and Api.ApiUser: the OPTIONS description is one opaque body. Its contents (name, description, renderers, parsers, and the actions a permitted requester may take) are not modelled.

## Findings

| source | as written | input that shows it | evidently intended | confidence | as-written member | corrected member |
|---|---|---|---|---|---|---|
| yatube/api/serializers.py:72-76 | `validate` reads `data['following']`, but the serializer's fields are `user` and `author`, so the key is never present and every follow create that passes field validation raises `KeyError` (500) and writes nothing | signed-in alice (id 1) posts `{"author": "bob"}` for bob (id 2), whom she does not follow: `ApiProps.FollowCreateCounterexample` | compare `data['author']` with `data['user']`, reject equality with 400, otherwise save the edge | not executed | Api.ApiCreateFollowAsWritten | Api.ApiCreateFollow |
| yatube/api/serializers.py:7-11 | `UserSerializer` is a plain model serializer with no `create` or `update` of its own, so the submitted password is assigned to the row as sent, never through `set_password`; Django's `check_password` then recognises no hasher in it, and the account can never sign in | staff POSTs `{"username": "carol", "password": "pw"}`; carol's "pw" is then refused at sign-in: `ApiProps.SentPasswordNeverMatches` | encode the password on create and update, so the account signs in with it: `ApiProps.EncodedPasswordMatches` | not executed | Api.ApiUsersAsWritten | Api.ApiUsers |
