/** The REST API over the same store: posts and their comments readable by
    anyone and writable by their authors, read-only groups, accounts
    managed by staff only, and the requester's follow edges.

    A request is who asks, with which HTTP verb, and the clock reading
    stamped on new rows. Payload fields are `None` when absent; read-only
    fields (a post's or comment's `author`, a comment's `post`) are accepted
    in the payload and ignored. Submitted text is stored stripped, as the
    serializer's text fields trim whitespace. Failures are reported by
    status: 400 (invalid payload), 401 (not signed in), 403 (signed in but
    not allowed), 404, 405 (verb not offered) and 500 (an exception the
    framework does not turn into a response). */
module Api {
  import opened Util
  import opened Models
  import Views
  import OnDelete

  datatype Method = GET | HEAD | OPTIONS | POST | PUT | PATCH | DELETE

  /** `SAFE_METHODS`. */
  predicate Safe(m: Method)
  {
    m == GET || m == HEAD || m == OPTIONS
  }

  /** The verbs a viewset routes to `list` or `retrieve`. OPTIONS is safe
      too, but the router maps it to no action: the view answers it with its
      own description instead. */
  predicate Reads(m: Method)
  {
    m == GET || m == HEAD
  }

  datatype ApiRequest = ApiRequest(requester: Views.Requester, verb: Method, now: int)

  /** Whether the requester is the user with id `author`. */
  predicate IsAuthor(requester: Views.Requester, author: Id)
  {
    requester.SignedIn? && requester.user.id == author
  }

  /** `IsAuthorOrReadOnly.has_object_permission`: authors may do anything to
      their objects, everyone may read them. */
  function HasObjectPermission(requester: Views.Requester, verb: Method, author: Id): (ok: bool)
    ensures Safe(verb) ==> ok
    ensures IsAuthor(requester, author) ==> ok
    ensures !Safe(verb) && !IsAuthor(requester, author) ==> !ok
  {
    IsAuthor(requester, author) || Safe(verb)
  }

  // ------------------------------------------------------- representations

  datatype PostRep = PostRep(id: Id, text: string, pubDate: int, author: string,
                             group: Option<Id>, image: Option<string>)
  datatype CommentRep = CommentRep(id: Id, post: Id, author: string, text: string, created: int)
  datatype FollowRep = FollowRep(user: string, author: string)

  /** Response bodies. `Described` is the metadata an OPTIONS request gets:
      the view's name, description, renderers and parsers, and no rows. */
  datatype Body =
    | PostOut(post: PostRep)
    | PostsOut(posts: seq<PostRep>)
    | CommentOut(comment: CommentRep)
    | CommentsOut(comments: seq<CommentRep>)
    | FollowOut(follow: FollowRep)
    | FollowsOut(follows: seq<FollowRep>)
    | GroupsOut(groups: seq<Group>)
    | UsersOut(users: seq<User>)
    | UserOut(user: User)
    | Described

  datatype ApiOutcome =
    | Ok(body: Body)
    | Created(body: Body)
    | NoContent
    | BadRequest
    | Unauthorized
    | Forbidden
    | NotFound
    | MethodNotAllowed
    | ServerError

  datatype ApiStep = ApiStep(store: Store, outcome: ApiOutcome)

  /** The username of user `id` (a `SlugRelatedField` on `username`). */
  function UsernameOf(s: Store, id: Id): string
  {
    match UserById(s, id)
    case None => ""
    case Some(u) => u.username
  }

  function PostRepOf(s: Store, p: Post): (r: PostRep)
    ensures r.id == p.id && r.text == p.text && r.author == UsernameOf(s, p.author)
  {
    PostRep(p.id, p.text, p.pubDate, UsernameOf(s, p.author), p.group, p.image)
  }

  function CommentRepOf(s: Store, c: Comment): (r: CommentRep)
    ensures r.id == c.id && r.post == c.post && r.author == UsernameOf(s, c.author)
  {
    CommentRep(c.id, c.post, UsernameOf(s, c.author), c.text, c.created)
  }

  function FollowRepOf(s: Store, f: Follow): (r: FollowRep)
    ensures r.user == UsernameOf(s, f.user) && r.author == UsernameOf(s, f.author)
  {
    FollowRep(UsernameOf(s, f.user), UsernameOf(s, f.author))
  }

  /** How a refused permission is reported: 401 to the anonymous user, 403
      to a signed-in one. */
  function Denied(requester: Views.Requester): (o: ApiOutcome)
    ensures o == Unauthorized <==> requester.Anonymous?
    ensures o == Forbidden <==> requester.SignedIn?
  {
    if requester.Anonymous? then Unauthorized else Forbidden
  }

  // ----------------------------------------------------------------- posts

  /** A post payload; `group` is absent, null or an id. */
  datatype PostPayload = PostPayload(text: Option<string>, group: Option<Option<Id>>,
                                     image: Option<string>, author: Option<string>)

  /** The serializer's field checks; `partial` (PATCH) makes `text`
      optional. */
  predicate PostPayloadValid(s: Store, d: PostPayload, partial: bool)
  {
    && (d.text.None? ==> partial)
    && (d.text.Some? ==> !Blank(d.text.value))
    && (d.group.Some? && d.group.value.Some? ==> d.group.value.value in GroupIds(s))
  }

  /** `PostViewSet.create`: validate, then save with the requester as author.
      Saving with the anonymous user fails with an exception. */
  function ApiCreatePost(s: Store, req: ApiRequest, d: PostPayload): (r: ApiStep)
    ensures !PostPayloadValid(s, d, false) ==> r == ApiStep(s, BadRequest)
    ensures PostPayloadValid(s, d, false) && req.requester.Anonymous? ==> r == ApiStep(s, ServerError)
    ensures r.outcome.Created? ==> && req.requester.SignedIn?
                                   && r.outcome.body.PostOut?
                                   && r.outcome.body.post.id == s.nextPost
                                   && r.outcome.body.post.author == req.requester.user.username
    ensures r.store != s ==> r.outcome.Created?
  {
    if !PostPayloadValid(s, d, false) then ApiStep(s, BadRequest)
    else
      match req.requester
      case Anonymous => ApiStep(s, ServerError)
      case SignedIn(u) =>
        var p := Post(s.nextPost, Strip(d.text.value), req.now, u.id,
                      if d.group.Some? then d.group.value else None, d.image);
        var t := s.(posts := InsertDesc(p, s.posts, PubDate), nextPost := s.nextPost + 1);
        ApiStep(t, Created(PostOut(PostRep(p.id, p.text, p.pubDate, u.username, p.group, p.image))))
  }

  /** A post after an accepted update: fields absent from the payload keep
      their values. */
  function Updated(p: Post, d: PostPayload): (q: Post)
    ensures q.id == p.id && q.pubDate == p.pubDate && q.author == p.author
    ensures q.text == if d.text.Some? then Strip(d.text.value) else p.text
    ensures q.group == if d.group.Some? then d.group.value else p.group
  {
    p.(text := if d.text.Some? then Strip(d.text.value) else p.text,
       group := if d.group.Some? then d.group.value else p.group,
       image := if d.image.Some? then d.image else p.image)
  }

  /** `PostViewSet.update` (PUT) and `partial_update` (PATCH): look the post
      up, check the object permission, validate, save. */
  function ApiUpdatePost(s: Store, req: ApiRequest, pid: Id, partial: bool, d: PostPayload): (r: ApiStep)
    ensures PostById(s, pid).None? ==> r == ApiStep(s, NotFound)
    ensures PostById(s, pid).Some? && !IsAuthor(req.requester, PostById(s, pid).value.author) ==>
              r == ApiStep(s, Denied(req.requester))
    ensures r.store != s ==> && r.outcome.Ok?
                             && PostById(s, pid).Some?
                             && IsAuthor(req.requester, PostById(s, pid).value.author)
                             && PostPayloadValid(s, d, partial)
    ensures PostById(s, pid).Some? && IsAuthor(req.requester, PostById(s, pid).value.author) ==>
              var q := Updated(PostById(s, pid).value, d);
              && (!PostPayloadValid(s, d, partial) ==> r == ApiStep(s, BadRequest))
              && (PostPayloadValid(s, d, partial) ==>
                    r == ApiStep(s.(posts := Views.Replace(s.posts, q)), Ok(PostOut(PostRepOf(s, q)))))
  {
    match PostById(s, pid)
    case None => ApiStep(s, NotFound)
    case Some(p) =>
      if !HasObjectPermission(req.requester, if partial then PATCH else PUT, p.author) then
        ApiStep(s, Denied(req.requester))
      else if !PostPayloadValid(s, d, partial) then ApiStep(s, BadRequest)
      else
        var q := Updated(p, d);
        ApiStep(s.(posts := Views.Replace(s.posts, q)), Ok(PostOut(PostRepOf(s, q))))
  }

  /** `PostViewSet.destroy`: only the author deletes, with the cascade. */
  function ApiDestroyPost(s: Store, req: ApiRequest, pid: Id): (r: ApiStep)
    ensures PostById(s, pid).None? ==> r == ApiStep(s, NotFound)
    ensures PostById(s, pid).Some? && !IsAuthor(req.requester, PostById(s, pid).value.author) ==>
              r == ApiStep(s, Denied(req.requester))
    ensures PostById(s, pid).Some? && IsAuthor(req.requester, PostById(s, pid).value.author) ==>
              r == ApiStep(OnDelete.DeletePost(s, pid), NoContent)
  {
    match PostById(s, pid)
    case None => ApiStep(s, NotFound)
    case Some(p) =>
      if !HasObjectPermission(req.requester, DELETE, p.author) then ApiStep(s, Denied(req.requester))
      else ApiStep(OnDelete.DeletePost(s, p.id), NoContent)
  }

  // -------------------------------------------------------------- comments

  datatype CommentPayload = CommentPayload(text: Option<string>, post: Option<Id>, author: Option<string>)

  predicate CommentPayloadValid(d: CommentPayload)
  {
    d.text.Some? && !Blank(d.text.value)
  }

  /** `CommentViewSet.list`: the comments of the post in the path. */
  function ApiListComments(s: Store, pid: Id): (r: ApiStep)
    ensures r.store == s
    ensures r.outcome == NotFound <==> PostById(s, pid).None?
    ensures PostById(s, pid).Some? ==> r.outcome.Ok?
    ensures r.outcome.Ok? ==> && r.outcome.body.CommentsOut?
                              && |r.outcome.body.comments| == |Views.CommentsOf(s, pid)|
                              && forall i :: 0 <= i < |Views.CommentsOf(s, pid)| ==>
                                   r.outcome.body.comments[i] == CommentRepOf(s, Views.CommentsOf(s, pid)[i])
  {
    if PostById(s, pid).None? then ApiStep(s, NotFound)
    else ApiStep(s, Ok(CommentsOut(Map(Views.CommentsOf(s, pid), (c: Comment) => CommentRepOf(s, c)))))
  }

  /** `CommentViewSet.create`: validate, find the path's post, save with the
      requester as author and that post. */
  function ApiCreateComment(s: Store, req: ApiRequest, pid: Id, d: CommentPayload): (r: ApiStep)
    ensures !CommentPayloadValid(d) ==> r == ApiStep(s, BadRequest)
    ensures CommentPayloadValid(d) && PostById(s, pid).None? ==> r == ApiStep(s, NotFound)
    ensures CommentPayloadValid(d) && PostById(s, pid).Some? && req.requester.Anonymous? ==>
              r == ApiStep(s, ServerError)
    ensures r.outcome.Created? ==> && req.requester.SignedIn?
                                   && r.outcome.body.CommentOut?
                                   && r.outcome.body.comment.post == pid
                                   && r.outcome.body.comment.author == req.requester.user.username
    ensures r.store != s ==> r.outcome.Created?
  {
    if !CommentPayloadValid(d) then ApiStep(s, BadRequest)
    else if PostById(s, pid).None? then ApiStep(s, NotFound)
    else
      match req.requester
      case Anonymous => ApiStep(s, ServerError)
      case SignedIn(u) =>
        var c := Comment(s.nextComment, pid, u.id, Strip(d.text.value), req.now);
        var t := s.(comments := InsertDesc(c, s.comments, CreatedTime), nextComment := s.nextComment + 1);
        ApiStep(t, Created(CommentOut(CommentRep(c.id, c.post, u.username, c.text, c.created))))
  }

  /** The comment of post `pid` with key `cid`, if there is one. */
  function CommentOf(s: Store, pid: Id, cid: Id): (r: Option<Comment>)
    ensures r.Some? ==> r.value in s.comments && r.value.post == pid && r.value.id == cid
    ensures r.None? <==> forall c :: c in s.comments && c.post == pid ==> c.id != cid
  {
    Find(Views.CommentsOf(s, pid), (c: Comment) => c.id == cid)
  }

  /** `CommentViewSet.destroy`: the comment must belong to the path's post;
      only its author deletes it. */
  function ApiDestroyComment(s: Store, req: ApiRequest, pid: Id, cid: Id): (r: ApiStep)
    ensures PostById(s, pid).None? ==> r == ApiStep(s, NotFound)
    ensures r.store != s ==> && r.outcome == NoContent
                             && exists c :: c in s.comments && c.id == cid && c.post == pid
                                           && IsAuthor(req.requester, c.author)
    ensures forall c :: c in r.store.comments <==> c in s.comments && (r.store == s || c.id != cid)
    ensures PostById(s, pid).Some? && (forall c :: c in s.comments && c.post == pid ==> c.id != cid) ==>
              r == ApiStep(s, NotFound)
    ensures PostById(s, pid).Some? && r.store != s ==>
              r.store == s.(comments := Filter(s.comments, (x: Comment) => x.id != cid))
  {
    if PostById(s, pid).None? then ApiStep(s, NotFound)
    else
      match CommentOf(s, pid, cid)
      case None => ApiStep(s, NotFound)
      case Some(c) =>
        if !HasObjectPermission(req.requester, DELETE, c.author) then ApiStep(s, Denied(req.requester))
        else ApiStep(s.(comments := Filter(s.comments, (x: Comment) => x.id != cid)), NoContent)
  }

  // --------------------------------------------------------------- follows

  /** `FollowViewSet.list`: the requester's own edges, in creation order. */
  function ApiListFollows(s: Store, req: ApiRequest): (r: ApiStep)
    ensures r.store == s
    ensures req.requester.Anonymous? ==> r.outcome == Unauthorized
    ensures req.requester.SignedIn? ==>
              var own := Filter(s.follows, (f: Follow) => f.user == req.requester.user.id);
              && r.outcome == Ok(FollowsOut(Map(own, (f: Follow) => FollowRepOf(s, f))))
              && forall f :: f in own <==> f in s.follows && f.user == req.requester.user.id
  {
    match req.requester
    case Anonymous => ApiStep(s, Unauthorized)
    case SignedIn(u) =>
      var own := Filter(s.follows, (f: Follow) => f.user == u.id);
      ApiStep(s, Ok(FollowsOut(Map(own, (f: Follow) => FollowRepOf(s, f)))))
  }

  /** The `posts` action of the follow endpoint: the followed authors' posts. */
  function ApiFollowPosts(s: Store, req: ApiRequest): (r: ApiStep)
    ensures r.store == s
    ensures req.requester.Anonymous? ==> r.outcome == Unauthorized
    ensures req.requester.SignedIn? ==>
              r.outcome == Ok(PostsOut(Map(Views.FollowFeed(s, req.requester.user.id), (p: Post) => PostRepOf(s, p))))
  {
    match req.requester
    case Anonymous => ApiStep(s, Unauthorized)
    case SignedIn(u) => ApiStep(s, Ok(PostsOut(Map(Views.FollowFeed(s, u.id), (p: Post) => PostRepOf(s, p)))))
  }

  datatype FollowPayload = FollowPayload(user: Option<string>, author: Option<string>)

  /** The serializer's data after field validation and the uniqueness
      validator: `user` (defaulting to the requester) and `author`, both
      existing users, not yet an edge. */
  datatype FollowData = FollowData(user: User, author: User)

  function FollowFields(s: Store, requester: User, d: FollowPayload): (r: Option<FollowData>)
    ensures d.author.None? ==> r.None?
    ensures r.Some? ==> && r.value.author in s.users && Some(r.value.author.username) == d.author
                        && (d.user.None? ==> r.value.user == requester)
                        && (d.user.Some? ==> r.value.user in s.users && Some(r.value.user.username) == d.user)
                        && !Views.Follows(s, r.value.user.id, r.value.author.id)
  {
    if d.author.None? || UserByName(s, d.author.value).None? then None
    else
      var author := UserByName(s, d.author.value).value;
      var user := if d.user.None? then Some(requester) else UserByName(s, d.user.value);
      if user.None? || Views.Follows(s, user.value.id, author.id) then None
      else Some(FollowData(user.value, author))
  }

  /** `FollowSerializer.validate` as written: it reads the key 'following',
      which the validated data never holds, so it always raises `KeyError`
      (`None` here). */
  function FollowValidateAsWritten(data: map<string, User>): (r: Option<map<string, User>>)
    ensures "following" !in data ==> r.None?
    ensures r.Some? ==> r.value == data
  {
    if "following" !in data || "user" !in data then None
    else if data["following"] == data["user"] then None
    else Some(data)
  }

  /** `FollowViewSet.create` as written: field checks, the uniqueness
      validator, `validate`, then the save with the requester as `user`. */
  function ApiCreateFollowAsWritten(s: Store, req: ApiRequest, d: FollowPayload): (r: ApiStep)
    ensures r.store == s
    ensures req.requester.Anonymous? ==> r.outcome == Unauthorized
  {
    match req.requester
    case Anonymous => ApiStep(s, Unauthorized)
    case SignedIn(u) =>
      match FollowFields(s, u, d)
      case None => ApiStep(s, BadRequest)
      case Some(data) =>
        match FollowValidateAsWritten(map["user" := data.user, "author" := data.author])
        case None => ApiStep(s, ServerError)
        case Some(_) =>
          if Views.Follows(s, u.id, data.author.id) then ApiStep(s, ServerError)
          else
            var e := Follow(u.id, data.author.id);
            ApiStep(s.(follows := s.follows + [e]), Created(FollowOut(FollowRep(u.username, data.author.username))))
  }

  /** The self-follow check `validate` evidently intends: the author must
      differ from the serializer's `user`. */
  function FollowValidate(data: FollowData): (r: Option<FollowData>)
    ensures r.Some? <==> data.author.id != data.user.id
    ensures r.Some? ==> r.value == data
  {
    if data.author.id == data.user.id then None else Some(data)
  }

  /** `FollowViewSet.create` with the intended check: the edge is saved with
      the requester as `user`; a row that already exists for the requester
      violates the table's unique constraint (500). */
  function ApiCreateFollow(s: Store, req: ApiRequest, d: FollowPayload): (r: ApiStep)
    ensures req.requester.Anonymous? ==> r == ApiStep(s, Unauthorized)
    ensures r.store != s ==>
              && req.requester.SignedIn?
              && d.author.Some? && UserByName(s, d.author.value).Some?
              && r.store == s.(follows := s.follows + [Follow(req.requester.user.id, UserByName(s, d.author.value).value.id)])
              && r.outcome.Created?
  {
    match req.requester
    case Anonymous => ApiStep(s, Unauthorized)
    case SignedIn(u) =>
      match FollowFields(s, u, d)
      case None => ApiStep(s, BadRequest)
      case Some(data) =>
        if FollowValidate(data).None? then ApiStep(s, BadRequest)
        else if Views.Follows(s, u.id, data.author.id) then ApiStep(s, ServerError)
        else
          var e := Follow(u.id, data.author.id);
          ApiStep(s.(follows := s.follows + [e]), Created(FollowOut(FollowRep(u.username, data.author.username))))
  }

  // --------------------------------------------------------- groups, users

  /** `GroupViewSet` is read-only: reads list the groups, OPTIONS describes
      the view, nothing else is offered. */
  function ApiGroups(s: Store, req: ApiRequest): (r: ApiStep)
    ensures r.store == s
    ensures Safe(req.verb) <==> r.outcome.Ok?
    ensures !Safe(req.verb) ==> r.outcome == MethodNotAllowed
    ensures req.verb == OPTIONS ==> r.outcome == Ok(Described)
    ensures Reads(req.verb) ==> r.outcome.body.GroupsOut? && forall g :: g in r.outcome.body.groups <==> g in s.groups
  {
    if Reads(req.verb) then ApiStep(s, Ok(GroupsOut(s.groups)))
    else if req.verb == OPTIONS then ApiStep(s, Ok(Described))
    else ApiStep(s, MethodNotAllowed)
  }

  // `UserViewSet` is a full model viewset for staff only (`IsAdminUser`).
  // The permission is checked before the verb, so a refused requester never
  // learns which verbs exist.

  /** An account payload. Of the account's fields the model keeps the
      username, the staff flag and the password. */
  datatype UserPayload = UserPayload(username: Option<string>, password: Option<string>, isStaff: Option<bool>)

  /** Django's default username validator: letters, digits and `@.+-_`. */
  predicate UsernameChar(c: char)
  {
    ('a' <= c <= 'z') || ('A' <= c <= 'Z') || ('0' <= c <= '9') || c in "@.+-_"
  }

  /** A username of 1 to 150 allowed characters. */
  predicate UsernameValid(name: string)
  {
    0 < |name| <= 150 && forall i :: 0 <= i < |name| ==> UsernameChar(name[i])
  }

  /** Whether `name` is taken by a user other than `self`. */
  predicate NameTaken(s: Store, name: string, self: Option<Id>)
  {
    exists u :: u in s.users && u.username == name && Some(u.id) != self
  }

  /** The field checks of a create (`self` is `None`) or of an update of
      user `self`: the stripped username is valid and unique, and the
      password is not blank; `partial` (PATCH) makes both optional. */
  predicate UserPayloadValid(s: Store, d: UserPayload, partial: bool, self: Option<Id>)
  {
    && (d.username.None? ==> partial)
    && (d.password.None? ==> partial)
    && (d.username.Some? ==> UsernameValid(Strip(d.username.value)) && !NameTaken(s, Strip(d.username.value), self))
    && (d.password.Some? ==> !Blank(d.password.value))
  }

  /** Django's `check_password`: a stored password matches only when it is
      an encoding of the attempt. A stored text that no hasher recognises
      matches nothing. */
  predicate PasswordMatches(c: Credential, attempt: string)
  {
    c.Encoded? && c.secret == attempt
  }

  /** How the admin-only permission answers: `None` lets staff through. */
  function AdminOnly(requester: Views.Requester): (r: Option<ApiOutcome>)
    ensures r.None? <==> requester.SignedIn? && requester.user.isStaff
    ensures requester.Anonymous? ==> r == Some(Unauthorized)
    ensures requester.SignedIn? && !requester.user.isStaff ==> r == Some(Forbidden)
  {
    match requester
    case Anonymous => Some(Unauthorized)
    case SignedIn(u) => if u.isStaff then None else Some(Forbidden)
  }

  /** The collection route: staff list the accounts or create one under the
      next user key, and OPTIONS describes the view; the other verbs are not
      offered there. */
  function ApiUsers(s: Store, req: ApiRequest, d: UserPayload): (r: ApiStep)
    ensures AdminOnly(req.requester).Some? ==> r == ApiStep(s, AdminOnly(req.requester).value)
    ensures r.store != s ==> && AdminOnly(req.requester).None? && req.verb == POST
                             && UserPayloadValid(s, d, false, None) && r.outcome.Created?
    ensures AdminOnly(req.requester).None? ==>
              && (Reads(req.verb) ==> r == ApiStep(s, Ok(UsersOut(s.users))))
              && (req.verb == OPTIONS ==> r == ApiStep(s, Ok(Described)))
              && (req.verb in {PUT, PATCH, DELETE} ==> r == ApiStep(s, MethodNotAllowed))
              && (req.verb == POST && !UserPayloadValid(s, d, false, None) ==> r == ApiStep(s, BadRequest))
              && (req.verb == POST && UserPayloadValid(s, d, false, None) ==>
                    r.outcome.Created? && r.outcome.body.UserOut?
                    && r.outcome.body.user.id == s.nextUser
                    && r.outcome.body.user.username == Strip(d.username.value)
                    && r.outcome.body.user.password == Encoded(Strip(d.password.value))
                    && r.store == s.(users := s.users + [r.outcome.body.user], nextUser := s.nextUser + 1))
  {
    if AdminOnly(req.requester).Some? then ApiStep(s, AdminOnly(req.requester).value)
    else if Reads(req.verb) then ApiStep(s, Ok(UsersOut(s.users)))
    else if req.verb == OPTIONS then ApiStep(s, Ok(Described))
    else if req.verb != POST then ApiStep(s, MethodNotAllowed)
    else if !UserPayloadValid(s, d, false, None) then ApiStep(s, BadRequest)
    else
      var u := User(s.nextUser, Strip(d.username.value), d.isStaff == Some(true), Encoded(Strip(d.password.value)));
      ApiStep(s.(users := s.users + [u], nextUser := s.nextUser + 1), Created(UserOut(u)))
  }

  /** An account after an accepted update: absent fields keep their values. */
  function UserUpdated(u: User, d: UserPayload): (v: User)
    ensures v.id == u.id
    ensures v.username == if d.username.Some? then Strip(d.username.value) else u.username
    ensures v.isStaff == if d.isStaff.Some? then d.isStaff.value else u.isStaff
    ensures v.password == if d.password.Some? then Encoded(Strip(d.password.value)) else u.password
  {
    u.(username := if d.username.Some? then Strip(d.username.value) else u.username,
       isStaff := if d.isStaff.Some? then d.isStaff.value else u.isStaff,
       password := if d.password.Some? then Encoded(Strip(d.password.value)) else u.password)
  }

  /** `users` with the account whose key is `v.id` replaced by `v`. */
  function ReplaceUser(users: seq<User>, v: User): (r: seq<User>)
    ensures |r| == |users|
    ensures forall i :: 0 <= i < |r| ==> r[i] == if users[i].id == v.id then v else users[i]
  {
    Map(users, (x: User) => if x.id == v.id then v else x)
  }

  /** The detail route: staff read, update or delete one account; deleting
      it cascades to everything that points at it. OPTIONS describes the
      view without looking the account up, so a missing key is no 404
      there. */
  function ApiUser(s: Store, req: ApiRequest, uid: Id, d: UserPayload): (r: ApiStep)
    ensures AdminOnly(req.requester).Some? ==> r == ApiStep(s, AdminOnly(req.requester).value)
    ensures AdminOnly(req.requester).None? && req.verb == POST ==> r == ApiStep(s, MethodNotAllowed)
    ensures AdminOnly(req.requester).None? && req.verb == OPTIONS ==> r == ApiStep(s, Ok(Described))
    ensures AdminOnly(req.requester).None? && req.verb !in {POST, OPTIONS} && UserById(s, uid).None? ==>
              r == ApiStep(s, NotFound)
    ensures AdminOnly(req.requester).None? && UserById(s, uid).Some? ==>
              var u := UserById(s, uid).value;
              && (Reads(req.verb) ==> r == ApiStep(s, Ok(UserOut(u))))
              && (req.verb == DELETE ==> r == ApiStep(OnDelete.DeleteUser(s, uid), NoContent))
              && (req.verb in {PUT, PATCH} && !UserPayloadValid(s, d, req.verb == PATCH, Some(uid)) ==>
                    r == ApiStep(s, BadRequest))
              && (req.verb in {PUT, PATCH} && UserPayloadValid(s, d, req.verb == PATCH, Some(uid)) ==>
                    r == ApiStep(s.(users := ReplaceUser(s.users, UserUpdated(u, d))), Ok(UserOut(UserUpdated(u, d)))))
  {
    if AdminOnly(req.requester).Some? then ApiStep(s, AdminOnly(req.requester).value)
    else if req.verb == POST then ApiStep(s, MethodNotAllowed)
    else if req.verb == OPTIONS then ApiStep(s, Ok(Described))
    else
      match UserById(s, uid)
      case None => ApiStep(s, NotFound)
      case Some(u) =>
        if Reads(req.verb) then ApiStep(s, Ok(UserOut(u)))
        else if req.verb == DELETE then ApiStep(OnDelete.DeleteUser(s, u.id), NoContent)
        else if !UserPayloadValid(s, d, req.verb == PATCH, Some(uid)) then ApiStep(s, BadRequest)
        else
          var v := UserUpdated(u, d);
          ApiStep(s.(users := ReplaceUser(s.users, v)), Ok(UserOut(v)))
  }

  // ------------------------------------------------ passwords, as written

  // `UserSerializer` is a plain model serializer: its create and update
  // assign the submitted password to the row as it was sent, never through
  // `set_password`. The members below model that; `ApiUsers` and
  // `UserUpdated` above store the encoding instead.

  /** The account create as written: the same as `ApiUsers`, except that a
      created account keeps its password as sent. */
  function ApiUsersAsWritten(s: Store, req: ApiRequest, d: UserPayload): (r: ApiStep)
    ensures !ApiUsers(s, req, d).outcome.Created? ==> r == ApiUsers(s, req, d)
    ensures ApiUsers(s, req, d).outcome.Created? ==>
              && d.password.Some?
              && r.outcome.Created? && r.outcome.body.UserOut?
              && r.outcome.body.user == ApiUsers(s, req, d).outcome.body.user.(password := Sent(Strip(d.password.value)))
              && r.store == s.(users := s.users + [r.outcome.body.user], nextUser := s.nextUser + 1)
  {
    if AdminOnly(req.requester).None? && req.verb == POST && UserPayloadValid(s, d, false, None) then
      var u := User(s.nextUser, Strip(d.username.value), d.isStaff == Some(true), Sent(Strip(d.password.value)));
      ApiStep(s.(users := s.users + [u], nextUser := s.nextUser + 1), Created(UserOut(u)))
    else ApiUsers(s, req, d)
  }

  /** An account update as written: a submitted password is stored as
      sent. */
  function UserUpdatedAsWritten(u: User, d: UserPayload): (v: User)
    ensures v == UserUpdated(u, d).(password := if d.password.Some? then Sent(Strip(d.password.value)) else u.password)
  {
    u.(username := if d.username.Some? then Strip(d.username.value) else u.username,
       isStaff := if d.isStaff.Some? then d.isStaff.value else u.isStaff,
       password := if d.password.Some? then Sent(Strip(d.password.value)) else u.password)
  }
}
