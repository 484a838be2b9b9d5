/** The request handlers of the posts application, each a pure transition
    from a store and a request to a new store and an outcome: a rendered
    page, a redirect, a redirect to the login page, or "not found".

    What a handler learns from outside the store is part of the request: who
    is asking, the path and the raw query string (together the `next` of a
    login redirect), the `page` query parameter as already read from that
    string, the X-Forwarded-For and REMOTE_ADDR values, and the clock
    reading that `auto_now_add` stamps on new rows. The Referer header is
    never inspected, so a redirect back to it is the opaque target
    `Referrer`. Submitted forms are `None` when unbound (a GET, or a POST
    with no data). */
module Views {
  import opened Util
  import opened Models
  import opened Pagination
  import OnDelete

  // ------------------------------------------------------------- requests

  datatype Requester = Anonymous | SignedIn(user: User)

  datatype Request = Request(
    requester: Requester,
    path: string,
    query: string,
    page: Option<int>,
    forwardedFor: string,
    remoteAddr: string,
    now: int)

  /** `request.get_full_path()`: the path, followed by '?' and the query
      string when there is one. */
  function FullPath(req: Request): (r: string)
    ensures req.path <= r
    ensures req.query == "" <==> r == req.path
    ensures req.query != "" ==> r[|req.path|] == '?' && r[|req.path| + 1..] == req.query
  {
    if req.query == "" then req.path else req.path + "?" + req.query
  }

  /** `request.user.username`; the anonymous user's is empty. */
  function RequesterName(req: Request): string
  {
    match req.requester
    case Anonymous => ""
    case SignedIn(u) => u.username
  }

  /** What a post form submits: the text, the chosen group, and the path of
      an uploaded image (`None` when no file is uploaded). */
  datatype PostData = PostData(text: string, group: Option<Id>, image: Option<string>)

  /** A post form is valid when its text is not blank and its group, if
      any, exists. */
  predicate PostFormValid(s: Store, d: PostData)
  {
    && !Blank(d.text)
    && (d.group.Some? ==> d.group.value in GroupIds(s))
  }

  /** A comment form is valid when its text is not blank. */
  predicate CommentFormValid(text: string)
  {
    !Blank(text)
  }

  // -------------------------------------------------------------- outcomes

  datatype View =
    | FeedPage(page: Page<Post>)
    | GroupPage(group: Group, page: Page<Post>)
    | ProfilePage(author: User, page: Page<Post>, following: Option<bool>)
    | PostPage(author: User, post: Post, comments: seq<Comment>, following: Option<bool>)
    | PostFormPage(form: Option<PostData>, editing: Option<Post>)

  /** Where a redirect leads: the index, a post's page, or back to the
      Referer. */
  datatype Target = IndexPage | PostDetail(username: string, postId: Id) | Referrer

  datatype Outcome =
    | Render(view: View)
    | Redirect(target: Target)
    | RedirectToLogin(next: string)
    | NotFound

  datatype Step = Step(store: Store, outcome: Outcome)

  // ----------------------------------------------------------- client ip

  /** `get_client_ip`: the text before the first ',' of a non-empty
      X-Forwarded-For value, otherwise REMOTE_ADDR. */
  function ClientIp(forwardedFor: string, remoteAddr: string): (ip: string)
    ensures forwardedFor == "" ==> ip == remoteAddr
    ensures forwardedFor != "" ==> ip <= forwardedFor && ',' !in ip
    ensures forwardedFor != "" && ',' in forwardedFor ==> forwardedFor[|ip|] == ','
    ensures forwardedFor != "" && ',' !in forwardedFor ==> ip == forwardedFor
  {
    if forwardedFor != "" then
      FirstPiece(forwardedFor, ',');
      Split(forwardedFor, ',')[0]
    else remoteAddr
  }

  // ---------------------------------------------------------------- feeds

  /** Whether `user` follows `author`. */
  predicate Follows(s: Store, user: Id, author: Id)
  {
    Follow(user, author) in s.follows
  }

  /** The posts of group `gid`, each as often as in the store, newest first. */
  function GroupFeed(s: Store, gid: Id): (r: seq<Post>)
    ensures forall p :: p in r <==> p in s.posts && p.group == Some(gid)
    ensures forall p :: multiset(r)[p] == if p.group == Some(gid) then multiset(s.posts)[p] else 0
    ensures Descending(s.posts, PubDate) ==> Descending(r, PubDate)
  {
    var keep := (p: Post) => p.group == Some(gid);
    FilterCount(s.posts, keep);
    FilterKeepsOrder(s.posts, keep, PubDate);
    Filter(s.posts, keep)
  }

  /** The posts of author `uid`, each as often as in the store, newest first. */
  function AuthorFeed(s: Store, uid: Id): (r: seq<Post>)
    ensures forall p :: p in r <==> p in s.posts && p.author == uid
    ensures forall p :: multiset(r)[p] == if p.author == uid then multiset(s.posts)[p] else 0
    ensures Descending(s.posts, PubDate) ==> Descending(r, PubDate)
  {
    var keep := (p: Post) => p.author == uid;
    FilterCount(s.posts, keep);
    FilterKeepsOrder(s.posts, keep, PubDate);
    Filter(s.posts, keep)
  }

  /** The posts of every author `uid` follows, each as often as in the
      store, newest first. */
  function FollowFeed(s: Store, uid: Id): (r: seq<Post>)
    ensures forall p :: p in r <==> p in s.posts && Follows(s, uid, p.author)
    ensures forall p :: multiset(r)[p] == if Follows(s, uid, p.author) then multiset(s.posts)[p] else 0
    ensures Descending(s.posts, PubDate) ==> Descending(r, PubDate)
  {
    var keep := (p: Post) => Follows(s, uid, p.author);
    FilterCount(s.posts, keep);
    FilterKeepsOrder(s.posts, keep, PubDate);
    Filter(s.posts, keep)
  }

  /** The comments of post `pid`, each as often as in the store, newest
      first. */
  function CommentsOf(s: Store, pid: Id): (r: seq<Comment>)
    ensures forall c :: c in r <==> c in s.comments && c.post == pid
    ensures forall c :: multiset(r)[c] == if c.post == pid then multiset(s.comments)[c] else 0
    ensures Descending(s.comments, CreatedTime) ==> Descending(r, CreatedTime)
  {
    var keep := (c: Comment) => c.post == pid;
    FilterCount(s.comments, keep);
    FilterKeepsOrder(s.comments, keep, CreatedTime);
    Filter(s.comments, keep)
  }

  /** `following` in the profile and post pages: unknown for the anonymous
      user, otherwise whether the requester follows the author. */
  function Following(s: Store, req: Request, author: User): (r: Option<bool>)
    ensures r.None? <==> req.requester.Anonymous?
    ensures req.requester.SignedIn? ==> (r == Some(true) <==> Follow(req.requester.user.id, author.id) in s.follows)
  {
    match req.requester
    case Anonymous => None
    case SignedIn(u) => Some(Follows(s, u.id, author.id))
  }

  /** `get_object_or_404(Post, author__username=username, id=post_id)`: the
      post with that id, provided its author has that username. */
  function PostOf(s: Store, username: string, pid: Id): (r: Option<(User, Post)>)
    ensures r.Some? ==> && r.value.0 in s.users && r.value.1 in s.posts
                        && r.value.0.username == username && r.value.1.id == pid
                        && r.value.1.author == r.value.0.id
  {
    var a := UserByName(s, username);
    var p := PostById(s, pid);
    if a.Some? && p.Some? && p.value.author == a.value.id then Some((a.value, p.value)) else None
  }

  // -------------------------------------------------------------- handlers

  /** `index`: the requested page of all posts. */
  function IndexView(s: Store, req: Request): (r: Step)
    ensures r.store == s
    ensures r.outcome.Render? && r.outcome.view.FeedPage?
    ensures r.outcome.view.page == Paginate(s.posts, req.page)
  {
    Step(s, Render(FeedPage(Paginate(s.posts, req.page))))
  }

  /** `group_posts`: the requested page of a group's posts. */
  function GroupPostsView(s: Store, req: Request, slug: string): (r: Step)
    ensures r.store == s
    ensures r.outcome.NotFound? <==> GroupBySlug(s, slug).None?
    ensures r.outcome.Render? ==> r.outcome.view.GroupPage? && r.outcome.view.group.slug == slug
    ensures GroupBySlug(s, slug).Some? ==>
              var g := GroupBySlug(s, slug).value;
              r.outcome == Render(GroupPage(g, Paginate(GroupFeed(s, g.id), req.page)))
  {
    match GroupBySlug(s, slug)
    case None => Step(s, NotFound)
    case Some(g) => Step(s, Render(GroupPage(g, Paginate(GroupFeed(s, g.id), req.page))))
  }

  /** `profile`: the requested page of an author's posts. */
  function ProfileView(s: Store, req: Request, username: string): (r: Step)
    ensures r.store == s
    ensures r.outcome.NotFound? <==> UserByName(s, username).None?
    ensures r.outcome.Render? ==> r.outcome.view.ProfilePage? && r.outcome.view.author.username == username
    ensures r.outcome.Render? ==> (r.outcome.view.following.None? <==> req.requester.Anonymous?)
    ensures UserByName(s, username).Some? ==>
              var a := UserByName(s, username).value;
              r.outcome == Render(ProfilePage(a, Paginate(AuthorFeed(s, a.id), req.page), Following(s, req, a)))
  {
    match UserByName(s, username)
    case None => Step(s, NotFound)
    case Some(a) => Step(s, Render(ProfilePage(a, Paginate(AuthorFeed(s, a.id), req.page), Following(s, req, a))))
  }

  /** The store after the client at `ip` has viewed post `pid`. */
  function RecordView(s: Store, pid: Id, ip: string): (r: Store)
    ensures r.ips == s.ips + {ip}
    ensures pid in r.viewers && ip in r.viewers[pid]
    ensures r.viewers.Keys == s.viewers.Keys + {pid}
    ensures forall q :: q in s.viewers && q != pid ==> r.viewers[q] == s.viewers[q]
    ensures r.users == s.users && r.groups == s.groups && r.posts == s.posts
    ensures r.comments == s.comments && r.follows == s.follows
    ensures r.hits == s.hits && r.nextUser == s.nextUser && r.nextPost == s.nextPost && r.nextComment == s.nextComment
  {
    var seen := if pid in s.viewers then s.viewers[pid] else {};
    s.(ips := s.ips + {ip}, viewers := s.viewers[pid := seen + {ip}])
  }

  /** `post_view`: a post, its comments and whether the requester follows
      its author; the client's ip joins the post's viewers. */
  function PostView(s: Store, req: Request, username: string, pid: Id): (r: Step)
    ensures r.outcome.NotFound? <==> PostOf(s, username, pid).None?
    ensures r.outcome.NotFound? ==> r.store == s
    ensures r.outcome.Render? ==> && r.outcome.view.PostPage?
                                  && r.outcome.view.post.id == pid
                                  && r.outcome.view.author.username == username
                                  && r.outcome.view.comments == CommentsOf(s, pid)
                                  && r.store == RecordView(s, pid, ClientIp(req.forwardedFor, req.remoteAddr))
    ensures PostOf(s, username, pid).Some? ==>
              && r.outcome.Render?
              && r.outcome.view == PostPage(PostOf(s, username, pid).value.0, PostOf(s, username, pid).value.1,
                                            CommentsOf(s, pid), Following(s, req, PostOf(s, username, pid).value.0))
              && r.store == RecordView(s, pid, ClientIp(req.forwardedFor, req.remoteAddr))
  {
    match PostOf(s, username, pid)
    case None => Step(s, NotFound)
    case Some((a, p)) =>
      var ip := ClientIp(req.forwardedFor, req.remoteAddr);
      Step(RecordView(s, p.id, ip), Render(PostPage(a, p, CommentsOf(s, p.id), Following(s, req, a))))
  }

  /** `add_comment`: a valid comment is stored under the path's post with
      the requester as its author; the response is always the post's page. */
  function AddComment(s: Store, req: Request, username: string, pid: Id, form: Option<string>): (r: Step)
    ensures req.requester.Anonymous? ==> r == Step(s, RedirectToLogin(FullPath(req)))
    ensures req.requester.SignedIn? && PostOf(s, username, pid).None? ==> r == Step(s, NotFound)
    ensures req.requester.SignedIn? && PostOf(s, username, pid).Some? ==>
              r.outcome == Redirect(PostDetail(username, pid))
    ensures !(form.Some? && CommentFormValid(form.value)) ==> r.store == s
  {
    match req.requester
    case Anonymous => Step(s, RedirectToLogin(FullPath(req)))
    case SignedIn(u) =>
      match PostOf(s, username, pid)
      case None => Step(s, NotFound)
      case Some((_, p)) =>
        if form.Some? && CommentFormValid(form.value) then
          var c := Comment(s.nextComment, p.id, u.id, Strip(form.value), req.now);
          Step(s.(comments := InsertDesc(c, s.comments, CreatedTime), nextComment := s.nextComment + 1),
               Redirect(PostDetail(username, pid)))
        else Step(s, Redirect(PostDetail(username, pid)))
  }

  /** `new_post`: a valid form becomes a post by the requester, stamped now. */
  function NewPost(s: Store, req: Request, form: Option<PostData>): (r: Step)
    ensures req.requester.Anonymous? ==> r == Step(s, RedirectToLogin(FullPath(req)))
    ensures req.requester.SignedIn? && !(form.Some? && PostFormValid(s, form.value)) ==>
              r == Step(s, Render(PostFormPage(form, None)))
    ensures req.requester.SignedIn? && form.Some? && PostFormValid(s, form.value) ==>
              r.outcome == Redirect(IndexPage)
  {
    match req.requester
    case Anonymous => Step(s, RedirectToLogin(FullPath(req)))
    case SignedIn(u) =>
      if form.Some? && PostFormValid(s, form.value) then
        var d := form.value;
        var p := Post(s.nextPost, Strip(d.text), req.now, u.id, d.group, d.image);
        Step(s.(posts := InsertDesc(p, s.posts, PubDate), nextPost := s.nextPost + 1), Redirect(IndexPage))
      else Step(s, Render(PostFormPage(form, None)))
  }

  /** A post after an edit form: new text and group; an image only if one
      was uploaded. */
  function Edited(p: Post, d: PostData): (q: Post)
    ensures q.id == p.id && q.pubDate == p.pubDate && q.author == p.author
    ensures q.text == Strip(d.text) && q.group == d.group
    ensures q.image == if d.image.Some? then d.image else p.image
  {
    p.(text := Strip(d.text), group := d.group, image := if d.image.Some? then d.image else p.image)
  }

  /** `posts` with the post whose id is `q.id` replaced by `q`. */
  function Replace(posts: seq<Post>, q: Post): (r: seq<Post>)
    ensures |r| == |posts|
    ensures forall i :: 0 <= i < |r| ==> r[i] == if posts[i].id == q.id then q else posts[i]
  {
    if |posts| == 0 then []
    else [if posts[0].id == q.id then q else posts[0]] + Replace(posts[1..], q)
  }

  /** `post_edit`: only the requester named in the path may edit, and only a
      recently published post (`recentlyPublished` is the post's
      `is_recently_pub`, which is not part of this model). */
  function PostEdit(s: Store, req: Request, username: string, pid: Id,
                    recentlyPublished: bool, form: Option<PostData>): (r: Step)
    ensures RequesterName(req) != username ==> r == Step(s, Redirect(PostDetail(username, pid)))
    ensures RequesterName(req) == username && PostOf(s, username, pid).None? ==> r == Step(s, NotFound)
    ensures RequesterName(req) == username && PostOf(s, username, pid).Some? && !recentlyPublished ==>
              r == Step(s, Redirect(Referrer))
    ensures r.store != s ==> r.outcome == Redirect(PostDetail(username, pid))
    ensures RequesterName(req) == username && PostOf(s, username, pid).Some? && recentlyPublished ==>
              var p := PostOf(s, username, pid).value.1;
              && (form.Some? && PostFormValid(s, form.value) ==>
                    r == Step(s.(posts := Replace(s.posts, Edited(p, form.value))), Redirect(PostDetail(username, pid))))
              && (!(form.Some? && PostFormValid(s, form.value)) ==>
                    r == Step(s, Render(PostFormPage(form, Some(p)))))
  {
    if RequesterName(req) != username then Step(s, Redirect(PostDetail(username, pid)))
    else
      match PostOf(s, username, pid)
      case None => Step(s, NotFound)
      case Some((_, p)) =>
        if !recentlyPublished then Step(s, Redirect(Referrer))
        else if form.Some? && PostFormValid(s, form.value) then
          Step(s.(posts := Replace(s.posts, Edited(p, form.value))), Redirect(PostDetail(username, pid)))
        else Step(s, Render(PostFormPage(form, Some(p))))
  }

  /** `follow_index`: the requested page of the followed authors' posts. */
  function FollowIndex(s: Store, req: Request): (r: Step)
    ensures r.store == s
    ensures req.requester.Anonymous? ==> r.outcome == RedirectToLogin(FullPath(req))
    ensures req.requester.SignedIn? ==>
              r.outcome == Render(FeedPage(Paginate(FollowFeed(s, req.requester.user.id), req.page)))
  {
    match req.requester
    case Anonymous => Step(s, RedirectToLogin(FullPath(req)))
    case SignedIn(u) => Step(s, Render(FeedPage(Paginate(FollowFeed(s, u.id), req.page))))
  }

  /** `Follow.objects.get_or_create(user=user, author=author)`. */
  function AddFollow(s: Store, user: Id, author: Id): (r: Store)
    ensures Follows(r, user, author)
    ensures forall f :: f in r.follows <==> f in s.follows || f == Follow(user, author)
    ensures Follows(s, user, author) ==> r == s
    ensures r == s.(follows := r.follows)
  {
    if Follows(s, user, author) then s else s.(follows := s.follows + [Follow(user, author)])
  }

  /** `Follow.objects.filter(user=user, author=author).delete()`. */
  function RemoveFollow(s: Store, user: Id, author: Id): (r: Store)
    ensures !Follows(r, user, author)
    ensures forall f :: f in r.follows <==> f in s.follows && f != Follow(user, author)
    ensures r == s.(follows := r.follows)
  {
    s.(follows := Filter(s.follows, (f: Follow) => f != Follow(user, author)))
  }

  /** `profile_follow`: follow the author named in the path, unless it is
      the requester; always back to the Referer once signed in. */
  function ProfileFollow(s: Store, req: Request, username: string): (r: Step)
    ensures req.requester.Anonymous? ==> r == Step(s, RedirectToLogin(FullPath(req)))
    ensures req.requester.SignedIn? && RequesterName(req) == username ==> r == Step(s, Redirect(Referrer))
    ensures req.requester.SignedIn? && RequesterName(req) != username && UserByName(s, username).None? ==>
              r == Step(s, NotFound)
    ensures req.requester.SignedIn? && RequesterName(req) != username && UserByName(s, username).Some? ==>
              r == Step(AddFollow(s, req.requester.user.id, UserByName(s, username).value.id), Redirect(Referrer))
  {
    match req.requester
    case Anonymous => Step(s, RedirectToLogin(FullPath(req)))
    case SignedIn(u) =>
      if u.username == username then Step(s, Redirect(Referrer))
      else
        match UserByName(s, username)
        case None => Step(s, NotFound)
        case Some(a) => Step(AddFollow(s, u.id, a.id), Redirect(Referrer))
  }

  /** `profile_unfollow`: drop the requester's edge to the author named in
      the path, if there is one. */
  function ProfileUnfollow(s: Store, req: Request, username: string): (r: Step)
    ensures req.requester.Anonymous? ==> r == Step(s, RedirectToLogin(FullPath(req)))
    ensures req.requester.SignedIn? && UserByName(s, username).None? ==> r == Step(s, NotFound)
    ensures req.requester.SignedIn? && UserByName(s, username).Some? ==>
              r == Step(RemoveFollow(s, req.requester.user.id, UserByName(s, username).value.id), Redirect(Referrer))
  {
    match req.requester
    case Anonymous => Step(s, RedirectToLogin(FullPath(req)))
    case SignedIn(u) =>
      match UserByName(s, username)
      case None => Step(s, NotFound)
      case Some(a) => Step(RemoveFollow(s, u.id, a.id), Redirect(Referrer))
  }

  /** `post_delete`: only the requester named in the path may delete. */
  function PostDelete(s: Store, req: Request, username: string, pid: Id): (r: Step)
    ensures req.requester.Anonymous? ==> r == Step(s, RedirectToLogin(FullPath(req)))
    ensures req.requester.SignedIn? && RequesterName(req) != username ==>
              r == Step(s, Redirect(PostDetail(username, pid)))
    ensures req.requester.SignedIn? && RequesterName(req) == username && PostOf(s, username, pid).None? ==>
              r == Step(s, NotFound)
    ensures req.requester.SignedIn? && RequesterName(req) == username && PostOf(s, username, pid).Some? ==>
              r == Step(OnDelete.DeletePost(s, pid), Redirect(Referrer))
  {
    match req.requester
    case Anonymous => Step(s, RedirectToLogin(FullPath(req)))
    case SignedIn(u) =>
      if u.username != username then Step(s, Redirect(PostDetail(username, pid)))
      else
        match PostOf(s, username, pid)
        case None => Step(s, NotFound)
        case Some((_, p)) => Step(OnDelete.DeletePost(s, p.id), Redirect(Referrer))
  }
}
