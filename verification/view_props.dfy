/** Properties of the request handlers: the follow graph (idempotent follow,
    no self edge, unfollow undoing follow, the feed derived from the edges),
    the author-only guards on editing and deleting, the ownership forced on
    new posts and comments, the viewer set, and every integrity constraint
    kept by every handler. */
module ViewProps {
  import opened Util
  import opened Models
  import opened Views
  import Pagination
  import OnDelete

  /** A signed-in requester is an existing account. */
  ghost predicate Current(s: Store, req: Request)
  {
    req.requester.SignedIn? ==> req.requester.user in s.users
  }

  // ---------------------------------------------------------------- lookup

  /** Under unique names and keys, `post_view`'s lookup finds a post exactly
      when a post with that id has an author with that username. */
  lemma PostOfExact(s: Store, username: string, pid: Id)
    requires Unique(s)
    ensures PostOf(s, username, pid).Some? <==>
              exists p, a :: p in s.posts && a in s.users && p.id == pid && p.author == a.id && a.username == username
  {
    if exists p, a :: p in s.posts && a in s.users && p.id == pid && p.author == a.id && a.username == username {
      var p, a :| p in s.posts && a in s.users && p.id == pid && p.author == a.id && a.username == username;
      UserByNameUnique(s, a);
      PostByIdUnique(s, p);
    }
  }

  // ----------------------------------------------------------------- pages

  /** A group page shows at most ten posts, all of that group, newest first;
      thirteen posts in the group fill the first page with ten and the
      second with three. */
  lemma GroupPageShowsGroup(s: Store, req: Request, slug: string)
    requires Ordered(s) && GroupBySlug(s, slug).Some?
    ensures var g := GroupBySlug(s, slug).value;
            var v := GroupPostsView(s, req, slug).outcome;
            && v.Render? && v.view.GroupPage? && v.view.group == g
            && |v.view.page.items| <= Pagination.PageSize
            && (forall p :: p in v.view.page.items ==> p in s.posts && p.group == Some(g.id))
            && Descending(v.view.page.items, PubDate)
            && (|GroupFeed(s, g.id)| == 13 ==>
                  && |GroupPostsView(s, req.(page := None), slug).outcome.view.page.items| == 10
                  && |GroupPostsView(s, req.(page := Some(2)), slug).outcome.view.page.items| == 3)
  {
    var g := GroupBySlug(s, slug).value;
    var feed := GroupFeed(s, g.id);
    Pagination.PageOfList(feed, req.page, PubDate);
    if |feed| == 13 {
      Pagination.ThirteenItems(feed);
    }
  }

  /** A profile page shows at most ten posts, all by that author, newest
      first, and tells a signed-in requester whether they follow the
      author. */
  lemma ProfilePageShowsAuthor(s: Store, req: Request, username: string)
    requires Ordered(s) && UserByName(s, username).Some?
    ensures var a := UserByName(s, username).value;
            var v := ProfileView(s, req, username).outcome;
            && v.Render? && v.view.ProfilePage? && v.view.author == a
            && |v.view.page.items| <= Pagination.PageSize
            && (forall p :: p in v.view.page.items ==> p in s.posts && p.author == a.id)
            && Descending(v.view.page.items, PubDate)
            && (req.requester.SignedIn? ==> v.view.following == Some(Follows(s, req.requester.user.id, a.id)))
            && (req.requester.Anonymous? ==> v.view.following.None?)
  {
    var a := UserByName(s, username).value;
    Pagination.PageOfList(AuthorFeed(s, a.id), req.page, PubDate);
  }

  // ----------------------------------------------------------- viewer set

  /** A second view from the same client changes nothing: the viewer set is
      a set. */
  lemma ViewIdempotent(s: Store, req: Request, username: string, pid: Id)
    ensures var once := PostView(s, req, username, pid);
            PostView(once.store, req, username, pid).store == once.store
  {
    var once := PostView(s, req, username, pid);
    var ip := ClientIp(req.forwardedFor, req.remoteAddr);
    assert PostOf(once.store, username, pid) == PostOf(s, username, pid);
    if once.outcome.Render? {
      var t := RecordView(once.store, pid, ip);
      assert t.viewers == once.store.viewers;
      assert t.ips == once.store.ips;
    }
  }

  /** Viewing a post touches nothing but the ip table and that post's
      viewers. */
  lemma ViewOnlyRecords(s: Store, req: Request, username: string, pid: Id)
    ensures var r := PostView(s, req, username, pid);
            && r.store.posts == s.posts && r.store.comments == s.comments
            && r.store.follows == s.follows && r.store.users == s.users
            && forall q :: q in s.viewers && q != pid ==> q in r.store.viewers && r.store.viewers[q] == s.viewers[q]
  {
  }

  // ---------------------------------------------------------- follow graph

  /** Following twice is following once. */
  lemma FollowIdempotent(s: Store, req: Request, username: string)
    ensures var once := ProfileFollow(s, req, username);
            ProfileFollow(once.store, req, username) == once
  {
    var once := ProfileFollow(s, req, username);
    assert once.store.users == s.users;
  }

  /** With unique ids and names, `profile_follow` never adds an edge from a
      user to themself. */
  lemma FollowNoSelfEdge(s: Store, req: Request, username: string)
    requires Unique(s) && Current(s, req)
    ensures forall f :: f in ProfileFollow(s, req, username).store.follows ==>
              f in s.follows || f.user != f.author
  {
    var r := ProfileFollow(s, req, username);
    if req.requester.SignedIn? && RequesterName(req) != username && UserByName(s, username).Some? {
      var u := req.requester.user;
      var a := UserByName(s, username).value;
      assert u.id != a.id;
    }
  }

  /** Removing an edge twice is removing it once. */
  lemma UnfollowIdempotent(s: Store, req: Request, username: string)
    ensures var once := ProfileUnfollow(s, req, username);
            ProfileUnfollow(once.store, req, username) == once
  {
    var once := ProfileUnfollow(s, req, username);
    assert once.store.users == s.users;
    if req.requester.SignedIn? && UserByName(s, username).Some? {
      var e := Follow(req.requester.user.id, UserByName(s, username).value.id);
      FilterAll(once.store.follows, (f: Follow) => f != e);
    }
  }

  /** Unfollowing an author one did not follow changes nothing. */
  lemma UnfollowAbsent(s: Store, user: Id, author: Id)
    requires !Follows(s, user, author)
    ensures RemoveFollow(s, user, author) == s
  {
    FilterAll(s.follows, (f: Follow) => f != Follow(user, author));
  }

  /** Follow then unfollow of a new edge restores the follow rows exactly. */
  lemma UnfollowUndoesFollow(s: Store, req: Request, username: string)
    requires req.requester.SignedIn? && RequesterName(req) != username
    requires UserByName(s, username).Some?
    requires !Follows(s, req.requester.user.id, UserByName(s, username).value.id)
    ensures ProfileUnfollow(ProfileFollow(s, req, username).store, req, username).store == s
  {
    var e := Follow(req.requester.user.id, UserByName(s, username).value.id);
    var keep := (f: Follow) => f != e;
    FilterSnoc(s.follows, e, keep);
    FilterAll(s.follows, keep);
  }

  // ----------------------------------------------------------- follow feed

  /** After following an author, their posts are in the follow feed, and
      the feed gains nothing else. */
  lemma FeedAfterFollow(s: Store, user: Id, author: Id)
    ensures forall p :: p in FollowFeed(AddFollow(s, user, author), user) <==>
              p in FollowFeed(s, user) || (p in s.posts && p.author == author)
  {
  }

  /** After unfollowing an author, none of their posts is in the follow
      feed, and the rest of the feed is kept. */
  lemma FeedAfterUnfollow(s: Store, user: Id, author: Id)
    ensures forall p :: p in FollowFeed(RemoveFollow(s, user, author), user) <==>
              p in FollowFeed(s, user) && p.author != author
  {
  }

  /** A requester who followed nobody, follows one author and unfollows
      them again, has an empty follow feed again. */
  lemma FeedEmptyAgain(s: Store, req: Request, username: string)
    requires req.requester.SignedIn? && RequesterName(req) != username
    requires UserByName(s, username).Some?
    requires forall f :: f in s.follows ==> f.user != req.requester.user.id
    ensures var u := req.requester.user.id;
            var followed := ProfileFollow(s, req, username).store;
            && (forall p :: p in s.posts && p.author == UserByName(s, username).value.id ==> p in FollowFeed(followed, u))
            && FollowFeed(ProfileUnfollow(followed, req, username).store, u) == []
  {
    var u := req.requester.user.id;
    UnfollowUndoesFollow(s, req, username);
    FilterNone(s.posts, (p: Post) => Follows(s, u, p.author));
  }

  // ------------------------------------------------------ author-only guards

  /** With unique post keys, a post is the only one with its id. */
  lemma PostUniqueAt(s: Store, i: nat, p: Post)
    requires UniqueBy(s.posts, PostKey)
    requires i < |s.posts| && p in s.posts && s.posts[i].id == p.id
    ensures s.posts[i] == p
  {
  }

  /** `post_edit` changes at most the post it names, and only for the
      requester named in the path, keeping its id, author and date. */
  lemma EditTouchesOnlyOwnPost(s: Store, req: Request, username: string, pid: Id,
                               recentlyPublished: bool, form: Option<PostData>)
    requires UniqueBy(s.posts, PostKey)
    ensures var r := PostEdit(s, req, username, pid, recentlyPublished, form);
            && |r.store.posts| == |s.posts|
            && (r.store != s ==> RequesterName(req) == username && recentlyPublished)
            && forall i :: 0 <= i < |s.posts| ==>
                 && r.store.posts[i].id == s.posts[i].id
                 && r.store.posts[i].author == s.posts[i].author
                 && r.store.posts[i].pubDate == s.posts[i].pubDate
                 && (s.posts[i].id != pid ==> r.store.posts[i] == s.posts[i])
  {
    var r := PostEdit(s, req, username, pid, recentlyPublished, form);
    if r.store != s {
      var p := PostOf(s, username, pid).value.1;
      var q := Edited(p, form.value);
      assert r.store.posts == Replace(s.posts, q);
      forall i | 0 <= i < |s.posts|
        ensures r.store.posts[i].id == s.posts[i].id
        ensures r.store.posts[i].author == s.posts[i].author
        ensures r.store.posts[i].pubDate == s.posts[i].pubDate
      {
        if s.posts[i].id == q.id {
          PostUniqueAt(s, i, p);
        }
      }
    }
  }

  /** A requester other than the one named in the path changes nothing and
      is sent to the post's page, whether editing or deleting. */
  lemma NonAuthorRedirected(s: Store, req: Request, username: string, pid: Id,
                            recentlyPublished: bool, form: Option<PostData>)
    requires req.requester.SignedIn? && RequesterName(req) != username
    ensures PostEdit(s, req, username, pid, recentlyPublished, form) == Step(s, Redirect(PostDetail(username, pid)))
    ensures PostDelete(s, req, username, pid) == Step(s, Redirect(PostDetail(username, pid)))
  {
  }

  /** With unique post keys, filtering out one present key removes exactly
      one element. */
  lemma {:induction false} FilterRemovesOne(posts: seq<Post>, pid: Id)
    requires UniqueBy(posts, PostKey)
    requires exists p :: p in posts && p.id == pid
    ensures |Filter(posts, (p: Post) => p.id != pid)| == |posts| - 1
  {
    var keep := (p: Post) => p.id != pid;
    if posts[0].id == pid {
      FilterAll(posts[1..], keep);
      forall p | p in posts[1..] ensures keep(p) {
        var k :| 0 <= k < |posts[1..]| && posts[1..][k] == p;
        assert PostKey(posts[0]) != PostKey(posts[k + 1]);
      }
      FilterAll(posts[1..], keep);
    } else {
      var p :| p in posts && p.id == pid;
      assert p in posts[1..];
      assert UniqueBy(posts[1..], PostKey);
      FilterRemovesOne(posts[1..], pid);
    }
  }

  /** The author's delete removes exactly that one post (and its comments). */
  lemma AuthorDeleteRemovesOne(s: Store, req: Request, username: string, pid: Id)
    requires Unique(s)
    requires req.requester.SignedIn? && RequesterName(req) == username
    requires PostOf(s, username, pid).Some?
    ensures var r := PostDelete(s, req, username, pid).store;
            && |r.posts| == |s.posts| - 1
            && (forall p :: p in r.posts <==> p in s.posts && p.id != pid)
            && (forall c :: c in r.comments <==> c in s.comments && c.post != pid)
  {
    FilterRemovesOne(s.posts, pid);
  }

  // ------------------------------------------------------ forced ownership

  /** A new post belongs to the requester, takes the next key and the
      request's time, and joins the existing posts. */
  lemma NewPostOwned(s: Store, req: Request, d: PostData)
    requires req.requester.SignedIn? && PostFormValid(s, d)
    ensures var r := NewPost(s, req, Some(d)).store;
            var p := Post(s.nextPost, Strip(d.text), req.now, req.requester.user.id, d.group, d.image);
            && (forall q :: q in r.posts <==> q == p || q in s.posts)
            && |r.posts| == |s.posts| + 1
            && r.comments == s.comments && r.follows == s.follows && r.users == s.users
  {
    var p := Post(s.nextPost, Strip(d.text), req.now, req.requester.user.id, d.group, d.image);
    InsertDescContents(p, s.posts, PubDate);
  }

  /** A new comment belongs to the requester and to the path's post. */
  lemma CommentOwned(s: Store, req: Request, username: string, pid: Id, text: string)
    requires req.requester.SignedIn? && CommentFormValid(text)
    requires PostOf(s, username, pid).Some?
    ensures var r := AddComment(s, req, username, pid, Some(text)).store;
            var c := Comment(s.nextComment, pid, req.requester.user.id, Strip(text), req.now);
            && (forall x :: x in r.comments <==> x == c || x in s.comments)
            && |r.comments| == |s.comments| + 1
            && r.posts == s.posts && r.follows == s.follows && r.users == s.users
  {
    var c := Comment(s.nextComment, pid, req.requester.user.id, Strip(text), req.now);
    InsertDescContents(c, s.comments, CreatedTime);
  }

  // ------------------------------------------------------------ invariants

  /** Recording a viewer of an existing post keeps every constraint. */
  lemma RecordViewValid(s: Store, pid: Id, ip: string)
    requires Valid(s) && pid in PostIds(s)
    ensures Valid(RecordView(s, pid, ip))
  {
    var r := RecordView(s, pid, ip);
    assert Unique(r) && Ordered(r);
    assert r.viewers.Keys <= PostIds(r);
  }

  lemma PostViewValid(s: Store, req: Request, username: string, pid: Id)
    requires Valid(s)
    ensures Valid(PostView(s, req, username, pid).store)
  {
    var r := PostView(s, req, username, pid);
    if PostOf(s, username, pid).Some? {
      RecordViewValid(s, pid, ClientIp(req.forwardedFor, req.remoteAddr));
    }
  }

  lemma NewPostValid(s: Store, req: Request, form: Option<PostData>)
    requires Valid(s) && Current(s, req)
    ensures Valid(NewPost(s, req, form).store)
  {
    if req.requester.SignedIn? && form.Some? && PostFormValid(s, form.value) {
      var d := form.value;
      var p := Post(s.nextPost, Strip(d.text), req.now, req.requester.user.id, d.group, d.image);
      assert NewPost(s, req, form).store
          == s.(posts := InsertDesc(p, s.posts, PubDate), nextPost := s.nextPost + 1);
      assert req.requester.user in s.users;
      InsertPostValid(s, p);
    }
  }

  lemma AddCommentValid(s: Store, req: Request, username: string, pid: Id, form: Option<string>)
    requires Valid(s) && Current(s, req)
    ensures Valid(AddComment(s, req, username, pid, form).store)
  {
    if req.requester.SignedIn? && PostOf(s, username, pid).Some? && form.Some? && CommentFormValid(form.value) {
      var c := Comment(s.nextComment, pid, req.requester.user.id, Strip(form.value), req.now);
      assert AddComment(s, req, username, pid, form).store
          == s.(comments := InsertDesc(c, s.comments, CreatedTime), nextComment := s.nextComment + 1);
      var p := PostOf(s, username, pid).value.1;
      assert p in s.posts && p.id == pid;
      assert req.requester.user in s.users;
      InsertCommentValid(s, c);
    }
  }

  /** Replacing a post by one with the same key and date keeps keys unique
      and the listing descending. */
  lemma ReplaceKeeps(posts: seq<Post>, q: Post, prev: Post)
    requires prev in posts && prev.id == q.id && prev.pubDate == q.pubDate
    requires UniqueBy(posts, PostKey) && Descending(posts, PubDate)
    ensures UniqueBy(Replace(posts, q), PostKey) && Descending(Replace(posts, q), PubDate)
  {
    var r := Replace(posts, q);
    forall i, j | 0 <= i < j < |r| ensures PostKey(r[i]) != PostKey(r[j]) && PubDate(r[i]) >= PubDate(r[j]) {
      assert PostKey(posts[i]) != PostKey(posts[j]);
      assert PubDate(posts[i]) >= PubDate(posts[j]);
      if posts[i].id == q.id || posts[j].id == q.id {
        var k :| 0 <= k < |posts| && posts[k] == prev;
        assert posts[k].pubDate == q.pubDate;
      }
    }
  }

  /** Replacing a post by one with the same key keeps the set of keys. */
  lemma ReplaceIds(s: Store, p: Post, q: Post)
    requires p in s.posts && q.id == p.id
    ensures PostIds(s.(posts := Replace(s.posts, q))) == PostIds(s)
  {
    var r := s.(posts := Replace(s.posts, q));
    forall x | x in PostIds(s) ensures x in PostIds(r) {
      var i :| 0 <= i < |s.posts| && s.posts[i].id == x;
      assert r.posts[i] in r.posts;
    }
    forall x | x in PostIds(r) ensures x in PostIds(s) {
      var i :| 0 <= i < |r.posts| && r.posts[i].id == x;
      assert s.posts[i] in s.posts;
    }
  }

  /** Replacing a post by one with the same key, author and date, in an
      existing group if any, keeps every integrity constraint. */
  lemma ReplaceValid(s: Store, p: Post, q: Post)
    requires Valid(s) && p in s.posts
    requires q.id == p.id && q.pubDate == p.pubDate && q.author == p.author
    requires q.group.Some? ==> q.group.value in GroupIds(s)
    ensures Valid(s.(posts := Replace(s.posts, q)))
  {
    var posts := Replace(s.posts, q);
    ReplaceKeeps(s.posts, q, p);
    ReplaceIds(s, p, q);
    ReplaceMembers(s.posts, q);
    WithPostsValid(s, posts);
  }

  /** Swapping in a new post listing keeps every integrity constraint when
      the listing is itself unique, descending and linked, and keeps the set
      of post keys. */
  lemma WithPostsValid(s: Store, posts: seq<Post>)
    requires Valid(s)
    requires UniqueBy(posts, PostKey) && Descending(posts, PubDate)
    requires PostIds(s.(posts := posts)) == PostIds(s)
    requires forall x :: x in posts ==> x.author in UserIds(s) && x.id < s.nextPost
    requires forall x :: x in posts && x.group.Some? ==> x.group.value in GroupIds(s)
    ensures Valid(s.(posts := posts))
  {
  }

  /** Every post after a replacement is the new one or an old one. */
  lemma ReplaceMembers(posts: seq<Post>, q: Post)
    ensures forall x :: x in Replace(posts, q) ==> x == q || x in posts
  {
    var r := Replace(posts, q);
    forall x | x in r ensures x == q || x in posts {
      var i :| 0 <= i < |r| && r[i] == x;
      assert posts[i] in posts;
    }
  }

  lemma PostEditValid(s: Store, req: Request, username: string, pid: Id,
                      recentlyPublished: bool, form: Option<PostData>)
    requires Valid(s)
    ensures Valid(PostEdit(s, req, username, pid, recentlyPublished, form).store)
  {
    var r := PostEdit(s, req, username, pid, recentlyPublished, form).store;
    if r != s {
      var p := PostOf(s, username, pid).value.1;
      ReplaceValid(s, p, Edited(p, form.value));
    }
  }

  lemma ProfileFollowValid(s: Store, req: Request, username: string)
    requires Valid(s) && Current(s, req)
    ensures Valid(ProfileFollow(s, req, username).store)
  {
    if req.requester.SignedIn? && RequesterName(req) != username && UserByName(s, username).Some? {
      AddFollowValid(s, req.requester.user.id, UserByName(s, username).value.id);
    }
  }

  /** Adding an edge between existing users keeps every constraint. */
  lemma AddFollowValid(s: Store, user: Id, author: Id)
    requires Valid(s) && user in UserIds(s) && author in UserIds(s)
    ensures Valid(AddFollow(s, user, author))
  {
    if !Follows(s, user, author) {
      var e := Follow(user, author);
      AppendUnique(s.follows, e, FollowKey);
      WithFollowsValid(s, s.follows + [e]);
    }
  }

  /** Removing an edge keeps every constraint. */
  lemma RemoveFollowValid(s: Store, user: Id, author: Id)
    requires Valid(s)
    ensures Valid(RemoveFollow(s, user, author))
  {
    var keep := (f: Follow) => f != Follow(user, author);
    FilterUnique(s.follows, keep, FollowKey);
    WithFollowsValid(s, Filter(s.follows, keep));
  }

  lemma ProfileUnfollowValid(s: Store, req: Request, username: string)
    requires Valid(s)
    ensures Valid(ProfileUnfollow(s, req, username).store)
  {
    if req.requester.SignedIn? && UserByName(s, username).Some? {
      RemoveFollowValid(s, req.requester.user.id, UserByName(s, username).value.id);
    }
  }

  lemma PostDeleteValid(s: Store, req: Request, username: string, pid: Id)
    requires Valid(s)
    ensures Valid(PostDelete(s, req, username, pid).store)
  {
    OnDelete.DeletePostValid(s, pid);
  }
}
