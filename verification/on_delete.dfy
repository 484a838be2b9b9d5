/** The deletion policies the foreign keys declare: a post goes with its
    author, a comment with its post or its author, a follow edge with either
    endpoint, while deleting a group only clears the group of its posts. */
module OnDelete {
  import opened Util
  import opened Models

  /** Deleting a post removes its comments (CASCADE) and its viewer rows. */
  function DeletePost(s: Store, pid: Id): (r: Store)
    ensures forall p :: p in r.posts <==> p in s.posts && p.id != pid
    ensures forall c :: c in r.comments <==> c in s.comments && c.post != pid
    ensures pid !in r.viewers
    ensures forall q :: q != pid ==> (q in r.viewers <==> q in s.viewers)
    ensures forall q :: q in r.viewers ==> r.viewers[q] == s.viewers[q]
    ensures r.users == s.users && r.groups == s.groups && r.follows == s.follows
    ensures r.ips == s.ips && r.hits == s.hits && r.nextUser == s.nextUser && r.nextPost == s.nextPost && r.nextComment == s.nextComment
  {
    s.(posts := Filter(s.posts, (p: Post) => p.id != pid),
       comments := Filter(s.comments, (c: Comment) => c.post != pid),
       viewers := s.viewers - {pid})
  }

  /** The ids of the posts written by `uid`. */
  function PostsOf(s: Store, uid: Id): set<Id>
  {
    set p | p in s.posts && p.author == uid :: p.id
  }

  /** Deleting a user cascades to their posts (and through them to the
      comments on those posts), to their comments, and to every follow edge
      that has them at either end. */
  function DeleteUser(s: Store, uid: Id): (r: Store)
    ensures forall u :: u in r.users <==> u in s.users && u.id != uid
    ensures forall p :: p in r.posts <==> p in s.posts && p.author != uid
    ensures forall c :: c in r.comments <==>
              c in s.comments && c.author != uid && c.post !in PostsOf(s, uid)
    ensures forall f :: f in r.follows <==> f in s.follows && f.user != uid && f.author != uid
    ensures r.groups == s.groups && r.viewers.Keys == s.viewers.Keys - PostsOf(s, uid)
    ensures forall q :: q in r.viewers ==> r.viewers[q] == s.viewers[q]
    ensures r.ips == s.ips && r.hits == s.hits && r.nextUser == s.nextUser && r.nextPost == s.nextPost && r.nextComment == s.nextComment
  {
    var gone := PostsOf(s, uid);
    s.(users := Filter(s.users, (u: User) => u.id != uid),
       posts := Filter(s.posts, (p: Post) => p.author != uid),
       comments := Filter(s.comments, (c: Comment) => c.author != uid && c.post !in gone),
       follows := Filter(s.follows, (f: Follow) => f.user != uid && f.author != uid),
       viewers := s.viewers - gone)
  }

  /** A post with its group cleared if the group is `gid` (SET_NULL). */
  function Detach(p: Post, gid: Id): Post
  {
    if p.group == Some(gid) then p.(group := None) else p
  }

  function DetachAll(posts: seq<Post>, gid: Id): (r: seq<Post>)
    ensures |r| == |posts|
    ensures forall i :: 0 <= i < |r| ==> r[i] == Detach(posts[i], gid)
  {
    if |posts| == 0 then [] else [Detach(posts[0], gid)] + DetachAll(posts[1..], gid)
  }

  /** Deleting a group keeps every post, clearing the group of those that
      were in it. */
  function DeleteGroup(s: Store, gid: Id): (r: Store)
    ensures forall g :: g in r.groups <==> g in s.groups && g.id != gid
    ensures |r.posts| == |s.posts|
    ensures forall i :: 0 <= i < |s.posts| ==>
              && r.posts[i].id == s.posts[i].id
              && r.posts[i].text == s.posts[i].text
              && r.posts[i].author == s.posts[i].author
              && r.posts[i].pubDate == s.posts[i].pubDate
              && (s.posts[i].group == Some(gid) ==> r.posts[i] == s.posts[i].(group := None))
              && (s.posts[i].group != Some(gid) ==> r.posts[i] == s.posts[i])
    ensures r.users == s.users && r.comments == s.comments && r.follows == s.follows
    ensures r.viewers == s.viewers && r.ips == s.ips && r.hits == s.hits
    ensures r.nextUser == s.nextUser && r.nextPost == s.nextPost && r.nextComment == s.nextComment
  {
    s.(groups := Filter(s.groups, (g: Group) => g.id != gid),
       posts := DetachAll(s.posts, gid))
  }

  // ------------------------------------------------------ invariant proofs

  /** Deleting a post keeps every integrity constraint. */
  lemma DeletePostValid(s: Store, pid: Id)
    requires Valid(s)
    ensures Valid(DeletePost(s, pid))
  {
    DeletePostUnique(s, pid);
    DeletePostLinked(s, pid);
    DeletePostOrdered(s, pid);
  }

  lemma DeletePostUnique(s: Store, pid: Id)
    requires Unique(s)
    ensures Unique(DeletePost(s, pid))
  {
    FilterUnique(s.posts, (p: Post) => p.id != pid, PostKey);
    FilterUnique(s.comments, (c: Comment) => c.post != pid, CommentKey);
  }

  lemma DeletePostLinked(s: Store, pid: Id)
    requires Linked(s)
    ensures Linked(DeletePost(s, pid))
  {
    var r := DeletePost(s, pid);
    forall c | c in r.comments ensures c.post in PostIds(r) {
      var p :| p in s.posts && p.id == c.post;
      assert p in r.posts;
    }
    forall q | q in r.viewers ensures q in PostIds(r) {
      var p :| p in s.posts && p.id == q;
      assert p in r.posts;
    }
  }

  lemma DeletePostOrdered(s: Store, pid: Id)
    requires Ordered(s)
    ensures Ordered(DeletePost(s, pid))
  {
    FilterDescending(s.posts, (p: Post) => p.id != pid, PubDate);
    FilterDescending(s.comments, (c: Comment) => c.post != pid, CreatedTime);
  }

  /** Deleting a user keeps every integrity constraint: nothing is left
      pointing at the user or at one of their posts. */
  lemma DeleteUserValid(s: Store, uid: Id)
    requires Valid(s)
    ensures Valid(DeleteUser(s, uid))
  {
    DeleteUserUnique(s, uid);
    DeleteUserLinked(s, uid);
    DeleteUserOrdered(s, uid);
  }

  lemma DeleteUserUnique(s: Store, uid: Id)
    requires Unique(s)
    ensures Unique(DeleteUser(s, uid))
  {
    var gone := PostsOf(s, uid);
    FilterUnique(s.users, (u: User) => u.id != uid, UserKey);
    FilterUnique(s.users, (u: User) => u.id != uid, UserName);
    FilterUnique(s.posts, (p: Post) => p.author != uid, PostKey);
    FilterUnique(s.comments, (c: Comment) => c.author != uid && c.post !in gone, CommentKey);
    FilterUnique(s.follows, (f: Follow) => f.user != uid && f.author != uid, FollowKey);
  }

  lemma DeleteUserLinked(s: Store, uid: Id)
    requires Linked(s)
    ensures Linked(DeleteUser(s, uid))
  {
    var r := DeleteUser(s, uid);
    forall p | p in r.posts ensures p.author in UserIds(r) {
      var u :| u in s.users && u.id == p.author;
      assert u in r.users;
    }
    forall p | p in r.posts && p.group.Some? ensures p.group.value in GroupIds(r) {
    }
    forall c | c in r.comments ensures c.post in PostIds(r) && c.author in UserIds(r) {
      var p :| p in s.posts && p.id == c.post;
      assert p.author != uid;
      assert p in r.posts;
      var u :| u in s.users && u.id == c.author;
      assert u in r.users;
    }
    forall f | f in r.follows ensures f.user in UserIds(r) && f.author in UserIds(r) {
      var u :| u in s.users && u.id == f.user;
      var a :| a in s.users && a.id == f.author;
      assert u in r.users && a in r.users;
    }
    forall q | q in r.viewers ensures q in PostIds(r) {
      var p :| p in s.posts && p.id == q;
      assert p.author != uid;
      assert p in r.posts;
    }
  }

  lemma DeleteUserOrdered(s: Store, uid: Id)
    requires Ordered(s)
    ensures Ordered(DeleteUser(s, uid))
  {
    var gone := PostsOf(s, uid);
    FilterDescending(s.posts, (p: Post) => p.author != uid, PubDate);
    FilterDescending(s.comments, (c: Comment) => c.author != uid && c.post !in gone, CreatedTime);
  }

  /** Deleting a group keeps every integrity constraint: no post is left in
      the deleted group and no post is lost. */
  lemma DeleteGroupValid(s: Store, gid: Id)
    requires Valid(s)
    ensures Valid(DeleteGroup(s, gid))
  {
    DeleteGroupUnique(s, gid);
    DeleteGroupLinked(s, gid);
    DeleteGroupOrdered(s, gid);
  }

  lemma DeleteGroupUnique(s: Store, gid: Id)
    requires Unique(s)
    ensures Unique(DeleteGroup(s, gid))
  {
    var r := DeleteGroup(s, gid);
    FilterUnique(s.groups, (g: Group) => g.id != gid, GroupKey);
    FilterUnique(s.groups, (g: Group) => g.id != gid, GroupSlug);
    forall i, j | 0 <= i < j < |r.posts| ensures PostKey(r.posts[i]) != PostKey(r.posts[j]) {
      assert PostKey(s.posts[i]) != PostKey(s.posts[j]);
    }
  }

  lemma DeleteGroupLinked(s: Store, gid: Id)
    requires Linked(s)
    ensures Linked(DeleteGroup(s, gid))
  {
    var r := DeleteGroup(s, gid);
    assert PostIds(r) == PostIds(s) by {
      forall q | q in PostIds(s) ensures q in PostIds(r) {
        var i :| 0 <= i < |s.posts| && s.posts[i].id == q;
        assert r.posts[i] in r.posts;
      }
      forall q | q in PostIds(r) ensures q in PostIds(s) {
        var i :| 0 <= i < |r.posts| && r.posts[i].id == q;
        assert s.posts[i] in s.posts;
      }
    }
    forall p | p in r.posts
      ensures p.author in UserIds(r)
      ensures p.group.Some? ==> p.group.value in GroupIds(r)
    {
      var i :| 0 <= i < |r.posts| && r.posts[i] == p;
      assert s.posts[i] in s.posts;
      if p.group.Some? {
        var g :| g in s.groups && g.id == p.group.value;
        assert g in r.groups;
      }
    }
  }

  lemma DeleteGroupOrdered(s: Store, gid: Id)
    requires Ordered(s)
    ensures Ordered(DeleteGroup(s, gid))
  {
    var r := DeleteGroup(s, gid);
    forall i, j | 0 <= i < j < |r.posts| ensures PubDate(r.posts[i]) >= PubDate(r.posts[j]) {
      assert PubDate(s.posts[i]) >= PubDate(s.posts[j]);
    }
    forall p | p in r.posts ensures p.id < r.nextPost {
      var i :| 0 <= i < |r.posts| && r.posts[i] == p;
      assert s.posts[i] in s.posts;
    }
  }
}
