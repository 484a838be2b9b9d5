/** Properties of the REST API: the permission rule depends on nothing but
    authorship and the verb, read-only payload fields cannot steer
    ownership, the follow create as written never succeeds while the
    intended one adds exactly the requester's edge, and every write keeps
    the store's integrity constraints. */
module ApiProps {
  import opened Util
  import opened Models
  import opened Api
  import Views
  import ViewProps
  import OnDelete

  // ------------------------------------------------------------ permission

  /** `has_object_permission` looks only at whether the requester wrote the
      object and at the verb, never at which object or view it is. */
  lemma PermissionOnlyAuthorshipAndVerb(r1: Views.Requester, a1: Id, r2: Views.Requester, a2: Id, verb: Method)
    requires IsAuthor(r1, a1) == IsAuthor(r2, a2)
    ensures HasObjectPermission(r1, verb, a1) == HasObjectPermission(r2, verb, a2)
  {
  }

  /** A refused update or delete writes nothing. */
  lemma NonAuthorWritesNothing(s: Store, req: ApiRequest, pid: Id, partial: bool, d: PostPayload)
    requires PostById(s, pid).Some? && !IsAuthor(req.requester, PostById(s, pid).value.author)
    ensures ApiUpdatePost(s, req, pid, partial, d).store == s
    ensures ApiDestroyPost(s, req, pid).store == s
    ensures ApiUpdatePost(s, req, pid, partial, d).outcome in {Unauthorized, Forbidden}
  {
  }

  // ------------------------------------------------------ forced ownership

  /** The `author` a client submits has no effect on a created post. */
  lemma CreatePostIgnoresAuthor(s: Store, req: ApiRequest, d: PostPayload, claimed: Option<string>)
    ensures ApiCreatePost(s, req, d.(author := claimed)) == ApiCreatePost(s, req, d)
  {
  }

  /** A created post is the requester's, and joins the existing posts. */
  lemma CreatePostOwned(s: Store, req: ApiRequest, d: PostPayload)
    requires req.requester.SignedIn? && PostPayloadValid(s, d, false)
    ensures var r := ApiCreatePost(s, req, d).store;
            var p := Post(s.nextPost, Strip(d.text.value), req.now, req.requester.user.id,
                          if d.group.Some? then d.group.value else None, d.image);
            && (forall q :: q in r.posts <==> q == p || q in s.posts)
            && r.comments == s.comments && r.follows == s.follows && r.users == s.users
  {
    var p := Post(s.nextPost, Strip(d.text.value), req.now, req.requester.user.id,
                  if d.group.Some? then d.group.value else None, d.image);
    InsertDescContents(p, s.posts, PubDate);
  }

  /** The `post` and `author` a client submits have no effect on a created
      comment. */
  lemma CreateCommentIgnoresReadOnly(s: Store, req: ApiRequest, pid: Id, d: CommentPayload,
                                     post: Option<Id>, author: Option<string>)
    ensures ApiCreateComment(s, req, pid, d.(post := post, author := author)) == ApiCreateComment(s, req, pid, d)
  {
  }

  /** A created comment is the requester's, on the post in the path. */
  lemma CreateCommentOwned(s: Store, req: ApiRequest, pid: Id, d: CommentPayload)
    requires req.requester.SignedIn? && CommentPayloadValid(d) && PostById(s, pid).Some?
    ensures var r := ApiCreateComment(s, req, pid, d).store;
            var c := Comment(s.nextComment, pid, req.requester.user.id, Strip(d.text.value), req.now);
            && (forall x :: x in r.comments <==> x == c || x in s.comments)
            && r.posts == s.posts && r.follows == s.follows
  {
    var c := Comment(s.nextComment, pid, req.requester.user.id, Strip(d.text.value), req.now);
    InsertDescContents(c, s.comments, CreatedTime);
  }

  // --------------------------------------------------------------- follows

  /** As written, creating a follow through the API never writes and never
      succeeds: whatever passes the field checks ends in the `KeyError`. */
  lemma FollowCreateAsWrittenFails(s: Store, req: ApiRequest, d: FollowPayload)
    requires req.requester.SignedIn?
    ensures ApiCreateFollowAsWritten(s, req, d).store == s
    ensures ApiCreateFollowAsWritten(s, req, d).outcome in {BadRequest, ServerError}
  {
  }

  /** The concrete failure: alice (id 1) asks to follow bob (id 2), whom she
      does not follow yet; the request as written ends in a server error,
      while the intended check stores the edge. */
  lemma FollowCreateCounterexample()
    ensures var alice := User(1, "alice", false, Encoded("alice"));
            var bob := User(2, "bob", false, Encoded("bob"));
            var s := Store([alice, bob], [], [], [], [], {}, map[], map[], 3, 1, 1);
            var req := ApiRequest(Views.SignedIn(alice), POST, 0);
            var d := FollowPayload(None, Some("bob"));
            && ApiCreateFollowAsWritten(s, req, d).outcome == ServerError
            && ApiCreateFollow(s, req, d).outcome.Created?
            && ApiCreateFollow(s, req, d).store.follows == [Follow(1, 2)]
  {
    var alice := User(1, "alice", false, Encoded("alice"));
    var bob := User(2, "bob", false, Encoded("bob"));
    var s := Store([alice, bob], [], [], [], [], {}, map[], map[], 3, 1, 1);
    assert UserByName(s, "bob") == Some(bob) by {
      assert alice.username != "bob" by { assert alice.username[0] != 'b'; }
      assert s.users[1..] == [bob];
    }
  }

  /** With the intended check and no submitted `user`, a new edge is added
      for the requester exactly when the author exists, is someone else,
      and is not followed yet; nothing else changes. */
  lemma FollowCreateAddsEdge(s: Store, req: ApiRequest, author: string)
    requires Unique(s) && ViewProps.Current(s, Views.Request(req.requester, "", "", None, "", "", 0))
    requires req.requester.SignedIn?
    ensures var u := req.requester.user;
            var r := ApiCreateFollow(s, req, FollowPayload(None, Some(author)));
            && (r.outcome.Created? <==>
                  && UserByName(s, author).Some?
                  && UserByName(s, author).value.id != u.id
                  && !Views.Follows(s, u.id, UserByName(s, author).value.id))
            && (r.outcome.Created? ==>
                  r.store == s.(follows := s.follows + [Follow(u.id, UserByName(s, author).value.id)]))
            && (!r.outcome.Created? ==> r.store == s)
  {
  }

  /** With the intended check and no submitted `user`, no one follows
      themself through the API. */
  lemma FollowCreateNoSelfEdge(s: Store, req: ApiRequest, author: string)
    requires req.requester.SignedIn?
    ensures forall f :: f in ApiCreateFollow(s, req, FollowPayload(None, Some(author))).store.follows ==>
              f in s.follows || f.user != f.author
  {
  }

  /** The intended check compares the author with the submitted `user`,
      while the edge is saved for the requester: naming someone else as
      `user` lets a requester follow themself. */
  lemma FollowSelfCheckUsesSubmittedUser()
    ensures var alice := User(1, "alice", false, Encoded("alice"));
            var bob := User(2, "bob", false, Encoded("bob"));
            var s := Store([alice, bob], [], [], [], [], {}, map[], map[], 3, 1, 1);
            var req := ApiRequest(Views.SignedIn(alice), POST, 0);
            ApiCreateFollow(s, req, FollowPayload(Some("bob"), Some("alice"))).store.follows == [Follow(1, 1)]
  {
    var alice := User(1, "alice", false, Encoded("alice"));
    var bob := User(2, "bob", false, Encoded("bob"));
    var s := Store([alice, bob], [], [], [], [], {}, map[], map[], 3, 1, 1);
    assert UserByName(s, "bob") == Some(bob) by {
      assert alice.username != "bob" by { assert alice.username[0] != 'b'; }
      assert s.users[1..] == [bob];
    }
  }

  // ------------------------------------------------------------ invariants

  lemma ApiCreatePostValid(s: Store, req: ApiRequest, d: PostPayload)
    requires Valid(s) && (req.requester.SignedIn? ==> req.requester.user in s.users)
    ensures Valid(ApiCreatePost(s, req, d).store)
  {
    if req.requester.SignedIn? && PostPayloadValid(s, d, false) {
      var p := Post(s.nextPost, Strip(d.text.value), req.now, req.requester.user.id,
                    if d.group.Some? then d.group.value else None, d.image);
      assert p.group.Some? ==> p.group.value in GroupIds(s);
      InsertPostValid(s, p);
      assert ApiCreatePost(s, req, d).store == s.(posts := InsertDesc(p, s.posts, PubDate), nextPost := s.nextPost + 1);
    }
  }

  lemma ApiCreateCommentValid(s: Store, req: ApiRequest, pid: Id, d: CommentPayload)
    requires Valid(s) && (req.requester.SignedIn? ==> req.requester.user in s.users)
    ensures Valid(ApiCreateComment(s, req, pid, d).store)
  {
    if req.requester.SignedIn? && CommentPayloadValid(d) && PostById(s, pid).Some? {
      var c := Comment(s.nextComment, pid, req.requester.user.id, Strip(d.text.value), req.now);
      assert ApiCreateComment(s, req, pid, d).store
          == s.(comments := InsertDesc(c, s.comments, CreatedTime), nextComment := s.nextComment + 1);
      assert PostById(s, pid).value in s.posts;
      InsertCommentValid(s, c);
    }
  }

  lemma ApiUpdatePostValid(s: Store, req: ApiRequest, pid: Id, partial: bool, d: PostPayload)
    requires Valid(s)
    ensures Valid(ApiUpdatePost(s, req, pid, partial, d).store)
  {
    var r := ApiUpdatePost(s, req, pid, partial, d).store;
    if r != s {
      var p := PostById(s, pid).value;
      ViewProps.ReplaceValid(s, p, Updated(p, d));
    }
  }

  lemma ApiDestroyPostValid(s: Store, req: ApiRequest, pid: Id)
    requires Valid(s)
    ensures Valid(ApiDestroyPost(s, req, pid).store)
  {
    OnDelete.DeletePostValid(s, pid);
  }

  /** With unique comment keys, the comment of the path's post with the
      given id decides the delete: its author removes exactly it, anyone
      else is refused. */
  lemma DestroyCommentDecided(s: Store, req: ApiRequest, pid: Id, cid: Id, c: Comment)
    requires UniqueBy(s.comments, CommentKey) && PostById(s, pid).Some?
    requires c in s.comments && c.post == pid && c.id == cid
    ensures var r := ApiDestroyComment(s, req, pid, cid);
            && (!IsAuthor(req.requester, c.author) ==> r == ApiStep(s, Denied(req.requester)))
            && (IsAuthor(req.requester, c.author) ==>
                  r == ApiStep(s.(comments := Filter(s.comments, (x: Comment) => x.id != cid)), NoContent))
  {
    var found := CommentOf(s, pid, cid);
    assert found.Some?;
    SameKeySame(s.comments, CommentKey);
    assert found == Some(c);
    if IsAuthor(req.requester, c.author) {
      assert HasObjectPermission(req.requester, DELETE, c.author);
    } else {
      assert !HasObjectPermission(req.requester, DELETE, c.author);
    }
  }

  lemma ApiDestroyCommentValid(s: Store, req: ApiRequest, pid: Id, cid: Id)
    requires Valid(s)
    ensures Valid(ApiDestroyComment(s, req, pid, cid).store)
  {
    var r := ApiDestroyComment(s, req, pid, cid).store;
    if r != s {
      var keep := (x: Comment) => x.id != cid;
      FilterUnique(s.comments, keep, CommentKey);
      FilterDescending(s.comments, keep, CreatedTime);
      WithCommentsValid(s, Filter(s.comments, keep));
      assert r == s.(comments := Filter(s.comments, keep));
    }
  }

  lemma ApiCreateFollowValid(s: Store, req: ApiRequest, d: FollowPayload)
    requires Valid(s) && (req.requester.SignedIn? ==> req.requester.user in s.users)
    ensures Valid(ApiCreateFollow(s, req, d).store)
  {
    var r := ApiCreateFollow(s, req, d);
    if r.store != s {
      var u := req.requester.user.id;
      var a := UserByName(s, d.author.value).value.id;
      ViewProps.AddFollowValid(s, u, a);
      assert r.store == Views.AddFollow(s, u, a);
    }
  }
  // --------------------------------------------------------------- groups

  /** The group list follows the store: after a group is deleted a read
      lists every other group and not that one. */
  lemma GroupsAfterDelete(s: Store, req: ApiRequest, gid: Id)
    requires Reads(req.verb)
    ensures var r := ApiGroups(OnDelete.DeleteGroup(s, gid), req);
            && r.outcome.Ok? && r.outcome.body.GroupsOut?
            && forall g :: g in r.outcome.body.groups <==> g in s.groups && g.id != gid
  {
  }

  /** OPTIONS on the group and account views writes nothing and returns the
      view's description, never rows; for the account detail this holds
      whether or not the key exists. */
  lemma OptionsDescribes(s: Store, req: ApiRequest, uid: Id, d: UserPayload)
    requires req.verb == OPTIONS
    ensures ApiGroups(s, req) == ApiStep(s, Ok(Described))
    ensures AdminOnly(req.requester).None? ==>
              && ApiUsers(s, req, d) == ApiStep(s, Ok(Described))
              && ApiUser(s, req, uid, d) == ApiStep(s, Ok(Described))
  {
  }

  // ------------------------------------------------------------- accounts

  /** A created account is found by its name afterwards, and nothing points
      at it yet. */
  lemma CreatedUserFound(s: Store, req: ApiRequest, d: UserPayload)
    requires Linked(s)
    requires AdminOnly(req.requester).None? && req.verb == POST && UserPayloadValid(s, d, false, None)
    requires forall u :: u in s.users ==> u.id < s.nextUser
    ensures var r := ApiUsers(s, req, d);
            var u := r.outcome.body.user;
            && UserByName(r.store, Strip(d.username.value)) == Some(u)
            && (forall p :: p in r.store.posts ==> p.author != u.id)
            && (forall f :: f in r.store.follows ==> f.user != u.id && f.author != u.id)
  {
    var r := ApiUsers(s, req, d);
    var u := r.outcome.body.user;
    var found := UserByName(r.store, u.username);
    assert u in r.store.users;
    assert found.value in s.users || found.value == u;
    forall p | p in r.store.posts ensures p.author != u.id {
      assert p.author in UserIds(s);
    }
    forall f | f in r.store.follows ensures f.user != u.id && f.author != u.id {
      assert f.user in UserIds(s) && f.author in UserIds(s);
    }
  }

  /** An updated account is found under its key with the new values. */
  lemma UpdatedUserFound(s: Store, req: ApiRequest, uid: Id, d: UserPayload)
    requires AdminOnly(req.requester).None? && req.verb in {PUT, PATCH} && UserById(s, uid).Some?
    requires UserPayloadValid(s, d, req.verb == PATCH, Some(uid))
    ensures var v := UserUpdated(UserById(s, uid).value, d);
            && ApiUser(s, req, uid, d).outcome == Ok(UserOut(v))
            && UserById(ApiUser(s, req, uid, d).store, uid) == Some(v)
  {
    var u := UserById(s, uid).value;
    assert u in s.users;
    ReplaceUserFound(s, UserUpdated(u, d));
  }

  /** After replacing the account with key `v.id`, the key finds `v`. */
  lemma ReplaceUserFound(s: Store, v: User)
    requires v.id in UserIds(s)
    ensures UserById(s.(users := ReplaceUser(s.users, v)), v.id) == Some(v)
  {
    var users := ReplaceUser(s.users, v);
    var i :| 0 <= i < |s.users| && s.users[i].id == v.id;
    assert users[i] == v && users[i] in users;
    var found := UserById(s.(users := users), v.id).value;
    var j :| 0 <= j < |users| && users[j] == found;
    assert found == v;
  }

  /** A deleted account is gone together with its posts and follow edges. */
  lemma DeletedUserGone(s: Store, req: ApiRequest, uid: Id, d: UserPayload)
    requires AdminOnly(req.requester).None? && req.verb == DELETE && UserById(s, uid).Some?
    ensures var r := ApiUser(s, req, uid, d).store;
            && UserById(r, uid).None?
            && (forall p :: p in r.posts ==> p.author != uid)
            && (forall f :: f in r.follows ==> f.user != uid && f.author != uid)
  {
  }

  lemma ApiUsersValid(s: Store, req: ApiRequest, d: UserPayload)
    requires Valid(s)
    ensures Valid(ApiUsers(s, req, d).store)
  {
    var r := ApiUsers(s, req, d);
    if r.store != s {
      var u := r.outcome.body.user;
      assert r.store == s.(users := s.users + [u], nextUser := s.nextUser + 1);
      assert !NameTaken(s, u.username, None);
      AppendUserValid(s, u);
    }
  }

  /** An account with a fresh key and an untaken name can be appended. */
  lemma AppendUserValid(s: Store, u: User)
    requires Valid(s) && u.id == s.nextUser && !NameTaken(s, u.username, None)
    ensures Valid(s.(users := s.users + [u], nextUser := s.nextUser + 1))
  {
    AppendUserKeys(s.users, u, s.nextUser);
    WithUsersValid(s, s.users + [u], s.nextUser + 1);
  }

  /** The account facts behind `AppendUserValid`, stated on the listing
      alone. */
  lemma AppendUserKeys(users: seq<User>, u: User, next: nat)
    requires UniqueBy(users, UserKey) && UniqueBy(users, UserName)
    requires forall y :: y in users ==> y.id < next && y.username != u.username
    requires u.id == next
    ensures UniqueBy(users + [u], UserKey) && UniqueBy(users + [u], UserName)
    ensures forall y :: y in users + [u] ==> y.id < next + 1
    ensures (set y | y in users :: y.id) <= (set y | y in users + [u] :: y.id)
  {
    AppendUnique(users, u, UserKey);
    AppendUnique(users, u, UserName);
  }

  /** Replacing an account by one with the same key and a name no other
      account has keeps every integrity constraint. */
  lemma ReplaceUserValid(s: Store, v: User)
    requires Valid(s) && v.id in UserIds(s) && !NameTaken(s, v.username, Some(v.id))
    ensures Valid(s.(users := ReplaceUser(s.users, v)))
  {
    ReplaceUserUnique(s.users, v);
    ReplaceUserIds(s, v);
    WithUsersValid(s, ReplaceUser(s.users, v), s.nextUser);
  }

  /** Replacing an account by one with the same key and an untaken name
      keeps keys and names unique. */
  lemma ReplaceUserUnique(users: seq<User>, v: User)
    requires UniqueBy(users, UserKey) && UniqueBy(users, UserName)
    requires forall y :: y in users && y.username == v.username ==> y.id == v.id
    ensures UniqueBy(ReplaceUser(users, v), UserKey) && UniqueBy(ReplaceUser(users, v), UserName)
  {
    var r := ReplaceUser(users, v);
    forall i, j | 0 <= i < j < |r| ensures UserKey(r[i]) != UserKey(r[j]) {
      assert UserKey(users[i]) != UserKey(users[j]);
    }
    forall i, j | 0 <= i < j < |r| ensures UserName(r[i]) != UserName(r[j]) {
      assert UserKey(users[i]) != UserKey(users[j]);
      if r[i] == v {
        assert users[j] in users;
      } else if r[j] == v {
        assert users[i] in users;
      } else {
        assert UserName(users[i]) != UserName(users[j]);
      }
    }
  }

  /** Replacing an account keeps every key, and adds none. */
  lemma ReplaceUserIds(s: Store, v: User)
    requires v.id in UserIds(s) && forall y :: y in s.users ==> y.id < s.nextUser
    ensures UserIds(s) <= UserIds(s.(users := ReplaceUser(s.users, v)))
    ensures forall y :: y in ReplaceUser(s.users, v) ==> y.id < s.nextUser
  {
    var r := ReplaceUser(s.users, v);
    forall id | id in UserIds(s) ensures id in UserIds(s.(users := r)) {
      var i :| 0 <= i < |s.users| && s.users[i].id == id;
      assert r[i] in r;
    }
    forall y | y in r ensures y.id < s.nextUser {
      var i :| 0 <= i < |r| && r[i] == y;
      assert s.users[i] in s.users;
    }
  }


  lemma ApiUserValid(s: Store, req: ApiRequest, uid: Id, d: UserPayload)
    requires Valid(s)
    ensures Valid(ApiUser(s, req, uid, d).store)
  {
    if AdminOnly(req.requester).None? && UserById(s, uid).Some? {
      var u := UserById(s, uid).value;
      if req.verb == DELETE {
        OnDelete.DeleteUserValid(s, uid);
      } else if req.verb in {PUT, PATCH} && UserPayloadValid(s, d, req.verb == PATCH, Some(uid)) {
        var v := UserUpdated(u, d);
        assert !NameTaken(s, v.username, Some(v.id));
        assert u in s.users;
        ReplaceUserValid(s, v);
      }
    }
  }

  // ------------------------------------------------------------ passwords

  /** As written, an account created or given a password through the API
      can never sign in with any password: its stored text is no encoding. */
  lemma SentPasswordNeverMatches(s: Store, req: ApiRequest, u: User, d: UserPayload, attempt: string)
    ensures ApiUsersAsWritten(s, req, d).outcome.Created? ==>
              !PasswordMatches(ApiUsersAsWritten(s, req, d).outcome.body.user.password, attempt)
    ensures d.password.Some? ==> !PasswordMatches(UserUpdatedAsWritten(u, d).password, attempt)
  {
  }

  /** With the password encoded, the created or updated account signs in
      with exactly the (stripped) password it was given. */
  lemma EncodedPasswordMatches(s: Store, req: ApiRequest, u: User, d: UserPayload, attempt: string)
    ensures ApiUsers(s, req, d).outcome.Created? ==>
              (PasswordMatches(ApiUsers(s, req, d).outcome.body.user.password, attempt) <==>
               d.password.Some? && attempt == Strip(d.password.value))
    ensures d.password.Some? ==>
              (PasswordMatches(UserUpdated(u, d).password, attempt) <==> attempt == Strip(d.password.value))
  {
  }
}
