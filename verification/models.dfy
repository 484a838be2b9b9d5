/** The blog's persistent state: users, topic groups, posts, comments, follow
    edges, the per-post sets of viewer IPs and the per-(user, path) hit
    counters, together with the integrity constraints the database keeps and
    the deletion policies the foreign keys declare. */
module Models {
  import opened Util

  type Id = nat

  /** A stored password: either the text as it was sent, or the encoding
      `make_password` gives it. The encoding itself is not modelled:
      `Encoded(p)` stands for some encoding of `p`. */
  datatype Credential = Sent(text: string) | Encoded(secret: string)

  /** An account; `isStaff` is what the admin-only API endpoint checks. */
  datatype User = User(id: Id, username: string, isStaff: bool, password: Credential)

  datatype Group = Group(id: Id, title: string, slug: string, description: string)

  /** `pubDate` is set once, at creation; `image` is an opaque stored path. */
  datatype Post = Post(id: Id, text: string, pubDate: int, author: Id,
                       group: Option<Id>, image: Option<string>)

  datatype Comment = Comment(id: Id, post: Id, author: Id, text: string, created: int)

  /** A directed edge: `user` follows `author`. */
  datatype Follow = Follow(user: Id, author: Id)

  /** The whole store. Posts are kept newest first and comments newest first,
      which is the default ordering of both tables; follow rows are kept in
      creation order. Each table has its own key sequence: `nextUser`,
      `nextPost` and `nextComment` are the next free primary keys. */
  datatype Store = Store(
    users: seq<User>,
    groups: seq<Group>,
    posts: seq<Post>,
    comments: seq<Comment>,
    follows: seq<Follow>,
    ips: set<string>,
    viewers: map<Id, set<string>>,
    hits: map<(Id, string), int>,
    nextUser: nat,
    nextPost: nat,
    nextComment: nat)

  function PubDate(p: Post): int { p.pubDate }
  function CreatedTime(c: Comment): int { c.created }

  // ---------------------------------------------------------------- __str__

  /** How many characters of a post or comment text the admin shows. */
  const StrLength: nat := 15

  /** `Post.__str__`: the first fifteen characters of the text. */
  function PostStr(p: Post): (r: string)
    ensures r <= p.text
    ensures |r| == if |p.text| < StrLength then |p.text| else StrLength
  {
    Prefix(p.text, StrLength)
  }

  /** `Comment.__str__`: the first fifteen characters of the text. */
  function CommentStr(c: Comment): (r: string)
    ensures r <= c.text
    ensures |r| == if |c.text| < StrLength then |c.text| else StrLength
  {
    Prefix(c.text, StrLength)
  }

  /** `Group.__str__`: the title. */
  function GroupStr(g: Group): string
  {
    g.title
  }

  /** A short text is shown whole, a long one cut at fifteen characters; the
      group shows its title. */
  lemma StrShapes(p: Post, c: Comment, g: Group)
    ensures |p.text| <= StrLength ==> PostStr(p) == p.text
    ensures |p.text| > StrLength ==> PostStr(p) == p.text[..StrLength]
    ensures |c.text| <= StrLength ==> CommentStr(c) == c.text
    ensures |c.text| > StrLength ==> CommentStr(c) == c.text[..StrLength]
    ensures GroupStr(g) == g.title
  {
  }

  // ---------------------------------------------------------------- lookups

  /** The first element satisfying `p`, if any. */
  function Find<T(!new)>(xs: seq<T>, p: T -> bool): (r: Option<T>)
    ensures r.Some? ==> r.value in xs && p(r.value)
    ensures r.None? <==> forall x :: x in xs ==> !p(x)
  {
    if |xs| == 0 then None
    else if p(xs[0]) then Some(xs[0])
    else Find(xs[1..], p)
  }

  function UserByName(s: Store, name: string): Option<User>
  {
    Find(s.users, (u: User) => u.username == name)
  }

  function UserById(s: Store, id: Id): Option<User>
  {
    Find(s.users, (u: User) => u.id == id)
  }

  function GroupBySlug(s: Store, slug: string): Option<Group>
  {
    Find(s.groups, (g: Group) => g.slug == slug)
  }

  function PostById(s: Store, id: Id): Option<Post>
  {
    Find(s.posts, (p: Post) => p.id == id)
  }

  function UserIds(s: Store): set<Id> { set u | u in s.users :: u.id }
  function GroupIds(s: Store): set<Id> { set g | g in s.groups :: g.id }
  function PostIds(s: Store): set<Id> { set p | p in s.posts :: p.id }

  // ------------------------------------------------------------- invariants

  /** No two elements of `xs` share a key. */
  ghost predicate UniqueBy<T, K>(xs: seq<T>, key: T -> K)
  {
    forall i, j :: 0 <= i < j < |xs| ==> key(xs[i]) != key(xs[j])
  }

  function UserKey(u: User): Id { u.id }
  function UserName(u: User): string { u.username }
  function GroupKey(g: Group): Id { g.id }
  function GroupSlug(g: Group): string { g.slug }
  function PostKey(p: Post): Id { p.id }
  function CommentKey(c: Comment): Id { c.id }
  function FollowKey(f: Follow): Follow { f }

  /** Primary keys, unique usernames, unique group slugs and the
      `unique subs` constraint on (user, author). */
  ghost predicate Unique(s: Store)
  {
    && UniqueBy(s.users, UserKey)
    && UniqueBy(s.users, UserName)
    && UniqueBy(s.groups, GroupKey)
    && UniqueBy(s.groups, GroupSlug)
    && UniqueBy(s.posts, PostKey)
    && UniqueBy(s.comments, CommentKey)
    && UniqueBy(s.follows, FollowKey)
  }

  /** Every foreign key points at an existing row. */
  ghost predicate Linked(s: Store)
  {
    && (forall p :: p in s.posts ==> p.author in UserIds(s))
    && (forall p :: p in s.posts && p.group.Some? ==> p.group.value in GroupIds(s))
    && (forall c :: c in s.comments ==> c.post in PostIds(s) && c.author in UserIds(s))
    && (forall f :: f in s.follows ==> f.user in UserIds(s) && f.author in UserIds(s))
    && s.viewers.Keys <= PostIds(s)
  }

  /** Default orderings and each key sequence being ahead of every key used
      in its table. */
  ghost predicate Ordered(s: Store)
  {
    && Descending(s.posts, PubDate)
    && Descending(s.comments, CreatedTime)
    && (forall u :: u in s.users ==> u.id < s.nextUser)
    && (forall p :: p in s.posts ==> p.id < s.nextPost)
    && (forall c :: c in s.comments ==> c.id < s.nextComment)
  }

  ghost predicate Valid(s: Store)
  {
    Unique(s) && Linked(s) && Ordered(s)
  }

  /** With unique usernames, a name lookup finds the one user with that name. */
  lemma UserByNameUnique(s: Store, u: User)
    requires UniqueBy(s.users, UserName)
    requires u in s.users
    ensures UserByName(s, u.username) == Some(u)
  {
    var r := UserByName(s, u.username);
    var i :| 0 <= i < |s.users| && s.users[i] == u;
    var j :| 0 <= j < |s.users| && s.users[j] == r.value;
    assert UserName(s.users[i]) == UserName(s.users[j]);
  }

  /** With unique user keys, an id lookup finds the one user with that id. */
  lemma UserByIdUnique(s: Store, u: User)
    requires UniqueBy(s.users, UserKey)
    requires u in s.users
    ensures UserById(s, u.id) == Some(u)
  {
    var r := UserById(s, u.id);
    var i :| 0 <= i < |s.users| && s.users[i] == u;
    var j :| 0 <= j < |s.users| && s.users[j] == r.value;
    assert UserKey(s.users[i]) == UserKey(s.users[j]);
  }

  /** With unique post keys, an id lookup finds the one post with that id. */
  lemma PostByIdUnique(s: Store, p: Post)
    requires UniqueBy(s.posts, PostKey)
    requires p in s.posts
    ensures PostById(s, p.id) == Some(p)
  {
    var r := PostById(s, p.id);
    var i :| 0 <= i < |s.posts| && s.posts[i] == p;
    var j :| 0 <= j < |s.posts| && s.posts[j] == r.value;
    assert PostKey(s.posts[i]) == PostKey(s.posts[j]);
  }

  /** Under unique keys, a key names at most one element. */
  lemma SameKeySame<T, K>(xs: seq<T>, key: T -> K)
    ensures UniqueBy(xs, key) ==> forall a, b :: a in xs && b in xs && key(a) == key(b) ==> a == b
  {
    if UniqueBy(xs, key) {
      forall a, b | a in xs && b in xs && a != b ensures key(a) != key(b) {
        var i :| 0 <= i < |xs| && xs[i] == a;
        var j :| 0 <= j < |xs| && xs[j] == b;
        if i < j {
          assert key(xs[i]) != key(xs[j]);
        } else {
          assert key(xs[j]) != key(xs[i]);
        }
      }
    }
  }

  /** A subsequence obtained by filtering keeps keys unique. */
  lemma {:induction false} FilterUnique<T(!new), K>(xs: seq<T>, keep: T -> bool, key: T -> K)
    requires UniqueBy(xs, key)
    ensures UniqueBy(Filter(xs, keep), key)
  {
    if |xs| > 0 {
      assert UniqueBy(xs[1..], key);
      FilterUnique(xs[1..], keep, key);
      var rest := Filter(xs[1..], keep);
      if keep(xs[0]) {
        var r := [xs[0]] + rest;
        forall i, j | 0 <= i < j < |r| ensures key(r[i]) != key(r[j]) {
          if i == 0 {
            assert r[j] in xs[1..];
            var k :| 0 <= k < |xs[1..]| && xs[1..][k] == r[j];
            assert xs[k + 1] == r[j];
          }
        }
      }
    }
  }

  /** Appending an element whose key is new keeps keys unique. */
  lemma AppendUnique<T, K>(xs: seq<T>, x: T, key: T -> K)
    requires UniqueBy(xs, key)
    requires forall y :: y in xs ==> key(y) != key(x)
    ensures UniqueBy(xs + [x], key)
  {
    var r := xs + [x];
    forall i, j | 0 <= i < j < |r| ensures key(r[i]) != key(r[j]) {
      if j == |xs| {
        assert r[i] in xs;
      } else {
        assert r[i] == xs[i] && r[j] == xs[j];
      }
    }
  }

  /** Inserting an element whose key is new, anywhere, keeps keys unique. */
  lemma InsertUnique<T, K>(xs: seq<T>, k: nat, x: T, key: T -> K)
    requires k <= |xs|
    requires UniqueBy(xs, key)
    requires forall y :: y in xs ==> key(y) != key(x)
    ensures UniqueBy(xs[..k] + [x] + xs[k..], key)
  {
    var r := xs[..k] + [x] + xs[k..];
    forall i, j | 0 <= i < j < |r| ensures key(r[i]) != key(r[j]) {
      if j < k {
        assert r[i] == xs[i] && r[j] == xs[j];
      } else if j == k {
        assert r[i] == xs[i];
      } else if i == k {
        assert r[j] == xs[j - 1];
      } else if i < k {
        assert r[i] == xs[i] && r[j] == xs[j - 1];
      } else {
        assert r[i] == xs[i - 1] && r[j] == xs[j - 1];
      }
    }
  }

  /** Storing a new post under the next key, by an existing user and in an
      existing group if any, keeps every integrity constraint. */
  lemma InsertPostValid(s: Store, p: Post)
    requires Valid(s) && p.id == s.nextPost && p.author in UserIds(s)
    requires p.group.Some? ==> p.group.value in GroupIds(s)
    ensures Valid(s.(posts := InsertDesc(p, s.posts, PubDate), nextPost := s.nextPost + 1))
  {
    var r := s.(posts := InsertDesc(p, s.posts, PubDate), nextPost := s.nextPost + 1);
    InsertPostKeys(s, p);
    WithPostsValid(s, r.posts, r.nextPost);
    assert Unique(r) && Linked(r) && Ordered(r);
  }

  /** The listing facts behind `InsertPostValid`: the new post's key is
      fresh, so keys stay unique, every key stays below the next one, no key
      is lost, and every post still points at an existing user and group. */
  lemma InsertPostKeys(s: Store, p: Post)
    requires UniqueBy(s.posts, PostKey) && forall q :: q in s.posts ==> q.id < s.nextPost
    requires forall q :: q in s.posts ==> q.author in UserIds(s) && (q.group.Some? ==> q.group.value in GroupIds(s))
    requires p.id == s.nextPost && p.author in UserIds(s) && (p.group.Some? ==> p.group.value in GroupIds(s))
    ensures var posts := InsertDesc(p, s.posts, PubDate);
            && UniqueBy(posts, PostKey)
            && (forall q :: q in posts ==> q.id < s.nextPost + 1)
            && (forall q :: q in posts ==> q.author in UserIds(s) && (q.group.Some? ==> q.group.value in GroupIds(s)))
            && PostIds(s) <= PostIds(s.(posts := posts))
  {
    var posts := InsertDesc(p, s.posts, PubDate);
    InsertDescContents(p, s.posts, PubDate);
    InsertUnique(s.posts, InsertPos(p, s.posts, PubDate), p, PostKey);
    forall id | id in PostIds(s) ensures id in PostIds(s.(posts := posts)) {
      var q :| q in s.posts && q.id == id;
      assert q in posts;
    }
  }

  /** A new post listing keeps every integrity constraint when it is unique,
      newest first, keeps every key, and points only at existing users and
      groups. */
  lemma WithPostsValid(s: Store, posts: seq<Post>, nextPost: nat)
    requires Valid(s)
    requires UniqueBy(posts, PostKey) && Descending(posts, PubDate)
    requires forall q :: q in posts ==> q.author in UserIds(s) && (q.group.Some? ==> q.group.value in GroupIds(s))
    requires forall q :: q in posts ==> q.id < nextPost
    requires PostIds(s) <= PostIds(s.(posts := posts))
    ensures Valid(s.(posts := posts, nextPost := nextPost))
  {
  }


  /** Storing a new comment under the next key, by an existing user on an
      existing post, keeps every integrity constraint. */
  lemma InsertCommentValid(s: Store, c: Comment)
    requires Valid(s) && c.id == s.nextComment && c.author in UserIds(s) && c.post in PostIds(s)
    ensures Valid(s.(comments := InsertDesc(c, s.comments, CreatedTime), nextComment := s.nextComment + 1))
  {
    var r := s.(comments := InsertDesc(c, s.comments, CreatedTime), nextComment := s.nextComment + 1);
    var k := InsertPos(c, s.comments, CreatedTime);
    InsertDescContents(c, s.comments, CreatedTime);
    assert Unique(r) by {
      InsertUnique(s.comments, k, c, CommentKey);
    }
    assert Linked(r);
    assert Ordered(r);
  }

  /** A new comment listing keeps every integrity constraint when it is
      unique, newest first, and points only at existing posts and users. */
  lemma WithCommentsValid(s: Store, comments: seq<Comment>)
    requires Valid(s)
    requires UniqueBy(comments, CommentKey) && Descending(comments, CreatedTime)
    requires forall c :: c in comments ==> c.post in PostIds(s) && c.author in UserIds(s) && c.id < s.nextComment
    ensures Valid(s.(comments := comments))
  {
  }

  /** A new follow listing keeps every integrity constraint when its pairs
      are unique and join existing users. */
  lemma WithFollowsValid(s: Store, follows: seq<Follow>)
    requires Valid(s)
    requires UniqueBy(follows, FollowKey)
    requires forall f :: f in follows ==> f.user in UserIds(s) && f.author in UserIds(s)
    ensures Valid(s.(follows := follows))
  {
  }
  /** A new account listing keeps every integrity constraint when keys and
      usernames stay unique, no account disappears, and every key is below
      the user key sequence. */
  lemma WithUsersValid(s: Store, users: seq<User>, nextUser: nat)
    requires Valid(s)
    requires UniqueBy(users, UserKey) && UniqueBy(users, UserName)
    requires UserIds(s) <= UserIds(s.(users := users))
    requires forall u :: u in users ==> u.id < nextUser
    ensures Valid(s.(users := users, nextUser := nextUser))
  {
  }
}
