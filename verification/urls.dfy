/** The route table of the posts application and Django's first-match
    resolution over it. Paths are given relative to where the application is
    mounted, without the leading '/', exactly as the patterns are written
    ("new/", "alice/12/edit/"). The converters are assumed to be Django's:
    `str` is a non-empty run without '/', `int` is a run of ASCII digits read
    as a decimal number, `slug` is a non-empty run of ASCII letters, digits,
    '-' and '_'. */
module Urls {
  import opened Util

  datatype Converter = StrConv | IntConv | SlugConv

  /** One '/'-terminated piece of a pattern: literal text or a typed capture. */
  datatype Segment = Lit(text: string) | Param(conv: Converter)

  /** The view a route leads to. */
  datatype Handler =
    | Index | GroupPosts | NewPost | FollowIndex | PostDelete | Profile
    | PostView | PostEdit | AddComment | ProfileFollow | ProfileUnfollow

  datatype Route = Route(pattern: seq<Segment>, handler: Handler)

  /** A captured path parameter after conversion. */
  datatype Arg = StrArg(text: string) | IntArg(value: nat)

  /** The resolved view and its captured parameters, in pattern order. */
  datatype Match = Match(handler: Handler, args: seq<Arg>)

  /** `urlpatterns`, in declaration order. */
  const UrlPatterns: seq<Route> := [
    Route([], Index),
    Route([Lit("group"), Param(SlugConv)], GroupPosts),
    Route([Lit("new")], NewPost),
    Route([Lit("follow")], FollowIndex),
    Route([Param(StrConv), Param(IntConv), Lit("delete")], PostDelete),
    Route([Param(StrConv)], Profile),
    Route([Param(StrConv), Param(IntConv)], PostView),
    Route([Param(StrConv), Param(IntConv), Lit("edit")], PostEdit),
    Route([Param(StrConv), Param(IntConv), Lit("comment")], AddComment),
    Route([Param(StrConv), Lit("follow")], ProfileFollow),
    Route([Param(StrConv), Lit("unfollow")], ProfileUnfollow)
  ]

  predicate IsSlugChar(c: char)
  {
    ('a' <= c <= 'z') || ('A' <= c <= 'Z') || ('0' <= c <= '9') || c == '-' || c == '_'
  }

  /** Whether a converter accepts a path piece. */
  predicate Accepts(conv: Converter, piece: string)
  {
    match conv
    case StrConv => |piece| > 0 && '/' !in piece
    case IntConv => IsDigits(piece)
    case SlugConv => |piece| > 0 && forall i :: 0 <= i < |piece| ==> IsSlugChar(piece[i])
  }

  function Convert(conv: Converter, piece: string): Arg
    requires Accepts(conv, piece)
  {
    if conv == IntConv then IntArg(DigitsValue(piece)) else StrArg(piece)
  }

  /** Whether one pattern segment accepts one path piece. */
  predicate SegmentAccepts(seg: Segment, piece: string)
  {
    match seg
    case Lit(t) => piece == t
    case Param(c) => Accepts(c, piece)
  }

  /** What one accepted segment captures: nothing for literal text. */
  function Captured(seg: Segment, piece: string): seq<Arg>
    requires SegmentAccepts(seg, piece)
  {
    match seg
    case Lit(_) => []
    case Param(c) => [Convert(c, piece)]
  }

  /** Match the '/'-split pieces of a path against a pattern: one piece per
      segment, then the empty piece after the final '/'. */
  function MatchSegments(pattern: seq<Segment>, pieces: seq<string>): Option<seq<Arg>>
  {
    if |pattern| == 0 then (if pieces == [""] then Some([]) else None)
    else if |pieces| == 0 || !SegmentAccepts(pattern[0], pieces[0]) then None
    else
      var rest := MatchSegments(pattern[1..], pieces[1..]);
      if rest.None? then None else Some(Captured(pattern[0], pieces[0]) + rest.value)
  }

  function MatchRoute(route: Route, path: string): Option<Match>
  {
    match MatchSegments(route.pattern, Split(path, '/'))
    case None => None
    case Some(args) => Some(Match(route.handler, args))
  }

  /** The first route of `routes` that matches `path`. */
  function FirstMatch(routes: seq<Route>, path: string): (r: Option<Match>)
    ensures r.None? <==> forall i :: 0 <= i < |routes| ==> MatchRoute(routes[i], path).None?
    ensures r.Some? ==> exists i :: (0 <= i < |routes| && MatchRoute(routes[i], path) == r
              && forall j :: 0 <= j < i ==> MatchRoute(routes[j], path).None?)
  {
    if |routes| == 0 then None
    else
      var m := MatchRoute(routes[0], path);
      if m.Some? then m
      else
        var r := FirstMatch(routes[1..], path);
        assert r.Some? ==> exists i :: (0 <= i < |routes| && MatchRoute(routes[i], path) == r
              && forall j :: 0 <= j < i ==> MatchRoute(routes[j], path).None?) by {
          if r.Some? {
            var i :| 0 <= i < |routes[1..]| && MatchRoute(routes[1..][i], path) == r
              && forall j :: 0 <= j < i ==> MatchRoute(routes[1..][j], path).None?;
            assert MatchRoute(routes[i + 1], path) == r;
            forall j | 0 <= j < i + 1 ensures MatchRoute(routes[j], path).None? {
              if j > 0 { assert routes[j] == routes[1..][j - 1]; }
            }
          }
        }
        assert r.None? ==> forall i :: 0 <= i < |routes| ==> MatchRoute(routes[i], path).None? by {
          if r.None? {
            forall i | 0 <= i < |routes| ensures MatchRoute(routes[i], path).None? {
              if i > 0 { assert routes[i] == routes[1..][i - 1]; }
            }
          }
        }
        r
  }

  /** `resolve(path)` within the posts application. */
  function Resolve(path: string): Option<Match>
  {
    FirstMatch(UrlPatterns, path)
  }

  // ------------------------------------------------------------- reversing

  /** The arguments a handler's route captures, with acceptable values. */
  predicate WellFormed(m: Match)
  {
    match m.handler
    case Index => m.args == []
    case NewPost => m.args == []
    case FollowIndex => m.args == []
    case GroupPosts => |m.args| == 1 && m.args[0].StrArg? && Accepts(SlugConv, m.args[0].text)
    case Profile => OneUser(m.args)
    case ProfileFollow => OneUser(m.args)
    case ProfileUnfollow => OneUser(m.args)
    case PostView => UserAndPost(m.args)
    case PostEdit => UserAndPost(m.args)
    case PostDelete => UserAndPost(m.args)
    case AddComment => UserAndPost(m.args)
  }

  predicate OneUser(args: seq<Arg>)
  {
    |args| == 1 && args[0].StrArg? && Accepts(StrConv, args[0].text)
  }

  predicate UserAndPost(args: seq<Arg>)
  {
    |args| == 2 && args[0].StrArg? && Accepts(StrConv, args[0].text) && args[1].IntArg?
  }

  /** The path pieces of a view with given parameters, before the final '/'. */
  function PiecesFor(m: Match): seq<string>
    requires WellFormed(m)
  {
    match m.handler
    case Index => []
    case GroupPosts => ["group", m.args[0].text]
    case NewPost => ["new"]
    case FollowIndex => ["follow"]
    case Profile => [m.args[0].text]
    case PostView => [m.args[0].text, NatToDigits(m.args[1].value)]
    case PostDelete => [m.args[0].text, NatToDigits(m.args[1].value), "delete"]
    case PostEdit => [m.args[0].text, NatToDigits(m.args[1].value), "edit"]
    case AddComment => [m.args[0].text, NatToDigits(m.args[1].value), "comment"]
    case ProfileFollow => [m.args[0].text, "follow"]
    case ProfileUnfollow => [m.args[0].text, "unfollow"]
  }

  /** `reverse(name, args)`: the path of a view with given parameters, each
      piece followed by '/'. */
  function Reverse(m: Match): string
    requires WellFormed(m)
  {
    Join(PiecesFor(m) + [""], '/')
  }

  /** The parameter values that an earlier route captures first: a profile
      named "new" or "follow", and the post, follow and unfollow pages of a
      user named "group". */
  predicate Shadowed(m: Match)
  {
    && |m.args| > 0
    && ((m.handler == Profile && m.args[0] in [StrArg("new"), StrArg("follow")])
        || (m.handler in [PostView, ProfileFollow, ProfileUnfollow] && m.args[0] == StrArg("group")))
  }

  // ----------------------------------------------------------------- proofs

  /** Splitting a '/'-joined list of '/'-free pieces gives the pieces back. */
  lemma {:induction false} SplitJoin(pieces: seq<string>)
    requires |pieces| >= 1
    requires forall i :: 0 <= i < |pieces| ==> '/' !in pieces[i]
    ensures Split(Join(pieces, '/'), '/') == pieces
  {
    if |pieces| == 1 {
      SplitNoSep(pieces[0], '/');
    } else {
      SplitJoin(pieces[1..]);
      SplitCons(pieces[0], '/', Join(pieces[1..], '/'));
    }
  }

  lemma DigitsHaveNoSlash(n: nat)
    ensures '/' !in NatToDigits(n)
    ensures Accepts(IntConv, NatToDigits(n)) && Convert(IntConv, NatToDigits(n)) == IntArg(n)
    ensures Accepts(SlugConv, NatToDigits(n))
  {
    DigitsRoundTrip(n);
  }

  /** The path of a well-formed match splits into its pieces. */
  lemma ReversePieces(m: Match)
    requires WellFormed(m)
    ensures Split(Reverse(m), '/') == PiecesFor(m) + [""]
  {
    if m.handler in [PostView, PostDelete, PostEdit, AddComment] {
      DigitsHaveNoSlash(m.args[1].value);
    }
    SplitJoin(PiecesFor(m) + [""]);
  }

  /** The pieces have the shape a pattern asks for: one accepted piece per
      segment, then the empty piece after the final '/'. */
  predicate Fits(pattern: seq<Segment>, pieces: seq<string>)
  {
    && |pieces| == |pattern| + 1
    && pieces[|pattern|] == ""
    && forall i :: 0 <= i < |pattern| ==> SegmentAccepts(pattern[i], pieces[i])
  }

  /** A pattern matches exactly the pieces that fit it. */
  lemma {:induction false} MatchShape(pattern: seq<Segment>, pieces: seq<string>)
    ensures MatchSegments(pattern, pieces).Some? <==> Fits(pattern, pieces)
  {
    if |pattern| == 0 {
      if |pieces| == 1 {
        assert pieces == [pieces[0]];
      }
    } else if |pieces| > 0 && SegmentAccepts(pattern[0], pieces[0]) {
      MatchShape(pattern[1..], pieces[1..]);
      forall i | 0 < i < |pattern| && i < |pieces|
        ensures pattern[i] == pattern[1..][i - 1] && pieces[i] == pieces[1..][i - 1]
      {
      }
      if Fits(pattern, pieces) {
        assert Fits(pattern[1..], pieces[1..]);
      }
    }
  }

  // What the table's pattern shapes capture from matching pieces.

  lemma CaptureOne(a: string, c: Converter)
    requires Accepts(c, a)
    ensures MatchSegments([Param(c)], [a, ""]) == Some([Convert(c, a)])
  {
    assert [Param(c)][1..] == [] && [a, ""][1..] == [""];
    assert Captured(Param(c), a) == [Convert(c, a)];
    assert [Convert(c, a)] + [] == [Convert(c, a)];
  }

  lemma CaptureLitParam(t: string, a: string, c: Converter)
    requires Accepts(c, a)
    ensures MatchSegments([Lit(t), Param(c)], [t, a, ""]) == Some([Convert(c, a)])
  {
    CaptureOne(a, c);
    assert [Lit(t), Param(c)][1..] == [Param(c)] && [t, a, ""][1..] == [a, ""];
    assert Captured(Lit(t), t) == [];
    assert [] + [Convert(c, a)] == [Convert(c, a)];
  }

  lemma CaptureParamLit(t: string, a: string, c: Converter)
    requires Accepts(c, a)
    ensures MatchSegments([Param(c), Lit(t)], [a, t, ""]) == Some([Convert(c, a)])
  {
    var none: seq<Arg> := [];
    assert [Lit(t)][1..] == [] && [t, ""][1..] == [""];
    assert Captured(Lit(t), t) == none;
    assert none + none == none;
    assert MatchSegments([Lit(t)], [t, ""]) == Some(none);
    assert [Param(c), Lit(t)][1..] == [Lit(t)] && [a, t, ""][1..] == [t, ""];
    assert Captured(Param(c), a) == [Convert(c, a)];
    assert [Convert(c, a)] + none == [Convert(c, a)];
  }

  lemma CaptureParamParam(a: string, b: string, c: Converter, d: Converter)
    requires Accepts(c, a) && Accepts(d, b)
    ensures MatchSegments([Param(c), Param(d)], [a, b, ""]) == Some([Convert(c, a), Convert(d, b)])
  {
    CaptureOne(b, d);
    assert [Param(c), Param(d)][1..] == [Param(d)] && [a, b, ""][1..] == [b, ""];
    assert Captured(Param(c), a) == [Convert(c, a)];
    assert [Convert(c, a)] + [Convert(d, b)] == [Convert(c, a), Convert(d, b)];
  }

  lemma CaptureParamParamLit(t: string, a: string, b: string, c: Converter, d: Converter)
    requires Accepts(c, a) && Accepts(d, b)
    ensures MatchSegments([Param(c), Param(d), Lit(t)], [a, b, t, ""]) == Some([Convert(c, a), Convert(d, b)])
  {
    CaptureParamLit(t, b, d);
    assert [Param(c), Param(d), Lit(t)][1..] == [Param(d), Lit(t)] && [a, b, t, ""][1..] == [b, t, ""];
    assert Captured(Param(c), a) == [Convert(c, a)];
    assert [Convert(c, a)] + [Convert(d, b)] == [Convert(c, a), Convert(d, b)];
  }

  /** Which routes before a well-formed match's own fit its pieces: none,
      unless its parameters are shadowed, and then at least one; its own
      route captures its arguments back. */
  ghost predicate Catches(m: Match)
    requires WellFormed(m)
  {
    var pieces := PiecesFor(m) + [""];
    && MatchSegments(UrlPatterns[RouteIndex(m.handler)].pattern, pieces) == Some(m.args)
    && (!Shadowed(m) ==> forall j :: 0 <= j < RouteIndex(m.handler) ==> !Fits(UrlPatterns[j].pattern, pieces))
    && (Shadowed(m) ==> exists j :: 0 <= j < RouteIndex(m.handler) && Fits(UrlPatterns[j].pattern, pieces))
  }

  /** A literal word is not a numeral. */
  lemma WordsAreNotNumbers()
    ensures !Accepts(IntConv, "follow") && !Accepts(IntConv, "unfollow")
  {
    assert "follow"[0] == 'f' && "unfollow"[0] == 'u';
  }

  lemma CatchesNoArgs(m: Match)
    requires WellFormed(m) && m.handler in [Index, NewPost, FollowIndex]
    ensures Catches(m)
  {
    if m.handler == Index {
      assert PiecesFor(m) + [""] == [""];
    } else {
      CatchesWord(m);
    }
  }

  /** "new/" and "follow/" fit only their own fixed route among the first four. */
  lemma CatchesWord(m: Match)
    requires WellFormed(m) && m.handler in [NewPost, FollowIndex]
    ensures Catches(m)
  {
    var w := if m.handler == NewPost then "new" else "follow";
    var pieces := PiecesFor(m) + [""];
    assert pieces == [w, ""];
    var none: seq<Arg> := [];
    assert none + none == none;
    assert [w, ""][1..] == [""] && [Lit(w)][1..] == [];
    assert Captured(Lit(w), w) == none;
    assert MatchSegments([Lit(w)], pieces) == Some(none);
    forall j | 0 <= j < RouteIndex(m.handler) ensures !Fits(UrlPatterns[j].pattern, pieces) {
      if j == 2 {
        assert w == "follow";
        assert w[0] != 'n';
      } else if j == 1 {
        assert |UrlPatterns[j].pattern| == 2;
      }
    }
  }

  lemma CatchesGroup(m: Match)
    requires WellFormed(m) && m.handler == GroupPosts
    ensures Catches(m)
  {
    var slug := m.args[0].text;
    assert m.args == [Convert(SlugConv, slug)];
    CaptureLitParam("group", slug, SlugConv);
  }

  // Which routes before its own fit a path with user `u` (and post numeral `d`).

  lemma ProfileMisses(u: string)
    requires Accepts(StrConv, u) && u != "new" && u != "follow"
    ensures forall j :: 0 <= j < 5 ==> !Fits(UrlPatterns[j].pattern, [u, ""])
  {
    forall j | 0 <= j < 5 ensures !Fits(UrlPatterns[j].pattern, [u, ""]) {
      if j == 2 || j == 3 {
        assert !SegmentAccepts(UrlPatterns[j].pattern[0], u);
      }
    }
  }

  lemma FollowMisses(u: string, t: string, k: nat)
    requires Accepts(StrConv, u) && u != "group"
    requires (t == "follow" && k == 9) || (t == "unfollow" && k == 10)
    ensures forall j :: 0 <= j < k ==> !Fits(UrlPatterns[j].pattern, [u, t, ""])
  {
    WordsAreNotNumbers();
    forall j | 0 <= j < k ensures !Fits(UrlPatterns[j].pattern, [u, t, ""]) {
      if j == 1 {
        assert !SegmentAccepts(UrlPatterns[j].pattern[0], u);
      } else if j == 6 || j == 9 {
        assert !SegmentAccepts(UrlPatterns[j].pattern[1], t);
      }
    }
  }

  lemma PostViewMisses(u: string, d: string)
    requires Accepts(StrConv, u) && u != "group"
    ensures forall j :: 0 <= j < 6 ==> !Fits(UrlPatterns[j].pattern, [u, d, ""])
  {
    forall j | 0 <= j < 6 ensures !Fits(UrlPatterns[j].pattern, [u, d, ""]) {
      if j == 1 {
        assert !SegmentAccepts(UrlPatterns[j].pattern[0], u);
      }
    }
  }

  lemma PostActionMisses(u: string, d: string, t: string, k: nat)
    requires (t == "delete" && k == 4) || (t == "edit" && k == 7) || (t == "comment" && k == 8)
    ensures forall j :: 0 <= j < k ==> !Fits(UrlPatterns[j].pattern, [u, d, t, ""])
  {
    forall j | 0 <= j < k ensures !Fits(UrlPatterns[j].pattern, [u, d, t, ""]) {
      if j == 4 || j == 7 {
        assert !SegmentAccepts(UrlPatterns[j].pattern[2], t);
      }
    }
  }

  lemma CatchesProfile(m: Match)
    requires WellFormed(m) && m.handler == Profile
    ensures Catches(m)
  {
    var u := m.args[0].text;
    assert m.args == [Convert(StrConv, u)];
    assert PiecesFor(m) + [""] == [u, ""];
    CaptureOne(u, StrConv);
    if Shadowed(m) {
      assert Fits(UrlPatterns[if u == "new" then 2 else 3].pattern, [u, ""]);
    } else {
      ProfileMisses(u);
    }
  }

  /** "group/follow/" and "group/unfollow/" fit the group route. */
  lemma GroupFitsWord(t: string)
    requires t == "follow" || t == "unfollow"
    ensures Fits(UrlPatterns[1].pattern, ["group", t, ""])
  {
    assert forall i :: 0 <= i < |t| ==> IsSlugChar(t[i]);
  }

  lemma CatchesFollow(m: Match)
    requires WellFormed(m) && m.handler in [ProfileFollow, ProfileUnfollow]
    ensures Catches(m)
  {
    var u := m.args[0].text;
    var t := if m.handler == ProfileFollow then "follow" else "unfollow";
    assert m.args == [Convert(StrConv, u)];
    assert PiecesFor(m) + [""] == [u, t, ""];
    CaptureParamLit(t, u, StrConv);
    if Shadowed(m) {
      GroupFitsWord(t);
    } else {
      FollowMisses(u, t, RouteIndex(m.handler));
    }
  }

  lemma CatchesPostView(m: Match)
    requires WellFormed(m) && m.handler == PostView
    ensures Catches(m)
  {
    var u := m.args[0].text;
    var d := NatToDigits(m.args[1].value);
    DigitsHaveNoSlash(m.args[1].value);
    assert m.args == [Convert(StrConv, u), Convert(IntConv, d)];
    assert PiecesFor(m) + [""] == [u, d, ""];
    CaptureParamParam(u, d, StrConv, IntConv);
    if Shadowed(m) {
      assert Fits(UrlPatterns[1].pattern, [u, d, ""]);
    } else {
      PostViewMisses(u, d);
    }
  }

  lemma CatchesPostAction(m: Match)
    requires WellFormed(m) && m.handler in [PostDelete, PostEdit, AddComment]
    ensures Catches(m)
  {
    var t := if m.handler == PostDelete then "delete" else if m.handler == PostEdit then "edit" else "comment";
    CatchesPostActionWord(m, t);
  }

  /** The post action pages with their trailing word `t`. */
  lemma CatchesPostActionWord(m: Match, t: string)
    requires WellFormed(m) && m.handler in [PostDelete, PostEdit, AddComment]
    requires PiecesFor(m) == [m.args[0].text, NatToDigits(m.args[1].value), t]
    requires (t == "delete" && RouteIndex(m.handler) == 4) || (t == "edit" && RouteIndex(m.handler) == 7)
             || (t == "comment" && RouteIndex(m.handler) == 8)
    ensures Catches(m)
  {
    var u := m.args[0].text;
    var d := NatToDigits(m.args[1].value);
    DigitsHaveNoSlash(m.args[1].value);
    assert m.args == [Convert(StrConv, u), Convert(IntConv, d)];
    assert PiecesFor(m) + [""] == [u, d, t, ""];
    CaptureParamParamLit(t, u, d, StrConv, IntConv);
    assert UrlPatterns[RouteIndex(m.handler)].pattern == [Param(StrConv), Param(IntConv), Lit(t)];
    PostActionMisses(u, d, t, RouteIndex(m.handler));
    assert !Shadowed(m);
  }

  /** Where a handler sits in the table. */
  function RouteIndex(h: Handler): (i: nat)
    ensures i < |UrlPatterns| && UrlPatterns[i].handler == h
  {
    match h
    case Index => 0
    case GroupPosts => 1
    case NewPost => 2
    case FollowIndex => 3
    case PostDelete => 4
    case Profile => 5
    case PostView => 6
    case PostEdit => 7
    case AddComment => 8
    case ProfileFollow => 9
    case ProfileUnfollow => 10
  }

  /** Every handler appears in the table exactly once. */
  lemma HandlersDistinct(k: nat)
    requires k < |UrlPatterns|
    ensures RouteIndex(UrlPatterns[k].handler) == k
  {
  }

  lemma CatchesAll(m: Match)
    requires WellFormed(m)
    ensures Catches(m)
  {
    if m.handler in [Index, NewPost, FollowIndex] {
      CatchesNoArgs(m);
    } else if m.handler == GroupPosts {
      CatchesGroup(m);
    } else if m.handler == Profile {
      CatchesProfile(m);
    } else if m.handler in [ProfileFollow, ProfileUnfollow] {
      CatchesFollow(m);
    } else if m.handler == PostView {
      CatchesPostView(m);
    } else {
      CatchesPostAction(m);
    }
  }

  /** A route matches a path exactly when the path's pieces fit its pattern,
      and then captures what the pattern captures. */
  lemma RouteFits(path: string, pieces: seq<string>)
    requires Split(path, '/') == pieces
    ensures forall j :: 0 <= j < |UrlPatterns| ==>
      (MatchRoute(UrlPatterns[j], path).Some? <==> Fits(UrlPatterns[j].pattern, pieces))
    ensures forall j :: 0 <= j < |UrlPatterns| && MatchSegments(UrlPatterns[j].pattern, pieces).Some? ==>
      MatchRoute(UrlPatterns[j], path) ==
      Some(Match(UrlPatterns[j].handler, MatchSegments(UrlPatterns[j].pattern, pieces).value))
  {
    forall j | 0 <= j < |UrlPatterns|
      ensures MatchRoute(UrlPatterns[j], path).Some? <==> Fits(UrlPatterns[j].pattern, pieces)
    {
      MatchShape(UrlPatterns[j].pattern, pieces);
    }
  }

  /** Reversing then resolving gives the match back exactly when no earlier
      route shadows it. */
  lemma ResolveReverse(m: Match)
    requires WellFormed(m)
    ensures Resolve(Reverse(m)) == Some(m) <==> !Shadowed(m)
  {
    if Shadowed(m) {
      ReverseShadowed(m);
    } else {
      ReverseFirst(m);
    }
  }

  /** The facts both directions start from: the first route that matches
      the reversed path, and the match's own route capturing it. */
  lemma ReverseSetup(m: Match) returns (k: nat)
    requires WellFormed(m)
    ensures Catches(m)
    ensures k < |UrlPatterns| && Resolve(Reverse(m)) == MatchRoute(UrlPatterns[k], Reverse(m))
    ensures forall j :: 0 <= j < k ==> MatchRoute(UrlPatterns[j], Reverse(m)).None?
    ensures k <= RouteIndex(m.handler)
    ensures forall j :: 0 <= j < |UrlPatterns| ==>
              (MatchRoute(UrlPatterns[j], Reverse(m)).Some? <==> Fits(UrlPatterns[j].pattern, PiecesFor(m) + [""]))
    ensures MatchRoute(UrlPatterns[RouteIndex(m.handler)], Reverse(m)) == Some(m)
  {
    var path := Reverse(m);
    var pieces := PiecesFor(m) + [""];
    var i := RouteIndex(m.handler);
    ReversePieces(m);
    CatchesAll(m);
    RouteFits(path, pieces);
    assert MatchRoute(UrlPatterns[i], path) == Some(m);
    var r := Resolve(path);
    k :| 0 <= k < |UrlPatterns| && MatchRoute(UrlPatterns[k], path) == r
          && forall j :: 0 <= j < k ==> MatchRoute(UrlPatterns[j], path).None?;
  }

  lemma ReverseFirst(m: Match)
    requires WellFormed(m) && !Shadowed(m)
    ensures Resolve(Reverse(m)) == Some(m)
  {
    var k := ReverseSetup(m);
    assert k == RouteIndex(m.handler);
  }

  lemma ReverseShadowed(m: Match)
    requires WellFormed(m) && Shadowed(m)
    ensures Resolve(Reverse(m)) != Some(m)
  {
    var k := ReverseSetup(m);
    var pieces := PiecesFor(m) + [""];
    var j :| 0 <= j < RouteIndex(m.handler) && Fits(UrlPatterns[j].pattern, pieces);
    assert k <= j;
    HandlersDistinct(k);
    assert Resolve(Reverse(m)).value.handler == UrlPatterns[k].handler;
  }

  // ------------------------------------------------------ concrete routes
  // The fixed pages win over a profile of the same name, and a user's follow
  // pages win over post pages; only the user name "group" is captured by the
  // group route first.

  lemma ResolvesIndex()
    ensures Resolve("") == Some(Match(Index, []))
  {
    ResolveAt(Match(Index, []), "");
  }

  lemma ResolvesNew()
    ensures Resolve("new/") == Some(Match(NewPost, []))
  {
    ConcatOne("new");
    ResolveAt(Match(NewPost, []), "new/");
  }

  lemma ResolvesFollowIndex()
    ensures Resolve("follow/") == Some(Match(FollowIndex, []))
  {
    ConcatOne("follow");
    ResolveAt(Match(FollowIndex, []), "follow/");
  }

  lemma ResolvesGroup(slug: string)
    requires Accepts(SlugConv, slug)
    ensures Resolve("group/" + slug + "/") == Some(Match(GroupPosts, [StrArg(slug)]))
  {
    ConcatTwo("group", slug);
    assert "group" + "/" + slug + "/" == "group/" + slug + "/";
    ResolveAt(Match(GroupPosts, [StrArg(slug)]), "group/" + slug + "/");
  }

  /** Any user name but "new" and "follow" reaches the profile. */
  lemma ResolvesProfile(u: string)
    requires Accepts(StrConv, u) && u != "new" && u != "follow"
    ensures Resolve(u + "/") == Some(Match(Profile, [StrArg(u)]))
  {
    ConcatOne(u);
    ResolveAt(Match(Profile, [StrArg(u)]), u + "/");
  }

  /** Any user name but "group" reaches the follow page, not a post page. */
  lemma ResolvesFollow(u: string)
    requires Accepts(StrConv, u) && u != "group"
    ensures Resolve(u + "/follow/") == Some(Match(ProfileFollow, [StrArg(u)]))
  {
    ConcatTwo(u, "follow");
    assert u + "/" + "follow" + "/" == u + "/follow/";
    ResolveAt(Match(ProfileFollow, [StrArg(u)]), u + "/follow/");
  }

  lemma ResolvesUnfollow(u: string)
    requires Accepts(StrConv, u) && u != "group"
    ensures Resolve(u + "/unfollow/") == Some(Match(ProfileUnfollow, [StrArg(u)]))
  {
    ConcatTwo(u, "unfollow");
    assert u + "/" + "unfollow" + "/" == u + "/unfollow/";
    ResolveAt(Match(ProfileUnfollow, [StrArg(u)]), u + "/unfollow/");
  }

  /** The post page of any user but "group", with the id read back. */
  lemma ResolvesPost(u: string, k: nat)
    requires Accepts(StrConv, u) && u != "group"
    ensures Resolve(u + "/" + NatToDigits(k) + "/") == Some(Match(PostView, [StrArg(u), IntArg(k)]))
  {
    ConcatTwo(u, NatToDigits(k));
    ResolveAt(Match(PostView, [StrArg(u), IntArg(k)]), u + "/" + NatToDigits(k) + "/");
  }

  lemma ResolvesEdit(u: string, k: nat)
    requires Accepts(StrConv, u)
    ensures Resolve(u + "/" + NatToDigits(k) + "/edit/") == Some(Match(PostEdit, [StrArg(u), IntArg(k)]))
  {
    var path := u + "/" + NatToDigits(k) + "/edit/";
    ConcatThree(u, NatToDigits(k), "edit");
    assert u + "/" + NatToDigits(k) + "/" + "edit" + "/" == path;
    ResolveAt(Match(PostEdit, [StrArg(u), IntArg(k)]), path);
  }

  lemma ResolvesDelete(u: string, k: nat)
    requires Accepts(StrConv, u)
    ensures Resolve(u + "/" + NatToDigits(k) + "/delete/") == Some(Match(PostDelete, [StrArg(u), IntArg(k)]))
  {
    var path := u + "/" + NatToDigits(k) + "/delete/";
    ConcatThree(u, NatToDigits(k), "delete");
    assert u + "/" + NatToDigits(k) + "/" + "delete" + "/" == path;
    ResolveAt(Match(PostDelete, [StrArg(u), IntArg(k)]), path);
  }

  lemma ResolvesComment(u: string, k: nat)
    requires Accepts(StrConv, u)
    ensures Resolve(u + "/" + NatToDigits(k) + "/comment/") == Some(Match(AddComment, [StrArg(u), IntArg(k)]))
  {
    var path := u + "/" + NatToDigits(k) + "/comment/";
    ConcatThree(u, NatToDigits(k), "comment");
    assert u + "/" + NatToDigits(k) + "/" + "comment" + "/" == path;
    ResolveAt(Match(AddComment, [StrArg(u), IntArg(k)]), path);
  }

  lemma ResolveAt(m: Match, path: string)
    requires WellFormed(m) && !Shadowed(m) && Concat(PiecesFor(m)) == path
    ensures Resolve(path) == Some(m)
  {
    JoinTrailing(PiecesFor(m));
    ResolveReverse(m);
  }

  /** Joining pieces then the empty piece puts a '/' after each piece. */
  lemma {:induction false} JoinTrailing(pieces: seq<string>)
    ensures Join(pieces + [""], '/') == Concat(pieces)
  {
    if |pieces| > 0 {
      JoinTrailing(pieces[1..]);
      assert (pieces + [""])[1..] == pieces[1..] + [""];
    }
  }

  /** Each piece followed by '/'. */
  function Concat(pieces: seq<string>): string
  {
    if |pieces| == 0 then "" else pieces[0] + "/" + Concat(pieces[1..])
  }

  lemma ConcatOne(a: string)
    ensures Concat([a]) == a + "/"
  {
    assert [a][1..] == [];
  }

  lemma ConcatTwo(a: string, b: string)
    ensures Concat([a, b]) == a + "/" + b + "/"
  {
    assert [a, b][1..] == [b];
    ConcatOne(b);
  }

  lemma ConcatThree(a: string, b: string, c: string)
    ensures Concat([a, b, c]) == a + "/" + b + "/" + c + "/"
  {
    assert [a, b, c][1..] == [b, c];
    ConcatTwo(b, c);
  }

  /** Every pattern ends in '/', so a non-empty path that does not end in
      '/' resolves to nothing. */
  lemma NeedsFinalSlash(path: string)
    requires |path| > 0 && path[|path| - 1] != '/'
    ensures Resolve(path) == None
  {
    var pieces := Split(path, '/');
    SplitLastNonEmpty(path, '/');
    RouteFits(path, pieces);
  }
}
