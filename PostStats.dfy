/**
  The view and like counters of `components/PostStats.tsx`. The browser's
  `sessionStorage` and `localStorage` are string-to-string maps; the server
  calls `incrementViews`, `incrementLikes` and `decrementLikes` are inputs,
  `None` when the call fails and `Some(n)` with the new count when it succeeds.
*/
module PostStats {
  import opened Wrappers

  /** The session-storage key that marks a post as viewed in this session. */
  function ViewKey(slug: string): string {
    "viewed_" + slug
  }

  /** The local-storage key that marks a post as liked on this device. */
  function LikeKey(slug: string): string {
    "liked_" + slug
  }

  /** The component's state and the two storage maps. */
  datatype Stats = Stats(
    views: int,
    likes: int,
    isLiked: bool,
    isAnimating: bool,
    session: map<string, string>,
    local: map<string, string>)

  /** `!sessionStorage.getItem(viewKey)`: no entry, or the empty string (also falsy). */
  predicate ShouldCountView(session: map<string, string>, slug: string) {
    ViewKey(slug) !in session || session[ViewKey(slug)] == ""
  }

  /** The effect of the view effect: one more view and the session mark, when the call is made and succeeds. */
  function AfterView(s: Stats, slug: string, result: Option<int>): (r: Stats)
    ensures r.(views := s.views, session := s.session) == s
    ensures r.views == s.views + 1 <==> ShouldCountView(s.session, slug) && result.Some?
    ensures r.views == s.views + 1 ==> r.session == s.session[ViewKey(slug) := "true"]
    ensures r.views != s.views + 1 ==> r == s
  {
    if ShouldCountView(s.session, slug) && result.Some? then
      s.(views := s.views + 1, session := s.session[ViewKey(slug) := "true"])
    else s
  }

  /** Once a view has been counted, later visits in the same session count nothing. */
  lemma ViewCountedOnce(s: Stats, slug: string, first: Option<int>, second: Option<int>)
    requires first.Some?
    ensures var t := AfterView(s, slug, first);
      && !ShouldCountView(t.session, slug)
      && AfterView(t, slug, second) == t
      && t.views <= s.views + 1
  {
  }

  /** `isLiked` agrees with the stored like mark. */
  predicate Consistent(s: Stats, slug: string) {
    s.isLiked <==> (LikeKey(slug) in s.local && s.local[LikeKey(slug)] == "true")
  }

  /** The like-state load: `isLiked` becomes `liked === 'true'`. */
  function LoadLiked(s: Stats, slug: string): (r: Stats)
    ensures Consistent(r, slug)
    ensures r.(isLiked := s.isLiked) == s
  {
    s.(isLiked := LikeKey(slug) in s.local && s.local[LikeKey(slug)] == "true")
  }

  /** Which server call a toggle makes. */
  datatype LikeCall = Increment | Decrement

  /** The call `handleLikeToggle` makes: `decrementLikes` when liked, `incrementLikes` otherwise. */
  function CallFor(s: Stats): LikeCall {
    if s.isLiked then Decrement else Increment
  }

  /**
    `handleLikeToggle` with the server's answer `server`: on success the
    count is the server's, the flag flips and the mark is removed or written;
    on failure only the animation flag changes.
  */
  function Toggle(s: Stats, slug: string, server: Option<int>): (r: Stats)
    ensures r.isAnimating && r.views == s.views && r.session == s.session
    ensures server.None? ==> r == s.(isAnimating := true)
    ensures server.Some? ==> r.likes == server.value && r.isLiked == !s.isLiked
    ensures server.Some? ==> (LikeKey(slug) in r.local <==> r.isLiked) && Consistent(r, slug)
    ensures r.local - {LikeKey(slug)} == s.local - {LikeKey(slug)}
  {
    var key := LikeKey(slug);
    var animating := s.(isAnimating := true);
    match server
    case None => animating
    case Some(n) =>
      if s.isLiked then animating.(likes := n, isLiked := false, local := s.local - {key})
      else animating.(likes := n, isLiked := true, local := s.local[key := "true"])
  }

  /** A toggle keeps `isLiked` in agreement with the stored mark. */
  lemma ToggleKeepsConsistent(s: Stats, slug: string, server: Option<int>)
    requires Consistent(s, slug)
    ensures Consistent(Toggle(s, slug, server), slug)
  {
  }

  /** Two successful toggles restore the flag, and the mark unless it was some other value than `'true'`. */
  lemma ToggleTwice(s: Stats, slug: string, n1: int, n2: int)
    requires Consistent(s, slug)
    ensures var t := Toggle(Toggle(s, slug, Some(n1)), slug, Some(n2));
      && t.isLiked == s.isLiked && t.likes == n2 && t.views == s.views
      && (s.isLiked ==> t.local == s.local)
      && (!s.isLiked ==> t.local == s.local - {LikeKey(slug)})
  {
    var key := LikeKey(slug);
    if s.isLiked {
      assert (s.local - {key})[key := "true"] == s.local;
    } else {
      assert s.local[key := "true"] - {key} == s.local - {key};
    }
  }

  class PostStatsView {
    const slug: string
    var views: int
    var likes: int
    var isLiked: bool
    var isAnimating: bool
    var session: map<string, string>
    var local: map<string, string>

    function State(): Stats
      reads this
    {
      Stats(views, likes, isLiked, isAnimating, session, local)
    }

    /** The initial state: the given counts, not liked, not animating. */
    constructor(slug: string, initialViews: int, initialLikes: int, session: map<string, string>, local: map<string, string>)
      ensures this.slug == slug
      ensures State() == Stats(initialViews, initialLikes, false, false, session, local)
    {
      this.slug := slug;
      views := initialViews;
      likes := initialLikes;
      isLiked := false;
      isAnimating := false;
      this.session := session;
      this.local := local;
    }

    /** The view effect; `called` says whether `incrementViews` was called. */
    method RecordView(result: Option<int>) returns (called: bool)
      modifies this
      ensures called == ShouldCountView(old(session), slug)
      ensures State() == AfterView(old(State()), slug, result)
    {
      var viewKey := ViewKey(slug);
      var hasViewed := if viewKey in session then session[viewKey] else "";
      called := false;
      if hasViewed == "" {
        called := true;
        if result.Some? {
          views := views + 1;
          session := session[viewKey := "true"];
        }
      }
    }

    /** The like-state load effect. */
    method LoadLikeState()
      modifies this
      ensures State() == LoadLiked(old(State()), slug)
    {
      var likeKey := LikeKey(slug);
      var liked := if likeKey in local then Some(local[likeKey]) else None;
      isLiked := liked == Some("true");
    }

    /** `handleLikeToggle`; `call` is the server call it makes and `server` that call's answer. */
    method ToggleLike(server: Option<int>) returns (call: LikeCall)
      modifies this
      ensures call == CallFor(old(State()))
      ensures State() == Toggle(old(State()), slug, server)
    {
      var likeKey := LikeKey(slug);
      isAnimating := true;
      if isLiked {
        call := Decrement;
        if server.Some? {
          likes := server.value;
          isLiked := false;
          local := local - {likeKey};
        }
      } else {
        call := Increment;
        if server.Some? {
          likes := server.value;
          isLiked := true;
          local := local[likeKey := "true"];
        }
      }
    }

    /** The timer callback that ends the like animation. */
    method EndAnimation()
      modifies this
      ensures State() == old(State()).(isAnimating := false)
    {
      isAnimating := false;
    }
  }
}
