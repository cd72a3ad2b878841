/**
  The search page of `app/search/page.tsx`: the `posts`, `isLoading` and
  `hasSearched` state moved by `performSearch`, the form submit, the effect
  on the `q` URL parameter, and the choice of what the results area shows.
  `searchPosts` is an input: `None` when it throws, `Some(results)` otherwise.
*/
module SearchPage {
  import opened Wrappers
  import opened JsString
  import opened Types

  /** `!searchQuery.trim()`: empty once trimmed. */
  predicate IsBlank(q: string) {
    Trim(q) == []
  }

  /** The state the page's results depend on. */
  datatype SearchState = SearchState(posts: seq<Post>, isLoading: bool, hasSearched: bool)

  /**
    `performSearch` up to its `await`: a blank query clears the results and
    the searched flag; any other query raises both flags.
  */
  function Start(s: SearchState, q: string): (r: SearchState)
    ensures IsBlank(q) ==> r.posts == [] && !r.hasSearched && r.isLoading == s.isLoading
    ensures !IsBlank(q) ==> r.posts == s.posts && r.isLoading && r.hasSearched
  {
    if IsBlank(q) then s.(posts := [], hasSearched := false)
    else s.(isLoading := true, hasSearched := true)
  }

  /** The rest of `performSearch`: the results, or `[]` when the call throws; then `finally` ends the loading. */
  function Finish(s: SearchState, result: Option<seq<Post>>): (r: SearchState)
    ensures !r.isLoading && r.hasSearched == s.hasSearched
    ensures result.Some? ==> r.posts == result.value
    ensures result.None? ==> r.posts == []
  {
    s.(posts := result.GetOr([]), isLoading := false)
  }

  /** The whole of `performSearch` as one step. */
  function Search(s: SearchState, q: string, result: Option<seq<Post>>): SearchState {
    if IsBlank(q) then Start(s, q) else Finish(Start(s, q), result)
  }

  /** What the results area shows. */
  datatype View = Spinner | ResultList(posts: seq<Post>) | NoResults | Prompt

  /** The nested conditional of the results area. */
  function ViewOf(s: SearchState): (v: View)
    ensures v == Spinner <==> s.isLoading
    ensures v.ResultList? <==> !s.isLoading && s.hasSearched && |s.posts| > 0
    ensures v.ResultList? ==> v.posts == s.posts
    ensures v == NoResults <==> !s.isLoading && s.hasSearched && s.posts == []
    ensures v == Prompt <==> !s.isLoading && !s.hasSearched
  {
    if s.isLoading then Spinner
    else if s.hasSearched then (if |s.posts| > 0 then ResultList(s.posts) else NoResults)
    else Prompt
  }

  /** While a search is in flight the spinner shows. */
  lemma SpinnerWhileSearching(s: SearchState, q: string)
    requires !IsBlank(q)
    ensures ViewOf(Start(s, q)) == Spinner
  {
  }

  /** A finished search shows its results, or the no-results message when there are none or the call failed. */
  lemma ViewAfterSearch(s: SearchState, q: string, result: Option<seq<Post>>)
    requires !IsBlank(q)
    ensures result.Some? && result.value != [] ==> ViewOf(Search(s, q, result)) == ResultList(result.value)
    ensures result.None? || result.value == [] ==> ViewOf(Search(s, q, result)) == NoResults
  {
  }

  /** A blank query shows the prompt again unless an earlier search is still loading. */
  lemma ViewAfterBlank(s: SearchState, q: string, result: Option<seq<Post>>)
    requires IsBlank(q)
    ensures !s.isLoading ==> ViewOf(Search(s, q, result)) == Prompt
    ensures s.isLoading ==> ViewOf(Search(s, q, result)) == Spinner
  {
  }

  /** Whitespace-only queries are blank. */
  lemma WhitespaceQueryIsBlank(q: string)
    requires AllWhitespace(q)
    ensures IsBlank(q)
  {
    TrimOfWhitespace(q);
  }

  /** `searchParams.get('q') || ''`. */
  function QueryParam(q: Option<string>): (r: string)
    ensures q.Some? ==> r == q.value
    ensures q.None? ==> r == []
  {
    q.GetOr([])
  }

  class SearchContent {
    var queryParam: string
    var query: string
    var posts: seq<Post>
    var isLoading: bool
    var hasSearched: bool
    /** The query `router.push` was last called with (before `encodeURIComponent`). */
    var pushedQuery: Option<string>

    function State(): SearchState
      reads this
    {
      SearchState(posts, isLoading, hasSearched)
    }

    /** The first render: the query field holds the URL parameter, nothing searched yet. */
    constructor(q: Option<string>)
      ensures queryParam == QueryParam(q) && query == queryParam
      ensures State() == SearchState([], false, false) && pushedQuery == None
    {
      queryParam := QueryParam(q);
      query := QueryParam(q);
      posts := [];
      isLoading := false;
      hasSearched := false;
      pushedQuery := None;
    }

    /** `performSearch` up to the `await`; `called` says whether `searchPosts` is called. */
    method BeginSearch(searchQuery: string) returns (called: bool)
      modifies this
      ensures called <==> !IsBlank(searchQuery)
      ensures State() == Start(old(State()), searchQuery)
      ensures query == old(query) && queryParam == old(queryParam) && pushedQuery == old(pushedQuery)
    {
      if Trim(searchQuery) == [] {
        posts := [];
        hasSearched := false;
        return false;
      }
      isLoading := true;
      hasSearched := true;
      called := true;
    }

    /** `performSearch` after the `await`, with what `searchPosts` gave. */
    method CompleteSearch(result: Option<seq<Post>>)
      modifies this
      ensures State() == Finish(old(State()), result)
      ensures query == old(query) && queryParam == old(queryParam) && pushedQuery == old(pushedQuery)
    {
      match result {
        case Some(results) => posts := results;
        case None => posts := [];
      }
      isLoading := false;
    }

    /** `performSearch` run to completion, `result` being the answer of `searchPosts` if it is called. */
    method PerformSearch(searchQuery: string, result: Option<seq<Post>>) returns (called: bool)
      modifies this
      ensures called <==> !IsBlank(searchQuery)
      ensures State() == Search(old(State()), searchQuery, result)
      ensures query == old(query) && queryParam == old(queryParam) && pushedQuery == old(pushedQuery)
    {
      called := BeginSearch(searchQuery);
      if called {
        CompleteSearch(result);
      }
    }

    /** The input's `onChange`. */
    method SetQuery(value: string)
      modifies this
      ensures query == value && State() == old(State())
      ensures queryParam == old(queryParam) && pushedQuery == old(pushedQuery)
    {
      query := value;
    }

    /** `handleSearch`: navigates with the trimmed query, and only when it is not blank. */
    method HandleSearch()
      modifies this
      ensures IsBlank(old(query)) ==> pushedQuery == old(pushedQuery)
      ensures !IsBlank(old(query)) ==> pushedQuery == Some(Trim(old(query))) && pushedQuery.value != []
      ensures query == old(query) && queryParam == old(queryParam) && State() == old(State())
    {
      var trimmed := Trim(query);
      if trimmed != [] {
        pushedQuery := Some(trimmed);
      }
    }

    /** The effect on a new `q` parameter: a non-empty one is copied into the field and searched. */
    method OnQueryParam(q: Option<string>, result: Option<seq<Post>>) returns (called: bool)
      modifies this
      ensures queryParam == QueryParam(q)
      ensures queryParam == [] ==> !called && query == old(query) && State() == old(State())
      ensures queryParam != [] ==> query == queryParam && State() == Search(old(State()), queryParam, result)
      ensures called <==> queryParam != [] && !IsBlank(queryParam)
      ensures pushedQuery == old(pushedQuery)
    {
      queryParam := QueryParam(q);
      called := false;
      if queryParam != [] {
        query := queryParam;
        called := PerformSearch(queryParam, result);
      }
    }
  }
}
