/**
 * The search view-model of movieSearch/MovieSearchViewReactor.swift: user
 * actions become ordered lists of mutations, and `reduce` folds each
 * mutation into the single observable state.
 *
 * The network-backed `search` is modelled by its own code (the empty-query
 * guard, the page arithmetic of the URL, the page mapping of a decoded
 * response and the collapse of every failure into the empty result) over a
 * `Backend` that stands for the percent-encoding library call and the HTTP
 * transport with its JSON decoder. Cancellation by a later `updateQuery`
 * (`takeUntil`) is a boolean input: it drops the search-derived mutation.
 */
module SearchReactor {
  import opened Wrappers
  import opened SearchModel
  import Decimal

  // ---------------------------------------------------------------- types

  datatype Action = UpdateQuery(query: Option<string>) | LoadNextPage

  datatype Mutation =
    | SetQuery(query: Option<string>)
    | SetMovies(movies: seq<Movie>, nextPage: Option<int>)
    | AppendMovies(movies: seq<Movie>, nextPage: Option<int>)
    | SetLoadingNextPage(isLoadingNextPage: bool)

  datatype State = State(
    query: Option<string>,
    movies: seq<Movie>,
    nextPage: Option<int>,
    isLoadingNextPage: bool)

  /** `MovieSearchViewReactor.State()`: the declared defaults. */
  const InitialState: State := State(None, [], None, false)

  /** The `takeUntil` filter: a later action cancels in-flight searches exactly when it is an `updateQuery`. */
  function IsUpdateQueryAction(action: Action): (r: bool)
    ensures r <==> exists q :: action == UpdateQuery(q)
    ensures action == LoadNextPage ==> !r
  {
    if action.UpdateQuery? then
      assert action == UpdateQuery(action.query);
      true
    else false
  }

  // --------------------------------------------------------------- reduce

  /** `reduce` as a function on values, the reference definition the lemmas fold with. */
  function NextState(state: State, mutation: Mutation): (r: State)
  {
    match mutation
    case SetQuery(q) => state.(query := q)
    case SetMovies(ms, np) => state.(movies := ms, nextPage := np)
    case AppendMovies(ms, np) => state.(movies := state.movies + ms, nextPage := np)
    case SetLoadingNextPage(b) => state.(isLoadingNextPage := b)
  }

  /** The state after applying `mutations` in order, starting from `state`. */
  function Fold(state: State, mutations: seq<Mutation>): (r: State)
    decreases |mutations|
  {
    if mutations == [] then state
    else NextState(Fold(state, mutations[..|mutations| - 1]), mutations[|mutations| - 1])
  }

  /** The states published one after another while `mutations` are reduced. */
  function Trace(state: State, mutations: seq<Mutation>): (r: seq<State>)
    ensures |r| == |mutations|
    ensures forall i :: 0 <= i < |r| ==> r[i] == Fold(state, mutations[..i + 1])
    decreases |mutations|
  {
    if mutations == [] then []
    else
      var init := mutations[..|mutations| - 1];
      forall i | 0 <= i < |init| ensures Trace(state, init)[i] == Fold(state, mutations[..i + 1]) {
        assert init[..i + 1] == mutations[..i + 1];
      }
      assert mutations[..|mutations|] == mutations;
      Trace(state, init) + [Fold(state, mutations)]
  }

  // --------------------------------------------------------------- search

  /** What `search` delivers: the movies of one page and the page to ask for next. */
  datatype PageResult = PageResult(movies: seq<Movie>, nextPage: Option<int>)

  /** `emptyResult`, the answer to an empty query and to every failure. */
  const EmptyResult: PageResult := PageResult([], None)

  /** The paging protocol: no next page exactly when the page is empty, otherwise the following page. */
  predicate FollowsPage(result: PageResult, page: int)
  {
    (result.nextPage == None <==> result.movies == [])
    && (result.nextPage.Some? ==> result.nextPage.value == page + 1)
  }

  /** The mapping of a decoded response for `page`: missing `items` is the empty result. */
  function PageOf(response: SearchResponse, page: int): (r: PageResult)
    ensures FollowsPage(r, page)
    ensures r.movies == if response.movies.Some? then response.movies.value else []
  {
    match response.movies
    case None => EmptyResult
    case Some(movies) => PageResult(movies, if movies == [] then None else Some(page + 1))
  }

  const BaseUrl: string := "https://openapi.naver.com/v1/search/movie.json?query="

  /** The 1-based index of the first result of a 0-based page of ten. */
  function StartIndex(page: int): (r: int)
  {
    page * 10 + 1
  }

  /** Pages of ten tile the results: page `k` starts at result `10k + 1` and the next page ten later. */
  lemma StartIndexOfPage(page: nat)
    ensures StartIndex(page) >= 1
    ensures (StartIndex(page) - 1) % 10 == 0 && (StartIndex(page) - 1) / 10 == page
    ensures StartIndex(page + 1) == StartIndex(page) + 10
  {
  }

  /**
   * `url(for:page:)`. `encode` stands for `addingPercentEncoding`, which may fail.
   * There is no trimming: only the absent and the empty query have no URL.
   */
  function Url(query: Option<string>, page: int, encode: string -> Option<string>): (r: Option<string>)
    ensures r.None? <==> query.None? || query.value == "" || encode(query.value).None?
    ensures r.Some? ==>
      var prefix := BaseUrl + encode(query.value).value + "&start=";
      prefix <= r.value && Decimal.ParseInt(r.value[|prefix|..]) == Some(StartIndex(page))
  {
    match query
    case None => None
    case Some(q) =>
      if q == "" then None
      else
        match encode(q)
        case None => None
        case Some(encoded) =>
          var prefix := BaseUrl + encoded + "&start=";
          var url := prefix + Decimal.IntToString(StartIndex(page));
          Decimal.ParseIntToString(StartIndex(page));
          assert url[|prefix|..] == Decimal.IntToString(StartIndex(page));
          Some(url)
  }

  /** Different pages of one query are different requests: the URL determines the page. */
  lemma UrlDeterminesPage(query: Option<string>, page1: int, page2: int, encode: string -> Option<string>)
    requires Url(query, page1, encode).Some?
    requires Url(query, page1, encode) == Url(query, page2, encode)
    ensures page1 == page2
  {
    var prefix := BaseUrl + encode(query.value).value + "&start=";
    var url := Url(query, page1, encode).value;
    assert Some(StartIndex(page1)) == Decimal.ParseInt(url[|prefix|..]) == Some(StartIndex(page2));
  }

  /** What the transport and decoder deliver; `Failed` is every error `catchErrorJustReturn` swallows. */
  datatype Reply = Failed | Decoded(response: SearchResponse)

  /** The foreign collaborators of `search`: percent-encoding and the HTTP GET with JSON decoding. */
  datatype Backend = Backend(encode: string -> Option<string>, fetch: string -> Reply)

  /** `search(query:page:)`, total: every failure is the empty result. */
  function Search(query: Option<string>, page: int, backend: Backend): (r: PageResult)
    ensures FollowsPage(r, page)
    ensures Url(query, page, backend.encode).None? ==> r == EmptyResult
    ensures r.movies != [] ==> Url(query, page, backend.encode).Some?
  {
    match Url(query, page, backend.encode)
    case None => EmptyResult
    case Some(url) =>
      match backend.fetch(url)
      case Failed => EmptyResult
      case Decoded(response) => PageOf(response, page)
  }

  /** An absent or empty query is answered without a request: whatever the backend, the result is empty. */
  lemma SearchWithoutQuery(query: Option<string>, page: int, backend1: Backend, backend2: Backend)
    requires query.None? || query.value == ""
    ensures Url(query, page, backend1.encode) == None
    ensures Search(query, page, backend1) == Search(query, page, backend2) == EmptyResult
  {
  }

  /** A failed request degrades to the empty result. */
  lemma SearchFailureIsEmpty(query: Option<string>, page: int, backend: Backend)
    requires Url(query, page, backend.encode).Some?
    requires backend.fetch(Url(query, page, backend.encode).value) == Failed
    ensures Search(query, page, backend) == EmptyResult
  {
  }

  /** A decoded reply goes through the page mapping: the server's items, paged from the requested page. */
  lemma SearchDecoded(query: Option<string>, page: int, backend: Backend, response: SearchResponse)
    requires Url(query, page, backend.encode).Some?
    requires backend.fetch(Url(query, page, backend.encode).value) == Decoded(response)
    ensures Search(query, page, backend) == PageOf(response, page)
    ensures Search(query, page, backend).movies == if response.movies.Some? then response.movies.value else []
  {
  }

  // --------------------------------------------------------------- mutate

  /**
   * `mutate(action:)` for the state current when the action arrives.
   * `cancelled` says that a later `updateQuery` ended the search sub-stream
   * before it delivered; `takeUntil` then completes, so `concat` still
   * emits what follows the search.
   */
  function Mutate(state: State, action: Action, backend: Backend, cancelled: bool): (r: seq<Mutation>)
    ensures action.UpdateQuery? ==>
      |r| >= 1 && r[0] == SetQuery(action.query) && forall i :: 1 <= i < |r| ==> r[i].SetMovies?
    ensures action.LoadNextPage? ==> (r == [] <==> state.isLoadingNextPage || state.nextPage.None?)
    ensures action.LoadNextPage? && r != [] ==>
      |r| >= 2 && r[0] == SetLoadingNextPage(true) && r[|r| - 1] == SetLoadingNextPage(false)
      && forall i :: 0 < i < |r| - 1 ==> r[i].AppendMovies?
    ensures cancelled ==> forall i :: 0 <= i < |r| ==> !r[i].SetMovies? && !r[i].AppendMovies?
  {
    match action
    case UpdateQuery(query) =>
      var found := Search(query, 0, backend);
      [SetQuery(query)] + (if cancelled then [] else [SetMovies(found.movies, found.nextPage)])
    case LoadNextPage =>
      if state.isLoadingNextPage then []
      else if state.nextPage.None? then []
      else
        var found := Search(state.query, state.nextPage.value, backend);
        [SetLoadingNextPage(true)]
        + (if cancelled then [] else [AppendMovies(found.movies, found.nextPage)])
        + [SetLoadingNextPage(false)]
  }

  /** The mutations of a search-derived kind, which cancellation removes. */
  predicate IsSearchResult(mutation: Mutation)
  {
    mutation.SetMovies? || mutation.AppendMovies?
  }

  function WithoutSearchResults(mutations: seq<Mutation>): (r: seq<Mutation>)
    decreases |mutations|
  {
    if mutations == [] then []
    else (if IsSearchResult(mutations[0]) then [] else [mutations[0]]) + WithoutSearchResults(mutations[1..])
  }

  /** The full state transition of one action: its mutations folded into the state it was read from. */
  function Step(state: State, action: Action, backend: Backend, cancelled: bool): (r: State)
  {
    Fold(state, Mutate(state, action, backend, cancelled))
  }

  // ------------------------------------------------------ mutate, exactly

  lemma LoadNextPageMutations(state: State, backend: Backend, cancelled: bool)
    requires !state.isLoadingNextPage && state.nextPage.Some?
    ensures var found := Search(state.query, state.nextPage.value, backend);
      Mutate(state, LoadNextPage, backend, cancelled)
        == if cancelled then [SetLoadingNextPage(true), SetLoadingNextPage(false)]
           else [SetLoadingNextPage(true), AppendMovies(found.movies, found.nextPage), SetLoadingNextPage(false)]
  {
  }

  /** Cancelling an action removes its search-derived mutation and nothing else. */
  lemma CancelDropsOnlySearchResult(state: State, action: Action, backend: Backend)
    ensures Mutate(state, action, backend, true) == WithoutSearchResults(Mutate(state, action, backend, false))
  {
    var ms := Mutate(state, action, backend, false);
    if action.UpdateQuery? {
      assert ms[1..][1..] == [];
      assert WithoutSearchResults(ms[1..]) == [];
    } else if ms != [] {
      assert ms[1..][1..][1..] == [];
      assert WithoutSearchResults(ms[1..][1..]) == ms[1..][1..];
      assert WithoutSearchResults(ms[1..]) == ms[1..][1..];
    }
  }

  // --------------------------------------------------------- reduce, folded

  /** `updateQuery(q)` sets the query and replaces list and next page by page 0; the loading flag is left alone. */
  lemma StepUpdateQuery(state: State, query: Option<string>, backend: Backend, cancelled: bool)
    ensures var found := Search(query, 0, backend);
      var next := Step(state, UpdateQuery(query), backend, cancelled);
      && next.query == query
      && next.isLoadingNextPage == state.isLoadingNextPage
      && (if cancelled then next.movies == state.movies && next.nextPage == state.nextPage
          else next.movies == found.movies && next.nextPage == found.nextPage)
  {
    var ms := Mutate(state, UpdateQuery(query), backend, cancelled);
    assert Fold(state, ms[..1]) == NextState(state, SetQuery(query)) by {
      assert ms[..1][..0] == [];
    }
    if !cancelled {
      assert ms[..|ms| - 1] == ms[..1];
    } else {
      assert ms == ms[..1];
    }
  }

  /** loadNextPage while a page is loading, or with no next page, changes nothing. */
  lemma LoadNextPageGuard(state: State, backend: Backend, cancelled: bool)
    requires state.isLoadingNextPage || state.nextPage.None?
    ensures Mutate(state, LoadNextPage, backend, cancelled) == []
    ensures Step(state, LoadNextPage, backend, cancelled) == state
  {
  }

  /**
   * loadNextPage from a non-loading state with a next page appends that page
   * after the list, moves the next page on, and ends non-loading; cancelled,
   * it changes nothing.
   */
  lemma StepLoadNextPage(state: State, backend: Backend, cancelled: bool)
    requires !state.isLoadingNextPage && state.nextPage.Some?
    ensures var found := Search(state.query, state.nextPage.value, backend);
      var next := Step(state, LoadNextPage, backend, cancelled);
      && next.query == state.query
      && !next.isLoadingNextPage
      && (if cancelled then next == state
          else && next.movies == state.movies + found.movies
               && state.movies <= next.movies
               && |next.movies| == |state.movies| + |found.movies|
               && next.nextPage == found.nextPage)
  {
    var ms := Mutate(state, LoadNextPage, backend, cancelled);
    LoadNextPageMutations(state, backend, cancelled);
    var found := Search(state.query, state.nextPage.value, backend);
    var loading := state.(isLoadingNextPage := true);
    assert Fold(state, ms[..1]) == loading by {
      assert ms[..1][..0] == [];
    }
    if cancelled {
      assert ms[..|ms| - 1] == ms[..1];
      assert Fold(state, ms) == loading.(isLoadingNextPage := false);
    } else {
      var appended := loading.(movies := state.movies + found.movies, nextPage := found.nextPage);
      assert Fold(state, ms[..2]) == appended by {
        assert ms[..2][..1] == ms[..1];
      }
      assert ms[..|ms| - 1] == ms[..2];
      assert Fold(state, ms) == appended.(isLoadingNextPage := false);
    }
  }

  /** The published states of a loadNextPage show the loading flag up until the last one. */
  lemma LoadNextPageTrace(state: State, backend: Backend, cancelled: bool)
    requires !state.isLoadingNextPage && state.nextPage.Some?
    ensures var states := Trace(state, Mutate(state, LoadNextPage, backend, cancelled));
      && |states| == (if cancelled then 2 else 3)
      && (forall i :: 0 <= i < |states| - 1 ==> states[i].isLoadingNextPage)
      && !states[|states| - 1].isLoadingNextPage
  {
    var ms := Mutate(state, LoadNextPage, backend, cancelled);
    var states := Trace(state, ms);
    LoadNextPageMutations(state, backend, cancelled);
    assert ms[..1][..0] == [];
    assert states[0].isLoadingNextPage;
    if !cancelled {
      assert ms[..2][..1] == ms[..1];
      assert states[1].isLoadingNextPage;
    }
    assert ms[..|ms|] == ms;
  }

  /**
   * A repeated `updateQuery(q)` against the same backend ends where a single
   * one does, also when the second cancels the first one's search.
   */
  lemma UpdateQueryIdempotent(state: State, query: Option<string>, backend: Backend, cancelled: bool)
    ensures var first := Step(state, UpdateQuery(query), backend, cancelled);
      Step(first, UpdateQuery(query), backend, false) == Step(state, UpdateQuery(query), backend, false)
  {
    var first := Step(state, UpdateQuery(query), backend, cancelled);
    StepUpdateQuery(state, query, backend, cancelled);
    StepUpdateQuery(state, query, backend, false);
    StepUpdateQuery(first, query, backend, false);
  }

  // --------------------------------------------------------------- invariant

  /**
   * What holds between actions: no page is loading, and a next page, when
   * known, is a later page of a non-empty list (so an empty list has no next page).
   */
  predicate Consistent(state: State)
  {
    && !state.isLoadingNextPage
    && (state.nextPage.Some? ==> state.nextPage.value >= 1 && state.movies != [])
  }

  lemma InitialStateConsistent()
    ensures Consistent(InitialState)
    ensures InitialState.query == None && InitialState.movies == []
    ensures InitialState.nextPage == None && !InitialState.isLoadingNextPage
  {
  }

  /** Every action, cancelled or not and whatever the backend answers, keeps the state consistent. */
  lemma StepPreservesConsistent(state: State, action: Action, backend: Backend, cancelled: bool)
    requires Consistent(state)
    ensures Consistent(Step(state, action, backend, cancelled))
  {
    match action
    case UpdateQuery(query) =>
      StepUpdateQuery(state, query, backend, cancelled);
    case LoadNextPage =>
      if state.isLoadingNextPage || state.nextPage.None? {
        LoadNextPageGuard(state, backend, cancelled);
      } else {
        StepLoadNextPage(state, backend, cancelled);
      }
  }

  // ---------------------------------------------------------------- reactor

  /** The reactor object: it owns the current state and reduces every mutation of every action into it. */
  class MovieSearchViewReactor {
    var currentState: State

    ghost predicate Valid()
      reads this
    {
      Consistent(currentState)
    }

    constructor()
      ensures currentState == InitialState
      ensures currentState.query == None && currentState.movies == []
      ensures currentState.nextPage == None && !currentState.isLoadingNextPage
      ensures Valid()
    {
      currentState := InitialState;
    }

    /** `reduce(state:mutation:)`: copy the state, then assign the fields the mutation names. */
    method Reduce(state: State, mutation: Mutation) returns (newState: State)
      ensures newState == NextState(state, mutation)
      ensures mutation.SetQuery? ==>
        && newState.query == mutation.query
        && newState.movies == state.movies && newState.nextPage == state.nextPage
        && newState.isLoadingNextPage == state.isLoadingNextPage
      ensures mutation.SetMovies? ==>
        && newState.movies == mutation.movies && newState.nextPage == mutation.nextPage
        && newState.query == state.query && newState.isLoadingNextPage == state.isLoadingNextPage
      ensures mutation.AppendMovies? ==>
        && newState.movies == state.movies + mutation.movies
        && state.movies <= newState.movies
        && |newState.movies| == |state.movies| + |mutation.movies|
        && newState.nextPage == mutation.nextPage
        && newState.query == state.query && newState.isLoadingNextPage == state.isLoadingNextPage
      ensures mutation.SetLoadingNextPage? ==>
        && newState.isLoadingNextPage == mutation.isLoadingNextPage
        && newState.query == state.query && newState.movies == state.movies
        && newState.nextPage == state.nextPage
    {
      newState := state;
      match mutation {
        case SetQuery(query) =>
          newState := newState.(query := query);
        case SetMovies(movies, nextPage) =>
          newState := newState.(movies := movies);
          newState := newState.(nextPage := nextPage);
        case AppendMovies(movies, nextPage) =>
          newState := newState.(movies := newState.movies + movies);
          newState := newState.(nextPage := nextPage);
        case SetLoadingNextPage(isLoadingNextPage) =>
          newState := newState.(isLoadingNextPage := isLoadingNextPage);
      }
    }

    /**
     * One action end to end: its mutations, computed from the current state,
     * are reduced into the current state one after another.
     */
    method Dispatch(action: Action, backend: Backend, cancelled: bool)
      requires Valid()
      modifies this
      ensures Valid()
      ensures currentState == Step(old(currentState), action, backend, cancelled)
    {
      ghost var start := currentState;
      var mutations := Mutate(currentState, action, backend, cancelled);
      for i := 0 to |mutations|
        invariant currentState == Fold(start, mutations[..i])
      {
        currentState := Reduce(currentState, mutations[i]);
        assert mutations[..i + 1][..i] == mutations[..i];
      }
      assert mutations[..|mutations|] == mutations;
      StepPreservesConsistent(start, action, backend, cancelled);
    }
  }
}
