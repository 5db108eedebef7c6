/** The two Redux Toolkit slices and the configured store. `homeLoading`
    stores its payload; `resultShertchArticle` stores the whole action object
    (type and payload), not the payload. The store registers only the article
    slice, so loading actions reach no reducer that handles them. */
module Slices {
  import opened Wrappers

  const HomeLoadingType := "loading/homeLoading"
  const ResultSearchType := "article/resultShertchArticle"

  /** The action objects the two action creators build; `D` is the response body
      the header passes along. */
  datatype Action<D> = HomeLoading(flag: bool) | ResultSearch(data: D)

  function TypeOf<D>(a: Action<D>): string {
    match a
    case HomeLoading(_) => HomeLoadingType
    case ResultSearch(_) => ResultSearchType
  }

  datatype LoadingState = LoadingState(isLoading: bool)

  datatype ArticleState<D> = ArticleState(article: Option<Action<D>>)

  /** The configured store: one key, `article`. */
  datatype RootState<D> = RootState(article: ArticleState<D>)

  function LoadingInitial(): (s: LoadingState)
    ensures !s.isLoading
  {
    LoadingState(false)
  }

  function ArticleInitial<D>(): (s: ArticleState<D>)
    ensures s.article.None?
  {
    ArticleState(None)
  }

  /** The loading slice's reducer: `homeLoading` sets the flag to its payload;
      actions of other types leave the state as it is. */
  function LoadingReducer<D>(s: LoadingState, a: Action<D>): (r: LoadingState)
    ensures a.HomeLoading? ==> r.isLoading == a.flag
    ensures !a.HomeLoading? ==> r == s
  {
    match a
    case HomeLoading(f) => LoadingState(f)
    case ResultSearch(_) => s
  }

  /** The article slice's reducer: `resultShertchArticle` stores the action itself. */
  function ArticleReducer<D>(s: ArticleState<D>, a: Action<D>): (r: ArticleState<D>)
    ensures a.ResultSearch? ==> r.article == Some(a)
    ensures a.ResultSearch? ==> TypeOf(r.article.value) == ResultSearchType && r.article.value.data == a.data
    ensures !a.ResultSearch? ==> r == s
  {
    match a
    case ResultSearch(_) => ArticleState(Some(a))
    case HomeLoading(_) => s
  }

  /** `store.dispatch`: every registered reducer sees the action. */
  function Dispatch<D>(root: RootState<D>, a: Action<D>): (r: RootState<D>)
    ensures a.HomeLoading? ==> r == root
    ensures a.ResultSearch? ==> r.article.article == Some(a)
  {
    RootState(ArticleReducer(root.article, a))
  }

  function DispatchAll<D>(root: RootState<D>, actions: seq<Action<D>>): RootState<D>
    decreases |actions|
  {
    if actions == [] then root else DispatchAll(Dispatch(root, actions[0]), actions[1..])
  }

  function ReduceLoading<D>(s: LoadingState, actions: seq<Action<D>>): LoadingState
    decreases |actions|
  {
    if actions == [] then s else ReduceLoading(LoadingReducer(s, actions[0]), actions[1..])
  }

  /** Applying the same `homeLoading` action twice is applying it once. */
  lemma HomeLoadingIdempotent<D>(s: LoadingState, a: Action<D>)
    ensures LoadingReducer(LoadingReducer(s, a), a) == LoadingReducer(s, a)
  {
  }

  /** Last write wins: after two searches the slice holds the second action. */
  lemma LastSearchWins<D>(s: ArticleState<D>, d1: D, d2: D)
    ensures ArticleReducer(ArticleReducer(s, ResultSearch(d1)), ResultSearch(d2)).article
            == Some(ResultSearch(d2))
  {
  }

  /** The loading state after a run of actions is decided by the last
      `homeLoading` in it; with none it is unchanged. */
  lemma {:induction false} LastLoadingWins<D>(s: LoadingState, actions: seq<Action<D>>, f: bool)
    ensures ReduceLoading(s, actions + [HomeLoading(f)]).isLoading == f
    decreases |actions|
  {
    if actions != [] {
      assert (actions + [HomeLoading(f)])[1..] == actions[1..] + [HomeLoading(f)];
      LastLoadingWins(LoadingReducer(s, actions[0]), actions[1..], f);
    }
  }

  /** Because the store holds only the article slice, a run of actions leaves it
      as the last `resultShertchArticle` in the run left it. */
  lemma {:induction false} StoreKeepsLastSearch<D>(root: RootState<D>, actions: seq<Action<D>>, d: D, tail: seq<Action<D>>)
    requires forall k :: 0 <= k < |tail| ==> tail[k].HomeLoading?
    ensures DispatchAll(root, actions + [ResultSearch(d)] + tail).article.article == Some(ResultSearch(d))
    decreases |actions|
  {
    if actions != [] {
      assert (actions + [ResultSearch(d)] + tail)[1..] == actions[1..] + [ResultSearch(d)] + tail;
      StoreKeepsLastSearch(Dispatch(root, actions[0]), actions[1..], d, tail);
    } else {
      assert ([] + [ResultSearch(d)] + tail) == [ResultSearch(d)] + tail;
      LoadingOnlyRun(Dispatch(root, ResultSearch(d)), tail);
    }
  }

  lemma {:induction false} LoadingOnlyRun<D>(root: RootState<D>, tail: seq<Action<D>>)
    requires forall k :: 0 <= k < |tail| ==> tail[k].HomeLoading?
    ensures DispatchAll(root, tail) == root
    decreases |tail|
  {
    if tail != [] {
      LoadingOnlyRun(Dispatch(root, tail[0]), tail[1..]);
    }
  }
}
