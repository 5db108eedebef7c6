/** The site header: its `{connected, loading}` auth record (fed by an
    articles fetch followed by a userinfo GET), the search form's state and the
    search URL it builds, the mobile-menu flag, and the logout handler. */
module Header {
  import opened Wrappers
  import opened TokenStore
  import opened HttpClient
  import opened FormUrlEncoding
  import Slices
  import SessionProbe

  datatype AuthState = AuthState(connected: bool, loading: bool)

  const ArticlesPath := "articles/articles/"
  const SearchPrefix := "articles/articles/?"

  function AuthInitial(): (s: AuthState)
    ensures !s.connected && s.loading
  {
    AuthState(false, true)
  }

  /** What one run of the header's auth check leaves behind. */
  datatype AuthCheck<D> = AuthCheck(
    auth: AuthState,
    store: Store,
    root: Slices.RootState<D>,
    sent: seq<Request>)

  /** `checkAuthStatus` of the header: GET the article list (its body `data` is
      dispatched to the article slice), then GET userinfo; `connected` is whether
      that second answer is 200. Any failure, the first included, gives
      `{connected: false, loading: false}` and skips what follows. */
  function CheckAuth<D>(store: Store, root: Slices.RootState<D>, articlesRaw: Raw, data: D, userRaw: Raw)
    : (r: AuthCheck<D>)
    ensures !r.auth.loading
    ensures r.auth.connected <==>
              articlesRaw.Response? && 200 <= articlesRaw.status < 300 && userRaw == Response(200)
    ensures Settle(articlesRaw).Err? ==> |r.sent| == 1 && r.root == root
    ensures Settle(articlesRaw).Ok? ==>
              |r.sent| == 2 && r.sent[1].url == SessionProbe.UserInfoPath && r.sent[1].verb == Get
              && r.root.article.article == Some(Slices.ResultSearch(data))
    ensures r.sent[0].url == ArticlesPath && r.sent[0].verb == Get
  {
    var first := Send(ServicesClient, store, Get, ArticlesPath, articlesRaw);
    if first.outcome.Err? then
      AuthCheck(AuthState(false, false), first.store, root, [first.sent])
    else
      var root' := Slices.Dispatch(root, Slices.ResultSearch(data));
      var second := Send(ServicesClient, first.store, Get, SessionProbe.UserInfoPath, userRaw);
      match second.outcome
      case Ok(status) => AuthCheck(AuthState(status == 200, false), second.store, root', [first.sent, second.sent])
      case Err(_) => AuthCheck(AuthState(false, false), second.store, root', [first.sent, second.sent])
  }

  /** The header's tag and category lists: both GETs must succeed for either list
      to change (`Promise.all`); on any failure both keep what they held. */
  datatype Lists<T> = Lists(tags: seq<T>, categories: seq<T>)

  function FetchTagsAndCategories<T>(l: Lists<T>, tagsRaw: Raw, tagsData: seq<T>,
                                     categoriesRaw: Raw, categoriesData: seq<T>): (r: Lists<T>)
    ensures Settle(tagsRaw).Ok? && Settle(categoriesRaw).Ok? ==> r == Lists(tagsData, categoriesData)
    ensures Settle(tagsRaw).Err? || Settle(categoriesRaw).Err? ==> r == l
  {
    if Settle(tagsRaw).Ok? && Settle(categoriesRaw).Ok? then Lists(tagsData, categoriesData) else l
  }

  /** Loading the lists twice with the same answers leaves what one load left. */
  lemma FetchListsIdempotent<T>(l: Lists<T>, tagsRaw: Raw, tagsData: seq<T>,
                                categoriesRaw: Raw, categoriesData: seq<T>)
    ensures var once := FetchTagsAndCategories(l, tagsRaw, tagsData, categoriesRaw, categoriesData);
            FetchTagsAndCategories(once, tagsRaw, tagsData, categoriesRaw, categoriesData) == once
  {
  }

  /** A failed reload keeps the lists an earlier successful load brought in. */
  lemma FailedReloadKeepsLists<T>(l: Lists<T>, tagsRaw: Raw, tagsData: seq<T>,
                                  categoriesRaw: Raw, categoriesData: seq<T>,
                                  tagsRaw2: Raw, tagsData2: seq<T>,
                                  categoriesRaw2: Raw, categoriesData2: seq<T>)
    requires Settle(tagsRaw).Ok? && Settle(categoriesRaw).Ok?
    requires Settle(tagsRaw2).Err? || Settle(categoriesRaw2).Err?
    ensures var once := FetchTagsAndCategories(l, tagsRaw, tagsData, categoriesRaw, categoriesData);
            FetchTagsAndCategories(once, tagsRaw2, tagsData2, categoriesRaw2, categoriesData2)
              == Lists(tagsData, categoriesData)
  {
  }

  /** The navigation links for a connected and for an anonymous visitor. */
  datatype Link = Link(to: string) | SignOut

  function NavLinks(connected: bool): (links: seq<Link>)
    ensures |links| == if connected then 4 else 3
    ensures links[0] == Link("/")
    ensures SignOut in links <==> connected
    ensures Link("/create-article") in links <==> connected
    ensures Link("/signin") in links <==> !connected
    ensures Link("/profile") in links <==> connected
    ensures Link("/signup") in links <==> !connected
    ensures connected ==> links[1] == Link("/create-article") && links[2] == Link("/profile") && links[3] == SignOut
    ensures !connected ==> links[1] == Link("/signin") && links[2] == Link("/signup")
  {
    if connected then [Link("/"), Link("/create-article"), Link("/profile"), SignOut]
    else [Link("/"), Link("/signin"), Link("/signup")]
  }

  // ----------------------------------------------------------------- search

  datatype SearchField = SearchTerm | SelectedTag | SelectedCategory

  datatype SearchState = SearchState(searchTerm: string, selectedTag: string, selectedCategory: string)

  function SearchInitial(): SearchState {
    SearchState("", "", "")
  }

  function FieldOf(s: SearchState, f: SearchField): string {
    match f
    case SearchTerm => s.searchTerm
    case SelectedTag => s.selectedTag
    case SelectedCategory => s.selectedCategory
  }

  /** `handleSearchInputChange`: the input named `f` takes the new value. */
  function InputChange(s: SearchState, f: SearchField, value: string): (r: SearchState)
    ensures FieldOf(r, f) == value
    ensures forall g :: g != f ==> FieldOf(r, g) == FieldOf(s, g)
  {
    match f
    case SearchTerm => s.(searchTerm := value)
    case SelectedTag => s.(selectedTag := value)
    case SelectedCategory => s.(selectedCategory := value)
  }

  /** The query parameters, appended in the order category, keyword, tags, each
      only when its field is non-empty. */
  function SearchParams(s: SearchState): seq<Pair> {
    (if s.selectedCategory != "" then [("category", s.selectedCategory)] else [])
    + (if s.searchTerm != "" then [("keyword", s.searchTerm)] else [])
    + (if s.selectedTag != "" then [("tags", s.selectedTag)] else [])
  }

  /** The relative URL `handleSearch` requests. */
  function SearchUrl(s: SearchState): (url: string)
    ensures |url| >= |SearchPrefix| && url[..|SearchPrefix|] == SearchPrefix
    ensures ParseQuery(url[|SearchPrefix|..]) == Some(SearchParams(s))
  {
    var url := SearchPrefix + Serialize(SearchParams(s));
    assert url[|SearchPrefix|..] == Serialize(SearchParams(s));
    SerializeRoundTrip(SearchParams(s));
    url
  }

  /** The value the first pair called `name` carries, as a server reading the
      query would see it. */
  function Value(ps: seq<Pair>, name: string): Option<string>
    decreases |ps|
  {
    if ps == [] then None
    else if ps[0].0 == name then Some(ps[0].1)
    else Value(ps[1..], name)
  }

  /** The query names exactly the non-empty fields, each with its value, and
      names nothing else. */
  lemma SearchParamsShape(s: SearchState)
    ensures |SearchParams(s)| <= 3
    ensures Value(SearchParams(s), "category") == (if s.selectedCategory != "" then Some(s.selectedCategory) else None)
    ensures Value(SearchParams(s), "keyword") == (if s.searchTerm != "" then Some(s.searchTerm) else None)
    ensures Value(SearchParams(s), "tags") == (if s.selectedTag != "" then Some(s.selectedTag) else None)
    ensures forall k :: 0 <= k < |SearchParams(s)| ==> SearchParams(s)[k].0 in ["category", "keyword", "tags"]
    ensures forall i, j :: 0 <= i < j < |SearchParams(s)| ==> SearchParams(s)[i].0 != SearchParams(s)[j].0
  {
    var ps := SearchParams(s);
    var c := if s.selectedCategory != "" then [("category", s.selectedCategory)] else [];
    var k := if s.searchTerm != "" then [("keyword", s.searchTerm)] else [];
    var t := if s.selectedTag != "" then [("tags", s.selectedTag)] else [];
    assert ps == c + (k + t);
    ValueAppend(c, k + t, "category");
    ValueAppend(c, k + t, "keyword");
    ValueAppend(c, k + t, "tags");
    ValueAppend(k, t, "category");
    ValueAppend(k, t, "keyword");
    ValueAppend(k, t, "tags");
  }

  /** Looking a name up in a concatenation looks in the left part first. */
  lemma {:induction false} ValueAppend(a: seq<Pair>, b: seq<Pair>, name: string)
    ensures Value(a + b, name) == if Value(a, name).Some? then Value(a, name) else Value(b, name)
    decreases |a|
  {
    if a == [] {
      assert a + b == b;
    } else {
      assert (a + b)[1..] == a[1..] + b;
      ValueAppend(a[1..], b, name);
    }
  }

  /** The empty search form asks for every article: the bare prefix. */
  lemma EmptySearchUrl()
    ensures SearchUrl(SearchInitial()) == SearchPrefix
  {
  }

  /** What one `handleSearch` does: the actions it dispatches, in order, the
      request it sends, and where it navigates. */
  datatype SearchRun<D> = SearchRun(
    dispatched: seq<Slices.Action<D>>,
    sent: Request,
    store: Store,
    navigateTo: Option<string>,
    root: Slices.RootState<D>)

  const HomePath := "/"

  function HandleSearch<D>(store: Store, root: Slices.RootState<D>, s: SearchState, raw: Raw, data: D)
    : (r: SearchRun<D>)
    ensures |r.dispatched| >= 2
    ensures r.dispatched[0] == Slices.HomeLoading(true)
    ensures r.dispatched[|r.dispatched| - 1] == Slices.HomeLoading(false)
    ensures r.sent.verb == Get && r.sent.url == SearchUrl(s)
    ensures Settle(raw).Ok? ==> r.navigateTo == Some(HomePath)
    ensures Settle(raw).Err? ==> r.navigateTo == None
    ensures raw != Response(401) ==> r.store == store
  {
    var e := Send(ServicesClient, store, Get, SearchUrl(s), raw);
    var acts := if e.outcome.Ok? then [Slices.HomeLoading(true), Slices.ResultSearch(data), Slices.HomeLoading(false)]
                else [Slices.HomeLoading(true), Slices.HomeLoading(false)];
    SearchRun(acts, e.sent, e.store, if e.outcome.Ok? then Some(HomePath) else None, Slices.DispatchAll(root, acts))
  }

  /** A successful search leaves its result in the store; a failed one leaves
      the store as it was. */
  lemma SearchStoresResult<D>(store: Store, root: Slices.RootState<D>, s: SearchState, raw: Raw, data: D)
    ensures var r := HandleSearch(store, root, s, raw, data);
            (Settle(raw).Ok? ==> r.root.article.article == Some(Slices.ResultSearch(data)))
            && (Settle(raw).Err? ==> r.root == root)
  {
    var e := Send(ServicesClient, store, Get, SearchUrl(s), raw);
    if e.outcome.Ok? {
      var acts := [Slices.HomeLoading(true), Slices.ResultSearch(data), Slices.HomeLoading(false)];
      assert acts == [Slices.HomeLoading(true)] + [Slices.ResultSearch(data)] + [Slices.HomeLoading(false)];
      Slices.StoreKeepsLastSearch(root, [Slices.HomeLoading(true)], data, [Slices.HomeLoading(false)]);
    } else {
      Slices.LoadingOnlyRun(root, [Slices.HomeLoading(true), Slices.HomeLoading(false)]);
    }
  }

  /** Whatever the search's outcome, the loading reducer ends at `false`. */
  lemma SearchEndsNotLoading<D>(store: Store, root: Slices.RootState<D>, s: SearchState, raw: Raw, data: D,
                                l: Slices.LoadingState)
    ensures !Slices.ReduceLoading(l, HandleSearch(store, root, s, raw, data).dispatched).isLoading
  {
    var acts := HandleSearch(store, root, s, raw, data).dispatched;
    assert acts == acts[..|acts| - 1] + [Slices.HomeLoading(false)];
    Slices.LastLoadingWins(l, acts[..|acts| - 1], false);
  }

  // ------------------------------------------------------------ menu, logout

  /** `toggleMenu`. */
  function ToggleMenu(open: bool): (r: bool)
    ensures r != open
  {
    !open
  }

  lemma ToggleTwice(open: bool)
    ensures ToggleMenu(ToggleMenu(open)) == open
  {
  }

  /** The logout handler: forget the access token and the cached user; the refresh
      token and every other key stay. */
  function Logout(store: Store): (r: Store)
    ensures AuthToken !in r && UserKey !in r
    ensures RefreshToken in store ==> RefreshToken in r && r[RefreshToken] == store[RefreshToken]
    ensures forall k :: k != AuthToken && k != UserKey ==> GetItem(r, k) == GetItem(store, k)
  {
    RemoveItem(RemoveItem(store, AuthToken), UserKey)
  }

  /** After logout the request interceptor attaches no credential. */
  lemma LogoutSendsNoCredential(store: Store, m: Method, url: string)
    ensures Authorize(Logout(store), Config(ServicesClient, m, url)).headers == JsonHeaders
  {
  }

  /** The header offers "SignOut" exactly when the articles GET succeeded and
      userinfo then answered 200; otherwise it offers "Sign In" instead. */
  lemma SignOutOfferedIff<D>(store: Store, root: Slices.RootState<D>, articlesRaw: Raw, data: D, userRaw: Raw)
    ensures var links := NavLinks(CheckAuth(store, root, articlesRaw, data, userRaw).auth.connected);
            (SignOut in links <==> articlesRaw.Response? && 200 <= articlesRaw.status < 300 && userRaw == Response(200))
            && (Link("/signin") in links <==> !(articlesRaw.Response? && 200 <= articlesRaw.status < 300 && userRaw == Response(200)))
  {
  }
}
