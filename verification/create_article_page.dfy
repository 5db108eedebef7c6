/** The article-creation page: the form record, the tag toggles, adding a new
    tag locally, loading the category and tag lists, and submitting. */
module CreateArticlePage {
  import opened Wrappers
  import opened Text
  import opened TokenStore
  import opened HttpClient

  const CategoriesPath := "articles/categories/"
  const TagsPath := "articles/tags/"
  const ManagerPath := "articles/article-manager/"
  const LoadFailed := "Failed to load categories and tags. Please try again."
  const CreateFailed := "Failed to create article. Please try again."

  /** A category or tag as the list endpoints return it. */
  datatype Named = Named(id: int, name: string)

  datatype Form = Form(title: string, body: string, category: string, tags: seq<int>, language: string)

  datatype Page = Page(
    form: Form,
    categories: seq<Named>,
    availableTags: seq<Named>,
    newTag: string,
    error: string)

  function Initial(): (p: Page)
    ensures p.form.title == "" && p.form.body == "" && p.form.category == ""
    ensures p.form.tags == [] && p.form.language == "en"
    ensures p.categories == [] && p.availableTags == [] && p.newTag == "" && p.error == ""
  {
    Page(Form("", "", "", [], "en"), [], [], "", "")
  }

  /** The mount effect: both lists load together; if either request fails the
      page switches to its error text and keeps the lists it had. */
  function FetchData(p: Page, categoriesRaw: Raw, categories: seq<Named>, tagsRaw: Raw, tags: seq<Named>)
    : (r: Page)
    ensures Settle(categoriesRaw).Ok? && Settle(tagsRaw).Ok? ==>
              r == p.(categories := categories, availableTags := tags)
    ensures Settle(categoriesRaw).Err? || Settle(tagsRaw).Err? ==> r == p.(error := LoadFailed)
  {
    if Settle(categoriesRaw).Ok? && Settle(tagsRaw).Ok? then p.(categories := categories, availableTags := tags)
    else p.(error := LoadFailed)
  }

  /** Loading twice with the same answers leaves what one load left. */
  lemma FetchDataIdempotent(p: Page, categoriesRaw: Raw, categories: seq<Named>, tagsRaw: Raw, tags: seq<Named>)
    ensures var once := FetchData(p, categoriesRaw, categories, tagsRaw, tags);
            FetchData(once, categoriesRaw, categories, tagsRaw, tags) == once
  {
  }

  /** A failed reload shows the error text but keeps the lists an earlier
      successful load brought in. */
  lemma FailedReloadKeepsLists(p: Page, categoriesRaw: Raw, categories: seq<Named>, tagsRaw: Raw, tags: seq<Named>,
                               categoriesRaw2: Raw, categories2: seq<Named>, tagsRaw2: Raw, tags2: seq<Named>)
    requires Settle(categoriesRaw).Ok? && Settle(tagsRaw).Ok?
    requires Settle(categoriesRaw2).Err? || Settle(tagsRaw2).Err?
    ensures var r := FetchData(FetchData(p, categoriesRaw, categories, tagsRaw, tags),
                               categoriesRaw2, categories2, tagsRaw2, tags2);
            r.categories == categories && r.availableTags == tags && r.error == LoadFailed
  {
  }

  datatype Field = Title | Body | Category | Language

  function FieldOf(f: Form, k: Field): string {
    match k
    case Title => f.title
    case Body => f.body
    case Category => f.category
    case Language => f.language
  }

  /** `handleInputChange`: the named input takes the value; nothing else changes. */
  function InputChange(f: Form, k: Field, value: string): (r: Form)
    ensures FieldOf(r, k) == value
    ensures forall j :: j != k ==> FieldOf(r, j) == FieldOf(f, j)
    ensures r.tags == f.tags
  {
    match k
    case Title => f.(title := value)
    case Body => f.(body := value)
    case Category => f.(category := value)
    case Language => f.(language := value)
  }

  /** Every occurrence of `x` removed, order kept. */
  function Without(s: seq<int>, x: int): (r: seq<int>)
    ensures x !in r
    ensures forall y :: y != x ==> (y in r <==> y in s)
    ensures |r| <= |s|
    decreases |s|
  {
    if s == [] then []
    else if s[0] == x then Without(s[1..], x)
    else [s[0]] + Without(s[1..], x)
  }

  /** `handleTagClick`: a selected tag is deselected (every occurrence goes), an
      unselected one is appended. */
  function TagClick(tags: seq<int>, id: int): (r: seq<int>)
    ensures id in r <==> id !in tags
    ensures forall y :: y != id ==> (y in r <==> y in tags)
  {
    if id in tags then Without(tags, id) else tags + [id]
  }

  predicate Distinct(s: seq<int>) {
    forall i, j :: 0 <= i < j < |s| ==> s[i] != s[j]
  }

  lemma {:induction false} WithoutAbsent(s: seq<int>, x: int)
    requires x !in s
    ensures Without(s, x) == s
    decreases |s|
  {
    if s != [] {
      WithoutAbsent(s[1..], x);
    }
  }

  /** Clicking an unselected tag twice gives the selection back exactly. */
  lemma TagClickTwice(tags: seq<int>, id: int)
    requires id !in tags
    ensures TagClick(TagClick(tags, id), id) == tags
  {
    assert id in tags + [id];
    WithoutAppend(tags, id);
  }

  lemma {:induction false} WithoutAppend(s: seq<int>, x: int)
    requires x !in s
    ensures Without(s + [x], x) == s
    decreases |s|
  {
    if s == [] {
      assert [] + [x] == [x];
    } else {
      assert (s + [x])[1..] == s[1..] + [x];
      WithoutAppend(s[1..], x);
    }
  }

  lemma {:induction false} WithoutKeepsDistinct(s: seq<int>, x: int)
    requires Distinct(s)
    ensures Distinct(Without(s, x))
    decreases |s|
  {
    if s != [] {
      WithoutKeepsDistinct(s[1..], x);
      if s[0] != x {
        assert s[0] !in s[1..];
        assert s[0] !in Without(s[1..], x);
      }
    }
  }

  /** A selection without repeats stays without repeats. */
  lemma TagClickKeepsDistinct(tags: seq<int>, id: int)
    requires Distinct(tags)
    ensures Distinct(TagClick(tags, id))
  {
    if id in tags {
      WithoutKeepsDistinct(tags, id);
    }
  }

  predicate HasName(tags: seq<Named>, name: string) {
    exists k :: 0 <= k < |tags| && tags[k].name == name
  }

  predicate UniqueNames(tags: seq<Named>) {
    forall i, j :: 0 <= i < j < |tags| ==> tags[i].name != tags[j].name
  }

  /** `handleAddNewTag` as written: the trimmed name is added when it is
      non-empty and not yet listed, with id `now1`, and `now2` is appended to the
      selection. The two ids come from two separate clock reads. */
  function AddNewTagAsWritten(p: Page, now1: int, now2: int): (r: Page)
    ensures var t := JsTrim(p.newTag);
            if t != "" && !HasName(p.availableTags, t) then
              r.availableTags == p.availableTags + [Named(now1, t)]
              && r.form == p.form.(tags := p.form.tags + [now2]) && r.newTag == ""
            else r == p
  {
    var t := JsTrim(p.newTag);
    if t != "" && !HasName(p.availableTags, t) then
      p.(availableTags := p.availableTags + [Named(now1, t)],
         form := p.form.(tags := p.form.tags + [now2]),
         newTag := "")
    else p
  }

  /** When the clock ticks between the two reads, the tag just added is shown
      unselected and the selection holds an id no listed tag has. */
  lemma ClockTickLosesSelection(p: Page, now1: int, now2: int)
    requires JsTrim(p.newTag) != "" && !HasName(p.availableTags, JsTrim(p.newTag))
    requires now1 != now2 && now1 !in p.form.tags
    requires forall k :: 0 <= k < |p.availableTags| ==> p.availableTags[k].id != now2
    ensures var r := AddNewTagAsWritten(p, now1, now2);
            var added := r.availableTags[|r.availableTags| - 1];
            added.name == JsTrim(p.newTag) && added.id !in r.form.tags
            && now2 in r.form.tags
            && forall k :: 0 <= k < |r.availableTags| ==> r.availableTags[k].id != now2
  {
    var t := JsTrim(p.newTag);
    var r := AddNewTagAsWritten(p, now1, now2);
    assert r == p.(availableTags := p.availableTags + [Named(now1, t)],
                   form := p.form.(tags := p.form.tags + [now2]), newTag := "");
    var ts := r.availableTags;
    assert ts[|ts| - 1] == Named(now1, t);
    forall k | 0 <= k < |ts|
      ensures ts[k].id != now2
    {
      if k < |p.availableTags| {
        assert ts[k] == p.availableTags[k];
      }
    }
    assert now1 !in r.form.tags;
  }

  /** A concrete instance: the two reads return 1000 and 1001. */
  lemma ClockTickExample()
    ensures var p := Initial().(newTag := "news");
            var r := AddNewTagAsWritten(p, 1000, 1001);
            r.availableTags == [Named(1000, "news")] && r.form.tags == [1001]
  {
    var p := Initial().(newTag := "news");
    assert JsTrim("news") == "news" by {
      assert !IsJsWhitespace('n') && !IsJsWhitespace('s');
    }
  }

  /** The evident intent: one id, read once, names the new tag and selects it. */
  function AddNewTag(p: Page, now: int): (r: Page)
    ensures var t := JsTrim(p.newTag);
            if t != "" && !HasName(p.availableTags, t) then
              r.availableTags == p.availableTags + [Named(now, t)]
              && r.form == p.form.(tags := p.form.tags + [now]) && r.newTag == ""
            else r == p
  {
    AddNewTagAsWritten(p, now, now)
  }

  /** With one clock read the tag just added is selected, and listed tag names
      stay unique. */
  lemma AddNewTagSelects(p: Page, now: int)
    requires UniqueNames(p.availableTags)
    requires JsTrim(p.newTag) != "" && !HasName(p.availableTags, JsTrim(p.newTag))
    ensures var r := AddNewTag(p, now);
            r.availableTags[|r.availableTags| - 1].id in r.form.tags
            && r.availableTags[|r.availableTags| - 1].name == JsTrim(p.newTag)
            && UniqueNames(r.availableTags)
  {
    AddNewTagKeepsNamesUnique(p, now);
    var t := JsTrim(p.newTag);
    var r := AddNewTag(p, now);
    assert r == p.(availableTags := p.availableTags + [Named(now, t)],
                   form := p.form.(tags := p.form.tags + [now]), newTag := "");
    assert r.availableTags[|r.availableTags| - 1] == Named(now, t);
  }

  /** Adding never introduces a duplicate name. */
  lemma AddNewTagKeepsNamesUnique(p: Page, now: int)
    requires UniqueNames(p.availableTags)
    ensures UniqueNames(AddNewTag(p, now).availableTags)
  {
    var t := JsTrim(p.newTag);
    var r := AddNewTag(p, now);
    if t != "" && !HasName(p.availableTags, t) {
      assert r == p.(availableTags := p.availableTags + [Named(now, t)],
                     form := p.form.(tags := p.form.tags + [now]), newTag := "");
      var ts := r.availableTags;
      forall i, j | 0 <= i < j < |ts|
        ensures ts[i].name != ts[j].name
      {
        assert ts[i] == p.availableTags[i];
        if j < |p.availableTags| {
          assert ts[j] == p.availableTags[j];
        }
      }
    }
  }

  // ------------------------------------------------------------------ submit

  datatype Content = Content(language: string, title: string, body: string)

  datatype Payload = Payload(contents: seq<Content>, category: string, tags: seq<int>)

  datatype Submitted = Submitted(
    page: Page,
    sent: Option<Request>,
    payload: Option<Payload>,
    store: Store,
    navigateTo: Option<string>)

  /** The route of the created article; an absent `id` renders as "undefined". */
  function ArticleRoute(id: Option<nat>): string {
    "/article/" + (if id.Some? then NatToString(id.value) else "undefined")
  }

  /** The browser's own check of the three `required` controls: the title
      input, the body textarea and the category select, whose placeholder
      option has the value "". Any non-empty value passes, whitespace too. */
  predicate RequiredFilled(f: Form) {
    f.title != "" && f.body != "" && f.category != ""
  }

  /** Pressing "Create": the form has no `noValidate`, so the browser first
      checks the required controls and, if one is empty, never calls
      `handleSubmit`. Otherwise one translation is posted, built from the
      form's language, title and body, plus the category and the selected tag
      ids. Success navigates to the new article; failure replaces the form
      with the error text. */
  function Submit(store: Store, p: Page, raw: Raw, id: Option<nat>): (r: Submitted)
    ensures r.sent.Some? <==> p.form.title != "" && p.form.body != "" && p.form.category != ""
    ensures r.payload.Some? <==> r.sent.Some?
    ensures r.sent.None? ==> r.page == p && r.store == store && r.navigateTo == None
    ensures r.sent.Some? ==> r.sent.value.verb == Post && r.sent.value.url == ManagerPath
    ensures r.payload.Some? ==>
              r.payload.value.contents == [Content(p.form.language, p.form.title, p.form.body)]
              && r.payload.value.category == p.form.category && r.payload.value.tags == p.form.tags
    ensures r.sent.Some? && Settle(raw).Ok? ==> r.navigateTo == Some(ArticleRoute(id)) && r.page == p
    ensures r.sent.Some? && Settle(raw).Err? ==> r.navigateTo == None && r.page == p.(error := CreateFailed)
    ensures raw != Response(401) ==> r.store == store
  {
    if !RequiredFilled(p.form) then Submitted(p, None, None, store, None)
    else
      var payload := Payload([Content(p.form.language, p.form.title, p.form.body)], p.form.category, p.form.tags);
      var e := Send(ServicesClient, store, Post, ManagerPath, raw);
      if e.outcome.Ok? then Submitted(p, Some(e.sent), Some(payload), e.store, Some(ArticleRoute(id)))
      else Submitted(p.(error := CreateFailed), Some(e.sent), Some(payload), e.store, None)
  }

  /** The route names exactly the article created: distinct ids give distinct
      routes. */
  lemma ArticleRouteInjective(a: nat, b: nat)
    requires ArticleRoute(Some(a)) == ArticleRoute(Some(b))
    ensures a == b
  {
    var pre := "/article/";
    assert ArticleRoute(Some(a))[|pre|..] == NatToString(a);
    assert ArticleRoute(Some(b))[|pre|..] == NatToString(b);
    NatToStringInjective(a, b);
  }

  datatype View = ErrorText(text: string) | FormView

  /** Any error replaces the whole form. */
  function Render(p: Page): (v: View)
    ensures v.FormView? <==> p.error == ""
    ensures v.ErrorText? ==> v.text == p.error
  {
    if p.error != "" then ErrorText(p.error) else FormView
  }

  /** The freshly opened page cannot be submitted: its title, body and
      category are all empty, so the browser stops the submit. */
  lemma EmptyFormIsNotPosted(store: Store, raw: Raw, id: Option<nat>)
    ensures var r := Submit(store, Initial(), raw, id);
            r.sent.None? && r.page == Initial() && Render(r.page) == FormView
  {
  }

  /** A posted form that fails is replaced by the failure text; a stopped one
      still shows what it showed. */
  lemma FailedSubmitShowsError(store: Store, p: Page, raw: Raw, id: Option<nat>)
    requires Settle(raw).Err?
    ensures var r := Submit(store, p, raw, id);
            (RequiredFilled(p.form) ==> Render(r.page) == ErrorText(CreateFailed))
            && (!RequiredFilled(p.form) ==> Render(r.page) == Render(p))
  {
  }

  /** A successful submit navigates to a route whose suffix reads back as the
      created article's id, and a page that showed the form still does. */
  lemma SubmitNavigatesToCreated(store: Store, p: Page, raw: Raw, id: nat)
    requires RequiredFilled(p.form) && Settle(raw).Ok?
    ensures var r := Submit(store, p, raw, Some(id));
            var pre := "/article/";
            r.navigateTo.Some? && |r.navigateTo.value| > |pre|
            && r.navigateTo.value[..|pre|] == pre
            && (forall k :: |pre| <= k < |r.navigateTo.value| ==> IsDigit(r.navigateTo.value[k]))
            && ParseDigits(r.navigateTo.value[|pre|..]) == id
            && (p.error == "" ==> Render(r.page) == FormView)
  {
    var route := ArticleRoute(Some(id));
    assert route[|"/article/"|..] == NatToString(id);
    ParseNatToString(id);
  }
}
