/** The article page: fetch one article, keep a local comment list, post and
    delete comments, and render with loading and not-found precedence and the
    display fallbacks. */
module ArticlePage {
  import opened Wrappers
  import opened Text
  import opened TokenStore
  import opened HttpClient
  import opened ArticleCard

  const CommentManagerPath := "articles/comment-manager/"
  /** Unlike the card's, the page's author fallback is capitalised. */
  const PageUnknownAuthor := "Unknown Author"
  /** The author name for which a comment shows its delete button. */
  const CurrentUser := "Current User"

  datatype Comment = Comment(id: int, user: string, content: string)
  datatype TagRef = TagRef(id: int, name: string)
  datatype CategoryRef = CategoryRef(name: string)

  /** The fields of the fetched article the page reads; absent fields are `None`. */
  datatype FetchedArticle = FetchedArticle(
    contents: Option<seq<Content>>,
    author: Option<string>,
    category: Option<CategoryRef>,
    tags: Option<seq<TagRef>>,
    comments: Option<seq<Comment>>)

  datatype Page = Page(article: Option<FetchedArticle>, loading: bool, comments: seq<Comment>, comment: string)

  function Initial(): (p: Page)
    ensures p.article.None? && p.loading && p.comments == [] && p.comment == ""
  {
    Page(None, true, [], "")
  }

  function ArticlePath(id: string): string {
    "articles/articles/" + id + "/"
  }

  function CommentPath(id: int): string {
    "comments/" + (if id < 0 then "-" + NatToString(-id) else NatToString(id)) + "/"
  }

  datatype Step = Step(page: Page, sent: Option<Request>, store: Store)

  /** The mount effect: on success the article is kept and the comment list is
      its `comments` or empty; loading ends either way. */
  function FetchArticle(store: Store, p: Page, id: string, raw: Raw, data: FetchedArticle): (r: Step)
    ensures !r.page.loading && r.page.comment == p.comment
    ensures r.sent.Some? && r.sent.value.verb == Get && r.sent.value.url == ArticlePath(id)
    ensures Settle(raw).Ok? ==>
              r.page.article == Some(data) && r.page.comments == data.comments.GetOr([])
    ensures Settle(raw).Err? ==> r.page == p.(loading := false)
    ensures raw != Response(401) ==> r.store == store
  {
    var e := Send(ServicesClient, store, Get, ArticlePath(id), raw);
    if e.outcome.Ok? then Step(p.(article := Some(data), comments := data.comments.GetOr([]), loading := false), Some(e.sent), e.store)
    else Step(p.(loading := false), Some(e.sent), e.store)
  }

  /** `handleCommentSubmit`: only a comment with non-whitespace text is posted
      (untrimmed); success appends the server's comment and clears the input,
      failure changes nothing. */
  function SubmitComment(store: Store, p: Page, raw: Raw, created: Comment): (r: Step)
    ensures JsTrim(p.comment) == "" ==> r.sent.None? && r.page == p && r.store == store
    ensures JsTrim(p.comment) != "" ==>
              r.sent.Some? && r.sent.value.verb == Post && r.sent.value.url == CommentManagerPath
    ensures JsTrim(p.comment) != "" && Settle(raw).Ok? ==>
              r.page == p.(comments := p.comments + [created], comment := "")
    ensures Settle(raw).Err? ==> r.page == p
    ensures raw != Response(401) ==> r.store == store
  {
    if JsTrim(p.comment) == "" then Step(p, None, store)
    else
      var e := Send(ServicesClient, store, Post, CommentManagerPath, raw);
      if e.outcome.Ok? then Step(p.(comments := p.comments + [created], comment := ""), Some(e.sent), e.store)
      else Step(p, Some(e.sent), e.store)
  }

  /** `comments.filter((c) => c.id !== id)`. */
  function RemoveId(cs: seq<Comment>, id: int): (r: seq<Comment>)
    ensures forall c :: c in r <==> c in cs && c.id != id
    ensures |r| <= |cs|
    decreases |cs|
  {
    if cs == [] then []
    else if cs[0].id == id then RemoveId(cs[1..], id)
    else [cs[0]] + RemoveId(cs[1..], id)
  }

  /** Filtering distributes over concatenation: the kept comments stay in
      their original order. */
  lemma {:induction false} RemoveIdAppend(a: seq<Comment>, b: seq<Comment>, id: int)
    ensures RemoveId(a + b, id) == RemoveId(a, id) + RemoveId(b, id)
    decreases |a|
  {
    if a == [] {
      assert a + b == b;
    } else {
      assert (a + b)[1..] == a[1..] + b;
      RemoveIdAppend(a[1..], b, id);
    }
  }

  /** A list without that id is left exactly as it was; so filtering twice is
      filtering once. */
  lemma {:induction false} RemoveIdAbsent(cs: seq<Comment>, id: int)
    requires forall k :: 0 <= k < |cs| ==> cs[k].id != id
    ensures RemoveId(cs, id) == cs
    decreases |cs|
  {
    if cs != [] {
      RemoveIdAbsent(cs[1..], id);
    }
  }

  lemma RemoveIdIdempotent(cs: seq<Comment>, id: int)
    ensures RemoveId(RemoveId(cs, id), id) == RemoveId(cs, id)
  {
    var r := RemoveId(cs, id);
    forall k | 0 <= k < |r|
      ensures r[k].id != id
    {
      assert r[k] in r;
    }
    RemoveIdAbsent(r, id);
  }

  /** `handleCommentDelete`: success drops every comment with that id; failure
      changes nothing. */
  function DeleteComment(store: Store, p: Page, id: int, raw: Raw): (r: Step)
    ensures r.sent.Some? && r.sent.value.verb == Delete && r.sent.value.url == CommentPath(id)
    ensures Settle(raw).Ok? ==> r.page == p.(comments := RemoveId(p.comments, id))
    ensures Settle(raw).Err? ==> r.page == p
    ensures raw != Response(401) ==> r.store == store
  {
    var e := Send(ServicesClient, store, Delete, CommentPath(id), raw);
    if e.outcome.Ok? then Step(p.(comments := RemoveId(p.comments, id)), Some(e.sent), e.store)
    else Step(p, Some(e.sent), e.store)
  }

  /** A comment offers deletion only when its author reads "Current User". */
  predicate CanDelete(c: Comment) {
    c.user == CurrentUser
  }

  /** Comment authors arrive as the author's string form, the email address;
      an address contains `@` and "Current User" does not, so no comment from the
      server offers deletion. */
  lemma EmailAuthorsCannotDelete(c: Comment, i: nat)
    requires i < |c.user| && c.user[i] == '@'
    ensures !CanDelete(c)
  {
  }

  datatype PageView =
    | Loading
    | NotFound
    | Shown(title: string, author: string, category: string, body: string, tags: seq<string>, commentCount: nat)

  function TagNames(tags: seq<TagRef>): (ns: seq<string>)
    ensures |ns| == |tags| && forall k :: 0 <= k < |tags| ==> ns[k] == tags[k].name
  {
    seq(|tags|, k requires 0 <= k < |tags| => tags[k].name)
  }

  /** Loading first, then a missing article, then the article with fallbacks. */
  function Render(p: Page): (v: PageView)
    ensures p.loading <==> v == Loading
    ensures v == NotFound <==> !p.loading && p.article.None?
    ensures v.Shown? ==>
              var a := p.article.value;
              v.title == JsOr(FirstContent(a.contents).title, Untitled)
              && v.body == JsOr(FirstContent(a.contents).body, NoContent)
              && v.author == JsOr(a.author, PageUnknownAuthor)
              && v.category == (if a.category.Some? then a.category.value.name else Uncategorized)
              && v.tags == TagNames(a.tags.GetOr([]))
              && v.commentCount == |p.comments|
  {
    if p.loading then Loading
    else if p.article.None? then NotFound
    else
      var a := p.article.value;
      var content := FirstContent(a.contents);
      Shown(JsOr(content.title, Untitled), JsOr(a.author, PageUnknownAuthor),
            if a.category.Some? then a.category.value.name else Uncategorized,
            JsOr(content.body, NoContent), TagNames(a.tags.GetOr([])), |p.comments|)
  }

  /** A failed fetch ends on "Article not found", a successful one on the article. */
  lemma FetchThenRender(store: Store, id: string, raw: Raw, data: FetchedArticle)
    ensures var v := Render(FetchArticle(store, Initial(), id, raw, data).page);
            (v == NotFound <==> Settle(raw).Err?) && (v.Shown? <==> Settle(raw).Ok?)
  {
  }

  /** Post then delete of the same new comment gives back the list, when no
      earlier comment shares its id. */
  lemma PostThenDelete(store: Store, p: Page, raw1: Raw, created: Comment, raw2: Raw)
    requires JsTrim(p.comment) != "" && Settle(raw1).Ok? && Settle(raw2).Ok?
    requires forall k :: 0 <= k < |p.comments| ==> p.comments[k].id != created.id
    ensures var s1 := SubmitComment(store, p, raw1, created);
            var s2 := DeleteComment(s1.store, s1.page, created.id, raw2);
            s2.page.comments == p.comments
  {
    RemoveIdAppend(p.comments, [created], created.id);
    RemoveIdAbsent(p.comments, created.id);
  }
}
