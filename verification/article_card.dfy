/** The article card: a pure mapping from an article record and two lookup
    tables (tag names and category names, keyed by id) to the fields it shows. */
module ArticleCard {
  import opened Wrappers
  import opened Text

  datatype Content = Content(title: Option<string>, body: Option<string>)

  /** The fields of an article record the card reads; absent fields are `None`.
      Of the comment list only its length is read. */
  datatype Article = Article(
    id: nat,
    contents: Option<seq<Content>>,
    author: Option<string>,
    tags: Option<seq<nat>>,
    comments: Option<nat>,
    category: Option<nat>)

  datatype Card = Card(
    link: string,
    title: string,
    body: string,
    author: string,
    tagLabels: seq<string>,
    commentCount: nat,
    categoryLabel: string)

  const Untitled := "Untitled"
  const NoContent := "No content available"
  const UnknownAuthor := "Unknown author"
  const Uncategorized := "Uncategorized"

  /** `article.contents?.[0] || {}`: the first translation, or one with no fields. */
  function FirstContent(contents: Option<seq<Content>>): (c: Content)
    ensures contents.Some? && contents.value != [] ==> c == contents.value[0]
    ensures contents.None? || contents.value == [] ==> c == Content(None, None)
  {
    if contents.Some? && contents.value != [] then contents.value[0] else Content(None, None)
  }

  /** The card's link target. */
  function Link(id: nat): string {
    "/article/" + NatToString(id) + "/"
  }

  /** A table lookup by id: the entry when present, empty or not; `TagLabel`
      treats an empty one as missing through `JsOr`. */
  function Lookup(table: map<nat, string>, key: nat): Option<string> {
    if key in table then Some(table[key]) else None
  }

  /** `tags[tagId] || \`Tag ${tagId}\``. */
  function TagLabel(tags: map<nat, string>, id: nat): (l: string)
    ensures id in tags && tags[id] != "" ==> l == tags[id]
    ensures !(id in tags && tags[id] != "") ==> l == "Tag " + NatToString(id)
  {
    JsOr(Lookup(tags, id), "Tag " + NatToString(id))
  }

  function TagLabels(tags: map<nat, string>, ids: seq<nat>): (ls: seq<string>)
    ensures |ls| == |ids|
    ensures forall k :: 0 <= k < |ids| ==> ls[k] == TagLabel(tags, ids[k])
  {
    seq(|ids|, k requires 0 <= k < |ids| => TagLabel(tags, ids[k]))
  }

  function CategoryLabel(categories: map<nat, string>, category: Option<nat>): (l: string)
    ensures category.Some? && category.value in categories && categories[category.value] != "" ==>
              l == categories[category.value]
    ensures !(category.Some? && category.value in categories && categories[category.value] != "") ==>
              l == Uncategorized
  {
    if category.Some? then JsOr(Lookup(categories, category.value), Uncategorized) else Uncategorized
  }

  /** The card. */
  function Render(a: Article, tags: map<nat, string>, categories: map<nat, string>): (c: Card)
    ensures c.link == Link(a.id)
    ensures c.title != "" && c.body != "" && c.author != "" && c.categoryLabel != ""
    ensures c.title == JsOr(FirstContent(a.contents).title, Untitled)
    ensures c.body == JsOr(FirstContent(a.contents).body, NoContent)
    ensures c.author == JsOr(a.author, UnknownAuthor)
    ensures a.tags.Some? ==> c.tagLabels == TagLabels(tags, a.tags.value)
    ensures a.tags.None? ==> c.tagLabels == []
    ensures c.commentCount == a.comments.GetOr(0)
    ensures c.categoryLabel == CategoryLabel(categories, a.category)
  {
    var content := FirstContent(a.contents);
    Card(Link(a.id),
         JsOr(content.title, Untitled),
         JsOr(content.body, NoContent),
         JsOr(a.author, UnknownAuthor),
         if a.tags.Some? then TagLabels(tags, a.tags.value) else [],
         a.comments.GetOr(0),
         CategoryLabel(categories, a.category))
  }

  /** The link names exactly one article: its id reads back from between the
      prefix and the trailing slash. */
  lemma LinkNamesArticle(id: nat)
    ensures var l := Link(id);
            |l| >= |"/article/"| + 1 && l[|l| - 1] == '/'
            && ParseDigits(l[|"/article/"|..|l| - 1]) == id
  {
    var l := Link(id);
    assert l[|"/article/"|..|l| - 1] == NatToString(id);
    ParseNatToString(id);
  }

  /** A card never shows an empty title, body, author or category, whatever
      the record lacks. */
  lemma EmptyRecordFallbacks(id: nat)
    ensures var c := Render(Article(id, None, None, None, None, None), map[], map[]);
            c.title == Untitled && c.body == NoContent && c.author == UnknownAuthor
            && c.tagLabels == [] && c.commentCount == 0 && c.categoryLabel == Uncategorized
  {
  }

  /** An unknown tag id shows as `Tag <id>`, and distinct unknown ids show
      distinct labels. */
  lemma UnknownTagLabelsDistinct(tags: map<nat, string>, a: nat, b: nat)
    requires a !in tags && b !in tags && a != b
    ensures TagLabel(tags, a) != TagLabel(tags, b)
  {
    var la := TagLabel(tags, a);
    var lb := TagLabel(tags, b);
    if la == lb {
      assert la[|"Tag "|..] == NatToString(a);
      assert lb[|"Tag "|..] == NatToString(b);
      NatToStringInjective(a, b);
    }
  }
}
