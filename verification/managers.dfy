/** `ArticleManager` and `CommentManager`: get, create, update and delete by
    id, with `NotFound` for a missing row and the serializers' validation
    deciding between 400 and a write. Serializer errors are kept as the set of
    top-level fields that failed. */
module Managers {
  import opened Wrappers
  import opened Text
  import opened Articles
  import Accounts
  import opened Writes

  const ArticleNotFound := "Article not found."
  const CommentNotFound := "Comment not found."

  /** The request fields a 400 names. */
  datatype Field = CategoryField | TagsField | ContentsField | ArticleField | ContentField

  /** A response, by status: 200, 201, 204, 400 (the failing fields), 404 (the
      `NotFound` detail) and 500 (an uncaught exception). */
  datatype Reply<T> =
    | Ok(value: T)
    | Created(value: T)
    | NoContent
    | BadRequest(fields: set<Field>)
    | NotFound(detail: string)
    | ServerError

  function Status<T>(r: Reply<T>): nat {
    match r
    case Ok(_) => 200
    case Created(_) => 201
    case NoContent => 204
    case BadRequest(_) => 400
    case NotFound(_) => 404
    case ServerError => 500
  }

  datatype Outcome<T> = Outcome(db: Db, reply: Reply<T>)

  // ------------------------------------------------------------ rendering

  /** What `ArticleSerializer` renders: the row with its reverse relations. */
  datatype ArticleView = ArticleView(article: Article, contents: seq<Content>, comments: seq<Comment>)

  function View(db: Db, a: Article): (v: ArticleView)
    ensures v.article == a
    ensures forall c :: c in v.contents <==> c in db.contents && c.article == a.id
    ensures forall c :: c in v.comments <==> c in db.comments && c.article == a.id
  {
    ArticleView(a, ContentsOf(db.contents, a.id), CommentsOf(db.comments, a.id))
  }

  // ------------------------------------------------------------ input

  /** A nested value as the serializer receives it: missing, present but not
      the object (or list of objects) the nested serializer expects — a string
      id, a number, `null` — or well shaped. */
  datatype Nested<T> = Absent | Malformed | Given(value: T)

  datatype CategoryIn = CategoryIn(name: Option<string>)
  datatype TagIn = TagIn(name: Option<string>)
  datatype ContentIn = ContentIn(language: Option<string>, title: Option<string>, body: Option<string>)
  datatype ArticleData = ArticleData(
    category: Nested<CategoryIn>,
    tags: Nested<seq<TagIn>>,
    contents: Nested<seq<ContentIn>>)

  /** A model `CharField` inside the payload: in a partial update a missing
      value is skipped, otherwise the `CharField` rules apply. */
  predicate StringOk(x: Option<string>, partial: bool, max: Option<nat>) {
    (partial && x.None?) || Accounts.CharField(x, 0, max).Accepted?
  }

  /** The value stored for an accepted string: trimmed; a skipped one is empty. */
  function Clean(x: Option<string>): string {
    PyStrip(x.GetOr(""))
  }

  lemma StringOkBounded(x: Option<string>, partial: bool, max: nat)
    requires StringOk(x, partial, Some(max))
    ensures |Clean(x)| <= max
  {
    if !(partial && x.None?) {
      assert Accounts.CharChecks(Accounts.CharInput(x).value, 0, Some(max)) == [];
    }
  }

  predicate CategoryOk(c: CategoryIn, partial: bool) {
    StringOk(c.name, partial, Some(CategoryNameMax))
  }

  predicate TagOk(t: TagIn, partial: bool) {
    StringOk(t.name, partial, Some(TagNameMax))
  }

  predicate ContentOk(c: ContentIn, partial: bool) {
    StringOk(c.language, partial, Some(LanguageMax)) && StringOk(c.title, partial, Some(TitleMax))
    && StringOk(c.body, partial, None)
  }

  /** A missing field fails only a full (non-partial) validation; a malformed
      one always fails. */
  predicate CategoryFails(n: Nested<CategoryIn>, partial: bool) {
    match n
    case Absent => !partial
    case Malformed => true
    case Given(c) => !CategoryOk(c, partial)
  }

  predicate TagsFail(n: Nested<seq<TagIn>>, partial: bool) {
    match n
    case Absent => !partial
    case Malformed => true
    case Given(ts) => exists k :: 0 <= k < |ts| && !TagOk(ts[k], partial)
  }

  predicate ContentsFail(n: Nested<seq<ContentIn>>, partial: bool) {
    match n
    case Absent => !partial
    case Malformed => true
    case Given(cs) => exists k :: 0 <= k < |cs| && !ContentOk(cs[k], partial)
  }

  /** The article fields named by three failure flags. */
  function Flagged(category: bool, tags: bool, contents: bool): (errs: set<Field>)
    ensures errs <= {CategoryField, TagsField, ContentsField}
    ensures CategoryField in errs <==> category
    ensures TagsField in errs <==> tags
    ensures ContentsField in errs <==> contents
  {
    (if category then {CategoryField} else {}) + (if tags then {TagsField} else {})
    + (if contents then {ContentsField} else {})
  }

  /** `ArticleSerializer(data=...).is_valid()`: the fields whose nested
      serializer rejects the input. */
  function ArticleErrors(d: ArticleData, partial: bool): (errs: set<Field>)
    ensures errs <= {CategoryField, TagsField, ContentsField}
    ensures CategoryField in errs <==> CategoryFails(d.category, partial)
    ensures TagsField in errs <==> TagsFail(d.tags, partial)
    ensures ContentsField in errs <==> ContentsFail(d.contents, partial)
  {
    Flagged(CategoryFails(d.category, partial), TagsFail(d.tags, partial), ContentsFail(d.contents, partial))
  }

  /** A payload that passes full validation carries all three nested values,
      each well shaped. */
  lemma ValidPayloadIsNested(d: ArticleData)
    requires ArticleErrors(d, false) == {}
    ensures d.category.Given? && d.tags.Given? && d.contents.Given?
  {
    assert CategoryField !in ArticleErrors(d, false);
    assert TagsField !in ArticleErrors(d, false);
    assert ContentsField !in ArticleErrors(d, false);
  }

  predicate HasNested(d: ArticleData) {
    d.category.Given? || d.tags.Given? || d.contents.Given?
  }

  // ------------------------------------------------------------ ArticleManager

  /** `ArticleManager.get`. */
  function GetArticle(db: Db, id: nat): (r: Reply<ArticleView>)
    ensures r.Ok? || r == NotFound(ArticleNotFound)
    ensures r.Ok? <==> HasArticle(db, id)
    ensures r.Ok? ==> r.value.article in db.articles && r.value.article.id == id
  {
    match FindArticle(db.articles, id)
    case None => NotFound(ArticleNotFound)
    case Some(a) => Ok(View(db, a))
  }

  /** `ArticleManager.create` as written: the nested serializers have no
      `create` of their own, so saving any valid payload trips the
      framework's refusal of nested writes, an uncaught assertion. */
  function CreateArticleAsWritten(db: Db, d: ArticleData, user: string): (o: Outcome<ArticleView>)
    ensures o.db == db
    ensures o.reply.BadRequest? <==> ArticleErrors(d, false) != {}
    ensures o.reply.BadRequest? ==> o.reply.fields == ArticleErrors(d, false)
    ensures !o.reply.BadRequest? ==> o.reply == ServerError
  {
    var errs := ArticleErrors(d, false);
    if errs != {} then Outcome(db, BadRequest(errs))
    else
      ValidPayloadIsNested(d);
      Outcome(db, ServerError)
  }

  /** No payload at all creates an article through the manager as written. */
  lemma CreateArticleAsWrittenNeverCreates(db: Db, d: ArticleData, user: string)
    ensures var o := CreateArticleAsWritten(db, d, user);
            !o.reply.Created? && o.db == db && Status(o.reply) in {400, 500}
  {
  }

  /** `ArticleManager.update` (partial) as written: a missing id is 404, an
      invalid payload 400; a valid one that carries any nested value trips the
      same refusal; one carrying none saves nothing new. */
  function UpdateArticleAsWritten(db: Db, id: nat, d: ArticleData): (o: Outcome<ArticleView>)
    ensures o.db == db
    ensures !HasArticle(db, id) ==> o.reply == NotFound(ArticleNotFound)
    ensures HasArticle(db, id) && ArticleErrors(d, true) != {} ==> o.reply == BadRequest(ArticleErrors(d, true))
    ensures HasArticle(db, id) && ArticleErrors(d, true) == {} ==>
              (HasNested(d) <==> o.reply == ServerError)
    ensures o.reply.Ok? ==> o.reply.value.article in db.articles && o.reply.value.article.id == id
  {
    match FindArticle(db.articles, id)
    case None => Outcome(db, NotFound(ArticleNotFound))
    case Some(a) =>
      var errs := ArticleErrors(d, true);
      if errs != {} then Outcome(db, BadRequest(errs))
      else if HasNested(d) then Outcome(db, ServerError)
      else Outcome(db, Ok(View(db, a)))
  }

  /** The article the update answers with is the one stored: nothing about it
      can change through the manager as written. */
  lemma UpdateArticleAsWrittenChangesNothing(db: Db, id: nat, d: ArticleData)
    ensures var o := UpdateArticleAsWritten(db, id, d);
            o.db == db && !o.reply.Created?
            && (o.reply.Ok? ==> !HasNested(d) && o.reply.value == View(db, FindArticle(db.articles, id).value))
  {
  }

  /** `ArticleManager.delete`: 404 for a missing id, else the article goes
      with its contents and comments, and the answer is 204. */
  function DeleteArticleById(db: Db, id: nat): (o: Outcome<ArticleView>)
    ensures !HasArticle(db, id) ==> o == Outcome(db, NotFound(ArticleNotFound))
    ensures HasArticle(db, id) ==> o.reply == NoContent
    ensures o.reply == NoContent ==>
              (forall a :: a in o.db.articles <==> a in db.articles && a.id != id)
              && (forall c :: c in o.db.contents <==> c in db.contents && c.article != id)
              && (forall c :: c in o.db.comments <==> c in db.comments && c.article != id)
              && o.db.categories == db.categories && o.db.tags == db.tags
    ensures Wf(db) ==> Wf(o.db)
  {
    match FindArticle(db.articles, id)
    case None => Outcome(db, NotFound(ArticleNotFound))
    case Some(_) => Outcome(DeleteArticle(db, id), NoContent)
  }

  /** Deleting twice: the second attempt finds nothing. */
  lemma DeleteArticleTwice(db: Db, id: nat)
    ensures var o := DeleteArticleById(db, id);
            o.reply == NoContent ==> DeleteArticleById(o.db, id) == Outcome(o.db, NotFound(ArticleNotFound))
  {
  }

  /** After a delete, get answers 404; other articles still answer. */
  lemma GetAfterDelete(db: Db, id: nat, other: nat)
    requires HasArticle(db, id) && HasArticle(db, other) && other != id
    ensures var o := DeleteArticleById(db, id);
            GetArticle(o.db, id) == NotFound(ArticleNotFound) && GetArticle(o.db, other).Ok?
  {
    var a :| a in db.articles && a.id == other;
    assert a in DeleteArticleById(db, id).db.articles;
  }

  // ------------------------------------------------------------ nested writes

  /** The cleaned tag names of a tags payload. */
  function TagNamesIn(ts: seq<TagIn>): (ns: seq<string>)
    ensures |ns| == |ts| && forall k :: 0 <= k < |ts| ==> ns[k] == Clean(ts[k].name)
  {
    seq(|ts|, k requires 0 <= k < |ts| => Clean(ts[k].name))
  }

  /** The cleaned entries of a contents payload. */
  function Entries(cs: seq<ContentIn>): (es: seq<Entry>)
    ensures |es| == |cs|
    ensures forall k :: 0 <= k < |cs| ==> es[k] == Entry(Clean(cs[k].language), Clean(cs[k].title), Clean(cs[k].body))
  {
    seq(|cs|, k requires 0 <= k < |cs| => Entry(Clean(cs[k].language), Clean(cs[k].title), Clean(cs[k].body)))
  }

  /** Two translations of one payload in the same language. */
  predicate LanguageClash(n: Nested<seq<ContentIn>>) {
    n.Given? && !DistinctLanguages(Entries(n.value))
  }

  /** The validation of the corrected managers: the serializer's, plus the
      one-content-per-language rule on the nested contents, which the
      framework would not check (`article` is no field of the nested
      serializer) and the database would answer with an integrity error. */
  function WriteErrors(d: ArticleData, partial: bool): (errs: set<Field>)
    ensures errs == ArticleErrors(d, partial) + (if LanguageClash(d.contents) then {ContentsField} else {})
    ensures errs == {} ==> ArticleErrors(d, partial) == {}
  {
    ArticleErrors(d, partial) + (if LanguageClash(d.contents) then {ContentsField} else {})
  }

  /** A payload whose every given value fits its column. */
  predicate Storable(d: ArticleData) {
    (d.category.Given? ==> |Clean(d.category.value.name)| <= CategoryNameMax)
    && (d.tags.Given? ==> forall k :: 0 <= k < |d.tags.value| ==> |Clean(d.tags.value[k].name)| <= TagNameMax)
    && (d.contents.Given? ==>
          DistinctLanguages(Entries(d.contents.value)) && EntriesBounded(Entries(d.contents.value)))
  }

  /** Whatever passes validation can be stored. */
  lemma ValidIsStorable(d: ArticleData, partial: bool)
    requires WriteErrors(d, partial) == {}
    ensures Storable(d)
  {
    assert CategoryField !in ArticleErrors(d, partial);
    assert TagsField !in ArticleErrors(d, partial);
    assert ContentsField !in ArticleErrors(d, partial);
    if d.category.Given? {
      StringOkBounded(d.category.value.name, partial, CategoryNameMax);
    }
    if d.tags.Given? {
      forall k | 0 <= k < |d.tags.value|
        ensures |Clean(d.tags.value[k].name)| <= TagNameMax
      {
        assert TagOk(d.tags.value[k], partial);
        StringOkBounded(d.tags.value[k].name, partial, TagNameMax);
      }
    }
    if d.contents.Given? {
      var cs := d.contents.value;
      forall k | 0 <= k < |cs|
        ensures |Clean(cs[k].language)| <= LanguageMax && |Clean(cs[k].title)| <= TitleMax
      {
        assert ContentOk(cs[k], partial);
        StringOkBounded(cs[k].language, partial, LanguageMax);
        StringOkBounded(cs[k].title, partial, TitleMax);
      }
    }
  }

  datatype Written = Written(db: Db, article: Article)

  /** A new category row when one is given. */
  function WriteCategory(db: Db, a: Article, n: Nested<CategoryIn>): (w: Written)
    ensures w.article == a.(category := w.article.category)
    ensures !n.Given? ==> w == Written(db, a)
    ensures w.db.articles == db.articles && w.db.tags == db.tags && w.db.contents == db.contents
    ensures w.db.comments == db.comments
    ensures forall c :: c in db.categories ==> c in w.db.categories
  {
    if n.Given? then
      var add := AddCategory(db, Clean(n.value.name));
      Written(add.db, a.(category := Some(add.id)))
    else Written(db, a)
  }

  /** New tag rows, linked in payload order, when a tag list is given. */
  function WriteTags(db: Db, a: Article, n: Nested<seq<TagIn>>): (w: Written)
    ensures w.article == a.(tags := w.article.tags)
    ensures !n.Given? ==> w == Written(db, a)
    ensures w.db.articles == db.articles && w.db.categories == db.categories
    ensures w.db.contents == db.contents && w.db.comments == db.comments
    ensures forall t :: t in db.tags ==> t in w.db.tags
  {
    if n.Given? then
      var add := AddTags(db, TagNamesIn(n.value));
      Written(add.db, a.(tags := add.ids))
    else Written(db, a)
  }

  /** The article's contents replaced when a list is given. */
  function WriteContents(db: Db, id: nat, n: Nested<seq<ContentIn>>): (r: Db)
    ensures r == db.(contents := r.contents)
    ensures !n.Given? ==> r == db
  {
    if n.Given? then ReplaceContents(db, id, Entries(n.value)) else db
  }

  /** `b` is the article row about to be saved under id `id`. */
  lemma WriteContentsKeepsWf(db: Db, id: nat, b: Article, n: Nested<seq<ContentIn>>)
    requires Wf(db) && HasArticle(db, id) && Linked(db, b)
    requires n.Given? ==> DistinctLanguages(Entries(n.value)) && EntriesBounded(Entries(n.value))
    ensures var r := WriteContents(db, id, n);
            Wf(r) && HasArticle(r, id) && Linked(r, b)
  {
    if n.Given? {
      ReplaceContentsKeepsWf(db, id, Entries(n.value));
    }
  }

  /** Saving an article with its nested values: a given category becomes a
      new category row, given tags new tag rows, given contents replace the
      article's contents; then the article row is saved. */
  function WriteNested(db: Db, a: Article, d: ArticleData): (w: Written)
    ensures w.article.id == a.id && w.article.author == a.author
    ensures !d.category.Given? ==> w.article.category == a.category
    ensures !d.tags.Given? ==> w.article.tags == a.tags
    ensures w.db.comments == db.comments
  {
    var w1 := WriteCategory(db, a, d.category);
    var w2 := WriteTags(w1.db, w1.article, d.tags);
    var db3 := WriteContents(w2.db, a.id, d.contents);
    Written(PutArticle(db3, w2.article), w2.article)
  }

  lemma WriteCategoryKeepsWf(db: Db, a: Article, n: Nested<CategoryIn>)
    requires Wf(db) && Linked(db, a)
    requires n.Given? ==> |Clean(n.value.name)| <= CategoryNameMax
    ensures var w := WriteCategory(db, a, n);
            Wf(w.db) && Linked(w.db, w.article)
  {
    var w := WriteCategory(db, a, n);
    if n.Given? {
      AddCategoryKeepsWf(db, Clean(n.value.name));
      AddCategoryFinds(db, Clean(n.value.name));
      LinkedGrow(db, w.db, a);
    }
  }

  lemma WriteTagsKeepsWf(db: Db, a: Article, n: Nested<seq<TagIn>>)
    requires Wf(db) && Linked(db, a)
    requires n.Given? ==> forall k :: 0 <= k < |n.value| ==> |Clean(n.value[k].name)| <= TagNameMax
    ensures var w := WriteTags(db, a, n);
            Wf(w.db) && Linked(w.db, w.article)
  {
    var w := WriteTags(db, a, n);
    if n.Given? {
      var names := TagNamesIn(n.value);
      AddTagsKeepsWf(db, names);
      forall k | 0 <= k < |w.article.tags|
        ensures HasTag(w.db, w.article.tags[k])
      {
        AddTagsFinds(db, names, k);
      }
      assert NoDuplicates(w.article.tags);
      LinkedGrow(db, w.db, a);
    }
  }

  lemma WriteNestedKeepsWf(db: Db, a: Article, d: ArticleData)
    requires Wf(db) && a in db.articles && Storable(d)
    ensures var w := WriteNested(db, a, d);
            Wf(w.db) && w.article in w.db.articles
  {
    assert Linked(db, a);
    var w1 := WriteCategory(db, a, d.category);
    WriteCategoryKeepsWf(db, a, d.category);
    var w2 := WriteTags(w1.db, w1.article, d.tags);
    WriteTagsKeepsWf(w1.db, w1.article, d.tags);
    var db3 := WriteContents(w2.db, a.id, d.contents);
    assert a in w2.db.articles;
    WriteContentsKeepsWf(w2.db, a.id, w2.article, d.contents);
    PutArticleKeepsWf(db3, w2.article);
    PutArticleRows(db3, w2.article);
  }

  /** What was written is what the article shows: the given category's name,
      the given tags' names in order, the given contents in order. */
  lemma WriteNestedStores(db: Db, a: Article, d: ArticleData)
    requires Wf(db) && a in db.articles && Storable(d)
    ensures var w := WriteNested(db, a, d);
            (d.category.Given? ==>
               w.article.category.Some?
               && CategoryName(w.db.categories, w.article.category.value) == Some(Clean(d.category.value.name)))
            && (d.tags.Given? ==>
                  |w.article.tags| == |d.tags.value|
                  && forall k :: 0 <= k < |d.tags.value| ==>
                       TagName(w.db.tags, w.article.tags[k]) == Some(Clean(d.tags.value[k].name)))
            && (d.contents.Given? ==>
                  var v := ContentsOf(w.db.contents, a.id);
                  |v| == |d.contents.value|
                  && forall k :: 0 <= k < |v| ==>
                       v[k].language == Clean(d.contents.value[k].language)
                       && v[k].title == Clean(d.contents.value[k].title)
                       && v[k].body == Clean(d.contents.value[k].body))
  {
    var w1 := WriteCategory(db, a, d.category);
    if d.category.Given? {
      AddCategoryFinds(db, Clean(d.category.value.name));
      AddCategoryKeepsWf(db, Clean(d.category.value.name));
    }
    var w2 := WriteTags(w1.db, w1.article, d.tags);
    if d.tags.Given? {
      var names := TagNamesIn(d.tags.value);
      forall k | 0 <= k < |d.tags.value|
        ensures TagName(w2.db.tags, w2.article.tags[k]) == Some(Clean(d.tags.value[k].name))
      {
        AddTagsFinds(w1.db, names, k);
      }
    }
    if d.contents.Given? {
      ReplaceContentsStores(w2.db, a.id, Entries(d.contents.value));
    }
  }

  // ------------------------------------------------------------ corrected ArticleManager

  /** `ArticleManager.create` with the nested values written out: 400 on a
      rejected payload, otherwise a new article by `user` and 201. */
  function CreateArticle(db: Db, d: ArticleData, user: string): (o: Outcome<ArticleView>)
    ensures o.reply.BadRequest? <==> WriteErrors(d, false) != {}
    ensures o.reply.BadRequest? ==> o.reply.fields == WriteErrors(d, false) && o.db == db
    ensures !o.reply.BadRequest? ==>
              o.reply.Created? && o.reply.value.article.author == user
              && !HasArticle(db, o.reply.value.article.id)
              && o.db.comments == db.comments
  {
    var errs := WriteErrors(d, false);
    if errs != {} then Outcome(db, BadRequest(errs))
    else
      var ins := InsertArticle(db, user);
      var w := WriteNested(ins.db, Article(ins.id, user, None, []), d);
      Outcome(w.db, Created(View(w.db, w.article)))
  }

  /** A created article is stored, keeps the database well formed, answers a
      get by its id with the same view, and shows what the payload gave. */
  lemma CreateArticleStores(db: Db, d: ArticleData, user: string)
    requires Wf(db)
    ensures var o := CreateArticle(db, d, user);
            Wf(o.db)
            && (o.reply.Created? ==>
                  var v := o.reply.value;
                  GetArticle(o.db, v.article.id) == Ok(v)
                  && CategoryName(o.db.categories, v.article.category.value) == Some(Clean(d.category.value.name))
                  && |v.article.tags| == |d.tags.value|
                  && |v.contents| == |d.contents.value|
                  && (forall k :: 0 <= k < |v.contents| ==>
                        v.contents[k].language == Clean(d.contents.value[k].language)
                        && v.contents[k].title == Clean(d.contents.value[k].title)
                        && v.contents[k].body == Clean(d.contents.value[k].body)))
  {
    var o := CreateArticle(db, d, user);
    if WriteErrors(d, false) == {} {
      ValidPayloadIsNested(d);
      ValidIsStorable(d, false);
      var ins := InsertArticle(db, user);
      var a := Article(ins.id, user, None, []);
      InsertArticleKeepsWf(db, user);
      WriteNestedKeepsWf(ins.db, a, d);
      WriteNestedStores(ins.db, a, d);
      var w := WriteNested(ins.db, a, d);
      var found := FindArticle(w.db.articles, a.id);
      assert found.Some? && found.value == w.article;
    }
  }

  // ------------------------------------------------------------ references by id

  /** The article payload the program's own client posts: `category` is the
      category select's value, "" until one is chosen and otherwise the chosen
      category's id as a string; `tags` holds the selected tags' ids;
      `contents` the translations. */
  datatype ClientData = ClientData(category: string, tags: seq<int>, contents: seq<ContentIn>)

  /** That payload as the declared nested serializers receive it: a string is
      no category object, and a list of numbers is no list of tag objects,
      unless it is empty. */
  function AsNested(c: ClientData): ArticleData {
    ArticleData(Malformed, if c.tags == [] then Given([]) else Malformed, Given(c.contents))
  }

  /** Neither the manager as written nor the nested-write reading accepts what
      the client sends: the category is always refused, the tags whenever one
      is selected, and nothing is stored. */
  lemma ClientPayloadRejected(db: Db, c: ClientData, user: string)
    ensures var a := CreateArticleAsWritten(db, AsNested(c), user);
            a.db == db && a.reply.BadRequest? && CategoryField in a.reply.fields
            && (TagsField in a.reply.fields <==> c.tags != [])
    ensures var b := CreateArticle(db, AsNested(c), user);
            b.db == db && b.reply.BadRequest? && CategoryField in b.reply.fields
            && (TagsField in b.reply.fields <==> c.tags != [])
  {
  }

  predicate AllDigits(s: string) {
    forall k :: 0 <= k < |s| ==> IsDigit(s[k])
  }

  /** A primary-key reference to a category: a non-empty string of decimal
      digits naming a stored category, or nothing. */
  function CategoryRef(db: Db, s: string): (r: Option<nat>)
    ensures r.Some? ==> s != "" && AllDigits(s) && r.value == ParseDigits(s) && HasCategory(db, r.value)
    ensures r.None? ==> s == "" || !AllDigits(s) || !HasCategory(db, ParseDigits(s))
  {
    if s != "" && AllDigits(s) && HasCategory(db, ParseDigits(s)) then Some(ParseDigits(s)) else None
  }

  /** The select offers each stored category under its id; that value reads
      back as the same category. */
  lemma CategoryRefOfOption(db: Db, c: Category)
    requires c in db.categories
    ensures CategoryRef(db, NatToString(c.id)) == Some(c.id)
  {
    ParseNatToString(c.id);
  }

  /** Every selected id names a stored tag. */
  predicate TagRefsOk(db: Db, ts: seq<int>) {
    forall k :: 0 <= k < |ts| ==> ts[k] >= 0 && HasTag(db, ts[k])
  }

  /** The ids in order of first occurrence, each once: the links a
      many-to-many `set` makes. */
  function Firsts(ts: seq<int>): (r: seq<nat>)
    requires forall k :: 0 <= k < |ts| ==> ts[k] >= 0
    ensures NoDuplicates(r)
    ensures forall x: nat :: x in r <==> x in ts
    decreases |ts|
  {
    if ts == [] then []
    else
      var t := Firsts(ts[..|ts| - 1]);
      var x := ts[|ts| - 1] as nat;
      assert ts == ts[..|ts| - 1] + [ts[|ts| - 1]];
      if x in t then t
      else
        NoDuplicatesConcat(t, [x]);
        t + [x]
  }

  /** The validation of the by-id create, one flag per field. */
  function ClientErrors(db: Db, c: ClientData): (errs: set<Field>)
    ensures errs <= {CategoryField, TagsField, ContentsField}
    ensures CategoryField in errs <==> CategoryRef(db, c.category).None?
    ensures TagsField in errs <==> !TagRefsOk(db, c.tags)
    ensures ContentsField in errs <==> ContentsFail(Given(c.contents), false) || LanguageClash(Given(c.contents))
  {
    Flagged(CategoryRef(db, c.category).None?, !TagRefsOk(db, c.tags),
            ContentsFail(Given(c.contents), false) || LanguageClash(Given(c.contents)))
  }

  /** `ArticleManager.create` for the payload the client sends: the category
      and the tags are referenced by id, the contents written as new rows.
      400 on any refused field, changing nothing; otherwise a new article by
      `user`, linked to the named category and to each named tag once, and
      201. */
  function CreateArticleByIds(db: Db, c: ClientData, user: string): (o: Outcome<ArticleView>)
    ensures o.reply.BadRequest? <==> ClientErrors(db, c) != {}
    ensures o.reply.BadRequest? ==> o.reply.fields == ClientErrors(db, c) && o.db == db
    ensures !o.reply.BadRequest? ==>
              o.reply.Created? && o.reply.value.article.author == user
              && !HasArticle(db, o.reply.value.article.id)
              && o.reply.value.article.category.Some?
              && o.reply.value.article.category == CategoryRef(db, c.category)
              && NoDuplicates(o.reply.value.article.tags)
              && (forall t: nat :: t in o.reply.value.article.tags <==> t in c.tags)
              && o.db.categories == db.categories && o.db.tags == db.tags && o.db.comments == db.comments
  {
    var errs := ClientErrors(db, c);
    if errs != {} then Outcome(db, BadRequest(errs))
    else
      assert TagsField !in errs;
      var ins := InsertArticle(db, user);
      var a := Article(ins.id, user, CategoryRef(db, c.category), Firsts(c.tags));
      var w := PutArticle(WriteContents(ins.db, ins.id, Given(c.contents)), a);
      Outcome(w, Created(View(w, a)))
  }

  /** Translations that pass the by-id validation fit their columns and keep
      one content per language. */
  lemma ClientContentsStorable(cs: seq<ContentIn>)
    requires !ContentsFail(Given(cs), false) && !LanguageClash(Given(cs))
    ensures DistinctLanguages(Entries(cs)) && EntriesBounded(Entries(cs))
  {
    forall k | 0 <= k < |cs|
      ensures |Clean(cs[k].language)| <= LanguageMax && |Clean(cs[k].title)| <= TitleMax
    {
      assert ContentOk(cs[k], false);
      StringOkBounded(cs[k].language, false, LanguageMax);
      StringOkBounded(cs[k].title, false, TitleMax);
    }
  }

  /** The client's payload, once accepted, is stored: the database stays well
      formed, a get by the new id answers the same view, the article points at
      stored category and tag rows, and its contents are the given ones in
      order. */
  lemma CreateArticleByIdsStores(db: Db, c: ClientData, user: string)
    requires Wf(db)
    ensures var o := CreateArticleByIds(db, c, user);
            Wf(o.db)
            && (o.reply.Created? ==>
                  var v := o.reply.value;
                  GetArticle(o.db, v.article.id) == Ok(v)
                  && HasCategory(o.db, v.article.category.value)
                  && (forall t :: t in v.article.tags ==> HasTag(o.db, t))
                  && |v.contents| == |c.contents|
                  && (forall k :: 0 <= k < |v.contents| ==>
                        v.contents[k].language == Clean(c.contents[k].language)
                        && v.contents[k].title == Clean(c.contents[k].title)
                        && v.contents[k].body == Clean(c.contents[k].body)))
  {
    var o := CreateArticleByIds(db, c, user);
    var errs := ClientErrors(db, c);
    if errs == {} {
      assert CategoryField !in errs && TagsField !in errs && ContentsField !in errs;
      ClientContentsStorable(c.contents);
      var ins := InsertArticle(db, user);
      InsertArticleKeepsWf(db, user);
      var a := Article(ins.id, user, CategoryRef(db, c.category), Firsts(c.tags));
      assert Linked(ins.db, a) by {
        forall t | t in a.tags
          ensures HasTag(ins.db, t)
        {
          var k :| 0 <= k < |c.tags| && c.tags[k] == t;
        }
      }
      assert HasArticle(ins.db, ins.id) by {
        assert Article(ins.id, user, None, []) in ins.db.articles;
      }
      var db3 := WriteContents(ins.db, ins.id, Given(c.contents));
      WriteContentsKeepsWf(ins.db, ins.id, a, Given(c.contents));
      ReplaceContentsStores(ins.db, ins.id, Entries(c.contents));
      PutArticleKeepsWf(db3, a);
      PutArticleRows(db3, a);
      var w := PutArticle(db3, a);
      var found := FindArticle(w.articles, a.id);
      assert found.Some? && found.value == a;
    }
  }

  /** `ArticleManager.update` with the nested values written out: a missing id
      is 404 and a rejected payload 400, both changing nothing; otherwise the
      given values are written and the rest of the article is kept. */
  function UpdateArticle(db: Db, id: nat, d: ArticleData): (o: Outcome<ArticleView>)
    ensures !HasArticle(db, id) ==> o == Outcome(db, NotFound(ArticleNotFound))
    ensures HasArticle(db, id) && WriteErrors(d, true) != {} ==> o == Outcome(db, BadRequest(WriteErrors(d, true)))
    ensures HasArticle(db, id) && WriteErrors(d, true) == {} ==> o.reply.Ok?
    ensures o.reply.Ok? ==>
              var b := FindArticle(db.articles, id).value;
              var after := o.reply.value.article;
              after.id == id && after.author == b.author
              && (!d.category.Given? ==> after.category == b.category)
              && (!d.tags.Given? ==> after.tags == b.tags)
              && o.db.comments == db.comments
  {
    match FindArticle(db.articles, id)
    case None => Outcome(db, NotFound(ArticleNotFound))
    case Some(b) =>
      var errs := WriteErrors(d, true);
      if errs != {} then Outcome(db, BadRequest(errs))
      else
        var w := WriteNested(db, b, d);
        Outcome(w.db, Ok(View(w.db, w.article)))
  }

  /** An update keeps the database well formed, answers a later get with the
      same view, and leaves every other article row as it was. */
  lemma UpdateArticleKeepsOthers(db: Db, id: nat, d: ArticleData)
    requires Wf(db)
    ensures var o := UpdateArticle(db, id, d);
            Wf(o.db)
            && (o.reply.Ok? ==>
                  GetArticle(o.db, id) == o.reply
                  && forall b :: b in db.articles && b.id != id ==> b in o.db.articles)
  {
    var o := UpdateArticle(db, id, d);
    if o.reply.Ok? {
      var b := FindArticle(db.articles, id).value;
      ValidIsStorable(d, true);
      WriteNestedKeepsWf(db, b, d);
      var w := WriteNested(db, b, d);
      var found := FindArticle(w.db.articles, id);
      assert found.Some? && found.value == w.article;
      forall x | x in db.articles && x.id != id
        ensures x in o.db.articles
      {
        UpdateKeepsRow(db, b, d, x);
      }
    }
  }

  /** A row with another id goes through a nested write untouched. */
  lemma UpdateKeepsRow(db: Db, a: Article, d: ArticleData, x: Article)
    requires Wf(db) && a in db.articles && Storable(d)
    requires x in db.articles && x.id != a.id
    ensures x in WriteNested(db, a, d).db.articles
  {
    var w1 := WriteCategory(db, a, d.category);
    var w2 := WriteTags(w1.db, w1.article, d.tags);
    var db3 := WriteContents(w2.db, a.id, d.contents);
    assert db3.articles == db.articles;
    var k :| 0 <= k < |db3.articles| && db3.articles[k] == x;
    assert PutArticle(db3, w2.article).articles[k] == x;
  }

  /** Without nested values there is nothing to refuse: the corrected update
      answers exactly as the one written does. */
  lemma UpdateAgreesWithoutNested(db: Db, id: nat, d: ArticleData)
    requires Keyed(db) && !HasNested(d)
    ensures UpdateArticle(db, id, d) == UpdateArticleAsWritten(db, id, d)
  {
    var found := FindArticle(db.articles, id);
    if found.Some? && WriteErrors(d, true) == {} {
      var b := found.value;
      var r := PutArticle(db, b);
      assert r.articles == db.articles;
    }
  }

  // ------------------------------------------------------------ CommentManager

  /** A comment payload: the article it is about (which the serializer as
      written has no field for) and the text. */
  datatype CommentData = CommentData(article: Option<nat>, content: Option<string>)

  /** The comment text is a `TextField`: no length limit. */
  predicate CommentTextOk(x: Option<string>, partial: bool) {
    StringOk(x, partial, None)
  }

  /** `CommentManager.get`. */
  function GetComment(db: Db, id: nat): (r: Reply<Comment>)
    ensures r.Ok? || r == NotFound(CommentNotFound)
    ensures r.Ok? <==> exists c :: c in db.comments && c.id == id
    ensures r.Ok? ==> r.value in db.comments && r.value.id == id
  {
    match FindComment(db.comments, id)
    case None => NotFound(CommentNotFound)
    case Some(c) => Ok(c)
  }

  /** `CommentManager.create` as written: the serializer validates only the
      text, so a valid payload is saved without an article and the
      database's NOT NULL constraint on the comment's article fails. */
  function CreateCommentAsWritten(db: Db, d: CommentData, user: string): (o: Outcome<Comment>)
    ensures o.db == db
    ensures !CommentTextOk(d.content, false) <==> o.reply == BadRequest({ContentField})
    ensures CommentTextOk(d.content, false) <==> o.reply == ServerError
  {
    if !CommentTextOk(d.content, false) then Outcome(db, BadRequest({ContentField}))
    else Outcome(db, ServerError)
  }

  /** Whatever the payload, no comment is ever created, not even one naming an
      existing article. */
  lemma CreateCommentAsWrittenNeverCreates(db: Db, d: CommentData, user: string)
    ensures var o := CreateCommentAsWritten(db, d, user);
            !o.reply.Created? && o.db == db && Status(o.reply) in {400, 500}
  {
  }

  function CommentErrors(db: Db, d: CommentData): (errs: set<Field>)
    ensures errs <= {ArticleField, ContentField}
    ensures ContentField in errs <==> !CommentTextOk(d.content, false)
    ensures ArticleField in errs <==> d.article.None? || !HasArticle(db, d.article.value)
  {
    (if CommentTextOk(d.content, false) then {} else {ContentField})
    + (if d.article.Some? && HasArticle(db, d.article.value) then {} else {ArticleField})
  }

  /** `CommentManager.create` with the article taken from the payload: 400
      when the text or the article is missing or wrong, otherwise a new comment
      by `user` on that article, and 201. */
  function CreateComment(db: Db, d: CommentData, user: string): (o: Outcome<Comment>)
    ensures o.reply.BadRequest? <==> CommentErrors(db, d) != {}
    ensures o.reply.BadRequest? ==> o.reply.fields == CommentErrors(db, d) && o.db == db
    ensures !o.reply.BadRequest? ==>
              o.reply.Created?
              && o.reply.value == Comment(o.reply.value.id, d.article.value, user, Clean(d.content))
              && o.db == db.(comments := db.comments + [o.reply.value])
              && forall c :: c in db.comments ==> c.id != o.reply.value.id
  {
    var errs := CommentErrors(db, d);
    if errs != {} then Outcome(db, BadRequest(errs))
    else
      var add := AddComment(db, d.article.value, user, Clean(d.content));
      Outcome(add.db, Created(Comment(add.id, d.article.value, user, Clean(d.content))))
  }

  /** A created comment keeps the database well formed, is found by a get,
      and shows on its article. */
  lemma CreateCommentStores(db: Db, d: CommentData, user: string)
    requires Wf(db)
    ensures var o := CreateComment(db, d, user);
            Wf(o.db)
            && (o.reply.Created? ==>
                  GetComment(o.db, o.reply.value.id) == Ok(o.reply.value)
                  && var a := FindArticle(o.db.articles, d.article.value);
                     a.Some? && o.reply.value in View(o.db, a.value).comments)
  {
    var o := CreateComment(db, d, user);
    if o.reply.Created? {
      AddCommentKeepsWf(db, d.article.value, user, Clean(d.content));
      assert o.reply.value in o.db.comments;
      var found := FindComment(o.db.comments, o.reply.value.id);
      assert found.Some? && found.value == o.reply.value;
    }
  }

  /** `CommentManager.update` (partial): 404 for a missing id, 400 for a
      blank text, otherwise the text replaced when given; the article and
      the author never change. */
  function UpdateComment(db: Db, id: nat, d: CommentData): (o: Outcome<Comment>)
    ensures !(exists c :: c in db.comments && c.id == id) ==> o == Outcome(db, NotFound(CommentNotFound))
    ensures o.reply.BadRequest? ==> o.reply.fields == {ContentField} && o.db == db
    ensures o.reply.Ok? ==>
              var before := FindComment(db.comments, id).value;
              o.reply.value == before.(content := if d.content.Some? then Clean(d.content) else before.content)
              && o.db == PutComment(db, o.reply.value)
    ensures (exists c :: c in db.comments && c.id == id) ==>
              (o.reply.BadRequest? <==> !CommentTextOk(d.content, true))
              && (o.reply.Ok? <==> CommentTextOk(d.content, true))
  {
    match FindComment(db.comments, id)
    case None => Outcome(db, NotFound(CommentNotFound))
    case Some(c) =>
      if !CommentTextOk(d.content, true) then Outcome(db, BadRequest({ContentField}))
      else
        var after := c.(content := if d.content.Some? then Clean(d.content) else c.content);
        Outcome(PutComment(db, after), Ok(after))
  }

  /** An update keeps the database well formed, a later get returns the
      updated comment, and every other comment is kept. */
  lemma UpdateCommentStores(db: Db, id: nat, d: CommentData)
    requires Wf(db)
    ensures var o := UpdateComment(db, id, d);
            Wf(o.db)
            && (o.reply.Ok? ==>
                  GetComment(o.db, id) == o.reply
                  && forall c :: c in db.comments && c.id != id ==> c in o.db.comments)
  {
    var o := UpdateComment(db, id, d);
    if o.reply.Ok? {
      var before := FindComment(db.comments, id).value;
      PutCommentKeepsWf(db, o.reply.value);
      PutCommentRows(db, o.reply.value);
      var found := FindComment(o.db.comments, id);
      assert found.Some? && found.value == o.reply.value;
    }
  }

  /** Sending the same text twice leaves the same database as sending it once. */
  lemma UpdateCommentIdempotent(db: Db, id: nat, d: CommentData)
    requires Wf(db)
    ensures var o := UpdateComment(db, id, d);
            o.reply.Ok? ==> UpdateComment(o.db, id, d) == o
  {
    var o := UpdateComment(db, id, d);
    if o.reply.Ok? {
      UpdateCommentStores(db, id, d);
      PutCommentRows(db, o.reply.value);
      var r := PutComment(o.db, o.reply.value);
      forall k | 0 <= k < |r.comments|
        ensures r.comments[k] == o.db.comments[k]
      {
        assert o.db.comments[k] in o.db.comments;
      }
      assert r.comments == o.db.comments;
    }
  }

  /** `CommentManager.delete`: 404 for a missing id, else only that comment
      goes, and the answer is 204. */
  function DeleteCommentById(db: Db, id: nat): (o: Outcome<Comment>)
    ensures !(exists c :: c in db.comments && c.id == id) ==> o == Outcome(db, NotFound(CommentNotFound))
    ensures (exists c :: c in db.comments && c.id == id) ==>
              o.reply == NoContent && o.db == db.(comments := o.db.comments)
              && forall c :: c in o.db.comments <==> c in db.comments && c.id != id
    ensures Wf(db) ==> Wf(o.db)
  {
    match FindComment(db.comments, id)
    case None => Outcome(db, NotFound(CommentNotFound))
    case Some(_) => Outcome(RemoveComment(db, id), NoContent)
  }

  /** After a delete, get answers 404 and a second delete too. */
  lemma GetCommentAfterDelete(db: Db, id: nat)
    ensures var o := DeleteCommentById(db, id);
            GetComment(o.db, id) == NotFound(CommentNotFound)
            && DeleteCommentById(o.db, id) == Outcome(o.db, NotFound(CommentNotFound))
  {
  }
}
