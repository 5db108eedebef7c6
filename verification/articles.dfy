/** The article app's tables: categories, tags, articles with their
    many-to-many tag links, per-language contents and comments; the relational
    invariants the schema declares, the string forms, and the deletion
    cascades (`CASCADE` from article and from user, `SET_NULL` from category). */
module Articles {
  import opened Wrappers
  import opened Text

  const CategoryNameMax := 100
  const TagNameMax := 50
  const LanguageMax := 5
  const TitleMax := 200

  datatype Category = Category(id: nat, name: string)
  datatype Tag = Tag(id: nat, name: string)
  /** `author` is the key (the email address) of the owning user; `tags` lists
      the ids of the linked tags, one link per tag. */
  datatype Article = Article(id: nat, author: string, category: Option<nat>, tags: seq<nat>)
  datatype Content = Content(id: nat, article: nat, language: string, title: string, body: string)
  datatype Comment = Comment(id: nat, article: nat, user: string, content: string)

  /** The five tables, each in primary-key order. */
  datatype Db = Db(
    categories: seq<Category>,
    tags: seq<Tag>,
    articles: seq<Article>,
    contents: seq<Content>,
    comments: seq<Comment>)

  // ------------------------------------------------------------ sequences

  predicate NoDuplicates<T(==)>(s: seq<T>) {
    forall i, j :: 0 <= i < j < |s| ==> s[i] != s[j]
  }

  /** The step every order-keeping filter takes: keeping the head in front of a
      duplicate-free selection from the tail stays duplicate-free. */
  lemma FilterStep<T>(s: seq<T>, t: seq<T>)
    requires s != [] && forall x :: x in t ==> x in s[1..]
    requires NoDuplicates(s[1..]) ==> NoDuplicates(t)
    ensures NoDuplicates(s) ==> NoDuplicates(t) && NoDuplicates([s[0]] + t)
  {
    if NoDuplicates(s) {
      var tail := s[1..];
      assert NoDuplicates(tail) by {
        forall i, j | 0 <= i < j < |tail|
          ensures tail[i] != tail[j]
        {
          assert tail[i] == s[i + 1] && tail[j] == s[j + 1];
        }
      }
      assert s[0] !in tail by {
        forall k | 0 <= k < |tail|
          ensures tail[k] != s[0]
        {
          assert tail[k] == s[k + 1];
        }
      }
      var r := [s[0]] + t;
      forall i, j | 0 <= i < j < |r|
        ensures r[i] != r[j]
      {
        assert r[j] == t[j - 1];
        if i > 0 {
          assert r[i] == t[i - 1];
        }
      }
    }
  }

  /** Appending elements that are new and pairwise distinct keeps a sequence
      duplicate-free. */
  lemma NoDuplicatesConcat<T>(s: seq<T>, t: seq<T>)
    requires NoDuplicates(s) && NoDuplicates(t)
    requires forall x :: x in t ==> x !in s
    ensures NoDuplicates(s + t)
  {
    var r := s + t;
    forall i, j | 0 <= i < j < |r|
      ensures r[i] != r[j]
    {
      if j >= |s| {
        assert r[j] == t[j - |s|] && r[j] in t;
        if i < |s| {
          assert r[i] in s;
        } else {
          assert r[i] == t[i - |s|];
        }
      }
    }
  }

  // ------------------------------------------------------------ lookups

  predicate HasCategory(db: Db, id: nat) {
    exists c :: c in db.categories && c.id == id
  }

  predicate HasTag(db: Db, id: nat) {
    exists t :: t in db.tags && t.id == id
  }

  predicate HasArticle(db: Db, id: nat) {
    exists a :: a in db.articles && a.id == id
  }

  /** The name of the category with that id. */
  function CategoryName(cs: seq<Category>, id: nat): (r: Option<string>)
    ensures r.Some? ==> Category(id, r.value) in cs
    ensures r.None? ==> forall c :: c in cs ==> c.id != id
  {
    if cs == [] then None
    else if cs[0].id == id then Some(cs[0].name)
    else CategoryName(cs[1..], id)
  }

  /** The name of the tag with that id. */
  function TagName(ts: seq<Tag>, id: nat): (r: Option<string>)
    ensures r.Some? ==> Tag(id, r.value) in ts
    ensures r.None? ==> forall t :: t in ts ==> t.id != id
  {
    if ts == [] then None
    else if ts[0].id == id then Some(ts[0].name)
    else TagName(ts[1..], id)
  }

  /** `Article.objects.get(id=...)`: the row with that id, if any. */
  function FindArticle(rows: seq<Article>, id: nat): (r: Option<Article>)
    ensures r.Some? ==> r.value in rows && r.value.id == id
    ensures r.None? ==> forall a :: a in rows ==> a.id != id
  {
    if rows == [] then None
    else if rows[0].id == id then Some(rows[0])
    else FindArticle(rows[1..], id)
  }

  /** `Comment.objects.get(id=...)`: the row with that id, if any. */
  function FindComment(cs: seq<Comment>, id: nat): (r: Option<Comment>)
    ensures r.Some? ==> r.value in cs && r.value.id == id
    ensures r.None? ==> forall c :: c in cs ==> c.id != id
  {
    if cs == [] then None
    else if cs[0].id == id then Some(cs[0])
    else FindComment(cs[1..], id)
  }

  /** `article.contents.all()`: the contents of article `id`, in table order. */
  function ContentsOf(cs: seq<Content>, id: nat): (r: seq<Content>)
    ensures forall c :: c in r <==> c in cs && c.article == id
  {
    if cs == [] then []
    else
      var t := ContentsOf(cs[1..], id);
      if cs[0].article == id then [cs[0]] + t else t
  }

  /** `article.comments.all()`: the comments on article `id`, in table order. */
  function CommentsOf(cs: seq<Comment>, id: nat): (r: seq<Comment>)
    ensures forall c :: c in r <==> c in cs && c.article == id
  {
    if cs == [] then []
    else
      var t := CommentsOf(cs[1..], id);
      if cs[0].article == id then [cs[0]] + t else t
  }

  // ------------------------------------------------------------ invariants

  /** Primary keys: no two different rows share an id, and no row is listed twice. */
  predicate Keyed(db: Db) {
    (forall a, b :: a in db.categories && b in db.categories && a.id == b.id ==> a == b)
    && (forall a, b :: a in db.tags && b in db.tags && a.id == b.id ==> a == b)
    && (forall a, b :: a in db.articles && b in db.articles && a.id == b.id ==> a == b)
    && (forall a, b :: a in db.contents && b in db.contents && a.id == b.id ==> a == b)
    && (forall a, b :: a in db.comments && b in db.comments && a.id == b.id ==> a == b)
    && NoDuplicates(db.categories) && NoDuplicates(db.tags) && NoDuplicates(db.articles)
    && NoDuplicates(db.contents) && NoDuplicates(db.comments)
  }

  /** An article's category, when set, and each of its tags exist; a tag is
      linked at most once. */
  predicate ArticleLinks(db: Db) {
    forall a :: a in db.articles ==> Linked(db, a)
  }

  /** The links of one article row. */
  predicate Linked(db: Db, a: Article) {
    (a.category.Some? ==> HasCategory(db, a.category.value))
    && (forall t :: t in a.tags ==> HasTag(db, t))
    && NoDuplicates(a.tags)
  }

  /** Every content and every comment belongs to an existing article. */
  predicate OwnedRows(db: Db) {
    (forall c :: c in db.contents ==> HasArticle(db, c.article))
    && (forall c :: c in db.comments ==> HasArticle(db, c.article))
  }

  /** `unique_together = ('article', 'language')`. */
  predicate OneContentPerLanguage(db: Db) {
    forall c, d :: c in db.contents && d in db.contents && c.article == d.article && c.language == d.language ==> c == d
  }

  /** The `max_length` of each bounded column. */
  predicate Bounded(db: Db) {
    (forall c :: c in db.categories ==> |c.name| <= CategoryNameMax)
    && (forall t :: t in db.tags ==> |t.name| <= TagNameMax)
    && (forall c :: c in db.contents ==> |c.language| <= LanguageMax && |c.title| <= TitleMax)
  }

  predicate Wf(db: Db) {
    Keyed(db) && ArticleLinks(db) && OwnedRows(db) && OneContentPerLanguage(db) && Bounded(db)
  }

  function Empty(): (db: Db)
    ensures Wf(db)
    ensures db.articles == [] && db.contents == [] && db.comments == []
  {
    Db([], [], [], [], [])
  }

  /** With the keys and the uniqueness constraint in place, an article has at
      most one content in a given language: two positions holding one are the
      same position. */
  lemma AtMostOneContentPerLanguage(db: Db, i: nat, j: nat)
    requires Wf(db)
    requires i < |db.contents| && j < |db.contents|
    requires db.contents[i].article == db.contents[j].article
    requires db.contents[i].language == db.contents[j].language
    ensures i == j
  {
    assert db.contents[i] in db.contents && db.contents[j] in db.contents;
  }

  // ------------------------------------------------------------ string forms

  /** `Article.__str__`, given the author's username. */
  function ArticleText(a: Article, username: string): string {
    "Article " + NatToString(a.id) + " by " + username
  }

  /** `ArticleContent.__str__`. */
  function ContentText(c: Content): string {
    c.title + " (" + c.language + ")"
  }

  /** The string form names the article and the author: equal forms mean the
      same id and the same username. */
  lemma ArticleTextDetermines(a: Article, u: string, b: Article, v: string)
    requires ArticleText(a, u) == ArticleText(b, v)
    ensures a.id == b.id && u == v
  {
    var s := ArticleText(a, u);
    var m := NatToString(a.id);
    var n := NatToString(b.id);
    var p := |"Article "|;
    assert s == "Article " + m + " by " + u;
    assert s == "Article " + n + " by " + v;
    assert s[p + |m|] == ' ' && s[p + |n|] == ' ';
    assert |m| == |n|;
    assert s[p..p + |m|] == m;
    assert s[p..p + |n|] == n;
    NatToStringInjective(a.id, b.id);
    assert s[p + |m| + 4..] == u;
    assert s[p + |n| + 4..] == v;
  }

  /** A content's string form gives back its title and language, as long as
      language codes hold no parenthesis. */
  lemma ContentTextDetermines(c: Content, d: Content)
    requires '(' !in c.language && '(' !in d.language
    requires ContentText(c) == ContentText(d)
    ensures c.title == d.title && c.language == d.language
  {
    var s := ContentText(c);
    assert s == c.title + " (" + c.language + ")";
    assert s == d.title + " (" + d.language + ")";
    assert s[|c.title| + 1] == '(' && s[|d.title| + 1] == '(';
    assert |c.title| == |d.title|;
    assert s[..|c.title|] == c.title;
    assert s[..|d.title|] == d.title;
    assert s[|c.title| + 2..|s| - 1] == c.language;
    assert s[|d.title| + 2..|s| - 1] == d.language;
  }

  // ------------------------------------------------------------ cascades

  /** The articles whose id is not in `gone`, in order. */
  function ArticlesApart(rows: seq<Article>, gone: set<nat>): (r: seq<Article>)
    ensures forall a :: a in r <==> a in rows && a.id !in gone
    ensures NoDuplicates(rows) ==> NoDuplicates(r)
  {
    if rows == [] then []
    else
      var t := ArticlesApart(rows[1..], gone);
      FilterStep(rows, t);
      if rows[0].id in gone then t else [rows[0]] + t
  }

  /** The contents of articles not in `gone`, in order. */
  function ContentsApart(cs: seq<Content>, gone: set<nat>): (r: seq<Content>)
    ensures forall c :: c in r <==> c in cs && c.article !in gone
    ensures NoDuplicates(cs) ==> NoDuplicates(r)
  {
    if cs == [] then []
    else
      var t := ContentsApart(cs[1..], gone);
      FilterStep(cs, t);
      if cs[0].article in gone then t else [cs[0]] + t
  }

  /** The comments neither on an article in `gone` nor by a user in `users`. */
  function CommentsApart(cs: seq<Comment>, gone: set<nat>, users: set<string>): (r: seq<Comment>)
    ensures forall c :: c in r <==> c in cs && c.article !in gone && c.user !in users
    ensures NoDuplicates(cs) ==> NoDuplicates(r)
  {
    if cs == [] then []
    else
      var t := CommentsApart(cs[1..], gone, users);
      FilterStep(cs, t);
      if cs[0].article in gone || cs[0].user in users then t else [cs[0]] + t
  }

  /** Removing articles (and everything hanging off them) and the comments of
      some users. */
  function Cascade(db: Db, gone: set<nat>, users: set<string>): (r: Db)
    ensures r.categories == db.categories && r.tags == db.tags
    ensures forall a :: a in r.articles <==> a in db.articles && a.id !in gone
    ensures forall c :: c in r.contents <==> c in db.contents && c.article !in gone
    ensures forall c :: c in r.comments <==> c in db.comments && c.article !in gone && c.user !in users
  {
    db.(articles := ArticlesApart(db.articles, gone),
        contents := ContentsApart(db.contents, gone),
        comments := CommentsApart(db.comments, gone, users))
  }

  lemma CascadeKeepsWf(db: Db, gone: set<nat>, users: set<string>)
    ensures Wf(db) ==> Wf(Cascade(db, gone, users))
  {
    if !Wf(db) {
      return;
    }
    var r := Cascade(db, gone, users);
    forall c | c in r.contents
      ensures HasArticle(r, c.article)
    {
      var a :| a in db.articles && a.id == c.article;
      assert a in r.articles;
    }
    forall c | c in r.comments
      ensures HasArticle(r, c.article)
    {
      var a :| a in db.articles && a.id == c.article;
      assert a in r.articles;
    }
  }

  /** Deleting an article (models.py: `on_delete=CASCADE` on both the contents'
      and the comments' foreign key) removes it, its contents and its comments,
      and nothing else. */
  function DeleteArticle(db: Db, id: nat): (r: Db)
    ensures forall a :: a in r.articles <==> a in db.articles && a.id != id
    ensures forall c :: c in r.contents <==> c in db.contents && c.article != id
    ensures forall c :: c in r.comments <==> c in db.comments && c.article != id
    ensures r.categories == db.categories && r.tags == db.tags
    ensures Wf(db) ==> Wf(r)
  {
    CascadeKeepsWf(db, {id}, {});
    Cascade(db, {id}, {})
  }

  /** The ids of the articles a user wrote. */
  function AuthoredBy(rows: seq<Article>, user: string): set<nat> {
    set a | a in rows && a.author == user :: a.id
  }

  /** Deleting a user removes the articles they wrote (with those articles'
      contents and comments) and every comment they posted. */
  function DeleteUser(db: Db, user: string): (r: Db)
    ensures forall a :: a in r.articles ==> a in db.articles && a.author != user
    ensures forall c :: c in r.comments ==> c in db.comments && c.user != user
    ensures forall c :: c in r.contents ==> c in db.contents
    ensures r.categories == db.categories && r.tags == db.tags
    ensures Wf(db) ==> Wf(r)
  {
    var gone := AuthoredBy(db.articles, user);
    CascadeKeepsWf(db, gone, {user});
    Cascade(db, gone, {user})
  }

  /** Under the keys, a user's deletion keeps every article by someone else,
      with its contents and the comments others posted on it. */
  lemma DeleteUserKeepsOthers(db: Db, user: string)
    requires Wf(db)
    ensures var r := DeleteUser(db, user);
            (forall a :: a in db.articles && a.author != user ==> a in r.articles)
            && (forall c :: c in db.contents && c.article !in AuthoredBy(db.articles, user) ==> c in r.contents)
            && (forall c :: c in db.comments && c.user != user && c.article !in AuthoredBy(db.articles, user) ==>
                  c in r.comments)
  {
    var gone := AuthoredBy(db.articles, user);
  }

  /** The article after its category is deleted. */
  function Uncategorize(a: Article, category: nat): (r: Article)
    ensures r.id == a.id && r.author == a.author && r.tags == a.tags
    ensures r.category == (if a.category == Some(category) then None else a.category)
  {
    if a.category == Some(category) then a.(category := None) else a
  }

  function CategoriesApart(cs: seq<Category>, id: nat): (r: seq<Category>)
    ensures forall c :: c in r <==> c in cs && c.id != id
    ensures NoDuplicates(cs) ==> NoDuplicates(r)
  {
    if cs == [] then []
    else
      var t := CategoriesApart(cs[1..], id);
      FilterStep(cs, t);
      if cs[0].id == id then t else [cs[0]] + t
  }

  /** Deleting a category (`on_delete=SET_NULL`) keeps every article, in place,
      and clears the category of those that had it. */
  function DeleteCategory(db: Db, id: nat): (r: Db)
    ensures forall c :: c in r.categories <==> c in db.categories && c.id != id
    ensures |r.articles| == |db.articles|
    ensures forall k :: 0 <= k < |r.articles| ==>
              r.articles[k].id == db.articles[k].id && r.articles[k].author == db.articles[k].author
              && r.articles[k].tags == db.articles[k].tags
              && r.articles[k].category != Some(id)
              && (db.articles[k].category != Some(id) ==> r.articles[k] == db.articles[k])
    ensures r.tags == db.tags && r.contents == db.contents && r.comments == db.comments
  {
    db.(categories := CategoriesApart(db.categories, id),
        articles := seq(|db.articles|, k requires 0 <= k < |db.articles| => Uncategorize(db.articles[k], id)))
  }

  lemma DeleteCategoryKeepsWf(db: Db, id: nat)
    requires Wf(db)
    ensures Wf(DeleteCategory(db, id))
  {
    DeleteCategoryKeyed(db, id);
    DeleteCategoryLinked(db, id);
    DeleteCategoryOwned(db, id);
  }

  /** Each row of the result is a row of the input with its category cleared
      or kept. */
  lemma DeleteCategoryRows(db: Db, id: nat)
    ensures forall a :: a in DeleteCategory(db, id).articles ==>
              exists b :: b in db.articles && a == Uncategorize(b, id)
  {
    var r := DeleteCategory(db, id);
    forall a | a in r.articles
      ensures exists b :: b in db.articles && a == Uncategorize(b, id)
    {
      var k :| 0 <= k < |r.articles| && r.articles[k] == a;
      assert db.articles[k] in db.articles;
    }
  }

  lemma DeleteCategoryKeyed(db: Db, id: nat)
    requires Keyed(db)
    ensures Keyed(DeleteCategory(db, id))
  {
    var r := DeleteCategory(db, id);
    DeleteCategoryRows(db, id);
    forall a, b | a in r.articles && b in r.articles && a.id == b.id
      ensures a == b
    {
      var a' :| a' in db.articles && a == Uncategorize(a', id);
      var b' :| b' in db.articles && b == Uncategorize(b', id);
    }
    forall i, j | 0 <= i < j < |r.articles|
      ensures r.articles[i] != r.articles[j]
    {
      assert db.articles[i] in db.articles && db.articles[j] in db.articles;
    }
  }

  lemma DeleteCategoryLinked(db: Db, id: nat)
    requires ArticleLinks(db)
    ensures ArticleLinks(DeleteCategory(db, id))
  {
    var r := DeleteCategory(db, id);
    DeleteCategoryRows(db, id);
    forall a | a in r.articles
      ensures Linked(r, a)
    {
      var a' :| a' in db.articles && a == Uncategorize(a', id);
      assert Linked(db, a');
      if a.category.Some? {
        var c :| c in db.categories && c.id == a.category.value;
        assert c in r.categories;
      }
    }
  }

  lemma DeleteCategoryOwned(db: Db, id: nat)
    requires OwnedRows(db)
    ensures OwnedRows(DeleteCategory(db, id))
  {
    var r := DeleteCategory(db, id);
    forall c | c in r.contents
      ensures HasArticle(r, c.article)
    {
      var a :| a in db.articles && a.id == c.article;
      var k :| 0 <= k < |db.articles| && db.articles[k] == a;
      assert r.articles[k] in r.articles;
    }
    forall c | c in r.comments
      ensures HasArticle(r, c.article)
    {
      var a :| a in db.articles && a.id == c.article;
      var k :| 0 <= k < |db.articles| && db.articles[k] == a;
      assert r.articles[k] in r.articles;
    }
  }

  /** The ids in `ids` other than `id`, in order. */
  function IdsApart(ids: seq<nat>, id: nat): (r: seq<nat>)
    ensures forall x :: x in r <==> x in ids && x != id
    ensures NoDuplicates(ids) ==> NoDuplicates(r)
  {
    if ids == [] then []
    else
      var t := IdsApart(ids[1..], id);
      FilterStep(ids, t);
      if ids[0] == id then t else [ids[0]] + t
  }

  function TagsApart(ts: seq<Tag>, id: nat): (r: seq<Tag>)
    ensures forall t :: t in r <==> t in ts && t.id != id
    ensures NoDuplicates(ts) ==> NoDuplicates(r)
  {
    if ts == [] then []
    else
      var t := TagsApart(ts[1..], id);
      FilterStep(ts, t);
      if ts[0].id == id then t else [ts[0]] + t
  }

  /** Deleting a tag removes its many-to-many links; every article stays. */
  function DeleteTag(db: Db, id: nat): (r: Db)
    ensures forall t :: t in r.tags <==> t in db.tags && t.id != id
    ensures |r.articles| == |db.articles|
    ensures forall k :: 0 <= k < |r.articles| ==>
              r.articles[k].id == db.articles[k].id && r.articles[k].author == db.articles[k].author
              && r.articles[k].category == db.articles[k].category
              && forall t :: t in r.articles[k].tags <==> t in db.articles[k].tags && t != id
    ensures r.categories == db.categories && r.contents == db.contents && r.comments == db.comments
  {
    db.(tags := TagsApart(db.tags, id),
        articles := seq(|db.articles|, k requires 0 <= k < |db.articles| =>
                      db.articles[k].(tags := IdsApart(db.articles[k].tags, id))))
  }

  lemma DeleteTagKeepsWf(db: Db, id: nat)
    requires Wf(db)
    ensures Wf(DeleteTag(db, id))
  {
    DeleteTagKeyed(db, id);
    DeleteTagLinked(db, id);
    DeleteTagOwned(db, id);
  }

  /** Each row of the result is the row at the same place with the tag unlinked. */
  lemma DeleteTagRows(db: Db, id: nat)
    ensures forall a :: a in DeleteTag(db, id).articles ==>
              exists k :: 0 <= k < |db.articles| && a == db.articles[k].(tags := IdsApart(db.articles[k].tags, id))
  {
    var r := DeleteTag(db, id);
    forall a | a in r.articles
      ensures exists k :: 0 <= k < |db.articles| && a == db.articles[k].(tags := IdsApart(db.articles[k].tags, id))
    {
      var k :| 0 <= k < |r.articles| && r.articles[k] == a;
    }
  }

  lemma DeleteTagKeyed(db: Db, id: nat)
    requires Keyed(db)
    ensures Keyed(DeleteTag(db, id))
  {
    var r := DeleteTag(db, id);
    DeleteTagRows(db, id);
    forall a, b | a in r.articles && b in r.articles && a.id == b.id
      ensures a == b
    {
      var i :| 0 <= i < |db.articles| && a == db.articles[i].(tags := IdsApart(db.articles[i].tags, id));
      var j :| 0 <= j < |db.articles| && b == db.articles[j].(tags := IdsApart(db.articles[j].tags, id));
      assert db.articles[i] in db.articles && db.articles[j] in db.articles;
    }
    forall i, j | 0 <= i < j < |r.articles|
      ensures r.articles[i] != r.articles[j]
    {
      assert db.articles[i] in db.articles && db.articles[j] in db.articles;
    }
  }

  lemma DeleteTagLinked(db: Db, id: nat)
    requires ArticleLinks(db)
    ensures ArticleLinks(DeleteTag(db, id))
  {
    var r := DeleteTag(db, id);
    DeleteTagRows(db, id);
    forall a | a in r.articles
      ensures Linked(r, a)
    {
      var k :| 0 <= k < |db.articles| && a == db.articles[k].(tags := IdsApart(db.articles[k].tags, id));
      assert db.articles[k] in db.articles;
      assert Linked(db, db.articles[k]);
      forall t | t in a.tags
        ensures HasTag(r, t)
      {
        var g :| g in db.tags && g.id == t;
        assert g in r.tags;
      }
    }
  }

  lemma DeleteTagOwned(db: Db, id: nat)
    requires OwnedRows(db)
    ensures OwnedRows(DeleteTag(db, id))
  {
    var r := DeleteTag(db, id);
    forall c | c in r.contents
      ensures HasArticle(r, c.article)
    {
      var a :| a in db.articles && a.id == c.article;
      var k :| 0 <= k < |db.articles| && db.articles[k] == a;
      assert r.articles[k] in r.articles;
    }
    forall c | c in r.comments
      ensures HasArticle(r, c.article)
    {
      var a :| a in db.articles && a.id == c.article;
      var k :| 0 <= k < |db.articles| && db.articles[k] == a;
      assert r.articles[k] in r.articles;
    }
  }
}
