/** Row-level writes the managers need — inserting a category, tags, an
    article, contents or a comment, replacing a row by its id, deleting one
    comment — each with the proof that it keeps the database well formed. */
module Writes {
  import opened Wrappers
  import opened Articles

  /** The auto-increment value a new row receives: above every id in use. */
  function NextId<T>(rows: seq<T>, key: T -> nat): (n: nat)
    ensures n > 0 && forall x :: x in rows ==> key(x) < n
  {
    if rows == [] then 1
    else
      var m := NextId(rows[1..], key);
      if key(rows[0]) < m then m else key(rows[0]) + 1
  }

  function CategoryKey(c: Category): nat { c.id }
  function TagKey(t: Tag): nat { t.id }
  function ArticleKey(a: Article): nat { a.id }
  function ContentKey(c: Content): nat { c.id }
  function CommentKey(c: Comment): nat { c.id }

  /** Keys are unique in `s`, and no row is listed twice. */
  predicate KeyedBy<T(==)>(s: seq<T>, key: T -> nat) {
    (forall a, b :: a in s && b in s && key(a) == key(b) ==> a == b) && NoDuplicates(s)
  }

  /** Appending rows with new, pairwise distinct keys keeps a table keyed. */
  lemma AppendKeyed<T>(s: seq<T>, t: seq<T>, key: T -> nat)
    requires KeyedBy(s, key)
    requires forall i, j :: 0 <= i < j < |t| ==> key(t[i]) != key(t[j])
    requires forall x, y :: x in s && y in t ==> key(x) != key(y)
    ensures KeyedBy(s + t, key)
  {
    assert NoDuplicates(t) by {
      forall i, j | 0 <= i < j < |t|
        ensures t[i] != t[j]
      {
      }
    }
    NoDuplicatesConcat(s, t);
    forall a, b | a in s + t && b in s + t && key(a) == key(b)
      ensures a == b
    {
      if a in t && b in t {
        var i :| 0 <= i < |t| && t[i] == a;
        var j :| 0 <= j < |t| && t[j] == b;
        assert !(i < j) && !(j < i);
      }
    }
  }

  /** An article's links stay valid while the categories and tags only grow. */
  lemma LinkedGrow(db: Db, next: Db, a: Article)
    requires Linked(db, a)
    requires forall c :: c in db.categories ==> c in next.categories
    requires forall t :: t in db.tags ==> t in next.tags
    ensures Linked(next, a)
  {
    if a.category.Some? {
      var c :| c in db.categories && c.id == a.category.value;
      assert c in next.categories;
    }
    forall t | t in a.tags
      ensures HasTag(next, t)
    {
      var g :| g in db.tags && g.id == t;
      assert g in next.tags;
    }
  }

  lemma LinksGrow(db: Db, next: Db)
    requires ArticleLinks(db) && next.articles == db.articles
    requires forall c :: c in db.categories ==> c in next.categories
    requires forall t :: t in db.tags ==> t in next.tags
    ensures ArticleLinks(next)
  {
    forall a | a in next.articles
      ensures Linked(next, a)
    {
      LinkedGrow(db, next, a);
    }
  }

  // ------------------------------------------------------------ categories

  datatype Added = Added(db: Db, id: nat)

  /** `Category.objects.create(name=...)`. */
  function AddCategory(db: Db, name: string): (r: Added)
    ensures forall c :: c in db.categories ==> c.id != r.id
    ensures r.db == db.(categories := db.categories + [Category(r.id, name)])
  {
    var id := NextId(db.categories, CategoryKey);
    Added(db.(categories := db.categories + [Category(id, name)]), id)
  }

  /** The new category is found under its id, with the given name. */
  lemma AddCategoryFinds(db: Db, name: string)
    requires Keyed(db)
    ensures var r := AddCategory(db, name);
            HasCategory(r.db, r.id) && CategoryName(r.db.categories, r.id) == Some(name)
  {
    var r := AddCategory(db, name);
    assert Category(r.id, name) in r.db.categories;
    var n := CategoryName(r.db.categories, r.id);
    if n.Some? {
      assert Category(r.id, n.value) in r.db.categories;
    }
  }

  lemma AddCategoryKeepsWf(db: Db, name: string)
    requires Wf(db) && |name| <= CategoryNameMax
    ensures Wf(AddCategory(db, name).db)
  {
    var r := AddCategory(db, name);
    assert KeyedBy(db.categories, CategoryKey);
    AppendKeyed(db.categories, [Category(r.id, name)], CategoryKey);
    LinksGrow(db, r.db);
  }

  // ------------------------------------------------------------ tags

  datatype AddedMany = AddedMany(db: Db, ids: seq<nat>)

  /** `Tag.objects.create(name=...)` for each name, in order. */
  function AddTags(db: Db, names: seq<string>): (r: AddedMany)
    ensures |r.ids| == |names| && r.db.articles == db.articles
    ensures r.db == db.(tags := db.tags + seq(|names|, k requires 0 <= k < |names| => Tag(r.ids[k], names[k])))
    ensures forall i, j :: 0 <= i < j < |r.ids| ==> r.ids[i] != r.ids[j]
    ensures forall t, k :: t in db.tags && 0 <= k < |r.ids| ==> t.id != r.ids[k]
  {
    var base := NextId(db.tags, TagKey);
    var ids := seq(|names|, k requires 0 <= k < |names| => base + k);
    AddedMany(db.(tags := db.tags + seq(|names|, k requires 0 <= k < |names| => Tag(ids[k], names[k]))), ids)
  }

  /** Each new tag is found under its id, with its name. */
  lemma AddTagsFinds(db: Db, names: seq<string>, k: nat)
    requires Keyed(db) && k < |names|
    ensures var r := AddTags(db, names);
            HasTag(r.db, r.ids[k]) && TagName(r.db.tags, r.ids[k]) == Some(names[k])
  {
    var r := AddTags(db, names);
    var added := seq(|names|, k requires 0 <= k < |names| => Tag(r.ids[k], names[k]));
    assert r.db.tags[|db.tags| + k] == added[k];
    var n := TagName(r.db.tags, r.ids[k]);
    if n.Some? {
      var g := Tag(r.ids[k], n.value);
      assert g in r.db.tags;
      if g in db.tags {
      } else {
        var j :| 0 <= j < |added| && added[j] == g;
        assert !(j < k) && !(k < j);
      }
    }
  }

  lemma AddTagsKeepsWf(db: Db, names: seq<string>)
    requires Wf(db) && forall k :: 0 <= k < |names| ==> |names[k]| <= TagNameMax
    ensures Wf(AddTags(db, names).db)
  {
    var r := AddTags(db, names);
    var added := seq(|names|, k requires 0 <= k < |names| => Tag(r.ids[k], names[k]));
    assert KeyedBy(db.tags, TagKey);
    forall x, y | x in db.tags && y in added
      ensures TagKey(x) != TagKey(y)
    {
      var k :| 0 <= k < |added| && added[k] == y;
    }
    AppendKeyed(db.tags, added, TagKey);
    LinksGrow(db, r.db);
  }

  // ------------------------------------------------------------ articles

  /** `Article.objects.create(author=...)`: no category and no tags yet. */
  function InsertArticle(db: Db, author: string): (r: Added)
    ensures forall a :: a in db.articles ==> a.id != r.id
    ensures r.db == db.(articles := db.articles + [Article(r.id, author, None, [])])
  {
    var id := NextId(db.articles, ArticleKey);
    Added(db.(articles := db.articles + [Article(id, author, None, [])]), id)
  }

  lemma InsertArticleKeepsWf(db: Db, author: string)
    requires Wf(db)
    ensures Wf(InsertArticle(db, author).db)
  {
    var r := InsertArticle(db, author);
    assert KeyedBy(db.articles, ArticleKey);
    AppendKeyed(db.articles, [Article(r.id, author, None, [])], ArticleKey);
    forall a | a in r.db.articles
      ensures Linked(r.db, a)
    {
      if a in db.articles {
        assert Linked(db, a);
      }
    }
    forall c | c in r.db.contents
      ensures HasArticle(r.db, c.article)
    {
      var a :| a in db.articles && a.id == c.article;
      assert a in r.db.articles;
    }
    forall c | c in r.db.comments
      ensures HasArticle(r.db, c.article)
    {
      var a :| a in db.articles && a.id == c.article;
      assert a in r.db.articles;
    }
  }

  /** `article.save()`: the row with the same id is replaced, in place. */
  function PutArticle(db: Db, a: Article): (r: Db)
    ensures |r.articles| == |db.articles|
    ensures forall k :: 0 <= k < |r.articles| ==>
              r.articles[k] == (if db.articles[k].id == a.id then a else db.articles[k])
    ensures r == db.(articles := r.articles)
  {
    db.(articles := seq(|db.articles|, k requires 0 <= k < |db.articles| =>
                      if db.articles[k].id == a.id then a else db.articles[k]))
  }

  /** After the save, the row is the new one and every other row is untouched. */
  lemma PutArticleRows(db: Db, a: Article)
    requires HasArticle(db, a.id)
    ensures var r := PutArticle(db, a);
            a in r.articles
            && (forall b :: b in r.articles <==> b == a || (b in db.articles && b.id != a.id))
  {
    var r := PutArticle(db, a);
    var b :| b in db.articles && b.id == a.id;
    var i :| 0 <= i < |db.articles| && db.articles[i] == b;
    assert r.articles[i] == a;
    forall x | x in db.articles && x.id != a.id
      ensures x in r.articles
    {
      var k :| 0 <= k < |db.articles| && db.articles[k] == x;
      assert r.articles[k] == x;
    }
  }

  lemma PutArticleKeyed(db: Db, a: Article)
    requires Keyed(db)
    ensures Keyed(PutArticle(db, a))
  {
    var r := PutArticle(db, a);
    forall x, y | x in r.articles && y in r.articles && x.id == y.id
      ensures x == y
    {
      var i :| 0 <= i < |r.articles| && r.articles[i] == x;
      var j :| 0 <= j < |r.articles| && r.articles[j] == y;
      assert db.articles[i] in db.articles && db.articles[j] in db.articles;
    }
    forall i, j | 0 <= i < j < |r.articles|
      ensures r.articles[i] != r.articles[j]
    {
      assert db.articles[i] in db.articles && db.articles[j] in db.articles;
    }
  }

  lemma PutArticleKeepsWf(db: Db, a: Article)
    requires Wf(db) && HasArticle(db, a.id) && Linked(db, a)
    ensures Wf(PutArticle(db, a))
  {
    var r := PutArticle(db, a);
    PutArticleKeyed(db, a);
    PutArticleRows(db, a);
    forall b | b in r.articles
      ensures Linked(r, b)
    {
      if b != a {
        assert Linked(db, b);
      }
    }
    forall c | c in r.contents
      ensures HasArticle(r, c.article)
    {
      var b :| b in db.articles && b.id == c.article;
      if b.id == a.id {
        assert a in r.articles;
      } else {
        assert b in r.articles;
      }
    }
    forall c | c in r.comments
      ensures HasArticle(r, c.article)
    {
      var b :| b in db.articles && b.id == c.article;
      if b.id == a.id {
        assert a in r.articles;
      } else {
        assert b in r.articles;
      }
    }
  }

  // ------------------------------------------------------------ contents

  /** One translation as the payload gives it, already cleaned. */
  datatype Entry = Entry(language: string, title: string, body: string)

  /** The rows `article`'s new contents become, numbered from `base`. */
  function ContentRows(base: nat, article: nat, es: seq<Entry>): (r: seq<Content>)
    ensures |r| == |es|
    ensures forall k :: 0 <= k < |r| ==>
              r[k] == Content(base + k, article, es[k].language, es[k].title, es[k].body)
  {
    seq(|es|, k requires 0 <= k < |es| => Content(base + k, article, es[k].language, es[k].title, es[k].body))
  }

  /** Replacing an article's contents: its old rows go, the new ones are
      appended under fresh ids; no other article's contents change. */
  function ReplaceContents(db: Db, article: nat, es: seq<Entry>): (r: Db)
    ensures r == db.(contents := r.contents)
    ensures forall c :: c in db.contents && c.article != article ==> c in r.contents
    ensures forall c :: c in r.contents && c.article != article ==> c in db.contents
  {
    var base := NextId(db.contents, ContentKey);
    db.(contents := ContentsApart(db.contents, {article}) + ContentRows(base, article, es))
  }

  lemma {:induction false} ContentsOfConcat(s: seq<Content>, t: seq<Content>, id: nat)
    ensures ContentsOf(s + t, id) == ContentsOf(s, id) + ContentsOf(t, id)
    decreases |s|
  {
    if s == [] {
      assert s + t == t;
    } else {
      assert (s + t)[1..] == s[1..] + t;
      ContentsOfConcat(s[1..], t, id);
    }
  }

  lemma {:induction false} ContentsOfAll(cs: seq<Content>, id: nat)
    requires forall k :: 0 <= k < |cs| ==> cs[k].article == id
    ensures ContentsOf(cs, id) == cs
    decreases |cs|
  {
    if cs != [] {
      ContentsOfAll(cs[1..], id);
    }
  }

  lemma {:induction false} ContentsOfNone(cs: seq<Content>, id: nat)
    requires forall c :: c in cs ==> c.article != id
    ensures ContentsOf(cs, id) == []
    decreases |cs|
  {
    if cs != [] {
      assert cs[0] in cs;
      ContentsOfNone(cs[1..], id);
    }
  }

  /** The article's contents afterwards are exactly the entries, in order. */
  lemma ReplaceContentsStores(db: Db, article: nat, es: seq<Entry>)
    ensures var v := ContentsOf(ReplaceContents(db, article, es).contents, article);
            |v| == |es|
            && forall k :: 0 <= k < |v| ==>
                 v[k].article == article && v[k].language == es[k].language
                 && v[k].title == es[k].title && v[k].body == es[k].body
  {
    var base := NextId(db.contents, ContentKey);
    var rest := ContentsApart(db.contents, {article});
    var added := ContentRows(base, article, es);
    ContentsOfConcat(rest, added, article);
    ContentsOfNone(rest, article);
    ContentsOfAll(added, article);
  }

  /** Distinct languages, as `unique_together` needs within one article. */
  predicate DistinctLanguages(es: seq<Entry>) {
    forall i, j :: 0 <= i < j < |es| ==> es[i].language != es[j].language
  }

  predicate EntriesBounded(es: seq<Entry>) {
    forall k :: 0 <= k < |es| ==> |es[k].language| <= LanguageMax && |es[k].title| <= TitleMax
  }

  lemma ReplaceContentsKeyed(db: Db, article: nat, es: seq<Entry>)
    requires Keyed(db)
    ensures Keyed(ReplaceContents(db, article, es))
  {
    var base := NextId(db.contents, ContentKey);
    var rest := ContentsApart(db.contents, {article});
    var added := ContentRows(base, article, es);
    assert KeyedBy(rest, ContentKey);
    forall x, y | x in rest && y in added
      ensures ContentKey(x) != ContentKey(y)
    {
      var k :| 0 <= k < |added| && added[k] == y;
    }
    AppendKeyed(rest, added, ContentKey);
  }

  lemma ReplaceContentsOneLanguage(db: Db, article: nat, es: seq<Entry>)
    requires OneContentPerLanguage(db) && DistinctLanguages(es)
    ensures OneContentPerLanguage(ReplaceContents(db, article, es))
  {
    var r := ReplaceContents(db, article, es);
    var base := NextId(db.contents, ContentKey);
    var added := ContentRows(base, article, es);
    assert r.contents == ContentsApart(db.contents, {article}) + added;
    forall c, d | c in r.contents && d in r.contents && c.article == d.article && c.language == d.language
      ensures c == d
    {
      if c.article == article {
        var i :| 0 <= i < |added| && added[i] == c;
        var j :| 0 <= j < |added| && added[j] == d;
        assert !(i < j) && !(j < i);
      }
    }
  }

  lemma ReplaceContentsKeepsWf(db: Db, article: nat, es: seq<Entry>)
    requires Wf(db) && HasArticle(db, article) && DistinctLanguages(es) && EntriesBounded(es)
    ensures Wf(ReplaceContents(db, article, es))
  {
    var r := ReplaceContents(db, article, es);
    var base := NextId(db.contents, ContentKey);
    var added := ContentRows(base, article, es);
    assert r.contents == ContentsApart(db.contents, {article}) + added;
    ReplaceContentsKeyed(db, article, es);
    ReplaceContentsOneLanguage(db, article, es);
    forall c | c in r.contents
      ensures HasArticle(r, c.article) && |c.language| <= LanguageMax && |c.title| <= TitleMax
    {
      if c in added {
        var k :| 0 <= k < |added| && added[k] == c;
      }
    }
  }

  // ------------------------------------------------------------ comments

  /** `Comment.objects.create(article=..., user=..., content=...)`. */
  function AddComment(db: Db, article: nat, user: string, content: string): (r: Added)
    ensures forall c :: c in db.comments ==> c.id != r.id
    ensures r.db == db.(comments := db.comments + [Comment(r.id, article, user, content)])
  {
    var id := NextId(db.comments, CommentKey);
    Added(db.(comments := db.comments + [Comment(id, article, user, content)]), id)
  }

  lemma AddCommentKeepsWf(db: Db, article: nat, user: string, content: string)
    requires Wf(db) && HasArticle(db, article)
    ensures Wf(AddComment(db, article, user, content).db)
  {
    var r := AddComment(db, article, user, content);
    assert KeyedBy(db.comments, CommentKey);
    AppendKeyed(db.comments, [Comment(r.id, article, user, content)], CommentKey);
  }

  /** `comment.save()`: the row with the same id is replaced, in place. */
  function PutComment(db: Db, c: Comment): (r: Db)
    ensures |r.comments| == |db.comments|
    ensures forall k :: 0 <= k < |r.comments| ==>
              r.comments[k] == (if db.comments[k].id == c.id then c else db.comments[k])
    ensures r == db.(comments := r.comments)
  {
    db.(comments := seq(|db.comments|, k requires 0 <= k < |db.comments| =>
                      if db.comments[k].id == c.id then c else db.comments[k]))
  }

  /** After the save the row is the new one, and the other comments are kept. */
  lemma PutCommentRows(db: Db, c: Comment)
    requires exists d :: d in db.comments && d.id == c.id
    ensures var r := PutComment(db, c);
            c in r.comments && (forall d :: d in r.comments <==> d == c || (d in db.comments && d.id != c.id))
  {
    var r := PutComment(db, c);
    var d :| d in db.comments && d.id == c.id;
    var i :| 0 <= i < |db.comments| && db.comments[i] == d;
    assert r.comments[i] == c;
    forall x | x in db.comments && x.id != c.id
      ensures x in r.comments
    {
      var k :| 0 <= k < |db.comments| && db.comments[k] == x;
      assert r.comments[k] == x;
    }
  }

  lemma PutCommentKeyed(db: Db, c: Comment)
    requires Keyed(db)
    ensures Keyed(PutComment(db, c))
  {
    var r := PutComment(db, c);
    forall x, y | x in r.comments && y in r.comments && x.id == y.id
      ensures x == y
    {
      var i :| 0 <= i < |r.comments| && r.comments[i] == x;
      var j :| 0 <= j < |r.comments| && r.comments[j] == y;
      assert db.comments[i] in db.comments && db.comments[j] in db.comments;
    }
    forall i, j | 0 <= i < j < |r.comments|
      ensures r.comments[i] != r.comments[j]
    {
      assert db.comments[i] in db.comments && db.comments[j] in db.comments;
    }
  }

  lemma PutCommentKeepsWf(db: Db, c: Comment)
    requires Wf(db) && HasArticle(db, c.article)
    ensures Wf(PutComment(db, c))
  {
    var r := PutComment(db, c);
    PutCommentKeyed(db, c);
    forall x | x in r.comments
      ensures HasArticle(r, x.article)
    {
      var k :| 0 <= k < |r.comments| && r.comments[k] == x;
      assert db.comments[k] in db.comments;
    }
  }

  /** The comments other than the one with that id, in order. */
  function CommentsWithout(cs: seq<Comment>, id: nat): (r: seq<Comment>)
    ensures forall c :: c in r <==> c in cs && c.id != id
    ensures NoDuplicates(cs) ==> NoDuplicates(r)
  {
    if cs == [] then []
    else
      var t := CommentsWithout(cs[1..], id);
      FilterStep(cs, t);
      if cs[0].id == id then t else [cs[0]] + t
  }

  /** `comment.delete()`: nothing hangs off a comment, so only that row goes. */
  function RemoveComment(db: Db, id: nat): (r: Db)
    ensures r == db.(comments := r.comments)
    ensures forall c :: c in r.comments <==> c in db.comments && c.id != id
    ensures Wf(db) ==> Wf(r)
  {
    db.(comments := CommentsWithout(db.comments, id))
  }
}
