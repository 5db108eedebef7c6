/** Article search: `ArticleSearchManager.search` (tag, category and keyword
    filters applied in turn to the article table) and the list filter's
    title-only keyword method. A filter across a to-many relation is a join:
    an article row comes out once per related row that matches, until a
    `.distinct()` folds the repeats. */
module ArticleSearch {
  import opened Wrappers
  import opened Text
  import opened Articles

  /** A query argument takes effect only when it is a non-empty string. */
  predicate Truthy(arg: Option<string>) {
    arg.Some? && arg.value != ""
  }

  /** The to-many relations the filters follow: the tag links (matched on the
      tag's name) and the contents (matched on title, or title and body, by
      case-insensitive substring). */
  datatype Join = TagNamed(name: string) | ContentMentions(keyword: string, titleOnly: bool)

  predicate Mentions(c: Content, keyword: string, titleOnly: bool) {
    IContains(c.title, keyword) || (!titleOnly && IContains(c.body, keyword))
  }

  predicate TaggedWith(db: Db, a: Article, name: string) {
    exists t :: t in a.tags && TagName(db.tags, t) == Some(name)
  }

  predicate Mentioned(db: Db, a: Article, keyword: string, titleOnly: bool) {
    exists c :: c in db.contents && c.article == a.id && Mentions(c, keyword, titleOnly)
  }

  predicate Related(db: Db, a: Article, j: Join) {
    match j
    case TagNamed(name) => TaggedWith(db, a, name)
    case ContentMentions(keyword, titleOnly) => Mentioned(db, a, keyword, titleOnly)
  }

  predicate InCategory(db: Db, a: Article, name: string) {
    a.category.Some? && CategoryName(db.categories, a.category.value) == Some(name)
  }

  /** How many of the linked tags carry that name. */
  function CountTags(ts: seq<Tag>, ids: seq<nat>, name: string): nat {
    if ids == [] then 0
    else (if TagName(ts, ids[0]) == Some(name) then 1 else 0) + CountTags(ts, ids[1..], name)
  }

  lemma {:induction false} CountTagsPositive(ts: seq<Tag>, ids: seq<nat>, name: string)
    ensures CountTags(ts, ids, name) > 0 <==> exists t :: t in ids && TagName(ts, t) == Some(name)
    decreases |ids|
  {
    if ids != [] {
      CountTagsPositive(ts, ids[1..], name);
      if TagName(ts, ids[0]) == Some(name) {
        assert ids[0] in ids;
      } else {
        assert forall t :: t in ids && t != ids[0] ==> t in ids[1..];
      }
    }
  }

  /** How many contents of article `id` mention the keyword. */
  function CountContents(cs: seq<Content>, id: nat, keyword: string, titleOnly: bool): nat {
    if cs == [] then 0
    else
      (if cs[0].article == id && Mentions(cs[0], keyword, titleOnly) then 1 else 0)
      + CountContents(cs[1..], id, keyword, titleOnly)
  }

  lemma {:induction false} CountContentsPositive(cs: seq<Content>, id: nat, keyword: string, titleOnly: bool)
    ensures CountContents(cs, id, keyword, titleOnly) > 0
            <==> exists c :: c in cs && c.article == id && Mentions(c, keyword, titleOnly)
    decreases |cs|
  {
    if cs != [] {
      CountContentsPositive(cs[1..], id, keyword, titleOnly);
      if cs[0].article == id && Mentions(cs[0], keyword, titleOnly) {
        assert cs[0] in cs;
      } else {
        assert forall c :: c in cs && c != cs[0] ==> c in cs[1..];
      }
    }
  }

  /** The number of joined rows one article contributes. */
  function Matches(db: Db, a: Article, j: Join): nat {
    match j
    case TagNamed(name) => CountTags(db.tags, a.tags, name)
    case ContentMentions(keyword, titleOnly) => CountContents(db.contents, a.id, keyword, titleOnly)
  }

  /** An article contributes a joined row exactly when it is related. */
  lemma MatchesMeaning(db: Db, j: Join)
    ensures forall a :: Matches(db, a, j) > 0 <==> Related(db, a, j)
  {
    forall a
      ensures Matches(db, a, j) > 0 <==> Related(db, a, j)
    {
      match j
      case TagNamed(name) => CountTagsPositive(db.tags, a.tags, name);
      case ContentMentions(keyword, titleOnly) => CountContentsPositive(db.contents, a.id, keyword, titleOnly);
    }
  }

  function Repeat(a: Article, n: nat): (r: seq<Article>)
    ensures |r| == n
    ensures forall x :: x in r ==> x == a
  {
    if n == 0 then [] else [a] + Repeat(a, n - 1)
  }

  lemma {:induction false} RepeatCount(x: Article, n: nat, a: Article)
    ensures multiset(Repeat(x, n))[a] == if x == a then n else 0
    decreases n
  {
    if n > 0 {
      RepeatCount(x, n - 1, a);
      CountConcat([x], Repeat(x, n - 1), a);
    }
  }

  /** `queryset.filter(<relation>__<lookup>=...)`: each row repeated once per
      matching related row, in order. */
  function JoinRows(db: Db, rows: seq<Article>, j: Join): (r: seq<Article>)
    ensures forall a :: a in r <==> a in rows && Matches(db, a, j) > 0
  {
    if rows == [] then []
    else
      assert forall a :: a in rows <==> a == rows[0] || a in rows[1..];
      Repeat(rows[0], Matches(db, rows[0], j)) + JoinRows(db, rows[1..], j)
  }

  /** A join keeps exactly the related rows. */
  lemma JoinKeepsRelated(db: Db, rows: seq<Article>, j: Join)
    ensures forall a :: a in JoinRows(db, rows, j) <==> a in rows && Related(db, a, j)
  {
    MatchesMeaning(db, j);
  }

  /** The join multiplies: an article listed `m` times with `k` matching
      related rows comes out `m * k` times. */
  lemma {:induction false} JoinMultiplicity(db: Db, rows: seq<Article>, j: Join, a: Article)
    ensures multiset(JoinRows(db, rows, j))[a] == multiset(rows)[a] * Matches(db, a, j)
    decreases |rows|
  {
    if rows != [] {
      var x := rows[0];
      var k := Matches(db, a, j);
      var m := multiset(rows[1..])[a];
      JoinMultiplicity(db, rows[1..], j, a);
      JoinUnfold(db, rows, j);
      CountConcat(Repeat(x, Matches(db, x, j)), JoinRows(db, rows[1..], j), a);
      RepeatCount(x, Matches(db, x, j), a);
      CountHead(rows, a);
      if x == a {
        Distribute(m, k);
      }
    }
  }

  lemma CountHead(rows: seq<Article>, a: Article)
    requires rows != []
    ensures multiset(rows)[a] == (if rows[0] == a then 1 else 0) + multiset(rows[1..])[a]
  {
    assert rows == [rows[0]] + rows[1..];
  }

  lemma JoinUnfold(db: Db, rows: seq<Article>, j: Join)
    requires rows != []
    ensures JoinRows(db, rows, j) == Repeat(rows[0], Matches(db, rows[0], j)) + JoinRows(db, rows[1..], j)
  {
  }

  lemma CountConcat(s: seq<Article>, t: seq<Article>, a: Article)
    ensures multiset(s + t)[a] == multiset(s)[a] + multiset(t)[a]
  {
  }

  lemma Distribute(m: nat, k: nat)
    ensures (1 + m) * k == k + m * k
  {
  }

  /** `queryset.filter(category__name=...)`: a to-one relation, so each row is
      kept or dropped, never repeated. */
  function KeepCategory(db: Db, rows: seq<Article>, name: string): (r: seq<Article>)
    ensures forall a :: multiset(r)[a] == if InCategory(db, a, name) then multiset(rows)[a] else 0
  {
    if rows == [] then []
    else
      var t := KeepCategory(db, rows[1..], name);
      assert rows == [rows[0]] + rows[1..];
      if InCategory(db, rows[0], name) then [rows[0]] + t else t
  }

  /** `.distinct()`: the first occurrence of each row not already `seen`. */
  function DedupFrom(rows: seq<Article>, seen: set<Article>): (r: seq<Article>)
    ensures forall a :: a in r <==> a in rows && a !in seen
    ensures NoDuplicates(r)
  {
    if rows == [] then []
    else if rows[0] in seen then DedupFrom(rows[1..], seen)
    else
      var t := DedupFrom(rows[1..], seen + {rows[0]});
      NoDuplicatesConcat([rows[0]], t);
      [rows[0]] + t
  }

  function Dedup(rows: seq<Article>): (r: seq<Article>)
    ensures forall a :: a in r <==> a in rows
    ensures NoDuplicates(r)
  {
    DedupFrom(rows, {})
  }

  lemma {:induction false} DedupSkipsSeen(x: Article, n: nat, t: seq<Article>, seen: set<Article>)
    requires x in seen
    ensures DedupFrom(Repeat(x, n) + t, seen) == DedupFrom(t, seen)
    decreases n
  {
    if n > 0 {
      var s := Repeat(x, n) + t;
      assert s[0] == x && s[1..] == Repeat(x, n - 1) + t;
      DedupSkipsSeen(x, n - 1, t, seen);
    } else {
      assert Repeat(x, n) + t == t;
    }
  }

  lemma RepeatCons(x: Article, n: nat, t: seq<Article>)
    requires n > 0
    ensures Repeat(x, n) + t == [x] + (Repeat(x, n - 1) + t)
  {
    var r := Repeat(x, n - 1);
    assert Repeat(x, n) == [x] + r;
    assert ([x] + r) + t == [x] + (r + t);
  }

  /** An unseen head is kept, and the rest is folded with it seen. */
  lemma DedupCons(x: Article, u: seq<Article>, seen: set<Article>)
    requires x !in seen
    ensures DedupFrom([x] + u, seen) == [x] + DedupFrom(u, seen + {x})
  {
    assert ([x] + u)[0] == x && ([x] + u)[1..] == u;
  }

  /** A run of `n > 0` copies of an unseen row folds to one copy. */
  lemma DedupRun(x: Article, n: nat, t: seq<Article>, seen: set<Article>)
    requires n > 0 && x !in seen
    ensures DedupFrom(Repeat(x, n) + t, seen) == [x] + DedupFrom(t, seen + {x})
  {
    var u := Repeat(x, n - 1) + t;
    RepeatCons(x, n, t);
    DedupCons(x, u, seen);
    DedupSkipsSeen(x, n - 1, t, seen + {x});
  }

  lemma NoDuplicatesTail(d: seq<Article>)
    requires d != [] && NoDuplicates(d)
    ensures NoDuplicates(d[1..]) && d[0] !in d[1..]
  {
    FilterStep(d, d[1..]);
    forall k | 0 <= k < |d| - 1
      ensures d[1..][k] != d[0]
    {
      assert d[1..][k] == d[k + 1];
    }
  }

  /** Joining a duplicate-free list whose every row matches, then folding the
      repeats, gives the list back. */
  lemma {:induction false} DedupJoinDistinct(db: Db, d: seq<Article>, j: Join, seen: set<Article>)
    requires NoDuplicates(d)
    requires forall a :: a in d ==> Matches(db, a, j) > 0 && a !in seen
    ensures DedupFrom(JoinRows(db, d, j), seen) == d
    decreases |d|
  {
    if d != [] {
      var x := d[0];
      var rest := JoinRows(db, d[1..], j);
      assert JoinRows(db, d, j) == Repeat(x, Matches(db, x, j)) + rest;
      DedupRun(x, Matches(db, x, j), rest, seen);
      NoDuplicatesTail(d);
      DedupJoinDistinct(db, d[1..], j, seen + {x});
      assert d == [x] + d[1..];
    }
  }

  // ------------------------------------------------------------ search

  /** `ArticleSearchManager.search`: the tag filter, then the category filter,
      then the keyword filter over titles and bodies with `.distinct()`; each is
      skipped when its argument is absent or empty. */
  function Search(db: Db, tag: Option<string>, category: Option<string>, keyword: Option<string>)
    : (r: seq<Article>)
    ensures forall a :: a in r <==>
              a in db.articles
              && (Truthy(tag) ==> TaggedWith(db, a, tag.value))
              && (Truthy(category) ==> InCategory(db, a, category.value))
              && (Truthy(keyword) ==> Mentioned(db, a, keyword.value, false))
    ensures Truthy(keyword) ==> NoDuplicates(r)
    ensures !Truthy(tag) && !Truthy(category) && !Truthy(keyword) ==> r == db.articles
  {
    var byTag := if Truthy(tag) then JoinRows(db, db.articles, TagNamed(tag.value)) else db.articles;
    var byCategory := if Truthy(category) then KeepCategory(db, byTag, category.value) else byTag;
    JoinKeepsRelated(db, db.articles, TagNamed(tag.GetOr("")));
    JoinKeepsRelated(db, byCategory, ContentMentions(keyword.GetOr(""), false));
    if Truthy(keyword) then Dedup(JoinRows(db, byCategory, ContentMentions(keyword.value, false)))
    else byCategory
  }

  /** Without a keyword nothing folds the tag join: an article comes back once
      per linked tag bearing the name. */
  lemma SearchByTagRepeats(db: Db, name: string, a: Article)
    requires name != ""
    ensures multiset(Search(db, Some(name), None, None))[a]
            == multiset(db.articles)[a] * CountTags(db.tags, a.tags, name)
  {
    JoinMultiplicity(db, db.articles, TagNamed(name), a);
  }

  /** A concrete instance: an article linked to two tags that share a name is
      listed twice by a tag search, and once when a keyword is added. */
  lemma SearchByTagListsTwice(a: Article, t1: nat, t2: nat, name: string, c: Content, keyword: string)
    requires name != "" && keyword != "" && t1 != t2 && a.category.None? && a.tags == [t1, t2]
    requires c.article == a.id && IContains(c.title, keyword)
    requires |name| <= TagNameMax && |c.language| <= LanguageMax && |c.title| <= TitleMax
    ensures var db := Db([], [Tag(t1, name), Tag(t2, name)], [a], [c], []);
            Wf(db)
            && Search(db, Some(name), None, None) == [a, a]
            && Search(db, Some(name), None, Some(keyword)) == [a]
  {
    var db := Db([], [Tag(t1, name), Tag(t2, name)], [a], [c], []);
    TwoTagsWf(a, t1, t2, name, c);
    TwoTagsJoin(a, t1, t2, name, c);
    assert Mentions(c, keyword, false);
    assert CountContents(db.contents, a.id, keyword, false) == 1 by {
      assert db.contents[1..] == [];
    }
    JoinTwice(db, a, ContentMentions(keyword, false));
    assert Repeat(a, 1) == [a];
    DedupTwice(a);
  }

  lemma TwoTagsWf(a: Article, t1: nat, t2: nat, name: string, c: Content)
    requires t1 != t2 && a.category.None? && a.tags == [t1, t2] && c.article == a.id
    requires |name| <= TagNameMax && |c.language| <= LanguageMax && |c.title| <= TitleMax
    ensures Wf(Db([], [Tag(t1, name), Tag(t2, name)], [a], [c], []))
  {
    var db := Db([], [Tag(t1, name), Tag(t2, name)], [a], [c], []);
    assert HasArticle(db, c.article);
    assert forall t :: t in a.tags ==> HasTag(db, t) by {
      assert Tag(t1, name) in db.tags && Tag(t2, name) in db.tags;
    }
  }

  lemma TwoTagsJoin(a: Article, t1: nat, t2: nat, name: string, c: Content)
    requires t1 != t2 && a.tags == [t1, t2]
    ensures JoinRows(Db([], [Tag(t1, name), Tag(t2, name)], [a], [c], []), [a], TagNamed(name)) == [a, a]
  {
    var db := Db([], [Tag(t1, name), Tag(t2, name)], [a], [c], []);
    assert TagName(db.tags, t1) == Some(name);
    assert TagName(db.tags, t2) == Some(name) by {
      assert db.tags[1..] == [Tag(t2, name)];
    }
    assert CountTags(db.tags, [t2], name) == 1 by {
      assert [t2][1..] == [];
    }
    assert CountTags(db.tags, a.tags, name) == 2 by {
      assert a.tags[1..] == [t2];
    }
    assert Repeat(a, 2) == [a, a] by {
      assert Repeat(a, 1) == [a];
    }
    assert [a][1..] == [];
  }

  lemma DedupTwice(a: Article)
    ensures Dedup([a, a]) == [a]
  {
    var seen: set<Article> := {};
    assert [a, a][1..] == [a];
    assert [a][1..] == [];
    assert seen + {a} == {a};
    assert DedupFrom([a], {a}) == DedupFrom([], {a}) == [];
  }

  /** The join of a list holding one row twice. */
  lemma JoinTwice(db: Db, a: Article, j: Join)
    ensures JoinRows(db, [a, a], j) == Repeat(a, Matches(db, a, j)) + Repeat(a, Matches(db, a, j))
  {
    var r := Repeat(a, Matches(db, a, j));
    assert [a, a][1..] == [a];
    assert [a][1..] == [];
    JoinUnfold(db, [a, a], j);
    JoinUnfold(db, [a], j);
    assert JoinRows(db, [a], j) == r + [];
    assert r + [] == r;
  }

  /** A title-or-body keyword with no other filter finds exactly the articles
      that mention it, each once. */
  lemma SearchByKeywordFindsEachOnce(db: Db, keyword: string, a: Article)
    requires keyword != "" && a in db.articles && Mentioned(db, a, keyword, false)
    ensures multiset(Search(db, None, None, Some(keyword)))[a] == 1
  {
    var r := Search(db, None, None, Some(keyword));
    assert a in r;
    var i :| 0 <= i < |r| && r[i] == a;
    MultisetOfDistinct(r, i);
  }

  lemma {:induction false} MultisetOfDistinct(r: seq<Article>, i: nat)
    requires NoDuplicates(r) && i < |r|
    ensures multiset(r)[r[i]] == 1
    decreases |r|
  {
    var x := r[i];
    assert r == [r[0]] + r[1..];
    FilterStep(r, r[1..]);
    if i == 0 {
      assert x !in r[1..] by {
        forall k | 0 <= k < |r| - 1
          ensures r[1..][k] != x
        {
          assert r[1..][k] == r[k + 1];
        }
      }
    } else {
      assert r[1..][i - 1] == x;
      MultisetOfDistinct(r[1..], i - 1);
      assert r[0] != x;
    }
  }

  // ------------------------------------------------------------ list filter

  /** `ArticleFilter.filter_keyword` as written: a join on the contents whose
      title contains the value, with no `.distinct()`. */
  function FilterKeywordAsWritten(db: Db, rows: seq<Article>, value: string): (r: seq<Article>)
    ensures forall a :: a in r <==> a in rows && Mentioned(db, a, value, true)
  {
    JoinKeepsRelated(db, rows, ContentMentions(value, true));
    JoinRows(db, rows, ContentMentions(value, true))
  }

  /** An article with titles matching in two languages is listed twice, and
      applying the filter once more lists it four times. */
  lemma FilterKeywordAsWrittenRepeats(a: Article, c1: Content, c2: Content, value: string)
    requires c1.article == a.id && c2.article == a.id && c1.id != c2.id && c1.language != c2.language
    requires IContains(c1.title, value) && IContains(c2.title, value)
    requires a.category.None? && a.tags == []
    requires |c1.language| <= LanguageMax && |c1.title| <= TitleMax
    requires |c2.language| <= LanguageMax && |c2.title| <= TitleMax
    ensures var db := Db([], [], [a], [c1, c2], []);
            Wf(db)
            && FilterKeywordAsWritten(db, db.articles, value) == [a, a]
            && FilterKeywordAsWritten(db, FilterKeywordAsWritten(db, db.articles, value), value) == [a, a, a, a]
            && FilterKeyword(db, db.articles, value) == [a]
  {
    var db := Db([], [], [a], [c1, c2], []);
    TwoContentsWf(a, c1, c2);
    TwoContentsCount(a, c1, c2, value);
    assert Repeat(a, 2) == [a, a] by {
      assert Repeat(a, 1) == [a];
    }
    assert JoinRows(db, [a], ContentMentions(value, true)) == [a, a] by {
      assert [a][1..] == [];
    }
    JoinTwice(db, a, ContentMentions(value, true));
    DedupTwice(a);
  }

  lemma TwoContentsWf(a: Article, c1: Content, c2: Content)
    requires c1.article == a.id && c2.article == a.id && c1.id != c2.id && c1.language != c2.language
    requires a.category.None? && a.tags == []
    requires |c1.language| <= LanguageMax && |c1.title| <= TitleMax
    requires |c2.language| <= LanguageMax && |c2.title| <= TitleMax
    ensures Wf(Db([], [], [a], [c1, c2], []))
  {
    assert HasArticle(Db([], [], [a], [c1, c2], []), a.id);
  }

  lemma TwoContentsCount(a: Article, c1: Content, c2: Content, value: string)
    requires c1.article == a.id && c2.article == a.id
    requires IContains(c1.title, value) && IContains(c2.title, value)
    ensures CountContents([c1, c2], a.id, value, true) == 2
  {
    assert Mentions(c1, value, true) && Mentions(c2, value, true);
    assert CountContents([c2], a.id, value, true) == 1 by {
      assert [c2][1..] == [];
    }
    assert [c1, c2][1..] == [c2];
  }

  /** The filter as evidently intended: the same title-only test, each
      article listed once. */
  function FilterKeyword(db: Db, rows: seq<Article>, value: string): (r: seq<Article>)
    ensures forall a :: a in r <==> a in rows && Mentioned(db, a, value, true)
    ensures NoDuplicates(r)
  {
    JoinKeepsRelated(db, rows, ContentMentions(value, true));
    Dedup(JoinRows(db, rows, ContentMentions(value, true)))
  }

  /** Filtering again changes nothing. */
  lemma FilterKeywordIdempotent(db: Db, rows: seq<Article>, value: string)
    ensures FilterKeyword(db, FilterKeyword(db, rows, value), value) == FilterKeyword(db, rows, value)
  {
    var once := FilterKeyword(db, rows, value);
    MatchesMeaning(db, ContentMentions(value, true));
    DedupJoinDistinct(db, once, ContentMentions(value, true), {});
  }

  /** The list filter reads titles only: an article that mentions the keyword
      only in a body is found by the search endpoint but not by the filter. */
  lemma BodyOnlyMatchSplitsSearchAndFilter(db: Db, a: Article, keyword: string)
    requires keyword != "" && a in db.articles
    requires Mentioned(db, a, keyword, false) && !Mentioned(db, a, keyword, true)
    ensures a in Search(db, None, None, Some(keyword))
    ensures a !in FilterKeyword(db, db.articles, keyword)
  {
  }
}
