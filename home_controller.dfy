/**
 * The public pages: the listing of published articles with a shortened
 * content, and the page of one published article with its tags and a few
 * related articles.
 */
module HomeController {
  import opened Wrappers
  import opened Seqs
  import opened Entities
  import opened Store
  import opened NewsArticleRepository
  import opened NewsArticleService

  /** How much content the listing shows before cutting it off. */
  const PreviewLength: nat := 200

  /** The listing's content: longer than 200 characters becomes its first 200 and "...". */
  function Preview(content: Option<string>): (r: Option<string>)
    ensures r.None? <==> content.None?
    ensures r.Some? ==> |r.value| <= PreviewLength + 3
    ensures content.Some? && |content.value| <= PreviewLength ==> r == content
    ensures content.Some? && |content.value| > PreviewLength ==>
      |r.value| == PreviewLength + 3 && r.value[..PreviewLength] == content.value[..PreviewLength]
  {
    match content
    case None => None
    case Some(c) => if |c| > PreviewLength then Some(c[..PreviewLength] + "...") else Some(c)
  }

  /** Shortening an already shortened content changes nothing more. */
  lemma PreviewIdempotent(content: Option<string>)
    ensures Preview(Preview(content)) == Preview(content)
  {
    if content.Some? && |content.value| > PreviewLength {
      var p := Preview(content).value;
      assert p[..PreviewLength] + "..." == p;
    }
  }

  /** One entry of the public listing. */
  datatype Teaser = Teaser(
    id: string,
    title: Option<string>,
    headline: string,
    content: Option<string>,
    categoryName: Option<string>,
    categoryId: Option<int>,
    createdByName: Option<string>,
    createdDate: Option<int>)

  function TeaserOf(a: Article, accounts: seq<Account>, categories: seq<Category>): (r: Teaser)
    ensures r.id == a.id && r.content == Preview(a.content)
  {
    Teaser(a.id, a.title, a.headline, Preview(a.content), CategoryName(a, categories), a.categoryId,
           CreatorName(a, accounts), a.createdDate)
  }

  /** The listing entries of a sequence of articles, in the same order. */
  function Teasers(s: seq<Article>, accounts: seq<Account>, categories: seq<Category>): (r: seq<Teaser>)
    ensures |r| == |s|
    ensures forall i | 0 <= i < |s| :: r[i] == TeaserOf(s[i], accounts, categories)
    ensures forall a | a in s :: TeaserOf(a, accounts, categories) in r
  {
    var r := seq(|s|, i requires 0 <= i < |s| => TeaserOf(s[i], accounts, categories));
    assert forall a | a in s :: TeaserOf(a, accounts, categories) in r by {
      forall a | a in s ensures TeaserOf(a, accounts, categories) in r {
        var i :| 0 <= i < |s| && s[i] == a;
        assert r[i] == TeaserOf(a, accounts, categories);
      }
    }
    r
  }

  /**
   * `Index`: the search always asks for published articles; every entry is
   * one of them, in the search's newest-first order, with its content cut
   * to at most 203 characters, and every published article the filters
   * match has its entry.
   */
  function Index(articles: seq<Article>, accounts: seq<Account>, categories: seq<Category>,
                 categoryId: Option<int>, term: Option<string>): (r: seq<Teaser>)
    ensures var s := SearchArticles(articles, accounts, categories, term, categoryId, Some(true));
      && |r| == |s|
      && forall i | 0 <= i < |r| :: r[i] == TeaserOf(s[i], accounts, categories) && s[i].status == Some(true)
    ensures forall i | 0 <= i < |r| :: r[i].content.Some? ==> |r[i].content.value| <= PreviewLength + 3
    ensures forall a | a in articles && a.status == Some(true) && SearchMatch(a, term, categoryId, None, accounts, categories) ::
      TeaserOf(a, accounts, categories) in r
  {
    var s := SearchArticles(articles, accounts, categories, term, categoryId, Some(true));
    assert forall i | 0 <= i < |s| :: s[i].status == Some(true) by {
      forall i | 0 <= i < |s| ensures s[i].status == Some(true) {
        assert s[i] in s;
      }
    }
    Teasers(s, accounts, categories)
  }

  /** What `ViewArticle` shows. */
  datatype ArticlePage =
    | NotFound
    | Page(article: Article, assignedTags: seq<Tag>, related: seq<Article>)

  /** The tags the article's links lead to; none when it has no link. */
  function AssignedTags(tags: seq<Tag>, links: set<NewsTag>, articleId: string): (r: seq<Tag>)
    ensures forall t :: t in r <==> t in tags && NewsTag(articleId, t.id) in links
    ensures (forall l | l in links :: l.articleId != articleId) ==> r == []
  {
    Filter(tags, (t: Tag) => NewsTag(articleId, t.id) in links)
  }

  /**
   * `ViewArticle`: only a stored article whose status is true is shown,
   * with its tags and at most three related articles; anything else is not
   * found, a draft included.
   */
  function ViewArticle(articles: seq<Article>, tags: seq<Tag>, links: set<NewsTag>, id: Option<string>)
    : (r: ArticlePage)
    ensures var a := ArticleWithDetails(articles, id);
      r.Page? <==> a.Some? && a.value.status == Some(true)
    ensures r.Page? ==> r.article in articles && id == Some(r.article.id) && r.article.status == Some(true)
    ensures r.Page? ==> forall t :: t in r.assignedTags <==> t in tags && NewsTag(r.article.id, t.id) in links
    ensures r.Page? ==> |r.related| <= 3 && forall a | a in r.related ::
      a in articles && a.id != r.article.id && a.status == Some(true)
    ensures r.Page? ==> multiset(r.related) <= multiset(articles)
    ensures r.Page? && r.article.categoryId.None? ==> r.related == []
    ensures r.Page? && r.article.categoryId.Some? ==>
      forall b | b in articles && IsRelated(b, links, r.article.id, r.article.categoryId.value) ::
        b in r.related || |r.related| == 3
  {
    var a := ArticleWithDetails(articles, id);
    if a.None? || a.value.status != Some(true) then NotFound
    else
      Page(a.value, AssignedTags(tags, links, a.value.id), Take(GetRelatedArticles(articles, links, a.value.id), 3))
  }
}
