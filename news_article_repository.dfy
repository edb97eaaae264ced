/**
 * The article queries: text search, articles by creator, articles in a date
 * window, and related articles.
 */
module NewsArticleRepository {
  import opened Wrappers
  import opened Seqs
  import opened Text
  import opened Entities
  import opened Store

  function CreatedDateKey(a: Article): Option<int> { a.createdDate }

  /** The creator's name as the joined query sees it (NULL when there is no creator). */
  function CreatorName(a: Article, accounts: seq<Account>): Option<string> {
    var u := CreatorOf(a, accounts);
    if u.Some? then u.value.name else None
  }

  /** The category's name as the joined query sees it (NULL when there is no category). */
  function CategoryName(a: Article, categories: seq<Category>): Option<string> {
    var c := CategoryOf(a, categories);
    if c.Some? then Some(c.value.name) else None
  }

  /**
   * `GetArticleWithDetailsByIdAsync`: the article with this id, or none; an
   * unset id finds nothing, since every stored article has one.
   */
  function ArticleWithDetails(articles: seq<Article>, id: Option<string>): (r: Option<Article>)
    ensures r.Some? ==> r.value in articles && id == Some(r.value.id)
    ensures r.None? <==> id.None? || id.value !in ArticleIds(articles)
  {
    if id.None? then None else Find(articles, ArticleKey, id.value)
  }

  /** The term occurs in the title, the headline, the creator's name or the category's name. */
  predicate MatchesTerm(a: Article, term: string, accounts: seq<Account>, categories: seq<Category>) {
    || FieldContains(a.title, term)
    || Contains(a.headline, term)
    || FieldContains(CreatorName(a, accounts), term)
    || FieldContains(CategoryName(a, categories), term)
  }

  /** The three optional filters of `SearchArticlesAsync`. */
  predicate SearchMatch(a: Article, term: Option<string>, categoryId: Option<int>, status: Option<bool>,
                        accounts: seq<Account>, categories: seq<Category>)
  {
    && (IsNullOrEmpty(term) || MatchesTerm(a, term.value, accounts, categories))
    && (categoryId.None? || a.categoryId == categoryId)
    && (status.None? || a.status == status)
  }

  /**
   * `SearchArticlesAsync`: the matching articles, newest first. Each filter
   * applies only when its argument is given.
   */
  function SearchArticles(articles: seq<Article>, accounts: seq<Account>, categories: seq<Category>,
                          term: Option<string>, categoryId: Option<int>, status: Option<bool>): (r: seq<Article>)
    ensures SortedBy(r, CreatedDateKey, LaterOrSame)
    ensures forall a :: a in r <==> a in articles && SearchMatch(a, term, categoryId, status, accounts, categories)
    ensures forall a ::
      multiset(r)[a] == if SearchMatch(a, term, categoryId, status, accounts, categories) then multiset(articles)[a] else 0
    ensures forall a | a in r :: categoryId.Some? ==> a.categoryId == categoryId
    ensures forall a | a in r :: status.Some? ==> a.status.Some? && a.status == status
    ensures forall a | a in r :: !IsNullOrEmpty(term) ==> MatchesTerm(a, term.value, accounts, categories)
  {
    LaterOrSameIsTotalPreorder();
    var p := (a: Article) => SearchMatch(a, term, categoryId, status, accounts, categories);
    FilterMultiplicity(articles, p);
    Sort(Filter(articles, p), CreatedDateKey, LaterOrSame)
  }

  /** With no term and no filter, the search returns every article (as a multiset). */
  lemma SearchWithoutFilters(articles: seq<Article>, accounts: seq<Account>, categories: seq<Category>,
                             term: Option<string>)
    requires IsNullOrEmpty(term)
    ensures multiset(SearchArticles(articles, accounts, categories, term, None, None)) == multiset(articles)
  {
    var f := Filter(articles, (a: Article) => SearchMatch(a, term, None, None, accounts, categories));
    FilterAll(articles, (a: Article) => SearchMatch(a, term, None, None, accounts, categories));
  }

  /** `GetArticlesByCreatorAsync`: the articles created by one account, newest first. */
  function ArticlesByCreator(articles: seq<Article>, creatorId: int): (r: seq<Article>)
    ensures SortedBy(r, CreatedDateKey, LaterOrSame)
    ensures forall a :: a in r <==> a in articles && a.createdById == Some(creatorId)
    ensures forall a :: multiset(r)[a] == if a.createdById == Some(creatorId) then multiset(articles)[a] else 0
  {
    LaterOrSameIsTotalPreorder();
    var p := (a: Article) => a.createdById == Some(creatorId);
    FilterMultiplicity(articles, p);
    Sort(Filter(articles, p), CreatedDateKey, LaterOrSame)
  }

  /** Created within the closed window [startDate, endDate]; an unset date is outside. */
  predicate InWindow(a: Article, startDate: int, endDate: int) {
    a.createdDate.Some? && startDate <= a.createdDate.value <= endDate
  }

  /** `GetArticlesByDateRangeAsync`: the articles created in the window, newest first. */
  function ArticlesByDateRange(articles: seq<Article>, startDate: int, endDate: int): (r: seq<Article>)
    ensures SortedBy(r, CreatedDateKey, LaterOrSame)
    ensures forall a :: a in r <==> a in articles && InWindow(a, startDate, endDate)
    ensures multiset(r) == multiset(Filter(articles, (a: Article) => InWindow(a, startDate, endDate)))
  {
    LaterOrSameIsTotalPreorder();
    Sort(Filter(articles, (a: Article) => InWindow(a, startDate, endDate)), CreatedDateKey, LaterOrSame)
  }

  /** The tag ids linked to an article. */
  function TagIdsOf(links: set<NewsTag>, articleId: string): (r: set<int>)
    ensures forall t :: t in r <==> NewsTag(articleId, t) in links
  {
    set l | l in links && l.articleId == articleId :: l.tagId
  }

  /** Article `a` carries at least one of the tags in `tagIds`. */
  predicate HasAnyTag(links: set<NewsTag>, a: Article, tagIds: set<int>) {
    exists l | l in links :: l.articleId == a.id && l.tagId in tagIds
  }

  /** A candidate related article: another, published article in the category or sharing a tag. */
  predicate IsRelated(a: Article, links: set<NewsTag>, currentId: string, categoryId: int) {
    && a.id != currentId
    && a.status == Some(true)
    && (a.categoryId == Some(categoryId) || HasAnyTag(links, a, TagIdsOf(links, currentId)))
  }

  /** Article `a` and article `b` have a tag in common. */
  ghost predicate ShareTag(links: set<NewsTag>, a: string, b: string) {
    exists t :: NewsTag(a, t) in links && NewsTag(b, t) in links
  }

  lemma HasAnyTagShares(links: set<NewsTag>, a: Article, currentId: string)
    ensures HasAnyTag(links, a, TagIdsOf(links, currentId)) <==> ShareTag(links, a.id, currentId)
  {
    if HasAnyTag(links, a, TagIdsOf(links, currentId)) {
      var l :| l in links && l.articleId == a.id && l.tagId in TagIdsOf(links, currentId);
      assert l == NewsTag(a.id, l.tagId);
    }
    if ShareTag(links, a.id, currentId) {
      var t :| NewsTag(a.id, t) in links && NewsTag(currentId, t) in links;
      assert NewsTag(a.id, t).tagId in TagIdsOf(links, currentId);
    }
  }

  /** `IsRelated` as the predicate the query filters by. */
  function RelatedTo(links: set<NewsTag>, currentId: string, categoryId: int): Article -> bool {
    (a: Article) => IsRelated(a, links, currentId, categoryId)
  }

  /**
   * `GetRelatedArticlesAsync`: the first three candidates in store order.
   * A candidate is left out only when three others were returned, and no
   * row is returned more often than the table holds it, so the result has
   * as many rows as there are candidates, up to three.
   */
  function RelatedArticles(articles: seq<Article>, links: set<NewsTag>, currentId: string, categoryId: int)
    : (r: seq<Article>)
    ensures |r| == var n := CountWhere(articles, RelatedTo(links, currentId, categoryId)); if n < 3 then n else 3
    ensures multiset(r) <= multiset(articles)
    ensures forall a | a in r :: a in articles && a.id != currentId && a.status == Some(true)
    ensures forall a | a in r :: a.categoryId == Some(categoryId) || ShareTag(links, a.id, currentId)
    ensures forall a | a in articles && IsRelated(a, links, currentId, categoryId) :: a in r || |r| == 3
  {
    var candidates := Filter(articles, RelatedTo(links, currentId, categoryId));
    var r := Take(candidates, 3);
    TakeSubMultiset(candidates, 3);
    FilterMultiplicity(articles, RelatedTo(links, currentId, categoryId));
    assert multiset(candidates) <= multiset(articles);
    forall a | a in r ensures a.categoryId == Some(categoryId) || ShareTag(links, a.id, currentId) {
      HasAnyTagShares(links, a, currentId);
    }
    forall a | a in candidates ensures a in r || |r| == 3 {
      var i :| 0 <= i < |candidates| && candidates[i] == a;
      if i < |r| { assert r[i] == a; }
    }
    r
  }
}
