/**
 * The article service: creating, updating, deleting and duplicating articles
 * together with their tag links, allocating article ids, and the related
 * articles of an article.
 */
module NewsArticleService {
  import opened Wrappers
  import opened Seqs
  import opened Text
  import opened Entities
  import opened Store
  import opened NewsTagRepository
  import opened NewsArticleRepository

  // ---------------------------------------------------------------------------
  // Id allocation

  /** An article id read as a number: its `int.TryParse` value, or 0 when it does not parse. */
  function ParsedId(id: string): (r: int)
    ensures Int32Min <= r <= Int32Max
    ensures ParseInt32(id).None? ==> r == 0
  {
    ParseInt32(id).GetOr(0)
  }

  /** The parsed id of every article, in table order (the `Select` step). */
  function ParsedIds(articles: seq<Article>): (r: seq<int>)
    ensures |r| == |articles|
    ensures forall i | 0 <= i < |articles| :: r[i] == ParsedId(articles[i].id)
    ensures forall i | 0 <= i < |r| :: Int32Min <= r[i] <= Int32Max
  {
    seq(|articles|, i requires 0 <= i < |articles| => ParsedId(articles[i].id))
  }

  /** The largest parsed id of a non-empty table (the `Max` step). */
  function MaxParsedId(articles: seq<Article>): (r: int)
    requires |articles| > 0
    ensures forall a | a in articles :: ParsedId(a.id) <= r
    ensures Int32Min <= r <= Int32Max
  {
    var xs := ParsedIds(articles);
    var r := MaxOf(xs);
    assert forall a | a in articles :: ParsedId(a.id) <= r by {
      forall a | a in articles ensures ParsedId(a.id) <= r {
        var i :| 0 <= i < |articles| && articles[i] == a;
        assert xs[i] == ParsedId(a.id);
      }
    }
    r
  }

  /**
   * `GenerateNewArticleIdAsync`: "1" for an empty table, otherwise the
   * decimal form of the largest parsed id plus one, in 32-bit arithmetic.
   */
  function GenerateNewArticleId(articles: seq<Article>): (r: string)
    ensures |articles| == 0 ==> r == "1"
    ensures |r| > 0
  {
    if |articles| == 0 then "1" else IntToString(Wrap32(MaxParsedId(articles) + 1))
  }

  /** The generated id parses back to one more than the largest parsed id (1 for an empty table). */
  lemma GeneratedIdValue(articles: seq<Article>)
    requires |articles| == 0 || MaxParsedId(articles) < Int32Max
    ensures ParsedId(GenerateNewArticleId(articles)) == if |articles| == 0 then 1 else MaxParsedId(articles) + 1
  {
    if |articles| == 0 {
      ParseOne();
    } else {
      var m := MaxParsedId(articles);
      NextIdIsSuccessor(articles);
      ParsedIdOfDecimal(m + 1);
      assert GenerateNewArticleId(articles) == IntToString(m + 1);
    }
  }

  lemma NextIdIsSuccessor(articles: seq<Article>)
    requires |articles| > 0 && MaxParsedId(articles) < Int32Max
    ensures GenerateNewArticleId(articles) == IntToString(MaxParsedId(articles) + 1)
  {
    var m := MaxParsedId(articles);
    assert Int32Min <= m + 1 <= Int32Max;
    assert Wrap32(m + 1) == m + 1;
  }

  lemma ParsedIdOfDecimal(n: int)
    requires Int32Min <= n <= Int32Max
    ensures ParsedId(IntToString(n)) == n
  {
    ParseIntToString(n);
  }

  /**
   * Unless the largest parsed id is already the largest `int`, the generated
   * id is new and parses to a number above every existing parsed id.
   */
  lemma GeneratedIdFresh(articles: seq<Article>)
    requires |articles| == 0 || MaxParsedId(articles) < Int32Max
    ensures GenerateNewArticleId(articles) !in ArticleIds(articles)
    ensures forall a | a in articles :: ParsedId(a.id) < ParsedId(GenerateNewArticleId(articles))
  {
    GeneratedIdValue(articles);
    var g := GenerateNewArticleId(articles);
    forall i | 0 <= i < |articles| ensures articles[i].id != g {
      assert articles[i] in articles;
    }
  }

  /** At the top of the range the increment wraps, and the next id is the least `int`. */
  lemma GeneratedIdWraps(articles: seq<Article>)
    requires |articles| > 0 && MaxParsedId(articles) == Int32Max
    ensures ParsedId(GenerateNewArticleId(articles)) == Int32Min
  {
    ParseIntToString(Int32Min);
  }

  // ---------------------------------------------------------------------------
  // Rows written by the service

  /** The row `CreateArticleAsync` stores: the allocated id, the creation time, an unset status read as false. */
  function CreatedRow(article: Article, id: string, now: int): (r: Article)
    ensures r.id == id && r.createdDate == Some(now)
    ensures r.status.Some? && (article.status.Some? ==> r.status == article.status)
    ensures article.status.None? ==> r.status == Some(false)
    ensures r.(id := article.id, createdDate := article.createdDate, status := article.status) == article
  {
    article.(id := id, createdDate := Some(now), status := Some(article.status.GetOr(false)))
  }

  /** The row `UpdateArticleAsync` writes: the caller's fields plus the updater and the time. */
  function UpdatedRow(article: Article, updatedById: int, now: int): (r: Article)
    ensures r.id == article.id && r.updatedById == Some(updatedById) && r.modifiedDate == Some(now)
    ensures r.(updatedById := article.updatedById, modifiedDate := article.modifiedDate) == article
  {
    article.(updatedById := Some(updatedById), modifiedDate := Some(now))
  }

  /** The copy `DuplicateArticleAsync` makes of `src`. */
  function CopyRow(src: Article, id: string, createdById: int, now: int): (r: Article)
    ensures r.id == id && r.title == Some(src.title.GetOr("") + " (Copy)")
    ensures r.headline == src.headline && r.content == src.content && r.source == src.source
    ensures r.categoryId == src.categoryId
    ensures r.status == Some(false) && r.createdById == Some(createdById) && r.createdDate == Some(now)
    ensures r.updatedById.None? && r.modifiedDate.None?
  {
    Article(id, Some(src.title.GetOr("") + " (Copy)"), src.headline, Some(now), src.content, src.source,
            src.categoryId, Some(false), Some(createdById), None, None)
  }

  /** No tag list, or an empty one. */
  predicate NoTags(tagIds: Option<seq<int>>) {
    tagIds.None? || |tagIds.value| == 0
  }

  /** In a consistent link set, an article id the table does not hold has no links. */
  lemma NewArticleHasNoLinks(links: set<NewsTag>, articles: seq<Article>, tags: seq<Tag>, id: string)
    requires LinksOk(links, articles, tags)
    requires id !in ArticleIds(articles)
    ensures forall t :: NewsTag(id, t) !in links
  {
    forall t ensures NewsTag(id, t) !in links {
      assert NewsTag(id, t) in links ==> LinkRowOk(NewsTag(id, t), articles, tags);
    }
  }

  // ---------------------------------------------------------------------------
  // Operations

  /**
   * `CreateArticleAsync`. A blank headline is refused before anything is
   * written. The article row is saved first and the links after it, so a
   * refused link list leaves the new row in place and reports failure.
   */
  method CreateArticle(store: Store, article: Article, tagIds: Option<seq<int>>, now: int) returns (ok: bool)
    requires store.Valid()
    modifies store
    ensures store.Valid()
    ensures IsBlank(article.headline) ==> !ok && unchanged(store)
    ensures var row := CreatedRow(article, GenerateNewArticleId(old(store.articles)), now);
      var saved := && !IsBlank(article.headline)
                   && row.id !in ArticleIds(old(store.articles))
                   && ArticleRowOk(row, store.categories, store.accounts);
      && (ok <==> saved && (NoTags(tagIds) || LinksAccepted(old(store.links), store.articles, store.tags, row.id, tagIds.value)))
      && store.articles == (if saved then old(store.articles) + [row] else old(store.articles))
      && store.links == (if ok then old(store.links) + LinksFor(row.id, tagIds.GetOr([])) else old(store.links))
    ensures store.categories == old(store.categories) && store.accounts == old(store.accounts)
    ensures store.tags == old(store.tags) && store.nextCategoryId == old(store.nextCategoryId)
  {
    if IsBlank(article.headline) {
      return false;
    }
    var row := CreatedRow(article, GenerateNewArticleId(store.articles), now);
    ok := store.AddArticle(row);
    if !ok {
      return;
    }
    if !NoTags(tagIds) {
      ok := AddTagsToArticle(store, row.id, tagIds);
    } else {
      assert LinksFor(row.id, tagIds.GetOr([])) == {};
    }
  }

  /**
   * `UpdateArticleAsync`. A blank headline is refused before anything is
   * written. The row is overwritten, every link of the article is dropped,
   * and then the links for `tagIds` are added.
   */
  method UpdateArticle(store: Store, article: Article, tagIds: Option<seq<int>>, updatedById: int, now: int)
    returns (ok: bool)
    requires store.Valid()
    modifies store
    ensures store.Valid()
    ensures IsBlank(article.headline) ==> !ok && unchanged(store)
    ensures var row := UpdatedRow(article, updatedById, now);
      var saved := && !IsBlank(article.headline)
                   && row.id in ArticleIds(old(store.articles))
                   && ArticleRowOk(row, store.categories, store.accounts);
      && (ok <==> saved && (NoTags(tagIds) || LinksAccepted(WithoutArticle(old(store.links), row.id),
                                                            store.articles, store.tags, row.id, tagIds.value)))
      && store.articles == (if saved then ReplaceAt(old(store.articles), IndexOf(old(store.articles), ArticleKey, row.id).value, row)
                            else old(store.articles))
      && store.links == (if !saved then old(store.links)
                         else if ok then WithoutArticle(old(store.links), row.id) + LinksFor(row.id, tagIds.GetOr([]))
                         else WithoutArticle(old(store.links), row.id))
    ensures ok ==> forall t :: NewsTag(article.id, t) in store.links <==> t in tagIds.GetOr([])
    ensures store.categories == old(store.categories) && store.accounts == old(store.accounts)
    ensures store.tags == old(store.tags) && store.nextCategoryId == old(store.nextCategoryId)
  {
    if IsBlank(article.headline) {
      return false;
    }
    var row := UpdatedRow(article, updatedById, now);
    ok := store.UpdateArticle(row);
    if !ok {
      return;
    }
    DeleteTagsFromArticle(store, row.id);
    if !NoTags(tagIds) {
      ok := AddTagsToArticle(store, row.id, tagIds);
    } else {
      assert LinksFor(row.id, tagIds.GetOr([])) == {};
    }
  }

  /**
   * `DeleteArticleAsync`: an unknown id is refused; otherwise the article's
   * links are dropped and then the article itself.
   */
  method DeleteArticle(store: Store, id: string) returns (ok: bool)
    requires store.Valid()
    modifies store
    ensures store.Valid()
    ensures ok <==> id in ArticleIds(old(store.articles))
    ensures !ok ==> unchanged(store)
    ensures ok ==> store.articles == RemoveAt(old(store.articles), IndexOf(old(store.articles), ArticleKey, id).value)
    ensures ok ==> id !in ArticleIds(store.articles)
    ensures ok ==> store.links == WithoutArticle(old(store.links), id)
    ensures forall l | l in old(store.links) && l.articleId != id :: l in store.links
    ensures store.categories == old(store.categories) && store.accounts == old(store.accounts)
    ensures store.tags == old(store.tags) && store.nextCategoryId == old(store.nextCategoryId)
  {
    var article := Find(store.articles, ArticleKey, id);
    if article.None? {
      return false;
    }
    ghost var before := store.links;
    DeleteTagsFromArticle(store, id);
    var i := IndexOf(store.articles, ArticleKey, id);
    KeySetRemove(store.articles, ArticleKey, i.value);
    ok := store.RemoveArticle(id);
    assert WithoutArticle(WithoutArticle(before, id), id) == WithoutArticle(before, id);
  }

  /**
   * `GetRelatedArticlesAsync`: nothing for a missing article or one without a
   * category; otherwise the related articles of its category and tags.
   */
  function GetRelatedArticles(articles: seq<Article>, links: set<NewsTag>, articleId: string): (r: seq<Article>)
    ensures var cur := Find(articles, ArticleKey, articleId);
      && (cur.None? || cur.value.categoryId.None? ==> r == [])
      && |r| <= 3
      && multiset(r) <= multiset(articles)
      && (forall a | a in r :: && a in articles && a.id != articleId && a.status == Some(true)
                               && (a.categoryId == cur.value.categoryId || ShareTag(links, a.id, articleId)))
      && (cur.Some? && cur.value.categoryId.Some? ==>
            forall a | a in articles && IsRelated(a, links, articleId, cur.value.categoryId.value) :: a in r || |r| == 3)
  {
    var cur := Find(articles, ArticleKey, articleId);
    if cur.None? || cur.value.categoryId.None? then []
    else RelatedArticles(articles, links, articleId, cur.value.categoryId.value)
  }

  /**
   * `DuplicateArticleAsync`: a missing source is refused; otherwise a copy
   * under a new id is saved and then linked to the source's tags. The copy's
   * id has no links yet and the source's tags exist, so once the copy is
   * saved its links are always accepted: the call fails exactly when the
   * source is missing or the copy cannot be saved (for instance when the
   * generated id wrapped around onto a stored one), and a failure changes
   * nothing.
   */
  method DuplicateArticle(store: Store, sourceId: string, createdById: int, now: int) returns (ok: bool)
    requires store.Valid()
    modifies store
    ensures store.Valid()
    ensures sourceId !in ArticleIds(old(store.articles)) ==> !ok && unchanged(store)
    ensures var src := Find(old(store.articles), ArticleKey, sourceId);
      ok <==> && src.Some?
              && GenerateNewArticleId(old(store.articles)) !in ArticleIds(old(store.articles))
              && ArticleRowOk(CopyRow(src.value, GenerateNewArticleId(old(store.articles)), createdById, now),
                              store.categories, store.accounts)
    ensures !ok ==> store.articles == old(store.articles) && store.links == old(store.links)
    ensures ok ==>
      var src := Find(old(store.articles), ArticleKey, sourceId).value;
      var row := CopyRow(src, GenerateNewArticleId(old(store.articles)), createdById, now);
      && store.articles == old(store.articles) + [row]
      && (forall l :: l in store.links <==> l in old(store.links) || (l.articleId == row.id && NewsTag(sourceId, l.tagId) in old(store.links)))
      && (forall t :: NewsTag(row.id, t) in store.links <==> NewsTag(sourceId, t) in old(store.links))
    ensures
      var src := Find(old(store.articles), ArticleKey, sourceId);
      && src.Some?
      && (|old(store.articles)| == 0 || MaxParsedId(old(store.articles)) < Int32Max)
      && ArticleRowOk(CopyRow(src.value, GenerateNewArticleId(old(store.articles)), createdById, now),
                      store.categories, store.accounts)
      ==> ok
    ensures store.categories == old(store.categories) && store.accounts == old(store.accounts)
    ensures store.tags == old(store.tags) && store.nextCategoryId == old(store.nextCategoryId)
  {
    var src := Find(store.articles, ArticleKey, sourceId);
    if src.None? {
      return false;
    }
    ghost var oldLinks := store.links;
    ghost var oldArticles := store.articles;
    var id := GenerateNewArticleId(store.articles);
    if |store.articles| == 0 || MaxParsedId(store.articles) < Int32Max {
      GeneratedIdFresh(store.articles);
      NewArticleHasNoLinks(store.links, store.articles, store.tags, id);
    }
    var row := CopyRow(src.value, id, createdById, now);
    var sourceTags := LinkedTagIds(store.tags, store.links, sourceId);
    assert forall t :: t in sourceTags <==> NewsTag(sourceId, t) in store.links by {
      forall t | NewsTag(sourceId, t) in store.links ensures t in TagIds(store.tags) {
        assert LinkRowOk(NewsTag(sourceId, t), store.articles, store.tags);
      }
    }
    ok := store.AddArticle(row);
    if !ok {
      return;
    }
    KeySetAppend(oldArticles, ArticleKey, row);
    NewArticleHasNoLinks(oldLinks, oldArticles, store.tags, id);
    if |sourceTags| > 0 {
      ok := AddTagsToArticle(store, id, Some(sourceTags));
      assert ok;
    }
  }
}
