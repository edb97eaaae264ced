/**
 * The NewsTag repository: reading and rewriting the links between one
 * article and its tags.
 */
module NewsTagRepository {
  import opened Wrappers
  import opened Seqs
  import opened Entities
  import opened Store

  /** `GetTagsByArticleIdAsync`: the links of one article. */
  function TagsByArticleId(links: set<NewsTag>, articleId: string): (r: set<NewsTag>)
    ensures r <= links
    ensures forall l | l in links :: l in r <==> l.articleId == articleId
    ensures r * WithoutArticle(links, articleId) == {}
    ensures r + WithoutArticle(links, articleId) == links
  {
    set l | l in links && l.articleId == articleId
  }

  /** `IsTagLinkedToArticleAsync`: the exact pair is stored. */
  predicate IsTagLinked(links: set<NewsTag>, articleId: string, tagId: int) {
    NewsTag(articleId, tagId) in links
  }

  /** The link-level test agrees with the article's list of links. */
  lemma IsTagLinkedByArticle(links: set<NewsTag>, articleId: string, tagId: int)
    ensures IsTagLinked(links, articleId, tagId)
        <==> exists l | l in TagsByArticleId(links, articleId) :: l.tagId == tagId
  {
    if IsTagLinked(links, articleId, tagId) {
      assert NewsTag(articleId, tagId) in TagsByArticleId(links, articleId);
    }
  }

  /**
   * The tag ids of an article's links, once each, listed in the order of the
   * tag table (the order a joined load of the links yields).
   */
  function LinkedTagIds(tags: seq<Tag>, links: set<NewsTag>, articleId: string): (r: seq<int>)
    requires UniqueBy(tags, TagKey)
    ensures Distinct(r)
    ensures forall t :: t in r <==> t in TagIds(tags) && NewsTag(articleId, t) in links
  {
    var linked := Filter(tags, (t: Tag) => NewsTag(articleId, t.id) in links);
    FilterUnique(tags, TagKey, (t: Tag) => NewsTag(articleId, t.id) in links);
    var r := Keys(linked, TagKey);
    assert forall t | t in TagIds(tags) && NewsTag(articleId, t) in links :: t in r by {
      forall t | t in TagIds(tags) && NewsTag(articleId, t) in links ensures t in r {
        var i :| 0 <= i < |tags| && tags[i].id == t;
        assert tags[i] in linked;
        var j :| 0 <= j < |linked| && linked[j] == tags[i];
        assert r[j] == t;
      }
    }
    assert forall t | t in r :: t in TagIds(tags) && NewsTag(articleId, t) in links by {
      forall t | t in r ensures t in TagIds(tags) && NewsTag(articleId, t) in links {
        var j :| 0 <= j < |linked| && linked[j].id == t;
        assert linked[j] in tags;
      }
    }
    r
  }

  /** The rows `AddTagsToArticleAsync` builds: one per tag id, in list order. */
  function LinkRows(articleId: string, tagIds: seq<int>): (r: seq<NewsTag>)
    ensures |r| == |tagIds|
    ensures forall i | 0 <= i < |tagIds| :: r[i] == NewsTag(articleId, tagIds[i])
  {
    seq(|tagIds|, i requires 0 <= i < |tagIds| => NewsTag(articleId, tagIds[i]))
  }

  /** The links of `articleId` to the tags in `tagIds`. */
  function LinksFor(articleId: string, tagIds: seq<int>): (r: set<NewsTag>)
    ensures forall l :: l in r <==> l.articleId == articleId && l.tagId in tagIds
  {
    var rows := LinkRows(articleId, tagIds);
    assert forall t | t in tagIds :: NewsTag(articleId, t) in rows by {
      forall t | t in tagIds ensures NewsTag(articleId, t) in rows {
        var i :| 0 <= i < |tagIds| && tagIds[i] == t;
        assert rows[i] == NewsTag(articleId, t);
      }
    }
    Elements(rows)
  }

  /** A repeated tag id gives two equal rows, and only then. */
  lemma LinkRowsDistinct(articleId: string, tagIds: seq<int>)
    ensures Distinct(LinkRows(articleId, tagIds)) <==> Distinct(tagIds)
  {
  }

  /** Without repeated ids there is one link per element of `tagIds`. */
  lemma LinksForCount(articleId: string, tagIds: seq<int>)
    requires Distinct(tagIds)
    ensures |LinksFor(articleId, tagIds)| == |tagIds|
  {
    LinkRowsDistinct(articleId, tagIds);
    DistinctCard(LinkRows(articleId, tagIds));
  }

  /**
   * The rows for `tagIds` can be stored: no repeated id, no pair already
   * present (both would violate the composite key), and every id names an
   * existing article and tag.
   */
  predicate LinksAccepted(links: set<NewsTag>, articles: seq<Article>, tags: seq<Tag>,
                          articleId: string, tagIds: seq<int>)
  {
    && Distinct(tagIds)
    && articleId in ArticleIds(articles)
    && forall t | t in tagIds :: t in TagIds(tags) && NewsTag(articleId, t) !in links
  }

  /** `DeleteTagsFromArticleAsync`: drops every link of the article and no other. */
  method DeleteTagsFromArticle(store: Store, articleId: string)
    requires store.Valid()
    modifies store
    ensures store.Valid()
    ensures store.links == WithoutArticle(old(store.links), articleId)
    ensures store.articles == old(store.articles) && store.categories == old(store.categories)
    ensures store.accounts == old(store.accounts) && store.tags == old(store.tags)
    ensures store.nextCategoryId == old(store.nextCategoryId)
  {
    store.RemoveLinks(TagsByArticleId(store.links, articleId));
  }

  /**
   * `AddTagsToArticleAsync`: an unset or empty list is a no-op; otherwise all
   * the rows are stored together or, on any conflict, none of them.
   */
  method AddTagsToArticle(store: Store, articleId: string, tagIds: Option<seq<int>>) returns (ok: bool)
    requires store.Valid()
    modifies store
    ensures store.Valid()
    ensures ok <==> || tagIds.None? || |tagIds.value| == 0
                    || LinksAccepted(old(store.links), store.articles, store.tags, articleId, tagIds.value)
    ensures store.links == if ok && tagIds.Some? then old(store.links) + LinksFor(articleId, tagIds.value)
                           else old(store.links)
    ensures ok && tagIds.Some? ==> |store.links| == |old(store.links)| + |tagIds.value|
    ensures store.articles == old(store.articles) && store.categories == old(store.categories)
    ensures store.accounts == old(store.accounts) && store.tags == old(store.tags)
    ensures store.nextCategoryId == old(store.nextCategoryId)
  {
    if tagIds.None? || |tagIds.value| == 0 {
      return true;
    }
    var ids := tagIds.value;
    var rows := LinkRows(articleId, ids);
    LinkRowsDistinct(articleId, ids);
    ok := store.AddLinks(rows);
    assert Elements(rows) == LinksFor(articleId, ids);
    if ok {
      LinksForCount(articleId, ids);
      assert old(store.links) * LinksFor(articleId, ids) == {};
    }
  }
}
