/** The tag repository: listing, searching, name uniqueness and usage queries over the tag table. */
module TagRepository {
  import opened Wrappers
  import opened Seqs
  import opened Text
  import opened Entities

  function TagNameKey(t: Tag): Option<string> { t.name }

  /** `GetAllTagsWithDetailsAsync`: every tag, ordered by name (unset names first). */
  function AllTags(tags: seq<Tag>): (r: seq<Tag>)
    ensures SortedBy(r, TagNameKey, NameLe)
    ensures multiset(r) == multiset(tags)
  {
    NameLeIsTotalPreorder();
    Sort(tags, TagNameKey, NameLe)
  }

  /** `GetTagWithArticlesAsync`: the tag with this id, or none. */
  function TagWithArticles(tags: seq<Tag>, id: int): (r: Option<Tag>)
    ensures r.Some? ==> r.value in tags && r.value.id == id
    ensures r.None? <==> forall t | t in tags :: t.id != id
  {
    FirstWhere(tags, (t: Tag) => t.id == id)
  }

  /** The name or the note contains the term; an unset field never does. */
  predicate TagMatches(t: Tag, term: string) {
    FieldContains(t.name, term) || FieldContains(t.note, term)
  }

  /**
   * `SearchTagsAsync`: with no term, the table as stored (unordered);
   * otherwise the tags whose name or note contains the term, ordered by name.
   */
  function SearchTags(tags: seq<Tag>, term: Option<string>): (r: seq<Tag>)
    ensures IsNullOrEmpty(term) ==> r == tags
    ensures !IsNullOrEmpty(term) ==> SortedBy(r, TagNameKey, NameLe)
    ensures forall t :: t in r <==> t in tags && (IsNullOrEmpty(term) || TagMatches(t, term.value))
    ensures forall t ::
      multiset(r)[t] == if IsNullOrEmpty(term) || TagMatches(t, term.value) then multiset(tags)[t] else 0
  {
    if IsNullOrEmpty(term) then tags
    else
      NameLeIsTotalPreorder();
      var p := (t: Tag) => TagMatches(t, term.value);
      FilterMultiplicity(tags, p);
      Sort(Filter(tags, p), TagNameKey, NameLe)
  }

  /** `IsTagUsedInArticlesAsync`: some link names the tag. */
  predicate IsTagUsed(links: set<NewsTag>, tagId: int) {
    exists l | l in links :: l.tagId == tagId
  }

  /**
   * `IsTagNameExistsAsync`: some tag has exactly this name and, when an id to
   * exclude is given, a different id.
   */
  predicate IsTagNameExists(tags: seq<Tag>, name: string, excludeId: Option<int>) {
    exists t | t in tags :: t.name == Some(name) && (excludeId.None? || t.id != excludeId.value)
  }

  /**
   * `GetTagsByArticleAsync`: the tags linked to the article, ordered by name.
   * Each link names one tag and the link key makes the pair unique, so every
   * linked tag appears once.
   */
  function TagsByArticle(tags: seq<Tag>, links: set<NewsTag>, articleId: string): (r: seq<Tag>)
    requires UniqueBy(tags, TagKey)
    ensures SortedBy(r, TagNameKey, NameLe)
    ensures forall t :: t in r <==> t in tags && NewsTag(articleId, t.id) in links
    ensures UniqueBy(r, TagKey)
  {
    NameLeIsTotalPreorder();
    var linked := (t: Tag) => NewsTag(articleId, t.id) in links;
    FilterUnique(tags, TagKey, linked);
    var r := Sort(Filter(tags, linked), TagNameKey, NameLe);
    PermutationKeepsUnique(Filter(tags, linked), r, TagKey);
    r
  }

  /** `GetArticleCountByTagAsync`: the number of links naming the tag. */
  function ArticleCountByTag(links: set<NewsTag>, tagId: int): (r: nat)
    ensures r <= |links|
    ensures r > 0 <==> IsTagUsed(links, tagId)
  {
    var used := set l | l in links && l.tagId == tagId;
    assert links == used + (links - used) && used * (links - used) == {};
    assert IsTagUsed(links, tagId) ==> used != {};
    |used|
  }
}
