/** The category repository: listing, searching and usage queries over the category table. */
module CategoryRepository {
  import opened Wrappers
  import opened Seqs
  import opened Text
  import opened Entities

  function CategoryNameKey(c: Category): string { c.name }

  /** `GetAllCategoriesWithDetailsAsync`: every category, ordered by name. */
  function AllCategories(categories: seq<Category>): (r: seq<Category>)
    ensures SortedBy(r, CategoryNameKey, StrLe)
    ensures multiset(r) == multiset(categories)
  {
    StrLeIsTotalPreorder();
    Sort(categories, CategoryNameKey, StrLe)
  }

  /** `GetCategoryWithDetailsAsync`: the category with this id, or none. */
  function CategoryWithDetails(categories: seq<Category>, id: int): (r: Option<Category>)
    ensures r.Some? ==> r.value in categories && r.value.id == id
    ensures r.None? <==> forall c | c in categories :: c.id != id
  {
    FirstWhere(categories, (c: Category) => c.id == id)
  }

  /** The name or the description contains the search term. */
  predicate CategoryMatches(c: Category, term: string) {
    Contains(c.name, term) || Contains(c.description, term)
  }

  /**
   * `SearchCategoriesAsync`: with no term, every category; otherwise those
   * whose name or description contains it; ordered by name either way.
   */
  function SearchCategories(categories: seq<Category>, term: Option<string>): (r: seq<Category>)
    ensures SortedBy(r, CategoryNameKey, StrLe)
    ensures forall c :: c in r <==> c in categories && (IsNullOrEmpty(term) || CategoryMatches(c, term.value))
    ensures forall c ::
      multiset(r)[c] == if IsNullOrEmpty(term) || CategoryMatches(c, term.value) then multiset(categories)[c] else 0
    ensures IsNullOrEmpty(term) ==> r == AllCategories(categories)
  {
    if IsNullOrEmpty(term) then AllCategories(categories)
    else
      StrLeIsTotalPreorder();
      var p := (c: Category) => CategoryMatches(c, term.value);
      FilterMultiplicity(categories, p);
      Sort(Filter(categories, p), CategoryNameKey, StrLe)
  }

  /**
   * A search only narrows the listing: every category it returns is listed
   * by `AllCategories` at least as often, and a term matching every category
   * returns the whole listing.
   */
  lemma SearchNarrowsListing(categories: seq<Category>, term: Option<string>)
    ensures multiset(SearchCategories(categories, term)) <= multiset(AllCategories(categories))
    ensures (forall c | c in categories :: IsNullOrEmpty(term) || CategoryMatches(c, term.value)) ==>
              multiset(SearchCategories(categories, term)) == multiset(AllCategories(categories))
  {
    var r := SearchCategories(categories, term);
    forall c ensures multiset(r)[c] <= multiset(categories)[c] { }
    if forall c | c in categories :: IsNullOrEmpty(term) || CategoryMatches(c, term.value) {
      forall c ensures multiset(r)[c] == multiset(categories)[c] {
        if c !in categories { assert multiset(categories)[c] == 0; }
      }
    }
  }

  /** `IsCategoryUsedInArticlesAsync`: some article is filed under the category. */
  predicate IsCategoryUsed(articles: seq<Article>, categoryId: int) {
    exists a | a in articles :: a.categoryId == Some(categoryId)
  }

  /** `GetArticleCountByCategoryAsync`: the number of articles filed under the category. */
  function ArticleCountByCategory(articles: seq<Article>, categoryId: int): (r: nat)
    ensures r <= |articles|
    ensures r > 0 <==> IsCategoryUsed(articles, categoryId)
    ensures r == |articles| <==> forall a | a in articles :: a.categoryId == Some(categoryId)
  {
    CountWhere(articles, (a: Article) => a.categoryId == Some(categoryId))
  }

  /** `GetActiveCategoriesAsync`: the categories marked active (an unset flag is not), by name. */
  function ActiveCategories(categories: seq<Category>): (r: seq<Category>)
    ensures SortedBy(r, CategoryNameKey, StrLe)
    ensures forall c :: c in r <==> c in categories && c.isActive == Some(true)
    ensures forall c :: multiset(r)[c] == if c.isActive == Some(true) then multiset(categories)[c] else 0
  {
    StrLeIsTotalPreorder();
    var p := (c: Category) => c.isActive == Some(true);
    FilterMultiplicity(categories, p);
    Sort(Filter(categories, p), CategoryNameKey, StrLe)
  }

  /** A top-level category: no parent, or itself as parent. */
  predicate IsTopLevel(c: Category) {
    c.parentId.None? || c.parentId == Some(c.id)
  }

  /** `GetParentCategoriesAsync`: the top-level categories, by name. */
  function ParentCategories(categories: seq<Category>): (r: seq<Category>)
    ensures SortedBy(r, CategoryNameKey, StrLe)
    ensures forall c :: c in r <==> c in categories && IsTopLevel(c)
    ensures forall c :: multiset(r)[c] == if IsTopLevel(c) then multiset(categories)[c] else 0
  {
    StrLeIsTotalPreorder();
    FilterMultiplicity(categories, IsTopLevel);
    Sort(Filter(categories, IsTopLevel), CategoryNameKey, StrLe)
  }
}
