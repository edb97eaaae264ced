/**
 * The category service: validated creation and update, and deletion
 * guarded by the articles filed under a category.
 */
module CategoryService {
  import opened Wrappers
  import opened Seqs
  import opened Text
  import opened Entities
  import opened Store
  import opened CategoryRepository

  /** Both the name and the description hold a non-white-space character. */
  predicate CategoryFieldsOk(c: Category) {
    !IsBlank(c.name) && !IsBlank(c.description)
  }

  /** The row `CreateCategoryAsync` hands to the table: an unset active flag becomes true. */
  function WithDefaults(c: Category): (r: Category)
    ensures r.isActive.Some?
    ensures c.isActive.Some? ==> r == c
    ensures r == c.(isActive := r.isActive)
  {
    c.(isActive := Some(c.isActive.GetOr(true)))
  }

  /**
   * `CreateCategoryAsync`: a blank name or description refuses the category;
   * otherwise it is stored with the next identity value, active unless the
   * caller said otherwise, and a save that fails (too long, unknown parent)
   * returns false. A save that is attempted uses up an identity value, and
   * once the `smallint` identity is exhausted every save fails.
   */
  method CreateCategory(store: Store, category: Category) returns (ok: bool, stored: Category)
    requires store.Valid()
    modifies store
    ensures store.Valid()
    ensures stored == WithDefaults(category).(id := old(store.nextCategoryId))
    ensures ok <==> && CategoryFieldsOk(category)
                    && IdentityAvailable(old(store.nextCategoryId))
                    && CategoryFits(category)
                    && RefOk(category.parentId, CategoryIds(old(store.categories)) + {stored.id})
    ensures ok ==> store.categories == old(store.categories) + [stored]
    ensures ok ==> stored.id !in CategoryIds(old(store.categories))
    ensures !ok ==> store.categories == old(store.categories)
    ensures store.nextCategoryId
         == old(store.nextCategoryId) + if CategoryFieldsOk(category) && IdentityAvailable(old(store.nextCategoryId)) then 1 else 0
    ensures store.articles == old(store.articles) && store.accounts == old(store.accounts)
    ensures store.tags == old(store.tags) && store.links == old(store.links)
  {
    stored := WithDefaults(category).(id := store.nextCategoryId);
    if !CategoryFieldsOk(category) {
      return false, stored;
    }
    ok, stored := store.AddCategory(WithDefaults(category));
  }

  /**
   * `UpdateCategoryAsync`: a blank name or description refuses the update;
   * otherwise the row with that id is overwritten, and a save that fails (no
   * such row, too long, unknown parent) returns false.
   */
  method UpdateCategory(store: Store, category: Category) returns (ok: bool)
    requires store.Valid()
    modifies store
    ensures store.Valid()
    ensures ok <==> && CategoryFieldsOk(category)
                    && category.id in CategoryIds(old(store.categories))
                    && CategoryRowOk(category, old(store.categories))
    ensures ok ==> store.categories == ReplaceAt(old(store.categories),
                     IndexOf(old(store.categories), CategoryKey, category.id).value, category)
    ensures !ok ==> store.categories == old(store.categories)
    ensures store.articles == old(store.articles) && store.accounts == old(store.accounts)
    ensures store.tags == old(store.tags) && store.links == old(store.links)
    ensures store.nextCategoryId == old(store.nextCategoryId)
  {
    if !CategoryFieldsOk(category) {
      return false;
    }
    ok := store.UpdateCategory(category);
  }

  /** `CanDeleteCategoryAsync`: no article is filed under the category. */
  predicate CanDeleteCategory(articles: seq<Article>, id: int) {
    !IsCategoryUsed(articles, id)
  }

  /**
   * `DeleteCategoryAsync`: a category that has articles or does not exist is
   * kept; otherwise it is removed, and the store refuses the removal while
   * another category names it as parent.
   */
  method DeleteCategory(store: Store, id: int) returns (ok: bool)
    requires store.Valid()
    modifies store
    ensures store.Valid()
    ensures ok <==> && CanDeleteCategory(old(store.articles), id)
                    && id in CategoryIds(old(store.categories))
                    && forall c | c in old(store.categories) && c.id != id :: c.parentId != Some(id)
    ensures ok ==> store.categories == RemoveAt(old(store.categories), IndexOf(old(store.categories), CategoryKey, id).value)
    ensures ok ==> id !in CategoryIds(store.categories)
    ensures ok ==> forall c | c in old(store.categories) && c.id != id :: c in store.categories
    ensures !ok ==> store.categories == old(store.categories)
    ensures store.articles == old(store.articles) && store.accounts == old(store.accounts)
    ensures store.tags == old(store.tags) && store.links == old(store.links)
    ensures store.nextCategoryId == old(store.nextCategoryId)
  {
    if IsCategoryUsed(store.articles, id) {
      return false;
    }
    if Find(store.categories, CategoryKey, id).None? {
      return false;
    }
    ok := store.RemoveCategory(id);
  }
}
