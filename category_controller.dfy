/**
 * The category pages: the validation chains of Create and Edit, the
 * delete guard, and the active-flag toggle.
 */
module CategoryController {
  import opened Wrappers
  import opened Seqs
  import opened Text
  import opened Entities
  import opened Store
  import opened CategoryRepository
  import opened CategoryService
  import opened Replies

  /** The posted `CategoryViewModel`; the text boxes may arrive unset. */
  datatype CategoryForm = CategoryForm(
    id: int,
    name: Option<string>,
    description: Option<string>,
    parentId: Option<int>,
    isActive: bool)

  /** The first check of `Create` that fails, in the order the action runs them. */
  function CreateError(f: CategoryForm): (r: Option<string>)
    ensures r.None? <==> && !IsNullOrWhiteSpace(f.name) && !IsNullOrWhiteSpace(f.description)
                         && |f.name.value| <= 100 && |f.description.value| <= 250
    ensures IsNullOrWhiteSpace(f.name) ==> r == Some("Category Name is required")
  {
    if IsNullOrWhiteSpace(f.name) then Some("Category Name is required")
    else if IsNullOrWhiteSpace(f.description) then Some("Description is required")
    else if |f.name.value| > 100 then Some("Category Name cannot exceed 100 characters")
    else if |f.description.value| > 250 then Some("Description cannot exceed 250 characters")
    else None
  }

  /** The first check of `Edit` that fails: only presence, no length limit. */
  function EditError(f: CategoryForm): (r: Option<string>)
    ensures r.None? <==> !IsNullOrWhiteSpace(f.name) && !IsNullOrWhiteSpace(f.description)
    ensures CreateError(f).None? ==> r.None?
  {
    if IsNullOrWhiteSpace(f.name) then Some("Category Name is required")
    else if IsNullOrWhiteSpace(f.description) then Some("Description is required")
    else None
  }

  /** The category `Create` builds from a form whose text fields are present; the id is left to the table. */
  function NewCategory(f: CategoryForm): Category
    requires f.name.Some? && f.description.Some?
  {
    Category(0, f.name.value, f.description.value, f.parentId, Some(f.isActive))
  }

  /** `Edit` overwrites the loaded row's four editable fields with the form's. */
  function Edited(c: Category, f: CategoryForm): (r: Category)
    requires f.name.Some? && f.description.Some?
    ensures r.id == c.id
    ensures r == NewCategory(f).(id := c.id)
  {
    c.(name := f.name.value, description := f.description.value,
       parentId := f.parentId, isActive := Some(f.isActive))
  }

  /**
   * For a form with both text fields present, `Create`'s checks refuse
   * exactly the categories the service's checks or the column lengths would.
   */
  lemma CreateChecksMatchStore(f: CategoryForm)
    requires f.name.Some? && f.description.Some?
    ensures CreateError(f).None? <==> CategoryFieldsOk(NewCategory(f)) && CategoryFits(NewCategory(f))
  {
  }

  /** Witness of a quirk: there is a name that `Edit` lets through although the column cannot hold it; the save then fails. */
  lemma EditSkipsLengthLimit()
    ensures var f := CategoryForm(1, Some(seq(101, _ => 'a')), Some("d"), None, true);
            EditError(f).None? && CreateError(f) == Some("Category Name cannot exceed 100 characters")
            && !CategoryFits(Edited(Category(1, "n", "d", None, None), f))
  {
    var f := CategoryForm(1, Some(seq(101, _ => 'a')), Some("d"), None, true);
    assert !IsWhiteSpace(f.name.value[0]);
    assert !IsWhiteSpace(f.description.value[0]);
  }

  /**
   * `Create`: a failed check is reported and nothing is stored; otherwise
   * the service stores the category under the next identity value, and the
   * only failures left are an exhausted identity and a parent that names no
   * category.
   */
  method Create(store: Store, f: CategoryForm) returns (r: Reply)
    requires store.Valid()
    modifies store
    ensures store.Valid()
    ensures CreateError(f).Some? ==> r == Reply(false, CreateError(f).value)
    ensures CreateError(f).None? ==>
      && r == Outcome(&& IdentityAvailable(old(store.nextCategoryId))
                      && RefOk(f.parentId, CategoryIds(old(store.categories)) + {old(store.nextCategoryId)}),
                      "Category created successfully", "Failed to create category")
      && (r.success ==> store.categories == old(store.categories) + [NewCategory(f).(id := old(store.nextCategoryId))])
    ensures !r.success ==> store.categories == old(store.categories)
    ensures store.nextCategoryId
         == old(store.nextCategoryId) + if CreateError(f).None? && IdentityAvailable(old(store.nextCategoryId)) then 1 else 0
    ensures store.articles == old(store.articles) && store.accounts == old(store.accounts)
    ensures store.tags == old(store.tags) && store.links == old(store.links)
  {
    var e := CreateError(f);
    if e.Some? {
      return Reply(false, e.value);
    }
    var c := NewCategory(f);
    CreateChecksMatchStore(f);
    var ok, stored := CreateCategory(store, c);
    r := Outcome(ok, "Category created successfully", "Failed to create category");
  }

  /**
   * `Edit`: a missing name or description is reported, then a missing
   * category; otherwise the row gets the form's fields and the save
   * decides (a name or description too long, or an unknown parent, fails).
   */
  method Edit(store: Store, f: CategoryForm) returns (r: Reply)
    requires store.Valid()
    modifies store
    ensures store.Valid()
    ensures EditError(f).Some? ==> r == Reply(false, EditError(f).value)
    ensures EditError(f).None? && f.id !in CategoryIds(old(store.categories)) ==>
      r == Reply(false, "Category not found")
    ensures EditError(f).None? && f.id in CategoryIds(old(store.categories)) ==>
      var i := IndexOf(old(store.categories), CategoryKey, f.id).value;
      var c := Edited(old(store.categories)[i], f);
      && r == Outcome(CategoryRowOk(c, old(store.categories)),
                      "Category updated successfully", "Failed to update category")
      && (r.success ==> store.categories == ReplaceAt(old(store.categories), i, c))
    ensures !r.success ==> store.categories == old(store.categories)
    ensures store.articles == old(store.articles) && store.accounts == old(store.accounts)
    ensures store.tags == old(store.tags) && store.links == old(store.links)
    ensures store.nextCategoryId == old(store.nextCategoryId)
  {
    var e := EditError(f);
    if e.Some? {
      return Reply(false, e.value);
    }
    var found := CategoryWithDetails(store.categories, f.id);
    if found.None? {
      return Reply(false, "Category not found");
    }
    FindMember(store.categories, CategoryKey, found.value);
    var c := Edited(found.value, f);
    var ok := UpdateCategory(store, c);
    r := Outcome(ok, "Category updated successfully", "Failed to update category");
  }

  /**
   * `Delete`: a category with articles is refused before the service is
   * called; otherwise the service's outcome is reported.
   */
  method Delete(store: Store, id: int) returns (r: Reply)
    requires store.Valid()
    modifies store
    ensures store.Valid()
    ensures !CanDeleteCategory(old(store.articles), id) ==>
      r == Reply(false, "Cannot delete category that has articles")
    ensures CanDeleteCategory(old(store.articles), id) ==>
      r == Outcome(&& id in CategoryIds(old(store.categories))
                   && forall c | c in old(store.categories) && c.id != id :: c.parentId != Some(id),
                   "Category deleted successfully", "Failed to delete category")
    ensures r.success ==> store.categories == RemoveAt(old(store.categories), IndexOf(old(store.categories), CategoryKey, id).value)
    ensures r.success ==> id !in CategoryIds(store.categories)
    ensures r.success ==> forall c | c in old(store.categories) && c.id != id :: c in store.categories
    ensures !r.success ==> store.categories == old(store.categories)
    ensures store.articles == old(store.articles) && store.accounts == old(store.accounts)
    ensures store.tags == old(store.tags) && store.links == old(store.links)
    ensures store.nextCategoryId == old(store.nextCategoryId)
  {
    if !CanDeleteCategory(store.articles, id) {
      return Reply(false, "Cannot delete category that has articles");
    }
    var ok := DeleteCategory(store, id);
    r := Outcome(ok, "Category deleted successfully", "Failed to delete category");
  }

  /** The lifted `!` of a `bool?`: true and false swap, unset stays unset. */
  function Toggle(b: Option<bool>): (r: Option<bool>)
    ensures r.None? <==> b.None?
    ensures r.Some? ==> r.value != b.value
  {
    match b
    case None => None
    case Some(v) => Some(!v)
  }

  /** Toggling twice restores the flag, and a category whose flag is unset is never made active. */
  lemma ToggleInvolution(b: Option<bool>)
    ensures Toggle(Toggle(b)) == b
    ensures Toggle(b) == Some(true) <==> b == Some(false)
  {
  }

  /**
   * `ToggleActive`: a missing category is reported; otherwise its flag is
   * negated (an unset flag stays unset) and the save's outcome reported.
   */
  method ToggleActive(store: Store, id: int) returns (r: Reply)
    requires store.Valid()
    modifies store
    ensures store.Valid()
    ensures id !in CategoryIds(old(store.categories)) ==> r == Reply(false, "Category not found")
    ensures id in CategoryIds(old(store.categories)) ==>
      var i := IndexOf(old(store.categories), CategoryKey, id).value;
      var c := old(store.categories)[i];
      && r == Outcome(CategoryFieldsOk(c), "Category status updated", "Failed to update status")
      && (r.success ==> store.categories == ReplaceAt(old(store.categories), i, c.(isActive := Toggle(c.isActive))))
    ensures !r.success ==> store.categories == old(store.categories)
    ensures store.articles == old(store.articles) && store.accounts == old(store.accounts)
    ensures store.tags == old(store.tags) && store.links == old(store.links)
    ensures store.nextCategoryId == old(store.nextCategoryId)
  {
    var found := CategoryWithDetails(store.categories, id);
    if found.None? {
      return Reply(false, "Category not found");
    }
    FindMember(store.categories, CategoryKey, found.value);
    var c := found.value;
    var ok := UpdateCategory(store, c.(isActive := Toggle(c.isActive)));
    r := Outcome(ok, "Category status updated", "Failed to update status");
  }
}
