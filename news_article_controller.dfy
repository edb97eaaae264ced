/**
 * The staff article pages: the validation chains of Create and Edit, the
 * fields they fill in from the signed-in account, and the details view.
 */
module NewsArticleController {
  import opened Wrappers
  import opened Seqs
  import opened Text
  import opened Entities
  import opened Store
  import opened NewsTagRepository
  import opened NewsArticleRepository
  import opened NewsArticleService

  /** The posted `NewsArticleViewModel`; the status is a plain check box. */
  datatype ArticleForm = ArticleForm(
    id: Option<string>,
    title: Option<string>,
    headline: Option<string>,
    content: Option<string>,
    source: Option<string>,
    categoryId: Option<int>,
    status: bool)

  /** Where a form post ends. */
  datatype FormResult =
    | RedirectToLogin          // no account in the session
    | NotFound                 // the edited article does not exist
    | Invalid(message: string) // the form is shown again with this error
    | Saved(message: string)   // back to the list with this confirmation

  /** The first check of `Create` that fails, in the order the action runs them. */
  function CreateError(f: ArticleForm): (r: Option<string>)
    ensures r.None? <==> && !IsNullOrWhiteSpace(f.title) && !IsNullOrWhiteSpace(f.headline)
                         && f.categoryId.Some? && f.categoryId.value != 0
    ensures IsNullOrWhiteSpace(f.title) ==> r == Some("News Title is required")
  {
    if IsNullOrWhiteSpace(f.title) then Some("News Title is required")
    else if IsNullOrWhiteSpace(f.headline) then Some("Headline is required")
    else if f.categoryId.None? || f.categoryId.value == 0 then Some("Category is required")
    else None
  }

  /** The first check of `Edit` that fails: title and headline only, the category is not checked. */
  function EditError(f: ArticleForm): (r: Option<string>)
    ensures r.None? <==> !IsNullOrWhiteSpace(f.title) && !IsNullOrWhiteSpace(f.headline)
    ensures CreateError(f).None? ==> r.None?
  {
    if IsNullOrWhiteSpace(f.title) then Some("News Title is required")
    else if IsNullOrWhiteSpace(f.headline) then Some("Headline is required")
    else None
  }

  /** The article `Create` hands to the service: written by the signed-in account, at `now`. */
  function NewArticle(f: ArticleForm, id: string, user: Account, now: int): (r: Article)
    requires f.headline.Some?
    ensures r.createdById == Some(user.id) && r.createdDate == Some(now) && r.status == Some(f.status)
    ensures r.updatedById.None? && r.modifiedDate.None?
  {
    Article(id, f.title, f.headline.value, Some(now), f.content, f.source, f.categoryId,
            Some(f.status), Some(user.id), None, None)
  }

  /** A missing tag list counts as an empty one. */
  function SelectedTags(tagIds: Option<seq<int>>): (r: seq<int>)
    ensures tagIds.None? ==> r == []
    ensures tagIds.Some? ==> r == tagIds.value
  {
    tagIds.GetOr([])
  }

  /**
   * `Create` (POST): no session account sends to login; a failed check is
   * reported and nothing is stored; otherwise the service stores the new
   * article (written by the session account) and its tag links. As in the
   * service, a row that was saved stays saved when its links are refused.
   */
  method Create(store: Store, session: Option<Account>, f: ArticleForm, tagIds: Option<seq<int>>, now: int)
    returns (r: FormResult)
    requires store.Valid()
    modifies store
    ensures store.Valid()
    ensures session.None? ==> r == RedirectToLogin && store.articles == old(store.articles) && store.links == old(store.links)
    ensures session.Some? && CreateError(f).Some? ==>
      r == Invalid(CreateError(f).value) && store.articles == old(store.articles) && store.links == old(store.links)
    ensures session.Some? && CreateError(f).None? ==>
      var id := GenerateNewArticleId(old(store.articles));
      var row := CreatedRow(NewArticle(f, id, session.value, now), id, now);
      var tags := SelectedTags(tagIds);
      var saved := id !in ArticleIds(old(store.articles)) && ArticleRowOk(row, store.categories, store.accounts);
      && (r == Saved("Article created successfully") <==>
            saved && (|tags| == 0 || LinksAccepted(old(store.links), store.articles, store.tags, id, tags)))
      && (r != Saved("Article created successfully") ==> r == Invalid("Failed to create article"))
      && row.createdById == Some(session.value.id)
      && store.articles == (if saved then old(store.articles) + [row] else old(store.articles))
      && store.links == (if r.Saved? then old(store.links) + LinksFor(id, tags) else old(store.links))
    ensures store.categories == old(store.categories) && store.accounts == old(store.accounts)
    ensures store.tags == old(store.tags) && store.nextCategoryId == old(store.nextCategoryId)
  {
    if session.None? {
      return RedirectToLogin;
    }
    var e := CreateError(f);
    if e.Some? {
      return Invalid(e.value);
    }
    var id := GenerateNewArticleId(store.articles);
    var article := NewArticle(f, id, session.value, now);
    var ok := CreateArticle(store, article, Some(SelectedTags(tagIds)), now);
    r := if ok then Saved("Article created successfully") else Invalid("Failed to create article");
  }

  /** The loaded article after `Edit` copied the form onto it and stamped the editor and the time. */
  function Edited(a: Article, f: ArticleForm, user: Account, now: int): (r: Article)
    requires f.headline.Some?
    ensures r.id == a.id && r.createdById == a.createdById && r.createdDate == a.createdDate
    ensures r.title == f.title && r.headline == f.headline.value && r.content == f.content
    ensures r.source == f.source && r.categoryId == f.categoryId && r.status == Some(f.status)
    ensures r.updatedById == Some(user.id) && r.modifiedDate == Some(now)
  {
    a.(title := f.title, headline := f.headline.value, content := f.content, source := f.source,
       categoryId := f.categoryId, status := Some(f.status), modifiedDate := Some(now),
       updatedById := Some(user.id))
  }

  /**
   * `Edit` (POST): no session account sends to login; a missing title or
   * headline is reported; an unknown article is not found; otherwise the
   * article gets the form's fields, the session account as its editor, and
   * exactly the selected tags. When the row is saved but the new links are
   * refused, the article keeps the new fields and has lost its old tags.
   */
  method Edit(store: Store, session: Option<Account>, f: ArticleForm, tagIds: Option<seq<int>>, now: int)
    returns (r: FormResult)
    requires store.Valid()
    modifies store
    ensures store.Valid()
    ensures session.None? ==> r == RedirectToLogin && store.articles == old(store.articles) && store.links == old(store.links)
    ensures session.Some? && EditError(f).Some? ==>
      r == Invalid(EditError(f).value) && store.articles == old(store.articles) && store.links == old(store.links)
    ensures session.Some? && EditError(f).None? && ArticleWithDetails(old(store.articles), f.id).None? ==>
      r == NotFound && store.articles == old(store.articles) && store.links == old(store.links)
    ensures session.Some? && EditError(f).None? && ArticleWithDetails(old(store.articles), f.id).Some? ==>
      var a := ArticleWithDetails(old(store.articles), f.id).value;
      var row := Edited(a, f, session.value, now);
      var tags := SelectedTags(tagIds);
      var saved := ArticleRowOk(row, store.categories, store.accounts);
      && (r == Saved("Article updated successfully") <==>
            saved && (|tags| == 0 || LinksAccepted(WithoutArticle(old(store.links), a.id), store.articles, store.tags, a.id, tags)))
      && (r != Saved("Article updated successfully") ==> r == Invalid("Failed to update article"))
      && store.articles == (if saved then ReplaceAt(old(store.articles), IndexOf(old(store.articles), ArticleKey, a.id).value, row)
                            else old(store.articles))
      && store.links == (if !saved then old(store.links)
                         else if r.Saved? then WithoutArticle(old(store.links), a.id) + LinksFor(a.id, tags)
                         else WithoutArticle(old(store.links), a.id))
      && (r.Saved? ==> forall t :: NewsTag(a.id, t) in store.links <==> t in tags)
    ensures store.categories == old(store.categories) && store.accounts == old(store.accounts)
    ensures store.tags == old(store.tags) && store.nextCategoryId == old(store.nextCategoryId)
  {
    if session.None? {
      return RedirectToLogin;
    }
    var e := EditError(f);
    if e.Some? {
      return Invalid(e.value);
    }
    var found := ArticleWithDetails(store.articles, f.id);
    if found.None? {
      return NotFound;
    }
    var row := Edited(found.value, f, session.value, now);
    assert UpdatedRow(row, session.value.id, now) == row;
    var ok := UpdateArticle(store, row, Some(SelectedTags(tagIds)), session.value.id, now);
    r := if ok then Saved("Article updated successfully") else Invalid("Failed to update article");
  }

  /** The JSON `Details` answers with. */
  datatype ArticleDetails = ArticleDetails(
    id: string,
    title: Option<string>,
    headline: string,
    content: Option<string>,
    source: Option<string>,
    categoryId: Option<int>,
    categoryName: Option<string>,
    status: bool,
    createdByName: Option<string>,
    updatedByName: Option<string>,
    createdDate: Option<int>,
    modifiedDate: Option<int>,
    selectedTagIds: seq<int>)

  /**
   * `Details`: the article with its names resolved, an unset status shown
   * as false, and the ids of its linked tags; nothing for an unknown id.
   */
  function Details(articles: seq<Article>, categories: seq<Category>, accounts: seq<Account>, tags: seq<Tag>,
                   links: set<NewsTag>, id: Option<string>): (r: Option<ArticleDetails>)
    requires UniqueBy(tags, TagKey)
    ensures r.Some? <==> ArticleWithDetails(articles, id).Some?
    ensures r.Some? ==> var a := ArticleWithDetails(articles, id).value;
      && r.value.id == a.id && r.value.headline == a.headline
      && (r.value.status <==> a.status == Some(true))
      && r.value.categoryName == CategoryName(a, categories)
      && r.value.createdByName == CreatorName(a, accounts)
      && Distinct(r.value.selectedTagIds)
      && forall t :: t in r.value.selectedTagIds <==> t in TagIds(tags) && NewsTag(a.id, t) in links
  {
    match ArticleWithDetails(articles, id)
    case None => None
    case Some(a) =>
      var updater := if a.updatedById.Some? then Find(accounts, AccountKey, a.updatedById.value) else None;
      Some(ArticleDetails(a.id, a.title, a.headline, a.content, a.source, a.categoryId,
                          CategoryName(a, categories), a.status.GetOr(false), CreatorName(a, accounts),
                          if updater.Some? then updater.value.name else None,
                          a.createdDate, a.modifiedDate, LinkedTagIds(tags, links, a.id)))
  }
}
