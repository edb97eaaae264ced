/**
 * The five persisted entities (the tables Category, NewsArticle,
 * SystemAccount, Tag and NewsTag), with their nullable columns as options,
 * timestamps as integer seconds and the column lengths the schema declares.
 */
module Entities {
  import opened Wrappers

  /** A category; `parentId` refers to another category (or to itself). */
  datatype Category = Category(
    id: int,
    name: string,
    description: string,
    parentId: Option<int>,
    isActive: Option<bool>)

  /** A news article. `status` is the publication flag: true, false or unset. */
  datatype Article = Article(
    id: string,
    title: Option<string>,
    headline: string,
    createdDate: Option<int>,
    content: Option<string>,
    source: Option<string>,
    categoryId: Option<int>,
    status: Option<bool>,
    createdById: Option<int>,
    updatedById: Option<int>,
    modifiedDate: Option<int>)

  /** A persisted account: role 1 is Staff, role 2 is Lecturer. */
  datatype Account = Account(
    id: int,
    name: Option<string>,
    email: Option<string>,
    role: Option<int>,
    password: Option<string>)

  datatype Tag = Tag(id: int, name: Option<string>, note: Option<string>)

  /** One article-to-tag link; the pair is the row's key. */
  datatype NewsTag = NewsTag(articleId: string, tagId: int)

  function ArticleKey(a: Article): string { a.id }
  function CategoryKey(c: Category): int { c.id }
  function AccountKey(a: Account): int { a.id }
  function TagKey(t: Tag): int { t.id }

  /** A nullable column declared with a maximum length. */
  predicate FitsIn(s: Option<string>, n: nat) {
    s.None? || |s.value| <= n
  }

  /** A required (NOT NULL) column declared with a maximum length. */
  predicate RequiredFitsIn(s: Option<string>, n: nat) {
    s.Some? && |s.value| <= n
  }

  predicate ArticleFits(a: Article) {
    |a.id| <= 20 && FitsIn(a.title, 400) && |a.headline| <= 150
    && FitsIn(a.content, 4000) && FitsIn(a.source, 400)
  }

  predicate CategoryFits(c: Category) {
    |c.name| <= 100 && |c.description| <= 250
  }

  predicate AccountFits(u: Account) {
    FitsIn(u.name, 100) && RequiredFitsIn(u.email, 70) && RequiredFitsIn(u.password, 70)
  }

  predicate TagFits(t: Tag) {
    FitsIn(t.name, 50) && FitsIn(t.note, 400)
  }

  // Role numbers
  const AdminRole: int := 0
  const StaffRole: int := 1
  const LecturerRole: int := 2
}
