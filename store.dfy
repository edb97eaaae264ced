/**
 * The database behind the application: four keyed tables, the NewsTag link
 * table and the constraints the schema imposes on them (primary keys, foreign
 * keys, column lengths, NOT NULL). A write that would break a constraint is
 * refused as a whole and leaves every table as it was, as a failed
 * SaveChanges does.
 */
module Store {
  import opened Wrappers
  import opened Seqs
  import opened Entities
  import opened Text

  function ArticleIds(articles: seq<Article>): set<string> { KeySet(articles, ArticleKey) }
  function CategoryIds(categories: seq<Category>): set<int> { KeySet(categories, CategoryKey) }
  function AccountIds(accounts: seq<Account>): set<int> { KeySet(accounts, AccountKey) }
  function TagIds(tags: seq<Tag>): set<int> { KeySet(tags, TagKey) }

  /** A nullable foreign key: unset, or the key of an existing row. */
  predicate RefOk(r: Option<int>, ids: set<int>) {
    r.None? || r.value in ids
  }

  predicate CategoryRowOk(c: Category, categories: seq<Category>) {
    CategoryFits(c) && RefOk(c.parentId, CategoryIds(categories))
  }

  predicate ArticleRowOk(a: Article, categories: seq<Category>, accounts: seq<Account>) {
    && ArticleFits(a)
    && RefOk(a.categoryId, CategoryIds(categories))
    && RefOk(a.createdById, AccountIds(accounts))
    && RefOk(a.updatedById, AccountIds(accounts))
  }

  predicate LinkRowOk(l: NewsTag, articles: seq<Article>, tags: seq<Tag>) {
    l.articleId in ArticleIds(articles) && l.tagId in TagIds(tags)
  }

  predicate CategoriesOk(categories: seq<Category>) {
    && UniqueBy(categories, CategoryKey)
    && forall c | c in categories :: CategoryRowOk(c, categories)
  }

  predicate AccountsOk(accounts: seq<Account>) {
    && UniqueBy(accounts, AccountKey)
    && forall u | u in accounts :: AccountFits(u)
  }

  predicate TagsOk(tags: seq<Tag>) {
    && UniqueBy(tags, TagKey)
    && forall t | t in tags :: TagFits(t)
  }

  predicate ArticlesOk(articles: seq<Article>, categories: seq<Category>, accounts: seq<Account>) {
    && UniqueBy(articles, ArticleKey)
    && forall a | a in articles :: ArticleRowOk(a, categories, accounts)
  }

  predicate LinksOk(links: set<NewsTag>, articles: seq<Article>, tags: seq<Tag>) {
    forall l | l in links :: LinkRowOk(l, articles, tags)
  }

  /** Every constraint of the schema holds. */
  predicate Consistent(articles: seq<Article>, categories: seq<Category>, accounts: seq<Account>,
                       tags: seq<Tag>, links: set<NewsTag>)
  {
    && CategoriesOk(categories)
    && AccountsOk(accounts)
    && TagsOk(tags)
    && ArticlesOk(articles, categories, accounts)
    && LinksOk(links, articles, tags)
  }

  /** The links left after the links of article `id` are dropped. */
  function WithoutArticle(links: set<NewsTag>, id: string): (r: set<NewsTag>)
    ensures forall l :: l in r <==> l in links && l.articleId != id
  {
    set l | l in links && l.articleId != id
  }

  // ---------------------------------------------------------------------------
  // Navigation properties (the rows a foreign key leads to)

  /** `article.Category`: the referenced category, when the key is set and the row exists. */
  function CategoryOf(a: Article, categories: seq<Category>): (r: Option<Category>)
    ensures r.Some? ==> r.value in categories && a.categoryId == Some(r.value.id)
    ensures r.None? <==> a.categoryId.None? || a.categoryId.value !in CategoryIds(categories)
  {
    if a.categoryId.None? then None else Find(categories, CategoryKey, a.categoryId.value)
  }

  /** `article.CreatedBy`: the creator's account, when the key is set and the row exists. */
  function CreatorOf(a: Article, accounts: seq<Account>): (r: Option<Account>)
    ensures r.Some? ==> r.value in accounts && a.createdById == Some(r.value.id)
    ensures r.None? <==> a.createdById.None? || a.createdById.value !in AccountIds(accounts)
  {
    if a.createdById.None? then None else Find(accounts, AccountKey, a.createdById.value)
  }

  // ---------------------------------------------------------------------------
  // When each single-row write keeps the schema's constraints

  lemma ArticleRowMono(a: Article, C: seq<Category>, C': seq<Category>, U: seq<Account>, U': seq<Account>)
    requires CategoryIds(C) <= CategoryIds(C') && AccountIds(U) <= AccountIds(U')
    requires ArticleRowOk(a, C, U)
    ensures ArticleRowOk(a, C', U')
  {
  }

  /** Inserting an article succeeds iff its id is new and its row satisfies the schema. */
  lemma InsertArticleOk(A: seq<Article>, C: seq<Category>, U: seq<Account>, T: seq<Tag>, L: set<NewsTag>, a: Article)
    requires Consistent(A, C, U, T, L)
    ensures Consistent(A + [a], C, U, T, L) <==> a.id !in ArticleIds(A) && ArticleRowOk(a, C, U)
  {
    KeySetAppend(A, ArticleKey, a);
    UniqueAppend(A, ArticleKey, a);
    var A' := A + [a];
    if a.id !in ArticleIds(A) && ArticleRowOk(a, C, U) {
      forall x | x in A' ensures ArticleRowOk(x, C, U) {
        if x != a { assert x in A; }
      }
    }
    if Consistent(A', C, U, T, L) {
      assert a in A';
    }
  }

  /** Overwriting an existing article succeeds iff the new row satisfies the schema. */
  lemma ReplaceArticleOk(A: seq<Article>, C: seq<Category>, U: seq<Account>, T: seq<Tag>, L: set<NewsTag>, i: nat, a: Article)
    requires Consistent(A, C, U, T, L)
    requires i < |A| && a.id == A[i].id
    ensures Consistent(ReplaceAt(A, i, a), C, U, T, L) <==> ArticleRowOk(a, C, U)
  {
    KeySetReplace(A, ArticleKey, i, a);
    var A' := ReplaceAt(A, i, a);
    assert a in A';
  }

  /** Deleting an article, with its links cascading, always keeps the constraints. */
  lemma RemoveArticleOk(A: seq<Article>, C: seq<Category>, U: seq<Account>, T: seq<Tag>, L: set<NewsTag>, i: nat)
    requires Consistent(A, C, U, T, L)
    requires i < |A|
    ensures Consistent(RemoveAt(A, i), C, U, T, WithoutArticle(L, A[i].id))
  {
    KeySetRemove(A, ArticleKey, i);
  }

  /** Adding links succeeds iff every new link names an existing article and tag. */
  lemma AddLinksOk(A: seq<Article>, C: seq<Category>, U: seq<Account>, T: seq<Tag>, L: set<NewsTag>, N: set<NewsTag>)
    requires Consistent(A, C, U, T, L)
    ensures Consistent(A, C, U, T, L + N) <==> forall l | l in N :: LinkRowOk(l, A, T)
  {
  }

  /** Removing links always keeps the constraints. */
  lemma RemoveLinksOk(A: seq<Article>, C: seq<Category>, U: seq<Account>, T: seq<Tag>, L: set<NewsTag>, N: set<NewsTag>)
    requires Consistent(A, C, U, T, L)
    ensures Consistent(A, C, U, T, L - N)
  {
  }

  /**
   * Inserting a category succeeds iff its id is new, its columns fit and its
   * parent is unset, an existing category or the new row itself.
   */
  lemma InsertCategoryOk(A: seq<Article>, C: seq<Category>, U: seq<Account>, T: seq<Tag>, L: set<NewsTag>, c: Category)
    requires Consistent(A, C, U, T, L)
    ensures Consistent(A, C + [c], U, T, L)
        <==> c.id !in CategoryIds(C) && CategoryFits(c) && RefOk(c.parentId, CategoryIds(C) + {c.id})
  {
    KeySetAppend(C, CategoryKey, c);
    UniqueAppend(C, CategoryKey, c);
    var C' := C + [c];
    forall a | a in A ensures ArticleRowOk(a, C', U) {
      ArticleRowMono(a, C, C', U, U);
    }
    if c.id !in CategoryIds(C) && CategoryFits(c) && RefOk(c.parentId, CategoryIds(C) + {c.id}) {
      forall x | x in C' ensures CategoryRowOk(x, C') {
        if x != c { assert x in C && CategoryRowOk(x, C); }
      }
    }
    if Consistent(A, C', U, T, L) {
      assert c in C';
    }
  }

  /** Overwriting an existing category succeeds iff the new row fits and its parent exists. */
  lemma ReplaceCategoryOk(A: seq<Article>, C: seq<Category>, U: seq<Account>, T: seq<Tag>, L: set<NewsTag>, i: nat, c: Category)
    requires Consistent(A, C, U, T, L)
    requires i < |C| && c.id == C[i].id
    ensures Consistent(A, ReplaceAt(C, i, c), U, T, L) <==> CategoryRowOk(c, C)
  {
    KeySetReplace(C, CategoryKey, i, c);
    var C' := ReplaceAt(C, i, c);
    assert c in C';
    forall a | a in A ensures ArticleRowOk(a, C', U) {
      ArticleRowMono(a, C, C', U, U);
    }
  }

  /**
   * Deleting a category succeeds iff no article and no other category refers to it
   * (both foreign keys restrict the delete).
   */
  lemma RemoveCategoryOk(A: seq<Article>, C: seq<Category>, U: seq<Account>, T: seq<Tag>, L: set<NewsTag>, i: nat)
    requires Consistent(A, C, U, T, L)
    requires i < |C|
    ensures Consistent(A, RemoveAt(C, i), U, T, L)
        <==> && (forall a | a in A :: a.categoryId != Some(C[i].id))
             && (forall x | x in RemoveAt(C, i) :: x.parentId != Some(C[i].id))
  {
    KeySetRemove(C, CategoryKey, i);
    var C' := RemoveAt(C, i);
    var id := C[i].id;
    if (forall a | a in A :: a.categoryId != Some(id)) && (forall x | x in C' :: x.parentId != Some(id)) {
      forall x | x in C' ensures CategoryRowOk(x, C') {
        assert x in C && CategoryRowOk(x, C);
      }
      forall a | a in A ensures ArticleRowOk(a, C', U) {
        assert ArticleRowOk(a, C, U);
      }
    }
    if Consistent(A, C', U, T, L) {
      forall a | a in A ensures a.categoryId != Some(id) {
        assert ArticleRowOk(a, C', U);
      }
      forall x | x in C' ensures x.parentId != Some(id) {
        assert CategoryRowOk(x, C');
      }
    }
  }

  /** Inserting an account succeeds iff its id is new and its columns fit. */
  lemma InsertAccountOk(A: seq<Article>, C: seq<Category>, U: seq<Account>, T: seq<Tag>, L: set<NewsTag>, u: Account)
    requires Consistent(A, C, U, T, L)
    ensures Consistent(A, C, U + [u], T, L) <==> u.id !in AccountIds(U) && AccountFits(u)
  {
    KeySetAppend(U, AccountKey, u);
    UniqueAppend(U, AccountKey, u);
    var U' := U + [u];
    forall a | a in A ensures ArticleRowOk(a, C, U') {
      ArticleRowMono(a, C, C, U, U');
    }
    if u.id !in AccountIds(U) && AccountFits(u) {
      forall x | x in U' ensures AccountFits(x) {
        if x != u { assert x in U; }
      }
    }
    if Consistent(A, C, U', T, L) {
      assert u in U';
    }
  }

  /** Overwriting an existing account succeeds iff the new row's columns fit. */
  lemma ReplaceAccountOk(A: seq<Article>, C: seq<Category>, U: seq<Account>, T: seq<Tag>, L: set<NewsTag>, i: nat, u: Account)
    requires Consistent(A, C, U, T, L)
    requires i < |U| && u.id == U[i].id
    ensures Consistent(A, C, ReplaceAt(U, i, u), T, L) <==> AccountFits(u)
  {
    KeySetReplace(U, AccountKey, i, u);
    var U' := ReplaceAt(U, i, u);
    assert u in U';
    forall a | a in A ensures ArticleRowOk(a, C, U') {
      ArticleRowMono(a, C, C, U, U');
    }
  }

  /**
   * Deleting an account succeeds iff no article names it as creator or as
   * last updater (both foreign keys restrict the delete).
   */
  lemma RemoveAccountOk(A: seq<Article>, C: seq<Category>, U: seq<Account>, T: seq<Tag>, L: set<NewsTag>, i: nat)
    requires Consistent(A, C, U, T, L)
    requires i < |U|
    ensures Consistent(A, C, RemoveAt(U, i), T, L)
        <==> forall a | a in A :: a.createdById != Some(U[i].id) && a.updatedById != Some(U[i].id)
  {
    KeySetRemove(U, AccountKey, i);
    var U' := RemoveAt(U, i);
    var id := U[i].id;
    if forall a | a in A :: a.createdById != Some(id) && a.updatedById != Some(id) {
      forall a | a in A ensures ArticleRowOk(a, C, U') {
        assert ArticleRowOk(a, C, U);
      }
    }
    if Consistent(A, C, U', T, L) {
      forall a | a in A ensures a.createdById != Some(id) && a.updatedById != Some(id) {
        assert ArticleRowOk(a, C, U');
      }
    }
  }

  /** Inserting a tag succeeds iff its id is new and its columns fit. */
  lemma InsertTagOk(A: seq<Article>, C: seq<Category>, U: seq<Account>, T: seq<Tag>, L: set<NewsTag>, t: Tag)
    requires Consistent(A, C, U, T, L)
    ensures Consistent(A, C, U, T + [t], L) <==> t.id !in TagIds(T) && TagFits(t)
  {
    KeySetAppend(T, TagKey, t);
    UniqueAppend(T, TagKey, t);
    var T' := T + [t];
    if t.id !in TagIds(T) && TagFits(t) {
      forall x | x in T' ensures TagFits(x) {
        if x != t { assert x in T; }
      }
    }
    if Consistent(A, C, U, T', L) {
      assert t in T';
    }
  }

  /** Overwriting an existing tag succeeds iff the new row's columns fit. */
  lemma ReplaceTagOk(A: seq<Article>, C: seq<Category>, U: seq<Account>, T: seq<Tag>, L: set<NewsTag>, i: nat, t: Tag)
    requires Consistent(A, C, U, T, L)
    requires i < |T| && t.id == T[i].id
    ensures Consistent(A, C, U, ReplaceAt(T, i, t), L) <==> TagFits(t)
  {
    KeySetReplace(T, TagKey, i, t);
    var T' := ReplaceAt(T, i, t);
    assert t in T';
  }

  /** Deleting a tag succeeds iff no link uses it (the foreign key restricts the delete). */
  lemma RemoveTagOk(A: seq<Article>, C: seq<Category>, U: seq<Account>, T: seq<Tag>, L: set<NewsTag>, i: nat)
    requires Consistent(A, C, U, T, L)
    requires i < |T|
    ensures Consistent(A, C, U, RemoveAt(T, i), L) <==> forall l | l in L :: l.tagId != T[i].id
  {
    KeySetRemove(T, TagKey, i);
  }

  // ---------------------------------------------------------------------------
  // The context object

  /** The `smallint` category identity, which starts at 1, can still hand out `next`. */
  predicate IdentityAvailable(next: int) {
    next <= Int16Max
  }

  /**
   * The in-memory database. Category ids are identity values drawn from
   * `nextCategoryId` (seed 1, step 1, at most 32767); every other key is
   * supplied by the caller.
   */
  class Store {
    var articles: seq<Article>
    var categories: seq<Category>
    var accounts: seq<Account>
    var tags: seq<Tag>
    var links: set<NewsTag>
    var nextCategoryId: int

    ghost predicate Valid()
      reads this
    {
      && Consistent(articles, categories, accounts, tags, links)
      && 1 <= nextCategoryId
      && (forall c | c in categories :: c.id < nextCategoryId)
      && (forall c | c in categories :: Int16Min <= c.id <= Int16Max)
    }

    constructor (A: seq<Article>, C: seq<Category>, U: seq<Account>, T: seq<Tag>, L: set<NewsTag>, next: int)
      requires Consistent(A, C, U, T, L)
      requires 1 <= next
      requires forall c | c in C :: c.id < next
      requires forall c | c in C :: Int16Min <= c.id <= Int16Max
      ensures Valid()
      ensures articles == A && categories == C && accounts == U && tags == T && links == L
      ensures nextCategoryId == next
    {
      articles, categories, accounts, tags, links := A, C, U, T, L;
      nextCategoryId := next;
    }

    /** Inserts an article row. */
    method AddArticle(a: Article) returns (ok: bool)
      requires Valid()
      modifies this
      ensures Valid()
      ensures ok <==> a.id !in ArticleIds(old(articles)) && ArticleRowOk(a, categories, accounts)
      ensures articles == if ok then old(articles) + [a] else old(articles)
      ensures categories == old(categories) && accounts == old(accounts) && tags == old(tags)
      ensures links == old(links) && nextCategoryId == old(nextCategoryId)
    {
      InsertArticleOk(articles, categories, accounts, tags, links, a);
      ok := Consistent(articles + [a], categories, accounts, tags, links);
      if ok {
        articles := articles + [a];
      }
    }

    /** Overwrites the article row with the same id; a missing row is a failure. */
    method UpdateArticle(a: Article) returns (ok: bool)
      requires Valid()
      modifies this
      ensures Valid()
      ensures ok <==> a.id in ArticleIds(old(articles)) && ArticleRowOk(a, categories, accounts)
      ensures ok ==> articles == ReplaceAt(old(articles), IndexOf(old(articles), ArticleKey, a.id).value, a)
      ensures !ok ==> articles == old(articles)
      ensures categories == old(categories) && accounts == old(accounts) && tags == old(tags)
      ensures links == old(links) && nextCategoryId == old(nextCategoryId)
    {
      var i := IndexOf(articles, ArticleKey, a.id);
      if i.None? {
        return false;
      }
      ReplaceArticleOk(articles, categories, accounts, tags, links, i.value, a);
      ok := Consistent(ReplaceAt(articles, i.value, a), categories, accounts, tags, links);
      if ok {
        articles := ReplaceAt(articles, i.value, a);
      }
    }

    /** Deletes the article row with this id; its links go with it. */
    method RemoveArticle(id: string) returns (ok: bool)
      requires Valid()
      modifies this
      ensures Valid()
      ensures ok <==> id in ArticleIds(old(articles))
      ensures ok ==> articles == RemoveAt(old(articles), IndexOf(old(articles), ArticleKey, id).value)
      ensures ok ==> links == WithoutArticle(old(links), id)
      ensures !ok ==> articles == old(articles) && links == old(links)
      ensures categories == old(categories) && accounts == old(accounts) && tags == old(tags)
      ensures nextCategoryId == old(nextCategoryId)
    {
      var i := IndexOf(articles, ArticleKey, id);
      if i.None? {
        return false;
      }
      RemoveArticleOk(articles, categories, accounts, tags, links, i.value);
      articles := RemoveAt(articles, i.value);
      links := WithoutArticle(links, id);
      ok := true;
    }

    /**
     * Inserts a list of link rows. Two equal rows in the list, or a row
     * whose (article, tag) pair is already stored, is a key conflict.
     */
    method AddLinks(rows: seq<NewsTag>) returns (ok: bool)
      requires Valid()
      modifies this
      ensures Valid()
      ensures ok <==> Distinct(rows) && forall l | l in rows :: l !in old(links) && LinkRowOk(l, articles, tags)
      ensures links == if ok then old(links) + Elements(rows) else old(links)
      ensures articles == old(articles) && categories == old(categories) && accounts == old(accounts)
      ensures tags == old(tags) && nextCategoryId == old(nextCategoryId)
    {
      var n := Elements(rows);
      AddLinksOk(articles, categories, accounts, tags, links, n);
      assert n * links == {} <==> forall l | l in rows :: l !in links by {
        if n * links != {} {
          var x :| x in n * links;
          assert x in rows;
        } else {
          forall l | l in rows ensures l !in links {
            assert l in n && l !in n * links;
          }
        }
      }
      ok := Distinct(rows) && n * links == {} && Consistent(articles, categories, accounts, tags, links + n);
      if ok {
        links := links + n;
      }
    }

    /** Deletes link rows. */
    method RemoveLinks(n: set<NewsTag>)
      requires Valid()
      modifies this
      ensures Valid()
      ensures links == old(links) - n
      ensures articles == old(articles) && categories == old(categories) && accounts == old(accounts)
      ensures tags == old(tags) && nextCategoryId == old(nextCategoryId)
    {
      RemoveLinksOk(articles, categories, accounts, tags, links, n);
      links := links - n;
    }

    /**
     * Inserts a category under the next identity value, whatever id `c`
     * carries, and returns the row as stored. The key column is a `smallint`
     * identity: once the next value would exceed 32767 the database refuses
     * every insert with an arithmetic overflow and the identity stays where
     * it is. Below that limit the insert reaches the table either way, so
     * the identity value is used up even when the row is refused.
     */
    method AddCategory(c: Category) returns (ok: bool, stored: Category)
      requires Valid()
      modifies this
      ensures Valid()
      ensures stored == c.(id := old(nextCategoryId))
      ensures ok <==> && IdentityAvailable(old(nextCategoryId))
                      && CategoryFits(c) && RefOk(c.parentId, CategoryIds(old(categories)) + {stored.id})
      ensures categories == if ok then old(categories) + [stored] else old(categories)
      ensures nextCategoryId == old(nextCategoryId) + if IdentityAvailable(old(nextCategoryId)) then 1 else 0
      ensures articles == old(articles) && accounts == old(accounts) && tags == old(tags) && links == old(links)
    {
      stored := c.(id := nextCategoryId);
      if !IdentityAvailable(nextCategoryId) {
        return false, stored;
      }
      InsertCategoryOk(articles, categories, accounts, tags, links, stored);
      assert stored.id !in CategoryIds(categories);
      ok := Consistent(articles, categories + [stored], accounts, tags, links);
      if ok {
        categories := categories + [stored];
      }
      nextCategoryId := nextCategoryId + 1;
    }

    /** Overwrites the category row with the same id; a missing row is a failure. */
    method UpdateCategory(c: Category) returns (ok: bool)
      requires Valid()
      modifies this
      ensures Valid()
      ensures ok <==> c.id in CategoryIds(old(categories)) && CategoryRowOk(c, old(categories))
      ensures ok ==> categories == ReplaceAt(old(categories), IndexOf(old(categories), CategoryKey, c.id).value, c)
      ensures !ok ==> categories == old(categories)
      ensures articles == old(articles) && accounts == old(accounts) && tags == old(tags)
      ensures links == old(links) && nextCategoryId == old(nextCategoryId)
    {
      var i := IndexOf(categories, CategoryKey, c.id);
      if i.None? {
        return false;
      }
      ReplaceCategoryOk(articles, categories, accounts, tags, links, i.value, c);
      ok := Consistent(articles, ReplaceAt(categories, i.value, c), accounts, tags, links);
      if ok {
        assert categories[i.value].id < nextCategoryId;
        categories := ReplaceAt(categories, i.value, c);
      }
    }

    /** Deletes the category row with this id, unless an article or another category refers to it. */
    method RemoveCategory(id: int) returns (ok: bool)
      requires Valid()
      modifies this
      ensures Valid()
      ensures ok <==> && id in CategoryIds(old(categories))
                      && (forall a | a in articles :: a.categoryId != Some(id))
                      && (forall x | x in old(categories) && x.id != id :: x.parentId != Some(id))
      ensures ok ==> categories == RemoveAt(old(categories), IndexOf(old(categories), CategoryKey, id).value)
      ensures !ok ==> categories == old(categories)
      ensures articles == old(articles) && accounts == old(accounts) && tags == old(tags)
      ensures links == old(links) && nextCategoryId == old(nextCategoryId)
    {
      var i := IndexOf(categories, CategoryKey, id);
      if i.None? {
        return false;
      }
      RemoveCategoryOk(articles, categories, accounts, tags, links, i.value);
      OthersAfterRemove(categories, i.value);
      ok := Consistent(articles, RemoveAt(categories, i.value), accounts, tags, links);
      if ok {
        categories := RemoveAt(categories, i.value);
      }
    }

    /** Inserts an account row. */
    method AddAccount(u: Account) returns (ok: bool)
      requires Valid()
      modifies this
      ensures Valid()
      ensures ok <==> u.id !in AccountIds(old(accounts)) && AccountFits(u)
      ensures accounts == if ok then old(accounts) + [u] else old(accounts)
      ensures articles == old(articles) && categories == old(categories) && tags == old(tags)
      ensures links == old(links) && nextCategoryId == old(nextCategoryId)
    {
      InsertAccountOk(articles, categories, accounts, tags, links, u);
      ok := Consistent(articles, categories, accounts + [u], tags, links);
      if ok {
        accounts := accounts + [u];
      }
    }

    /** Overwrites the account row with the same id; a missing row is a failure. */
    method UpdateAccount(u: Account) returns (ok: bool)
      requires Valid()
      modifies this
      ensures Valid()
      ensures ok <==> u.id in AccountIds(old(accounts)) && AccountFits(u)
      ensures ok ==> accounts == ReplaceAt(old(accounts), IndexOf(old(accounts), AccountKey, u.id).value, u)
      ensures !ok ==> accounts == old(accounts)
      ensures articles == old(articles) && categories == old(categories) && tags == old(tags)
      ensures links == old(links) && nextCategoryId == old(nextCategoryId)
    {
      var i := IndexOf(accounts, AccountKey, u.id);
      if i.None? {
        return false;
      }
      ReplaceAccountOk(articles, categories, accounts, tags, links, i.value, u);
      ok := Consistent(articles, categories, ReplaceAt(accounts, i.value, u), tags, links);
      if ok {
        accounts := ReplaceAt(accounts, i.value, u);
      }
    }

    /** Deletes the account row with this id, unless an article was created or last updated by it. */
    method RemoveAccount(id: int) returns (ok: bool)
      requires Valid()
      modifies this
      ensures Valid()
      ensures ok <==> && id in AccountIds(old(accounts))
                      && forall a | a in articles :: a.createdById != Some(id) && a.updatedById != Some(id)
      ensures ok ==> accounts == RemoveAt(old(accounts), IndexOf(old(accounts), AccountKey, id).value)
      ensures !ok ==> accounts == old(accounts)
      ensures articles == old(articles) && categories == old(categories) && tags == old(tags)
      ensures links == old(links) && nextCategoryId == old(nextCategoryId)
    {
      var i := IndexOf(accounts, AccountKey, id);
      if i.None? {
        return false;
      }
      RemoveAccountOk(articles, categories, accounts, tags, links, i.value);
      ok := Consistent(articles, categories, RemoveAt(accounts, i.value), tags, links);
      if ok {
        accounts := RemoveAt(accounts, i.value);
      }
    }

    /** Inserts a tag row. */
    method AddTag(t: Tag) returns (ok: bool)
      requires Valid()
      modifies this
      ensures Valid()
      ensures ok <==> t.id !in TagIds(old(tags)) && TagFits(t)
      ensures tags == if ok then old(tags) + [t] else old(tags)
      ensures articles == old(articles) && categories == old(categories) && accounts == old(accounts)
      ensures links == old(links) && nextCategoryId == old(nextCategoryId)
    {
      InsertTagOk(articles, categories, accounts, tags, links, t);
      ok := Consistent(articles, categories, accounts, tags + [t], links);
      if ok {
        tags := tags + [t];
      }
    }

    /** Overwrites the tag row with the same id; a missing row is a failure. */
    method UpdateTag(t: Tag) returns (ok: bool)
      requires Valid()
      modifies this
      ensures Valid()
      ensures ok <==> t.id in TagIds(old(tags)) && TagFits(t)
      ensures ok ==> tags == ReplaceAt(old(tags), IndexOf(old(tags), TagKey, t.id).value, t)
      ensures !ok ==> tags == old(tags)
      ensures articles == old(articles) && categories == old(categories) && accounts == old(accounts)
      ensures links == old(links) && nextCategoryId == old(nextCategoryId)
    {
      var i := IndexOf(tags, TagKey, t.id);
      if i.None? {
        return false;
      }
      ReplaceTagOk(articles, categories, accounts, tags, links, i.value, t);
      ok := Consistent(articles, categories, accounts, ReplaceAt(tags, i.value, t), links);
      if ok {
        tags := ReplaceAt(tags, i.value, t);
      }
    }

    /** Deletes the tag row with this id, unless a link uses it. */
    method RemoveTag(id: int) returns (ok: bool)
      requires Valid()
      modifies this
      ensures Valid()
      ensures ok <==> id in TagIds(old(tags)) && forall l | l in links :: l.tagId != id
      ensures ok ==> tags == RemoveAt(old(tags), IndexOf(old(tags), TagKey, id).value)
      ensures !ok ==> tags == old(tags)
      ensures articles == old(articles) && categories == old(categories) && accounts == old(accounts)
      ensures links == old(links) && nextCategoryId == old(nextCategoryId)
    {
      var i := IndexOf(tags, TagKey, id);
      if i.None? {
        return false;
      }
      RemoveTagOk(articles, categories, accounts, tags, links, i.value);
      ok := Consistent(articles, categories, accounts, RemoveAt(tags, i.value), links);
      if ok {
        tags := RemoveAt(tags, i.value);
      }
    }
  }

  /** The rows left after removing row `i` are exactly the rows with a different key. */
  lemma OthersAfterRemove(C: seq<Category>, i: nat)
    requires UniqueBy(C, CategoryKey) && i < |C|
    ensures forall x :: x in RemoveAt(C, i) <==> x in C && x.id != C[i].id
  {
    var r := RemoveAt(C, i);
    forall x ensures x in r <==> x in C && x.id != C[i].id {
      if x in r {
        var j :| 0 <= j < |r| && r[j] == x;
        if j < i { assert C[j] == x; } else { assert C[j + 1] == x; }
      }
      if x in C && x.id != C[i].id {
        var j :| 0 <= j < |C| && C[j] == x;
        if j < i { assert r[j] == x; } else { assert j != i; assert r[j - 1] == x; }
      }
    }
  }
}
