/**
 * The account repository: credential lookup, e-mail uniqueness, account
 * search, and the password change.
 */
module SystemAccountRepository {
  import opened Wrappers
  import opened Seqs
  import opened Text
  import opened Entities
  import opened Store

  /** The stored credentials equal the given ones exactly. */
  predicate CredentialsMatch(u: Account, email: string, password: string) {
    u.email == Some(email) && u.password == Some(password)
  }

  /** `GetAccountByEmailAsync`: the first account with that e-mail, or none. */
  function AccountByEmail(accounts: seq<Account>, email: string): (r: Option<Account>)
    ensures r.Some? ==> r.value in accounts && r.value.email == Some(email)
    ensures r.None? <==> forall u | u in accounts :: u.email != Some(email)
  {
    FirstWhere(accounts, (u: Account) => u.email == Some(email))
  }

  /** `LoginAsync`: the first account whose e-mail and password both match, or none. */
  function Login(accounts: seq<Account>, email: string, password: string): (r: Option<Account>)
    ensures r.Some? ==> r.value in accounts && CredentialsMatch(r.value, email, password)
    ensures r.None? <==> forall u | u in accounts :: !CredentialsMatch(u, email, password)
  {
    FirstWhere(accounts, (u: Account) => CredentialsMatch(u, email, password))
  }

  /**
   * `IsEmailExistsAsync`: some account uses `email` and, when an id to
   * exclude is given, that account has a different id.
   */
  predicate IsEmailExists(accounts: seq<Account>, email: Option<string>, excludeId: Option<int>) {
    exists u | u in accounts :: u.email == email && (excludeId.None? || u.id != excludeId.value)
  }

  /**
   * The e-mail lookup finds an account exactly when the e-mail is in use, a
   * successful login implies it is, and excluding an id only narrows the test.
   */
  lemma EmailLookupsAgree(accounts: seq<Account>, email: string, password: string, excludeId: Option<int>)
    ensures AccountByEmail(accounts, email).Some? <==> IsEmailExists(accounts, Some(email), None)
    ensures Login(accounts, email, password).Some? ==> IsEmailExists(accounts, Some(email), None)
    ensures IsEmailExists(accounts, Some(email), excludeId) ==> IsEmailExists(accounts, Some(email), None)
  {
    var r := Login(accounts, email, password);
    assert r.Some? ==> r.value in accounts && r.value.email == Some(email);
    var e := AccountByEmail(accounts, email);
    assert e.Some? ==> e.value in accounts && e.value.email == Some(email);
  }

  /** Excluding an account's own id ignores exactly that account. */
  lemma EmailExistsExcludingSelf(accounts: seq<Account>, email: Option<string>, self: Account)
    requires UniqueBy(accounts, AccountKey) && self in accounts
    ensures IsEmailExists(accounts, email, Some(self.id))
        <==> exists u | u in accounts && u != self :: u.email == email
  {
    if exists u | u in accounts && u != self :: u.email == email {
      var u :| u in accounts && u != self && u.email == email;
      var i :| 0 <= i < |accounts| && accounts[i] == u;
      var j :| 0 <= j < |accounts| && accounts[j] == self;
      assert i != j;
      assert u.id != self.id;
    }
  }

  /** The optional text and role filters of `SearchAccountsAsync`. */
  predicate AccountMatch(u: Account, term: Option<string>, role: Option<int>) {
    && (IsNullOrEmpty(term) || FieldContains(u.name, term.value) || FieldContains(u.email, term.value))
    && (role.None? || u.role == role)
  }

  function NameKey(u: Account): Option<string> { u.name }

  /** `SearchAccountsAsync`: the matching accounts ordered by name (unset names first). */
  function SearchAccounts(accounts: seq<Account>, term: Option<string>, role: Option<int>): (r: seq<Account>)
    ensures SortedBy(r, NameKey, NameLe)
    ensures forall u :: u in r <==> u in accounts && AccountMatch(u, term, role)
    ensures forall u :: multiset(r)[u] == if AccountMatch(u, term, role) then multiset(accounts)[u] else 0
    ensures IsNullOrEmpty(term) && role.None? ==> multiset(r) == multiset(accounts)
  {
    NameLeIsTotalPreorder();
    var p := (u: Account) => AccountMatch(u, term, role);
    FilterMultiplicity(accounts, p);
    var f := Filter(accounts, p);
    if IsNullOrEmpty(term) && role.None? then
      FilterAll(accounts, (u: Account) => AccountMatch(u, term, role));
      Sort(f, NameKey, NameLe)
    else
      Sort(f, NameKey, NameLe)
  }

  /** `HasCreatedArticlesAsync`: some article names the account as its creator. */
  predicate HasCreatedArticles(articles: seq<Article>, accountId: int) {
    exists a | a in articles :: a.createdById == Some(accountId)
  }

  /** `GetAccountsByRoleAsync`: the accounts with that role, ordered by name. */
  function AccountsByRole(accounts: seq<Account>, role: int): (r: seq<Account>)
    ensures SortedBy(r, NameKey, NameLe)
    ensures forall u :: u in r <==> u in accounts && u.role == Some(role)
    ensures forall u :: multiset(r)[u] == if u.role == Some(role) then multiset(accounts)[u] else 0
  {
    NameLeIsTotalPreorder();
    var p := (u: Account) => u.role == Some(role);
    FilterMultiplicity(accounts, p);
    Sort(Filter(accounts, p), NameKey, NameLe)
  }

  /** Listing by role is the search with no term and that role filter. */
  lemma AccountsByRoleIsSearch(accounts: seq<Account>, role: int)
    ensures AccountsByRole(accounts, role) == SearchAccounts(accounts, None, Some(role))
  {
    FilterExt(accounts, (u: Account) => u.role == Some(role), (u: Account) => AccountMatch(u, None, Some(role)));
  }

  /** The three outcomes of a password change: saved, refused, or a save that throws. */
  datatype PasswordChange = Changed | Refused | SaveFailed

  /**
   * `ChangePasswordAsync` of the repository: a missing account or a stored
   * password different from `oldPassword` is refused; otherwise only that
   * account's password is replaced. A new password the column cannot hold
   * makes the save throw.
   */
  method ChangePassword(store: Store, accountId: int, oldPassword: Option<string>, newPassword: Option<string>)
    returns (r: PasswordChange)
    requires store.Valid()
    modifies store
    ensures store.Valid()
    ensures var u := Find(old(store.accounts), AccountKey, accountId);
      && (r == Refused <==> u.None? || u.value.password != oldPassword)
      && (r == SaveFailed <==> u.Some? && u.value.password == oldPassword && !RequiredFitsIn(newPassword, 70))
      && (r == Changed ==> store.accounts == ReplaceAt(old(store.accounts),
                              IndexOf(old(store.accounts), AccountKey, accountId).value,
                              u.value.(password := newPassword)))
    ensures r != Changed ==> store.accounts == old(store.accounts)
    ensures store.articles == old(store.articles) && store.categories == old(store.categories)
    ensures store.tags == old(store.tags) && store.links == old(store.links)
    ensures store.nextCategoryId == old(store.nextCategoryId)
  {
    var u := Find(store.accounts, AccountKey, accountId);
    if u.None? || u.value.password != oldPassword {
      return Refused;
    }
    var ok := store.UpdateAccount(u.value.(password := newPassword));
    r := if ok then Changed else SaveFailed;
  }
}
