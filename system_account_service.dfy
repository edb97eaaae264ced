/**
 * The account service: validated creation and update of staff and lecturer
 * accounts, deletion guarded by authored articles, password changes, and
 * 16-bit account id allocation.
 */
module SystemAccountService {
  import opened Wrappers
  import opened Seqs
  import opened Text
  import opened Entities
  import opened Store
  import opened SystemAccountRepository

  /** The id used when the account table cannot be read. */
  const FallbackAccountId := 100

  /**
   * `GenerateNewAccountIdAsync`: 100 when reading the table fails, 1 for an
   * empty table, otherwise the largest id plus one in 16-bit arithmetic.
   */
  function GenerateNewAccountId(accounts: seq<Account>, readFails: bool): (r: int)
    ensures Int16Min <= r <= Int16Max
    ensures readFails ==> r == FallbackAccountId
    ensures !readFails && |accounts| == 0 ==> r == 1
  {
    if readFails then FallbackAccountId
    else if |accounts| == 0 then 1
    else Wrap16(MaxOf(Keys(accounts, AccountKey)) + 1)
  }

  /**
   * When the table is read and its largest id is below the 16-bit maximum,
   * the new id is above every stored id, hence unused.
   */
  lemma GeneratedAccountIdFresh(accounts: seq<Account>)
    requires forall u | u in accounts :: u.id < Int16Max
    requires forall u | u in accounts :: Int16Min <= u.id
    ensures forall u | u in accounts :: u.id < GenerateNewAccountId(accounts, false)
    ensures GenerateNewAccountId(accounts, false) !in AccountIds(accounts)
  {
    if |accounts| > 0 {
      var ids := Keys(accounts, AccountKey);
      var m := MaxOf(ids);
      var i :| 0 <= i < |ids| && ids[i] == m;
      assert accounts[i] in accounts;
      assert forall u | u in accounts :: u.id <= m by {
        forall u | u in accounts ensures u.id <= m {
          var j :| 0 <= j < |accounts| && accounts[j] == u;
          assert ids[j] == u.id;
        }
      }
      assert GenerateNewAccountId(accounts, false) == m + 1;
    }
  }

  /** A table already holding the 16-bit maximum wraps the next id to the minimum. */
  lemma GeneratedAccountIdWraps(accounts: seq<Account>)
    requires forall u | u in accounts :: u.id <= Int16Max
    requires exists u | u in accounts :: u.id == Int16Max
    ensures GenerateNewAccountId(accounts, false) == Int16Min
  {
    var ids := Keys(accounts, AccountKey);
    var m := MaxOf(ids);
    var u :| u in accounts && u.id == Int16Max;
    var j :| 0 <= j < |accounts| && accounts[j] == u;
    assert ids[j] == Int16Max;
    var i :| 0 <= i < |ids| && ids[i] == m;
    assert accounts[i] in accounts;
  }

  /** Only the staff (1) and lecturer (2) roles can be given to a managed account. */
  predicate ManagedRole(role: Option<int>) {
    role == Some(StaffRole) || role == Some(LecturerRole)
  }

  /** The field checks `CreateAccountAsync` makes before touching the table. */
  predicate CreateFieldsOk(account: Account) {
    && !IsNullOrWhiteSpace(account.email)
    && !IsNullOrWhiteSpace(account.password)
    && ManagedRole(account.role)
  }

  /**
   * `CreateAccountAsync`: blank e-mail or password, a role other than staff
   * or lecturer, or an e-mail already in use refuse the account; otherwise it
   * is stored under a newly allocated id, and a save that fails (id taken,
   * a field too long) returns false.
   */
  method CreateAccount(store: Store, account: Account, readFails: bool) returns (ok: bool)
    requires store.Valid()
    modifies store
    ensures store.Valid()
    ensures var row := account.(id := GenerateNewAccountId(old(store.accounts), readFails));
      && (ok <==> && CreateFieldsOk(account)
                  && !IsEmailExists(old(store.accounts), account.email, None)
                  && row.id !in AccountIds(old(store.accounts))
                  && AccountFits(row))
      && store.accounts == if ok then old(store.accounts) + [row] else old(store.accounts)
    ensures store.articles == old(store.articles) && store.categories == old(store.categories)
    ensures store.tags == old(store.tags) && store.links == old(store.links)
    ensures store.nextCategoryId == old(store.nextCategoryId)
  {
    if !CreateFieldsOk(account) || IsEmailExists(store.accounts, account.email, None) {
      return false;
    }
    var row := account.(id := GenerateNewAccountId(store.accounts, readFails));
    ok := store.AddAccount(row);
  }

  /** The field checks `UpdateAccountAsync` makes (the password is not checked). */
  predicate UpdateFieldsOk(account: Account) {
    !IsNullOrWhiteSpace(account.email) && ManagedRole(account.role)
  }

  /**
   * `UpdateAccountAsync`: blank e-mail, an unmanaged role, or an e-mail used
   * by another account refuse the update; otherwise the stored row with that
   * id is overwritten, and a save that fails (no such row, a field too long)
   * returns false.
   */
  method UpdateAccount(store: Store, account: Account) returns (ok: bool)
    requires store.Valid()
    modifies store
    ensures store.Valid()
    ensures ok <==> && UpdateFieldsOk(account)
                    && !IsEmailExists(old(store.accounts), account.email, Some(account.id))
                    && account.id in AccountIds(old(store.accounts))
                    && AccountFits(account)
    ensures ok ==> store.accounts == ReplaceAt(old(store.accounts),
                     IndexOf(old(store.accounts), AccountKey, account.id).value, account)
    ensures !ok ==> store.accounts == old(store.accounts)
    ensures store.articles == old(store.articles) && store.categories == old(store.categories)
    ensures store.tags == old(store.tags) && store.links == old(store.links)
    ensures store.nextCategoryId == old(store.nextCategoryId)
  {
    if !UpdateFieldsOk(account) || IsEmailExists(store.accounts, account.email, Some(account.id)) {
      return false;
    }
    ok := store.UpdateAccount(account);
  }

  /** `CanDeleteAccountAsync`: the account has authored no article. */
  predicate CanDeleteAccount(articles: seq<Article>, id: int) {
    !HasCreatedArticles(articles, id)
  }

  /**
   * `DeleteAccountAsync`: an account that authored an article or does not
   * exist is kept; otherwise it is removed, and the store refuses the removal
   * while some article still names it as its last editor.
   */
  method DeleteAccount(store: Store, id: int) returns (ok: bool)
    requires store.Valid()
    modifies store
    ensures store.Valid()
    ensures ok <==> && CanDeleteAccount(old(store.articles), id)
                    && id in AccountIds(old(store.accounts))
                    && forall a | a in old(store.articles) :: a.updatedById != Some(id)
    ensures ok ==> store.accounts == RemoveAt(old(store.accounts), IndexOf(old(store.accounts), AccountKey, id).value)
    ensures ok ==> id !in AccountIds(store.accounts)
    ensures ok ==> forall u | u in old(store.accounts) && u.id != id :: u in store.accounts
    ensures !ok ==> store.accounts == old(store.accounts)
    ensures store.articles == old(store.articles) && store.categories == old(store.categories)
    ensures store.tags == old(store.tags) && store.links == old(store.links)
    ensures store.nextCategoryId == old(store.nextCategoryId)
  {
    if HasCreatedArticles(store.articles, id) {
      return false;
    }
    if Find(store.accounts, AccountKey, id).None? {
      return false;
    }
    ok := store.RemoveAccount(id);
  }

  /**
   * `ChangePasswordAsync` of the service: a blank new password is refused
   * before the repository is asked. There is no `catch`, so a save the
   * database rejects reaches the caller as `SaveFailed`.
   */
  method ChangePassword(store: Store, accountId: int, oldPassword: Option<string>, newPassword: Option<string>)
    returns (r: PasswordChange)
    requires store.Valid()
    modifies store
    ensures store.Valid()
    ensures IsNullOrWhiteSpace(newPassword) ==> r == Refused
    ensures var u := Find(old(store.accounts), AccountKey, accountId);
      && (r == Changed <==> && !IsNullOrWhiteSpace(newPassword) && u.Some?
                            && u.value.password == oldPassword && FitsIn(newPassword, 70))
      && (r == SaveFailed <==> && !IsNullOrWhiteSpace(newPassword) && u.Some?
                               && u.value.password == oldPassword && !FitsIn(newPassword, 70))
      && (r == Changed ==> store.accounts == ReplaceAt(old(store.accounts),
                              IndexOf(old(store.accounts), AccountKey, accountId).value,
                              u.value.(password := newPassword)))
    ensures r != Changed ==> store.accounts == old(store.accounts)
    ensures store.articles == old(store.articles) && store.categories == old(store.categories)
    ensures store.tags == old(store.tags) && store.links == old(store.links)
    ensures store.nextCategoryId == old(store.nextCategoryId)
  {
    if IsNullOrWhiteSpace(newPassword) {
      return Refused;
    }
    r := SystemAccountRepository.ChangePassword(store, accountId, oldPassword, newPassword);
  }
}
