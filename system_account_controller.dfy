/**
 * The account administration pages: the validation chains of Create and
 * Edit, the optional password change on Edit, the delete guard, and the
 * role labels.
 */
module SystemAccountController {
  import opened Wrappers
  import opened Seqs
  import opened Text
  import opened Entities
  import opened Store
  import opened SystemAccountRepository
  import opened SystemAccountService
  import opened Replies

  /** The posted `SystemAccountViewModel`; the role is a plain (non-nullable) number. */
  datatype AccountForm = AccountForm(
    id: int,
    name: Option<string>,
    email: Option<string>,
    role: int,
    password: Option<string>)

  /** `GetRoleName`: the label of a role number. */
  function RoleName(role: int): (r: string)
    ensures role == AdminRole ==> r == "Administrator"
    ensures role == StaffRole ==> r == "Staff"
    ensures role == LecturerRole ==> r == "Lecturer"
    ensures r == "Unknown" <==> role != AdminRole && role != StaffRole && role != LecturerRole
  {
    if role == AdminRole then "Administrator"
    else if role == StaffRole then "Staff"
    else if role == LecturerRole then "Lecturer"
    else "Unknown"
  }

  /**
   * Witness of a quirk: the account listing labels a stored account by
   * `role ?? 0`, so an account with an unset role is listed as an administrator.
   */
  lemma UnsetRoleListedAsAdministrator(u: Account)
    requires u.role.None?
    ensures RoleName(u.role.GetOr(0)) == RoleName(AdminRole) == "Administrator"
  {
  }

  const InvalidRole := "Invalid role. Only Staff (1) or Lecturer (2) are allowed."
  const ShortPassword := "Password must be at least 2 characters"

  /** The role field names the staff or the lecturer role. */
  predicate FormRoleOk(f: AccountForm) {
    f.role == StaffRole || f.role == LecturerRole
  }

  /** A non-empty password field shorter than two characters (an empty one means "keep the password"). */
  predicate PasswordTooShort(p: Option<string>) {
    !IsNullOrEmpty(p) && |p.value| < 2
  }

  /** The first check of `Create` that fails, in the order the action runs them. */
  function CreateError(accounts: seq<Account>, f: AccountForm): (r: Option<string>)
    ensures r.None? <==> && FormRoleOk(f)
                         && !IsNullOrWhiteSpace(f.email)
                         && !IsEmailExists(accounts, f.email, None)
                         && f.password.Some? && |f.password.value| >= 2
                         && !IsNullOrWhiteSpace(f.name)
    ensures !FormRoleOk(f) ==> r == Some(InvalidRole)
  {
    if !FormRoleOk(f) then Some(InvalidRole)
    else if IsNullOrWhiteSpace(f.email) then Some("Email is required")
    else if IsEmailExists(accounts, f.email, None) then Some("Email already exists")
    else if IsNullOrEmpty(f.password) || |f.password.value| < 2 then Some(ShortPassword)
    else if IsNullOrWhiteSpace(f.name) then Some("Account Name is required")
    else None
  }

  /** The account `Create` hands to the service; its id is left unset (zero) for the service to allocate. */
  function NewAccount(f: AccountForm): Account {
    Account(0, f.name, f.email, Some(f.role), f.password)
  }

  /**
   * Once `Create`'s checks pass, the service's own checks fail only for a
   * password made of white space: every other condition it tests has been
   * tested already.
   */
  lemma CreateChecksCoverService(accounts: seq<Account>, f: AccountForm)
    requires CreateError(accounts, f).None?
    ensures CreateFieldsOk(NewAccount(f)) <==> !IsBlank(f.password.value)
    ensures !IsEmailExists(accounts, NewAccount(f).email, None)
  {
  }

  /**
   * `Create`: a failed check is reported and nothing is stored; otherwise
   * the service allocates the id and stores the account, which fails only
   * for a white-space password, an allocated id already in use, or a field
   * the columns cannot hold.
   */
  method Create(store: Store, f: AccountForm, readFails: bool) returns (r: Reply)
    requires store.Valid()
    modifies store
    ensures store.Valid()
    ensures CreateError(old(store.accounts), f).Some? ==>
      r == Reply(false, CreateError(old(store.accounts), f).value)
    ensures CreateError(old(store.accounts), f).None? ==>
      var row := NewAccount(f).(id := GenerateNewAccountId(old(store.accounts), readFails));
      && r == Outcome(!IsBlank(f.password.value) && row.id !in AccountIds(old(store.accounts)) && AccountFits(row),
                      "Account created successfully", "Failed to create account")
      && (r.success ==> store.accounts == old(store.accounts) + [row])
    ensures !r.success ==> store.accounts == old(store.accounts)
    ensures store.articles == old(store.articles) && store.categories == old(store.categories)
    ensures store.tags == old(store.tags) && store.links == old(store.links)
    ensures store.nextCategoryId == old(store.nextCategoryId)
  {
    var e := CreateError(store.accounts, f);
    if e.Some? {
      return Reply(false, e.value);
    }
    CreateChecksCoverService(store.accounts, f);
    var ok := CreateAccount(store, NewAccount(f), readFails);
    r := Outcome(ok, "Account created successfully", "Failed to create account");
  }

  /**
   * The loaded account after `Edit` copied the form onto it: name, e-mail
   * and role always; the password only when the field is not empty.
   */
  function Edited(u: Account, f: AccountForm): (r: Account)
    ensures r.id == u.id
    ensures r.name == f.name && r.email == f.email && r.role == Some(f.role)
    ensures r.password == if IsNullOrEmpty(f.password) then u.password else f.password
  {
    var v := u.(name := f.name, email := f.email, role := Some(f.role));
    if IsNullOrEmpty(f.password) then v else v.(password := f.password)
  }

  /** The first check of `Edit` that fails, in the order the action runs them. */
  function EditError(accounts: seq<Account>, f: AccountForm): (r: Option<string>)
    ensures r.None? <==> && FormRoleOk(f)
                         && f.id in AccountIds(accounts)
                         && !IsEmailExists(accounts, f.email, Some(f.id))
                         && !IsNullOrWhiteSpace(f.name)
                         && !PasswordTooShort(f.password)
    ensures FormRoleOk(f) && f.id !in AccountIds(accounts) ==> r == Some("Account not found")
  {
    if !FormRoleOk(f) then Some(InvalidRole)
    else if Find(accounts, AccountKey, f.id).None? then Some("Account not found")
    else if IsEmailExists(accounts, f.email, Some(f.id)) then Some("Email already exists")
    else if IsNullOrWhiteSpace(f.name) then Some("Account Name is required")
    else if !IsNullOrEmpty(f.password) && |f.password.value| < 2 then Some(ShortPassword)
    else None
  }

  /**
   * `Edit`: a failed check is reported and nothing is saved; otherwise the
   * account with that id is overwritten by `Edited`, and the service still
   * refuses a blank e-mail (which `Edit` never checks) and the save refuses
   * a field too long.
   */
  method Edit(store: Store, f: AccountForm) returns (r: Reply)
    requires store.Valid()
    modifies store
    ensures store.Valid()
    ensures EditError(old(store.accounts), f).Some? ==>
      r == Reply(false, EditError(old(store.accounts), f).value)
    ensures EditError(old(store.accounts), f).None? ==>
      var i := IndexOf(old(store.accounts), AccountKey, f.id).value;
      var u := Edited(old(store.accounts)[i], f);
      && r == Outcome(!IsNullOrWhiteSpace(f.email) && AccountFits(u),
                      "Account updated successfully", "Failed to update account")
      && (r.success ==> store.accounts == ReplaceAt(old(store.accounts), i, u))
    ensures !r.success ==> store.accounts == old(store.accounts)
    ensures store.articles == old(store.articles) && store.categories == old(store.categories)
    ensures store.tags == old(store.tags) && store.links == old(store.links)
    ensures store.nextCategoryId == old(store.nextCategoryId)
  {
    if !FormRoleOk(f) {
      return Reply(false, InvalidRole);
    }
    var found := Find(store.accounts, AccountKey, f.id);
    if found.None? {
      return Reply(false, "Account not found");
    }
    if IsEmailExists(store.accounts, f.email, Some(f.id)) {
      return Reply(false, "Email already exists");
    }
    if IsNullOrWhiteSpace(f.name) {
      return Reply(false, "Account Name is required");
    }
    var u := found.value.(name := f.name, email := f.email, role := Some(f.role));
    if !IsNullOrEmpty(f.password) {
      if |f.password.value| < 2 {
        return Reply(false, ShortPassword);
      }
      u := u.(password := f.password);
    }
    assert u == Edited(found.value, f);
    var ok := UpdateAccount(store, u);
    r := Outcome(ok, "Account updated successfully", "Failed to update account");
  }

  /** An `Edit` with an empty password field leaves the stored password as it was. */
  lemma EditKeepsPasswordWhenEmpty(u: Account, f: AccountForm)
    requires IsNullOrEmpty(f.password)
    ensures Edited(u, f).password == u.password
    ensures Edited(u, f) == u.(name := f.name, email := f.email, role := Some(f.role))
  {
  }

  /**
   * `Delete`: an account that created articles is refused before the
   * service is called; otherwise the service's outcome is reported.
   */
  method Delete(store: Store, id: int) returns (r: Reply)
    requires store.Valid()
    modifies store
    ensures store.Valid()
    ensures !CanDeleteAccount(old(store.articles), id) ==>
      r == Reply(false, "Cannot delete account that has created articles")
    ensures CanDeleteAccount(old(store.articles), id) ==>
      r == Outcome(&& id in AccountIds(old(store.accounts))
                   && forall a | a in old(store.articles) :: a.updatedById != Some(id),
                   "Account deleted successfully", "Failed to delete account")
    ensures r.success ==> store.accounts == RemoveAt(old(store.accounts), IndexOf(old(store.accounts), AccountKey, id).value)
    ensures r.success ==> id !in AccountIds(store.accounts)
    ensures r.success ==> forall u | u in old(store.accounts) && u.id != id :: u in store.accounts
    ensures !r.success ==> store.accounts == old(store.accounts)
    ensures store.articles == old(store.articles) && store.categories == old(store.categories)
    ensures store.tags == old(store.tags) && store.links == old(store.links)
    ensures store.nextCategoryId == old(store.nextCategoryId)
  {
    if !CanDeleteAccount(store.articles, id) {
      return Reply(false, "Cannot delete account that has created articles");
    }
    var ok := DeleteAccount(store, id);
    r := Outcome(ok, "Account deleted successfully", "Failed to delete account");
  }
}
