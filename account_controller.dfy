/**
 * The sign-in pages: administrator and store logins, the landing page by
 * role, the password change form, and the profile form.
 */
module AccountController {
  import opened Wrappers
  import opened Seqs
  import opened Text
  import opened Entities
  import opened Store
  import opened SystemAccountRepository
  import opened SystemAccountService
  import opened Replies
  import SystemAccountController
  import AuthHelper

  /** The account the administrator is signed in as; it exists only in the session, never in the table. */
  function AdminAccount(adminEmail: Option<string>): Account {
    Account(0, Some("Administrator"), adminEmail, Some(AdminRole), None)
  }

  /** The posted e-mail and password equal the configured administrator's. */
  predicate IsAdminCredentials(adminEmail: Option<string>, adminPassword: Option<string>, email: string, password: string) {
    Some(email) == adminEmail && Some(password) == adminPassword
  }

  /**
   * The account `Login` puts in the session: the administrator for the
   * configured credentials, without consulting the table; otherwise the
   * first stored account whose e-mail and password match, if any.
   */
  function SignIn(accounts: seq<Account>, adminEmail: Option<string>, adminPassword: Option<string>,
                  email: string, password: string): (r: Option<Account>)
    ensures IsAdminCredentials(adminEmail, adminPassword, email, password) ==> r == Some(AdminAccount(adminEmail))
    ensures !IsAdminCredentials(adminEmail, adminPassword, email, password) ==>
      && (r.Some? ==> r.value in accounts && CredentialsMatch(r.value, email, password))
      && (r.None? <==> forall u | u in accounts :: !CredentialsMatch(u, email, password))
  {
    if IsAdminCredentials(adminEmail, adminPassword, email, password) then Some(AdminAccount(adminEmail))
    else Login(accounts, email, password)
  }

  /** The page a signed-in account is sent to. */
  datatype Landing = SystemAccountIndex | NewsArticleIndex | HomeIndex

  /** Role 0 goes to the account list, role 1 to the article list, everything else (role 2, unset) home. */
  function LandingFor(role: Option<int>): (r: Landing)
    ensures r == SystemAccountIndex <==> role == Some(AdminRole)
    ensures r == NewsArticleIndex <==> role == Some(StaffRole)
    ensures r == HomeIndex <==> role != Some(AdminRole) && role != Some(StaffRole)
  {
    if role == Some(AdminRole) then SystemAccountIndex
    else if role == Some(StaffRole) then NewsArticleIndex
    else HomeIndex
  }

  /** The result of posting the login form. */
  datatype LoginResult = SignedIn(session: Account, landing: Landing) | LoginFailed(message: string)

  /** `Login` (POST): sign in and land by role, or report the failure. */
  function LoginAction(accounts: seq<Account>, adminEmail: Option<string>, adminPassword: Option<string>,
                       email: string, password: string): (r: LoginResult)
    ensures r.SignedIn? <==> SignIn(accounts, adminEmail, adminPassword, email, password).Some?
    ensures r.SignedIn? ==> r.session == SignIn(accounts, adminEmail, adminPassword, email, password).value
                            && r.landing == LandingFor(r.session.role)
    ensures r.LoginFailed? ==> r.message == "Invalid email or password"
  {
    match SignIn(accounts, adminEmail, adminPassword, email, password)
    case Some(u) => SignedIn(u, LandingFor(u.role))
    case None => LoginFailed("Invalid email or password")
  }

  /**
   * The administrator lands on the account list and passes the "Admin"
   * filter guarding it; a stored account with role 0 lands there too, but
   * the filter turns it away unless its e-mail is the administrator's.
   */
  lemma AdminLandingIsGuarded(accounts: seq<Account>, adminEmail: Option<string>, adminPassword: Option<string>,
                              email: string, password: string)
    ensures var r := LoginAction(accounts, adminEmail, adminPassword, email, password);
      && (IsAdminCredentials(adminEmail, adminPassword, email, password) ==>
            r.SignedIn? && r.landing == SystemAccountIndex
            && AuthHelper.Decide(["Admin"], Some(r.session), adminEmail) == AuthHelper.Proceed)
      && (r.SignedIn? && r.landing == SystemAccountIndex && r.session.email != adminEmail ==>
            AuthHelper.Decide(["Admin"], Some(r.session), adminEmail) == AuthHelper.AccessDenied)
  {
    var r := LoginAction(accounts, adminEmail, adminPassword, email, password);
    if IsAdminCredentials(adminEmail, adminPassword, email, password) {
      assert AuthHelper.RoleAdmits(["Admin"][0], r.session, adminEmail);
    }
    if r.SignedIn? {
      AuthHelper.AdminIsDecidedByEmail(r.session, adminEmail, r.session.role);
    }
  }

  /** `GetRoleName` of this controller: as the account list's labels, with an unset role read as "Unknown". */
  function GetRoleName(role: Option<int>): (r: string)
    ensures role.Some? ==> r == SystemAccountController.RoleName(role.value)
    ensures role.None? ==> r == "Unknown"
    ensures r == "Unknown" <==> role != Some(AdminRole) && role != Some(StaffRole) && role != Some(LecturerRole)
  {
    match role
    case Some(n) => SystemAccountController.RoleName(n)
    case None => "Unknown"
  }

  const AdminPasswordMessage := "Admin password is managed in configuration file"

  /** The first check of `ChangePassword` (POST) that fails, in the order the action runs them. */
  function ChangePasswordError(session: Account, oldPassword: Option<string>, newPassword: Option<string>,
                               confirmPassword: Option<string>): (r: Option<string>)
    ensures r.None? <==> && session.role != Some(AdminRole)
                         && !IsNullOrEmpty(oldPassword) && !IsNullOrEmpty(newPassword)
                         && newPassword == confirmPassword && |newPassword.value| >= 2
    ensures session.role == Some(AdminRole) ==> r == Some(AdminPasswordMessage)
  {
    if session.role == Some(AdminRole) then Some(AdminPasswordMessage)
    else if IsNullOrEmpty(oldPassword) || IsNullOrEmpty(newPassword) then Some("All fields are required")
    else if newPassword != confirmPassword then Some("New password and confirmation do not match")
    else if |newPassword.value| < 2 then Some("Password must be at least 2 characters")
    else None
  }

  /**
   * What posting the password form leads to: a message on the form, or the
   * site's error page for an exception nobody catches.
   */
  datatype PasswordResult = PasswordMessage(reply: Reply) | ErrorPage

  /**
   * `ChangePassword` (POST): a failed check is reported and nothing is
   * saved; otherwise the service changes the password of the signed-in
   * account, and a refusal is reported as a wrong current password. A new
   * password the column cannot hold makes the save throw; neither the
   * service nor the action catches it, so the request ends on the error page.
   */
  method ChangePassword(store: Store, session: Account, oldPassword: Option<string>, newPassword: Option<string>,
                        confirmPassword: Option<string>) returns (r: PasswordResult)
    requires store.Valid()
    modifies store
    ensures store.Valid()
    ensures ChangePasswordError(session, oldPassword, newPassword, confirmPassword).Some? ==>
      r == PasswordMessage(Reply(false, ChangePasswordError(session, oldPassword, newPassword, confirmPassword).value))
    ensures ChangePasswordError(session, oldPassword, newPassword, confirmPassword).None? ==>
      var u := Find(old(store.accounts), AccountKey, session.id);
      var accepted := !IsBlank(newPassword.value) && u.Some? && u.value.password == oldPassword;
      && (r == ErrorPage <==> accepted && !FitsIn(newPassword, 70))
      && (r != ErrorPage ==> r == PasswordMessage(Outcome(accepted, "Password changed successfully",
                                                          "Current password is incorrect")))
      && (r == PasswordMessage(Reply(true, "Password changed successfully")) ==>
            store.accounts == ReplaceAt(old(store.accounts),
                                        IndexOf(old(store.accounts), AccountKey, session.id).value,
                                        u.value.(password := newPassword)))
    ensures !(r.PasswordMessage? && r.reply.success) ==> store.accounts == old(store.accounts)
    ensures store.articles == old(store.articles) && store.categories == old(store.categories)
    ensures store.tags == old(store.tags) && store.links == old(store.links)
    ensures store.nextCategoryId == old(store.nextCategoryId)
  {
    var e := ChangePasswordError(session, oldPassword, newPassword, confirmPassword);
    if e.Some? {
      return PasswordMessage(Reply(false, e.value));
    }
    var outcome := SystemAccountService.ChangePassword(store, session.id, oldPassword, newPassword);
    if outcome == SaveFailed {
      return ErrorPage;
    }
    r := PasswordMessage(Outcome(outcome == Changed, "Password changed successfully", "Current password is incorrect"));
  }

  /**
   * Witness of a quirk: there is a new password (two spaces) that passes
   * every check of the form, is then refused by the service as blank, and
   * makes the page blame the current password, whatever it was.
   */
  lemma BlankNewPasswordBlamesCurrent(session: Account, oldPassword: string)
    requires session.role != Some(AdminRole) && oldPassword != ""
    ensures ChangePasswordError(session, Some(oldPassword), Some("  "), Some("  ")).None?
    ensures IsBlank("  ")
  {
    assert IsWhiteSpace("  "[0]) && IsWhiteSpace("  "[1]);
  }

  /** The result of posting the profile form. */
  datatype ProfileResult = ProfileMessage(reply: Reply, session: Account) | BackToLogin

  /**
   * `Profile` (POST): the administrator's profile and a blank name are
   * refused; a signed-in account no longer in the table is sent to login;
   * otherwise only the stored account's name changes, through the service,
   * and on success the session account gets the new name too.
   */
  method UpdateProfile(store: Store, session: Account, name: Option<string>) returns (r: ProfileResult)
    requires store.Valid()
    modifies store
    ensures store.Valid()
    ensures session.role == Some(AdminRole) ==> r == ProfileMessage(Reply(false, "Admin profile cannot be updated"), session)
    ensures session.role != Some(AdminRole) && IsNullOrWhiteSpace(name) ==>
      r == ProfileMessage(Reply(false, "Account Name is required"), session)
    ensures session.role != Some(AdminRole) && !IsNullOrWhiteSpace(name) ==>
      var u := Find(old(store.accounts), AccountKey, session.id);
      && (u.None? <==> r == BackToLogin)
      && (u.Some? ==>
            var v := u.value.(name := name);
            var ok := UpdateFieldsOk(v) && !IsEmailExists(old(store.accounts), v.email, Some(v.id)) && AccountFits(v);
            && r == ProfileMessage(Outcome(ok, "Profile updated successfully", "Failed to update profile"),
                                   if ok then session.(name := name) else session)
            && (ok ==> store.accounts == ReplaceAt(old(store.accounts),
                         IndexOf(old(store.accounts), AccountKey, session.id).value, v)))
    ensures !(r.ProfileMessage? && r.reply.success) ==> store.accounts == old(store.accounts)
    ensures store.articles == old(store.articles) && store.categories == old(store.categories)
    ensures store.tags == old(store.tags) && store.links == old(store.links)
    ensures store.nextCategoryId == old(store.nextCategoryId)
  {
    if session.role == Some(AdminRole) {
      return ProfileMessage(Reply(false, "Admin profile cannot be updated"), session);
    }
    if IsNullOrWhiteSpace(name) {
      return ProfileMessage(Reply(false, "Account Name is required"), session);
    }
    var u := Find(store.accounts, AccountKey, session.id);
    if u.None? {
      return BackToLogin;
    }
    var v := u.value.(name := name);
    var ok := SystemAccountService.UpdateAccount(store, v);
    r := ProfileMessage(Outcome(ok, "Profile updated successfully", "Failed to update profile"),
                        if ok then session.(name := name) else session);
  }
}
