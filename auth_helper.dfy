/**
 * The `AuthorizeRole` action filter: before an action runs, the signed-in
 * account (from the session) is checked against the filter's role names.
 */
module AuthHelper {
  import opened Wrappers
  import opened Entities

  /** What the filter decides: send to the login page, send to the access-denied page, or run the action. */
  datatype Decision = RedirectToLogin | AccessDenied | Proceed

  /**
   * One role name admits the account: "Admin" by the configured admin
   * e-mail alone, "Staff" by role 1, "Lecturer" by role 2; any other name
   * admits no one.
   */
  predicate RoleAdmits(role: string, account: Account, adminEmail: Option<string>) {
    if role == "Admin" then account.email == adminEmail
    else if role == "Staff" then account.role == Some(StaffRole)
    else if role == "Lecturer" then account.role == Some(LecturerRole)
    else false
  }

  /** Some listed role name admits the account. */
  predicate AnyRoleAdmits(roles: seq<string>, account: Account, adminEmail: Option<string>) {
    exists i | 0 <= i < |roles| :: RoleAdmits(roles[i], account, adminEmail)
  }

  /** The filter's decision, stated without the loop. */
  function Decide(roles: seq<string>, session: Option<Account>, adminEmail: Option<string>): (d: Decision)
    ensures session.None? <==> d == RedirectToLogin
    ensures session.Some? && |roles| == 0 ==> d == Proceed
    ensures session.Some? ==> (d == Proceed <==> |roles| == 0 || AnyRoleAdmits(roles, session.value, adminEmail))
  {
    if session.None? then RedirectToLogin
    else if |roles| == 0 || AnyRoleAdmits(roles, session.value, adminEmail) then Proceed
    else AccessDenied
  }

  /**
   * `OnActionExecuting`: no session account sends to login; otherwise the
   * role names are tried in turn until one admits the account, and if none
   * does (and there was at least one) access is denied.
   */
  method OnActionExecuting(roles: seq<string>, session: Option<Account>, adminEmail: Option<string>)
    returns (d: Decision)
    ensures d == Decide(roles, session, adminEmail)
  {
    if session.None? {
      return RedirectToLogin;
    }
    var account := session.value;
    if |roles| > 0 {
      var hasAccess := false;
      var i := 0;
      while i < |roles|
        invariant 0 <= i <= |roles|
        invariant hasAccess <==> exists j | 0 <= j < i :: RoleAdmits(roles[j], account, adminEmail)
      {
        if RoleAdmits(roles[i], account, adminEmail) {
          hasAccess := true;
          break;
        }
        i := i + 1;
      }
      if !hasAccess {
        return AccessDenied;
      }
    }
    return Proceed;
  }

  /** The decision depends on which role names are listed, not on their order or repetition. */
  lemma DecisionIgnoresOrder(roles: seq<string>, roles': seq<string>, session: Option<Account>, adminEmail: Option<string>)
    requires forall r :: r in roles <==> r in roles'
    ensures Decide(roles, session, adminEmail) == Decide(roles', session, adminEmail)
  {
    if session.Some? {
      var u := session.value;
      if AnyRoleAdmits(roles, u, adminEmail) {
        var i :| 0 <= i < |roles| && RoleAdmits(roles[i], u, adminEmail);
        assert roles[i] in roles';
        var j :| 0 <= j < |roles'| && roles'[j] == roles[i];
      }
      if AnyRoleAdmits(roles', u, adminEmail) {
        var j :| 0 <= j < |roles'| && RoleAdmits(roles'[j], u, adminEmail);
        assert roles'[j] in roles;
        var i :| 0 <= i < |roles| && roles[i] == roles'[j];
      }
      assert |roles| == 0 <==> |roles'| == 0 by {
        if |roles| > 0 { assert roles[0] in roles'; }
        if |roles'| > 0 { assert roles'[0] in roles; }
      }
    }
  }

  /**
   * "Admin" looks at the e-mail only: an account of any role whose e-mail
   * equals the configured one is admitted, and the administrator's role
   * number alone admits nothing.
   */
  lemma AdminIsDecidedByEmail(account: Account, adminEmail: Option<string>, role: Option<int>)
    ensures RoleAdmits("Admin", account, adminEmail) == RoleAdmits("Admin", account.(role := role), adminEmail)
    ensures account.email != adminEmail ==> Decide(["Admin"], Some(account), adminEmail) == AccessDenied
  {
    if account.email != adminEmail {
      assert !AnyRoleAdmits(["Admin"], account, adminEmail);
    }
  }

  /** "Staff" admits exactly role 1 and "Lecturer" exactly role 2, whatever the e-mail. */
  lemma StaffAndLecturerByRole(account: Account, adminEmail: Option<string>)
    ensures Decide(["Staff"], Some(account), adminEmail) == Proceed <==> account.role == Some(StaffRole)
    ensures Decide(["Lecturer"], Some(account), adminEmail) == Proceed <==> account.role == Some(LecturerRole)
    ensures Decide(["Staff", "Lecturer"], Some(account), adminEmail) == Proceed
        <==> account.role == Some(StaffRole) || account.role == Some(LecturerRole)
  {
    var sl := ["Staff", "Lecturer"];
    assert RoleAdmits(sl[0], account, adminEmail) <==> account.role == Some(StaffRole);
    assert RoleAdmits(sl[1], account, adminEmail) <==> account.role == Some(LecturerRole);
    assert RoleAdmits(["Staff"][0], account, adminEmail) <==> account.role == Some(StaffRole);
    assert RoleAdmits(["Lecturer"][0], account, adminEmail) <==> account.role == Some(LecturerRole);
  }
}
