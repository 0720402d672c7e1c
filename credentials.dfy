/**
 * The credential store: the admin and user lists read at start-up, and
 * the login decision of the admin login form.
 */
module Credentials {
  /** One entry of the `admins` or `users` list. */
  datatype Credential = Credential(username: string, password: string)

  /** Some entry holds exactly this username and this password. */
  predicate IsListed(entries: seq<Credential>, username: string, password: string) {
    exists i | 0 <= i < |entries| :: entries[i].username == username && entries[i].password == password
  }

  /**
   * `validate_admin_login` and `validate_user_login`: a scan of the list
   * that stops at the first entry matching both fields.
   */
  method FindCredential(entries: seq<Credential>, username: string, password: string) returns (found: bool)
    ensures found <==> IsListed(entries, username, password)
  {
    for i := 0 to |entries|
      invariant forall j | 0 <= j < i :: !(entries[j].username == username && entries[j].password == password)
    {
      if username == entries[i].username && password == entries[i].password {
        return true;
      }
    }
    return false;
  }

  /** What the login form tells the person who submits it. */
  datatype LoginOutcome = AdminAccessGranted | NotAnAdmin | InvalidCredentials

  /** The login decision: the admin list is consulted first, then the user list. */
  function ClassifyLogin(admins: seq<Credential>, users: seq<Credential>, username: string, password: string): LoginOutcome {
    if IsListed(admins, username, password) then AdminAccessGranted
    else if IsListed(users, username, password) then NotAnAdmin
    else InvalidCredentials
  }

  /**
   * Admin access is granted exactly to listed admins, including someone
   * listed in both lists; a listed user who is no admin is told so.
   */
  lemma ClassifyLoginIsExact(admins: seq<Credential>, users: seq<Credential>, username: string, password: string)
    ensures ClassifyLogin(admins, users, username, password) == AdminAccessGranted <==> IsListed(admins, username, password)
    ensures ClassifyLogin(admins, users, username, password) == NotAnAdmin <==>
      !IsListed(admins, username, password) && IsListed(users, username, password)
    ensures ClassifyLogin(admins, users, username, password) == InvalidCredentials <==>
      !IsListed(admins, username, password) && !IsListed(users, username, password)
  {
  }
}
