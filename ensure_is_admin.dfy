/** The admin gate in front of the user-management pages: a request goes on
    only for a signed-in user whose role is "admin" and whose e-mail address
    has been verified; any other request is sent back to the dashboard. */
module EnsureIsAdmin {
  import opened Common
  import opened Schema
  import ManageUser

  datatype Response =
    | PassedOn                          // $next($request)
    | RedirectToDashboard(status: string)
    | ServerError                       // reading role_name through a missing role

  const Unauthorized: string := "Unauthorized access."

  /** Auth::user(): the session's user id resolved against the users table. */
  function SignedIn(t: Tables, session: Option<UserId>): Option<User> {
    if session.Some? && session.value in t.users then Some(t.users[session.value]) else None
  }

  /** Auth::user()->role: None when role_id names no roles row. */
  function RoleOf(t: Tables, u: User): Option<string> {
    if u.roleId in t.roles then Some(t.roles[u.roleId]) else None
  }

  /** handle. The three tests are evaluated left to right and stop at the
      first false one; a signed-in user without a role row makes PHP read a
      property of null, which the framework turns into an error response. */
  function Handle(t: Tables, session: Option<UserId>): (r: Response)
    ensures r == PassedOn <==>
      SignedIn(t, session).Some? &&
      RoleOf(t, SignedIn(t, session).value) == Some("admin") &&
      SignedIn(t, session).value.verifiedAt.Some?
    ensures r.ServerError? <==>
      SignedIn(t, session).Some? && RoleOf(t, SignedIn(t, session).value).None?
    ensures r.RedirectToDashboard? ==> r.status == Unauthorized
  {
    match SignedIn(t, session)
    case None => RedirectToDashboard(Unauthorized)
    case Some(u) =>
      match RoleOf(t, u)
      case None => ServerError
      case Some(name) =>
        if name == "admin" && u.verifiedAt.Some? then PassedOn
        else RedirectToDashboard(Unauthorized)
  }

  /** Verifying an admin's e-mail address (ManageUserController::verify)
      opens the gate for them. */
  lemma VerifyOpensGate(t: Tables, id: UserId, now: Timestamp)
    requires id in t.users && RoleOf(t, t.users[id]) == Some("admin")
    ensures Handle(t.(users := t.users[id := ManageUser.MarkVerified(t.users[id], now)]), Some(id)) == PassedOn
  {
    var u := ManageUser.MarkVerified(t.users[id], now);
    ManageUser.MarkVerifiedOnce(t.users[id], now, now);
    assert u.roleId == t.users[id].roleId;
  }

  /** A deleted user (ManageUserController::destroy and bulkDelete) no longer
      gets past the gate, even with a session that still names them. */
  lemma RemovedUserShutOut(t: Tables, doomed: set<UserId>, id: UserId)
    requires id in doomed
    ensures Handle(ManageUser.RemoveOwned(t, doomed), Some(id)) == RedirectToDashboard(Unauthorized)
  {
  }

  /** The gate never looks at anything but the signed-in user's row and the
      roles table: folders, files, logs and other users do not matter. */
  lemma GateDependsOnUserAndRole(t: Tables, t': Tables, id: UserId)
    requires t.roles == t'.roles
    requires id in t.users <==> id in t'.users
    requires id in t.users ==> t.users[id] == t'.users[id]
    ensures Handle(t, Some(id)) == Handle(t', Some(id))
  {
  }
}
