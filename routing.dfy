/**
 * The top-level routing of the single-page app (`src/App.jsx`): what the
 * root path renders, from the loading flag and the logged-in user's role.
 */
module Routing {
  import opened Common

  datatype Screen = Loading | SuperAdminDashboard | AdminConsole | Home | LoginPage

  /** `isAdmin`: a logged-in user whose role is "admin". None is no user. */
  predicate IsAdmin(role: Option<string>)
  {
    role.Some? && role.value == "admin"
  }

  /** `isSuperAdmin`: a logged-in user whose role is "superadmin". */
  predicate IsSuperAdmin(role: Option<string>)
  {
    role.Some? && role.value == "superadmin"
  }

  /** Both flags test the one role string, so they are never both set. */
  lemma FlagsExclusive(role: Option<string>)
    ensures !(IsAdmin(role) && IsSuperAdmin(role))
  {
  }

  /**
   * What `AppRoutes` renders at "/": the loading view while the session is
   * being restored, then the console for the role, Home for any other
   * logged-in user, and the login page for a visitor.
   */
  function RootScreen(loading: bool, role: Option<string>): (s: Screen)
    ensures loading ==> s == Loading
    ensures !loading && role.None? ==> s == LoginPage
    ensures !loading && role.Some? ==> s != LoginPage && s != Loading
    ensures s == SuperAdminDashboard <==> !loading && IsSuperAdmin(role)
    ensures s == AdminConsole <==> !loading && IsAdmin(role)
    ensures s == Home <==> !loading && role.Some? && role.value != "admin" && role.value != "superadmin"
  {
    if loading then Loading
    else if IsSuperAdmin(role) then SuperAdminDashboard
    else if IsAdmin(role) then AdminConsole
    else if role.Some? then Home
    else LoginPage
  }
}
