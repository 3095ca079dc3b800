/**
 * The superadmin console (`SuperAdminDashboard.jsx`): user management,
 * the all-blogs flag, per-blog admin access with its reconciliation and
 * checkbox dropdown, blog/user deletion and category creation.
 *
 * Every request the console sends succeeds or fails as a parameter says
 * (`ok`, or an `accepts` function over requests); a failing request is the
 * `catch` branch of the handler. The methods return the requests they sent.
 */
module SuperAdmin {
  import opened Common
  import opened Views
  import Tables

  datatype AdminRow = AdminRow(uid: string, email: string)

  datatype CategoryRow = CategoryRow(id: int, name: string)

  /** A request to the backend, named by the route it reaches. */
  datatype Request =
    | RoleChange(uid: string, role: string)
    | StatusChange(uid: string, isDisabled: bool)
    | ManageAllChange(uid: string, canManageAll: bool)
    | GrantAccess(uid: string, blogId: string)
    | RevokeAccess(uid: string, blogId: string)
    | CategoryCreate(name: string)

  /** The banners the console shows: `setError` and `setSuccess` arguments. */
  datatype Notice =
    | SelectUserMessage
    | UserUpdated
    | UpdateUserFailed
    | ManageAllGranted
    | ManageAllRevoked
    | ManageAllFailed
    | AccessUpdated
    | AccessFailed
    | BlogDeleted
    | DeleteBlogFailed
    | UserDeleted
    | DeleteUserFailed
    | EmptyCategory
    | CreateCategoryFailed
    | CategoryCreated(name: string)

  /** The text of each banner; the failures drop the `${err.message}` suffix. */
  function Text(n: Notice): string
  {
    match n
    case SelectUserMessage => "Please select a user"
    case UserUpdated => "User updated successfully!"
    case UpdateUserFailed => "Failed to update user"
    case ManageAllGranted => "Blog management access granted successfully."
    case ManageAllRevoked => "Blog management access revoked successfully."
    case ManageAllFailed => "Failed to toggle blog management access"
    case AccessUpdated => "Blog specific access updated successfully!"
    case AccessFailed => "Failed to update blog specific access"
    case BlogDeleted => "Blog deleted successfully!"
    case DeleteBlogFailed => "Failed to delete blog"
    case UserDeleted => "User deleted successfully!"
    case DeleteUserFailed => "Failed to delete user"
    case EmptyCategory => "Category name cannot be empty."
    case CreateCategoryFailed => "Failed to create category"
    case CategoryCreated(name) => "Category \"" + name + "\" created successfully!"
  }

  // ---------------------------------------------------------------- list updates

  /** `blogAccessMap[blogId] || []`. */
  function AccessList(m: map<string, seq<string>>, blogId: string): seq<string>
  {
    if blogId in m then m[blogId] else []
  }

  /** `users.map(...)` setting the role of the matching user: nothing else changes. */
  function WithRole(users: seq<UserRow>, uid: string, role: string): (r: seq<UserRow>)
    ensures |r| == |users|
    ensures forall i | 0 <= i < |r| ::
      r[i].uid == users[i].uid && r[i].email == users[i].email &&
      r[i].isDisabled == users[i].isDisabled && r[i].canManageAllBlogs == users[i].canManageAllBlogs
    ensures forall i | 0 <= i < |r| :: r[i].role == (if users[i].uid == uid then role else users[i].role)
  {
    seq(|users|, i requires 0 <= i < |users| => if users[i].uid == uid then users[i].(role := role) else users[i])
  }

  /** `users.map(...)` setting `isDisabled` to 1 or 0 on the matching user. */
  function WithStatus(users: seq<UserRow>, uid: string, disabled: bool): (r: seq<UserRow>)
    ensures |r| == |users|
    ensures forall i | 0 <= i < |r| ::
      r[i].uid == users[i].uid && r[i].email == users[i].email &&
      r[i].role == users[i].role && r[i].canManageAllBlogs == users[i].canManageAllBlogs
    ensures forall i | 0 <= i < |r| ::
      r[i].isDisabled == (if users[i].uid != uid then users[i].isDisabled else if disabled then 1 else 0)
  {
    seq(|users|, i requires 0 <= i < |users| =>
      if users[i].uid == uid then users[i].(isDisabled := if disabled then 1 else 0) else users[i])
  }

  /** `users.map(...)` setting `canManageAllBlogs` on the matching user. */
  function WithManageAll(users: seq<UserRow>, uid: string, access: int): (r: seq<UserRow>)
    ensures |r| == |users|
    ensures forall i | 0 <= i < |r| ::
      r[i].uid == users[i].uid && r[i].email == users[i].email &&
      r[i].role == users[i].role && r[i].isDisabled == users[i].isDisabled
    ensures forall i | 0 <= i < |r| ::
      r[i].canManageAllBlogs == (if users[i].uid == uid then access else users[i].canManageAllBlogs)
  {
    seq(|users|, i requires 0 <= i < |users| =>
      if users[i].uid == uid then users[i].(canManageAllBlogs := access) else users[i])
  }

  /** The new flag of `handleToggleBlogAccess`: 0 from 1, 1 from anything else. */
  function ToggledAccess(current: int): (r: int)
    ensures r == 0 || r == 1
    ensures r == 0 <==> current == 1
  {
    if current == 1 then 0 else 1
  }

  /** Toggling twice restores a 0/1 flag, and turns any other value into 0. */
  lemma ToggleTwice(current: int)
    ensures ToggledAccess(ToggledAccess(current)) == (if current == 1 then 1 else 0)
  {
  }

  /** The predicate `user => user.uid !== uid`. */
  function OtherUser(uid: string): UserRow -> bool
  {
    (u: UserRow) => u.uid != uid
  }

  /** `users.filter(user => user.uid !== uid)`. */
  function RemoveUser(users: seq<UserRow>, uid: string): (r: seq<UserRow>)
    ensures forall u | u in r :: u in users && u.uid != uid
    ensures forall u | u in users && u.uid != uid :: u in r
  {
    Filter(users, OtherUser(uid))
  }

  /**
   * The delete works row by row, so the kept users keep their order: a
   * concatenation loses its rows with the uid from each part, and a single
   * row goes exactly when it has the uid.
   */
  lemma RemoveUserAppend(a: seq<UserRow>, b: seq<UserRow>, uid: string)
    ensures RemoveUser(a + b, uid) == RemoveUser(a, uid) + RemoveUser(b, uid)
  {
    FilterAppend(a, b, OtherUser(uid));
  }

  lemma RemoveUserSingle(x: UserRow, uid: string)
    ensures RemoveUser([x], uid) == (if x.uid == uid then [] else [x])
  {
  }

  /** Every other row stays as often as it was listed; the ones with the uid go entirely. */
  lemma RemoveUserCount(users: seq<UserRow>, uid: string)
    ensures forall u | u in multiset(users) ::
      multiset(RemoveUser(users, uid))[u] == (if u.uid != uid then multiset(users)[u] else 0)
    ensures multiset(RemoveUser(users, uid)) <= multiset(users)
  {
    FilterCount(users, OtherUser(uid));
  }

  /** The first user with that uid. */
  function FindUser(users: seq<UserRow>, uid: string): Option<UserRow>
  {
    Find(users, (u: UserRow) => u.uid == uid)
  }

  /**
   * The role and access the user-select `onChange` copies into the form:
   * those of the first user with the chosen uid, or "" and "" when none has it.
   */
  function FormFor(users: seq<UserRow>, uid: string): (r: (string, string))
    ensures (forall u | u in users :: u.uid != uid) ==> r == ("", "")
    ensures forall i | 0 <= i < |users| && users[i].uid == uid && (forall j | 0 <= j < i :: users[j].uid != uid) ::
      r == (users[i].role, if users[i].isDisabled != 0 then "disabled" else "active")
  {
    match FindUser(users, uid)
    case None => ("", "")
    case Some(u) => (u.role, if u.isDisabled != 0 then "disabled" else "active")
  }

  /**
   * With unique uids and 0/1 flags, saving the access the form was just
   * filled with writes back the flag the list already held: the local
   * update changes nothing.
   */
  lemma ResaveStatusIsNoOp(users: seq<UserRow>, k: int)
    requires forall i, j | 0 <= i < j < |users| :: users[i].uid != users[j].uid
    requires 0 <= k < |users| && (users[k].isDisabled == 0 || users[k].isDisabled == 1)
    ensures WithStatus(users, users[k].uid, FormFor(users, users[k].uid).1 == "disabled") == users
  {
    var uid := users[k].uid;
    assert forall j | 0 <= j < k :: users[j].uid != uid;
    var r := WithStatus(users, uid, FormFor(users, uid).1 == "disabled");
    forall i | 0 <= i < |users| ensures r[i] == users[i] {
    }
  }

  // ---------------------------------------------------------------- per-blog access

  function Outside(xs: seq<string>): string -> bool
  {
    (u: string) => u !in xs
  }

  function Differs(a: string): string -> bool
  {
    (u: string) => u != a
  }

  function Matches(a: string): string -> bool
  {
    (u: string) => u == a
  }

  function Members(xs: seq<string>): set<string>
  {
    set x | x in xs
  }

  function GrantsFor(uids: seq<string>, blogId: string): (r: seq<Request>)
    ensures |r| == |uids| && forall i | 0 <= i < |r| :: r[i] == GrantAccess(uids[i], blogId)
  {
    seq(|uids|, i requires 0 <= i < |uids| => GrantAccess(uids[i], blogId))
  }

  function RevokesFor(uids: seq<string>, blogId: string): (r: seq<Request>)
    ensures |r| == |uids| && forall i | 0 <= i < |r| :: r[i] == RevokeAccess(uids[i], blogId)
  {
    seq(|uids|, i requires 0 <= i < |uids| => RevokeAccess(uids[i], blogId))
  }

  /**
   * The requests of `handleBlogSpecificAccessChange`, in the order it sends
   * them: a grant per selected uid not yet listed, then a revoke per listed
   * uid no longer selected.
   */
  function Planned(current: seq<string>, selected: seq<string>, blogId: string): (r: seq<Request>)
    ensures |r| == |Filter(selected, Outside(current))| + |Filter(current, Outside(selected))|
  {
    GrantsFor(Filter(selected, Outside(current)), blogId) + RevokesFor(Filter(current, Outside(selected)), blogId)
  }

  lemma GrantsForMembers(uids: seq<string>, blogId: string, q: Request)
    ensures q in GrantsFor(uids, blogId) <==> q.GrantAccess? && q.uid in uids && q.blogId == blogId
  {
    var r := GrantsFor(uids, blogId);
    if q.GrantAccess? && q.uid in uids && q.blogId == blogId {
      var i :| 0 <= i < |uids| && uids[i] == q.uid;
      assert r[i] == q;
    }
  }

  lemma RevokesForMembers(uids: seq<string>, blogId: string, q: Request)
    ensures q in RevokesFor(uids, blogId) <==> q.RevokeAccess? && q.uid in uids && q.blogId == blogId
  {
    var r := RevokesFor(uids, blogId);
    if q.RevokeAccess? && q.uid in uids && q.blogId == blogId {
      var i :| 0 <= i < |uids| && uids[i] == q.uid;
      assert r[i] == q;
    }
  }

  /**
   * The plan grants exactly the selected uids that are not listed and
   * revokes exactly the listed uids that are not selected, every request
   * names the blog, and all grants come before all revokes.
   */
  lemma PlannedContents(current: seq<string>, selected: seq<string>, blogId: string, q: Request)
    ensures q in Planned(current, selected, blogId) ==> (q.GrantAccess? || q.RevokeAccess?) && q.blogId == blogId
    ensures q.GrantAccess? ==> (q in Planned(current, selected, blogId) <==>
      q.blogId == blogId && q.uid in selected && q.uid !in current)
    ensures q.RevokeAccess? ==> (q in Planned(current, selected, blogId) <==>
      q.blogId == blogId && q.uid in current && q.uid !in selected)
  {
    var toGrant := Filter(selected, Outside(current));
    var toRevoke := Filter(current, Outside(selected));
    GrantsForMembers(toGrant, blogId, q);
    RevokesForMembers(toRevoke, blogId, q);
    if q.GrantAccess? || q.RevokeAccess? {
      assert Outside(current)(q.uid) == (q.uid !in current);
      assert Outside(selected)(q.uid) == (q.uid !in selected);
    }
  }

  /** All grants of the plan come before all of its revokes. */
  lemma PlannedGrantsFirst(current: seq<string>, selected: seq<string>, blogId: string)
    ensures var r := Planned(current, selected, blogId);
      forall i, j | 0 <= i < j < |r| && r[i].RevokeAccess? :: r[j].RevokeAccess?
  {
    var g := GrantsFor(Filter(selected, Outside(current)), blogId);
    var r := Planned(current, selected, blogId);
    assert forall i | 0 <= i < |r| :: r[i].RevokeAccess? <==> i >= |g|;
  }

  /**
   * The list a checkbox change writes after its request succeeds: the uid
   * appended when checked, every occurrence of it removed when unchecked.
   */
  function CheckboxList(current: seq<string>, adminUid: string, isChecked: bool): (r: seq<string>)
    ensures isChecked ==> r == current + [adminUid]
    ensures !isChecked ==> adminUid !in r && forall x | x in current && x != adminUid :: x in r
    ensures !isChecked ==> forall x | x in r :: x in current
  {
    if isChecked then current + [adminUid] else Filter(current, Differs(adminUid))
  }

  /** Checking an unlisted admin sends the one grant the reconciliation would send for the new list. */
  lemma CheckIsSingleGrant(current: seq<string>, adminUid: string, blogId: string)
    requires adminUid !in current
    ensures Planned(current, CheckboxList(current, adminUid, true), blogId) == [GrantAccess(adminUid, blogId)]
  {
    var selected := current + [adminUid];
    assert forall x | x in current :: !Outside(current)(x);
    FilterNone(current, Outside(current));
    assert Filter([adminUid], Outside(current)) == [adminUid] by {
      assert Outside(current)(adminUid);
      assert [adminUid][1..] == [];
    }
    FilterAppend(current, [adminUid], Outside(current));
    assert forall x | x in current :: !Outside(selected)(x);
    FilterNone(current, Outside(selected));
    assert GrantsFor([adminUid], blogId) == [GrantAccess(adminUid, blogId)];
    assert RevokesFor([], blogId) == [];
  }

  /** A uid listed once occurs once in the filter that keeps only it. */
  lemma {:induction false} FilterSingle(s: seq<string>, a: string)
    requires Distinct(s) && a in s
    ensures Filter(s, Matches(a)) == [a]
  {
    if s[0] == a {
      assert a !in s[1..];
      FilterNone(s[1..], Matches(a));
    } else {
      FilterSingle(s[1..], a);
    }
  }

  /** Unchecking a listed admin sends the one revoke the reconciliation would send for the new list. */
  lemma UncheckIsSingleRevoke(current: seq<string>, adminUid: string, blogId: string)
    requires Distinct(current) && adminUid in current
    ensures Planned(current, CheckboxList(current, adminUid, false), blogId) == [RevokeAccess(adminUid, blogId)]
  {
    var selected := CheckboxList(current, adminUid, false);
    FilterNone(selected, Outside(current));
    FilterSamePredicate(current, Outside(selected), Matches(adminUid));
    FilterSingle(current, adminUid);
  }

  /** The requests the plan makes grant exactly `selected \ current` and revoke exactly `current \ selected`. */
  lemma PlannedSets(current: seq<string>, selected: seq<string>, blogId: string)
    ensures (set q | q in Planned(current, selected, blogId) && q.GrantAccess? :: q.uid) == Members(selected) - Members(current)
    ensures (set q | q in Planned(current, selected, blogId) && q.RevokeAccess? :: q.uid) == Members(current) - Members(selected)
  {
    var r := Planned(current, selected, blogId);
    forall u | u in Members(selected) - Members(current) ensures GrantAccess(u, blogId) in r {
      PlannedContents(current, selected, blogId, GrantAccess(u, blogId));
    }
    forall u | u in Members(current) - Members(selected) ensures RevokeAccess(u, blogId) in r {
      PlannedContents(current, selected, blogId, RevokeAccess(u, blogId));
    }
    forall q | q in r ensures (q.GrantAccess? || q.RevokeAccess?) && q.blogId == blogId {
      PlannedContents(current, selected, blogId, q);
    }
    forall q | q in r && q.GrantAccess? ensures q.uid in Members(selected) - Members(current) {
      PlannedContents(current, selected, blogId, q);
    }
    forall q | q in r && q.RevokeAccess? ensures q.uid in Members(current) - Members(selected) {
      PlannedContents(current, selected, blogId, q);
    }
  }

  /** `getDropdownButtonText`. */
  function DropdownLabel(selected: seq<string>, admins: seq<AdminRow>): (r: string)
    ensures selected == [] ==> r == "Select Admins"
    ensures |selected| == 1 && (forall a | a in admins :: a.uid != selected[0]) ==> r == "1 admin selected"
    ensures |selected| == 1 ==> forall i | 0 <= i < |admins| && admins[i].uid == selected[0] &&
      (forall j | 0 <= j < i :: admins[j].uid != selected[0]) :: r == admins[i].email
    ensures |selected| >= 2 ==> r == Decimal(|selected|) + " admins selected"
  {
    if |selected| == 0 then "Select Admins"
    else if |selected| == 1 then
      match Find(admins, (a: AdminRow) => a.uid == selected[0])
      case Some(a) => a.email
      case None => "1 admin selected"
    else Decimal(|selected|) + " admins selected"
  }

  /** For two or more admins the label starts with their count, as `parseInt` reads it. */
  lemma LabelShowsCount(selected: seq<string>, admins: seq<AdminRow>)
    requires |selected| >= 2
    ensures ParseInt(DropdownLabel(selected, admins)) == Some(|selected|)
  {
    ParseIntDecimal(|selected|, " admins selected");
  }

  /**
   * `handleCreateCategory`'s check: the trimmed name, or None when nothing
   * but white space was typed.
   */
  function CategoryName(input: string): (r: Option<string>)
    ensures r.None? <==> forall i | 0 <= i < |input| :: IsSpace(input[i])
    ensures r.Some? ==> r.value == Trim(input) && r.value != "" && !IsSpace(r.value[0]) && !IsSpace(r.value[|r.value| - 1])
  {
    TrimEmptyIff(input);
    var name := Trim(input);
    if name == "" then None
    else
      var t := TrimStart(input);
      assert name == t[..|name|];
      Some(name)
  }

  // ---------------------------------------------------------------- against the backend

  /** The users that hold a `blog_access` row for the blog. */
  function GrantedUsers(access: set<Tables.Grant>, blogId: string): set<string>
  {
    set g | g in access && g.post == blogId :: g.user
  }

  /** The rows of every other blog agree. */
  ghost predicate SameElsewhere(a: set<Tables.Grant>, b: set<Tables.Grant>, blogId: string)
  {
    (forall g | g in a && g.post != blogId :: g in b) && (forall g | g in b && g.post != blogId :: g in a)
  }

  /**
   * What one per-blog request does to `blog_access` when a superadmin sends
   * it, `granter` being the `requesterUid` in the body. This is the table
   * `Server.BlogServer.GrantSpecific` and `Server.BlogServer.RevokeSpecific`
   * leave for requester role "superadmin": their 201 and 200 are `Some` of
   * `Tables.InsertOrIgnore` and `Tables.DeleteRow` on the old table, and
   * their refusals (400 for a missing field, 404 for a revoke with no row)
   * are None, where the console stops.
   */
  function ServerStep(access: set<Tables.Grant>, granter: Option<string>, q: Request): Option<set<Tables.Grant>>
  {
    match q
    case GrantAccess(u, p) =>
      if u == "" || p == "" then None else Some(Tables.InsertOrIgnore(access, u, p, granter))
    case RevokeAccess(u, p) =>
      if u == "" || p == "" || !Tables.HasRow(access, u, p) then None else Some(Tables.DeleteRow(access, u, p))
    case _ => None
  }

  /** The requests applied in order, stopping at the first refusal. */
  function ApplyAll(access: set<Tables.Grant>, granter: Option<string>, qs: seq<Request>): Option<set<Tables.Grant>>
    decreases |qs|
  {
    if qs == [] then Some(access)
    else
      match ServerStep(access, granter, qs[0])
      case None => None
      case Some(next) => ApplyAll(next, granter, qs[1..])
  }

  lemma {:induction false} ApplyAllAppend(access: set<Tables.Grant>, granter: Option<string>, xs: seq<Request>, ys: seq<Request>)
    ensures ApplyAll(access, granter, xs + ys) ==
      (match ApplyAll(access, granter, xs) case None => None case Some(a) => ApplyAll(a, granter, ys))
    decreases |xs|
  {
    if xs == [] {
      assert xs + ys == ys;
    } else {
      assert (xs + ys)[1..] == xs[1..] + ys;
      match ServerStep(access, granter, xs[0])
      case None =>
      case Some(next) => ApplyAllAppend(next, granter, xs[1..], ys);
    }
  }

  lemma InsertGrantsUser(access: set<Tables.Grant>, u: string, p: string, granter: Option<string>)
    requires granter.Some?
    ensures GrantedUsers(Tables.InsertOrIgnore(access, u, p, granter), p) == GrantedUsers(access, p) + {u}
    ensures SameElsewhere(access, Tables.InsertOrIgnore(access, u, p, granter), p)
  {
    var r := Tables.InsertOrIgnore(access, u, p, granter);
    var g :| g in r && g.user == u && g.post == p;
  }

  lemma DeleteRevokesUser(access: set<Tables.Grant>, u: string, p: string)
    ensures GrantedUsers(Tables.DeleteRow(access, u, p), p) == GrantedUsers(access, p) - {u}
    ensures SameElsewhere(access, Tables.DeleteRow(access, u, p), p)
  {
  }

  lemma {:induction false} GrantsApply(access: set<Tables.Grant>, granter: Option<string>, uids: seq<string>, blogId: string)
    requires granter.Some? && blogId != "" && forall u | u in uids :: u != ""
    ensures ApplyAll(access, granter, GrantsFor(uids, blogId)).Some?
    ensures var a := ApplyAll(access, granter, GrantsFor(uids, blogId)).value;
      GrantedUsers(a, blogId) == GrantedUsers(access, blogId) + Members(uids) && SameElsewhere(access, a, blogId)
    decreases |uids|
  {
    if uids != [] {
      var qs := GrantsFor(uids, blogId);
      assert qs[1..] == GrantsFor(uids[1..], blogId);
      var next := Tables.InsertOrIgnore(access, uids[0], blogId, granter);
      InsertGrantsUser(access, uids[0], blogId, granter);
      assert forall u | u in uids[1..] :: u in uids;
      GrantsApply(next, granter, uids[1..], blogId);
      assert Members(uids) == {uids[0]} + Members(uids[1..]);
    }
  }

  lemma {:induction false} RevokesApply(access: set<Tables.Grant>, granter: Option<string>, uids: seq<string>, blogId: string)
    requires blogId != "" && Distinct(uids)
    requires forall u | u in uids :: u != "" && u in GrantedUsers(access, blogId)
    ensures ApplyAll(access, granter, RevokesFor(uids, blogId)).Some?
    ensures var a := ApplyAll(access, granter, RevokesFor(uids, blogId)).value;
      GrantedUsers(a, blogId) == GrantedUsers(access, blogId) - Members(uids) && SameElsewhere(access, a, blogId)
    decreases |uids|
  {
    if uids != [] {
      var qs := RevokesFor(uids, blogId);
      assert qs[1..] == RevokesFor(uids[1..], blogId);
      assert uids[0] in GrantedUsers(access, blogId);
      assert Tables.HasRow(access, uids[0], blogId);
      var next := Tables.DeleteRow(access, uids[0], blogId);
      DeleteRevokesUser(access, uids[0], blogId);
      assert uids[0] !in uids[1..];
      GrantsElsewhereKept(uids, next, access, blogId);
      RevokesApply(next, granter, uids[1..], blogId);
      assert Members(uids) == {uids[0]} + Members(uids[1..]);
    }
  }

  lemma GrantsElsewhereKept(uids: seq<string>, next: set<Tables.Grant>, access: set<Tables.Grant>, blogId: string)
    requires uids != [] && uids[0] !in uids[1..]
    requires GrantedUsers(next, blogId) == GrantedUsers(access, blogId) - {uids[0]}
    requires forall u | u in uids :: u in GrantedUsers(access, blogId)
    ensures forall u | u in uids[1..] :: u in GrantedUsers(next, blogId)
  {
  }

  /**
   * The reconciliation does what the console promises when its list mirrors
   * the table: given the uids that hold a row for the blog, listed once
   * each, a superadmin sending the planned requests has none refused, ends
   * with exactly the selected admins holding a row, and leaves every other
   * blog's rows as they were.
   */
  lemma PlanRealizesSelection(access: set<Tables.Grant>, granter: Option<string>, blogId: string,
                              current: seq<string>, selected: seq<string>)
    requires granter.Some? && blogId != ""
    requires Distinct(current) && Members(current) == GrantedUsers(access, blogId)
    requires forall u | u in current :: u != ""
    requires forall u | u in selected :: u != ""
    ensures ApplyAll(access, granter, Planned(current, selected, blogId)).Some?
    ensures var a := ApplyAll(access, granter, Planned(current, selected, blogId)).value;
      GrantedUsers(a, blogId) == Members(selected) && SameElsewhere(access, a, blogId)
  {
    var toGrant := Filter(selected, Outside(current));
    var toRevoke := Filter(current, Outside(selected));
    ApplyAllAppend(access, granter, GrantsFor(toGrant, blogId), RevokesFor(toRevoke, blogId));
    GrantsApply(access, granter, toGrant, blogId);
    var mid := ApplyAll(access, granter, GrantsFor(toGrant, blogId)).value;
    FilterDistinct(current, Outside(selected));
    RevokesApply(mid, granter, toRevoke, blogId);
    assert Members(toGrant) == Members(selected) - Members(current);
    assert Members(toRevoke) == Members(current) - Members(selected);
  }

  // ---------------------------------------------------------------- the console

  /** Every request of the list is accepted. */
  predicate AllAccepted(qs: seq<Request>, accepts: Request -> bool)
  {
    forall k | 0 <= k < |qs| :: accepts(qs[k])
  }

  /**
   * `sent` is what a loop awaiting each request of `qs` in turn sends: all of
   * `qs` when every request is accepted, otherwise the requests up to and
   * including the first refused one.
   */
  ghost predicate SentInOrder(qs: seq<Request>, accepts: Request -> bool, sent: seq<Request>)
  {
    && |sent| <= |qs| && sent == qs[..|sent|]
    && (AllAccepted(qs, accepts) ==> sent == qs)
    && (!AllAccepted(qs, accepts) ==>
          sent != [] && !accepts(sent[|sent| - 1]) && forall k | 0 <= k < |sent| - 1 :: accepts(sent[k]))
  }

  /** A second loop after a first one that went through sends in the order of the joined list. */
  lemma SentInOrderAppend(a: seq<Request>, b: seq<Request>, accepts: Request -> bool, sa: seq<Request>, sb: seq<Request>)
    requires AllAccepted(a, accepts) && SentInOrder(a, accepts, sa) && SentInOrder(b, accepts, sb)
    ensures SentInOrder(a + b, accepts, sa + sb)
    ensures AllAccepted(a + b, accepts) <==> AllAccepted(b, accepts)
  {
    assert sa == a;
    AllAcceptedAppend(a, b, accepts);
    var s := sa + sb;
    assert (a + b)[..|s|] == s by {
      assert sb == b[..|sb|];
      assert (a + b)[..|s|] == a + b[..|sb|];
    }
    if !AllAccepted(b, accepts) {
      forall k | 0 <= k < |s| - 1 ensures accepts(s[k]) {
        if k >= |a| {
          assert s[k] == sb[k - |a|];
        }
      }
    }
  }

  lemma AllAcceptedAppend(a: seq<Request>, b: seq<Request>, accepts: Request -> bool)
    ensures AllAccepted(a + b, accepts) <==> AllAccepted(a, accepts) && AllAccepted(b, accepts)
  {
    if AllAccepted(a, accepts) && AllAccepted(b, accepts) {
      forall k | 0 <= k < |a + b| ensures accepts((a + b)[k]) {
        if k >= |a| {
          assert (a + b)[k] == b[k - |a|];
        }
      }
    }
    if AllAccepted(a + b, accepts) {
      forall k | 0 <= k < |a| ensures accepts(a[k]) {
        assert (a + b)[k] == a[k];
      }
      forall k | 0 <= k < |b| ensures accepts(b[k]) {
        assert (a + b)[|a| + k] == b[k];
      }
    }
  }

  /** When the first loop stops, the second never runs. */
  lemma SentInOrderStop(a: seq<Request>, b: seq<Request>, accepts: Request -> bool, sa: seq<Request>)
    requires !AllAccepted(a, accepts) && SentInOrder(a, accepts, sa)
    ensures SentInOrder(a + b, accepts, sa)
    ensures !AllAccepted(a + b, accepts)
  {
    assert (a + b)[..|sa|] == a[..|sa|];
    var k :| 0 <= k < |a| && !accepts(a[k]);
    assert !accepts((a + b)[k]);
  }

  /**
   * One `for ... await` loop of requests: each is sent in turn, and the
   * first refused one ends the loop, as the exception it raises would.
   */
  method SendEach(qs: seq<Request>, accepts: Request -> bool) returns (sent: seq<Request>, ok: bool)
    ensures SentInOrder(qs, accepts, sent)
    ensures ok <==> AllAccepted(qs, accepts)
  {
    sent := [];
    ok := true;
    var i := 0;
    while i < |qs| && ok
      invariant 0 <= i <= |qs| && |sent| == i && sent == qs[..i]
      invariant forall k | 0 <= k < i - 1 :: accepts(qs[k])
      invariant ok ==> forall k | 0 <= k < i :: accepts(qs[k])
      invariant !ok ==> i >= 1 && !accepts(qs[i - 1])
    {
      sent := sent + [qs[i]];
      ok := accepts(qs[i]);
      i := i + 1;
    }
  }

  /**
   * The two loops of `handleBlogSpecificAccessChange`: the planned grants,
   * then, if all of them went through, the planned revokes.
   */
  method Reconcile(current: seq<string>, selected: seq<string>, blogId: string, accepts: Request -> bool)
    returns (sent: seq<Request>, ok: bool)
    ensures SentInOrder(Planned(current, selected, blogId), accepts, sent)
    ensures ok <==> AllAccepted(Planned(current, selected, blogId), accepts)
  {
    var grants := GrantsFor(Filter(selected, Outside(current)), blogId);
    var revokes := RevokesFor(Filter(current, Outside(selected)), blogId);
    assert grants + revokes == Planned(current, selected, blogId);
    sent, ok := SendEach(grants, accepts);
    if ok {
      var sentRevokes;
      sentRevokes, ok := SendEach(revokes, accepts);
      SentInOrderAppend(grants, revokes, accepts, sent, sentRevokes);
      sent := sent + sentRevokes;
    } else {
      SentInOrderStop(grants, revokes, accepts, sent);
    }
  }

  class Dashboard {
    var users: seq<UserRow>
    var blogs: seq<Blog>
    var admins: seq<AdminRow>
    var categories: seq<CategoryRow>
    var blogAccessMap: map<string, seq<string>>
    var activeSection: string
    var selectedUser: string
    var selectedRole: string
    var selectedAccess: string
    var error: Option<Notice>
    var success: Option<Notice>

    /** The state before anything is loaded: the users section, nothing selected, no message. */
    constructor ()
      ensures users == [] && blogs == [] && admins == [] && categories == [] && blogAccessMap == map[]
      ensures activeSection == "users" && selectedUser == "" && selectedRole == "" && selectedAccess == ""
      ensures error == None && success == None
    {
      users := [];
      blogs := [];
      admins := [];
      categories := [];
      blogAccessMap := map[];
      activeSection := "users";
      selectedUser := "";
      selectedRole := "";
      selectedAccess := "";
      error := None;
      success := None;
    }

    /** The user select's `onChange`: the uid and the chosen user's role and access. */
    method SelectUser(value: string)
      modifies this`selectedUser, this`selectedRole, this`selectedAccess
      ensures selectedUser == value && (selectedRole, selectedAccess) == FormFor(users, value)
    {
      selectedUser := value;
      var form := FormFor(users, value);
      selectedRole := form.0;
      selectedAccess := form.1;
    }

    /**
     * `handleSave`. Both local updates map over the list as it was when the
     * handler started, so when role and access are both saved the list shows
     * only the status change.
     */
    method Save(roleOk: bool, statusOk: bool) returns (sent: seq<Request>)
      modifies this`users, this`error, this`success, this`selectedUser, this`selectedRole, this`selectedAccess
      ensures old(selectedUser) == "" ==>
        sent == [] && error == Some(SelectUserMessage) && success == old(success) && users == old(users) &&
        selectedUser == old(selectedUser) && selectedRole == old(selectedRole) && selectedAccess == old(selectedAccess)
      ensures old(selectedUser) != "" ==>
        var uid, role, acc := old(selectedUser), old(selectedRole), old(selectedAccess);
        var roleFails := role != "" && !roleOk;
        var statusFails := !roleFails && acc != "" && !statusOk;
        && sent == (if role != "" then [RoleChange(uid, role)] else []) +
                   (if !roleFails && acc != "" then [StatusChange(uid, acc == "disabled")] else [])
        && users == (if roleFails then old(users)
                     else if acc != "" && statusOk then WithStatus(old(users), uid, acc == "disabled")
                     else if role != "" then WithRole(old(users), uid, role)
                     else old(users))
        && (roleFails || statusFails ==>
              error == Some(UpdateUserFailed) && success == None &&
              selectedUser == uid && selectedRole == role && selectedAccess == acc)
        && (!roleFails && !statusFails ==>
              error == None && success == Some(UserUpdated) &&
              selectedUser == "" && selectedRole == "" && selectedAccess == "")
    {
      if selectedUser == "" {
        error := Some(SelectUserMessage);
        return [];
      }
      error := None;
      success := None;
      var uid := selectedUser;
      var snapshot := users;
      sent := [];
      if selectedRole != "" {
        sent := sent + [RoleChange(uid, selectedRole)];
        if !roleOk {
          error := Some(UpdateUserFailed);
          return;
        }
        users := WithRole(snapshot, uid, selectedRole);
      }
      if selectedAccess != "" {
        var isDisabled := selectedAccess == "disabled";
        sent := sent + [StatusChange(uid, isDisabled)];
        if !statusOk {
          error := Some(UpdateUserFailed);
          return;
        }
        users := WithStatus(snapshot, uid, isDisabled);
      }
      success := Some(UserUpdated);
      selectedUser := "";
      selectedRole := "";
      selectedAccess := "";
    }

    /** `handleToggleBlogAccess`: flips the all-blogs flag of one user once the backend accepts. */
    method ToggleBlogAccess(userUid: string, currentAccess: int, ok: bool) returns (sent: Request)
      modifies this`users, this`error, this`success
      ensures sent == ManageAllChange(userUid, currentAccess != 1)
      ensures ok ==> (users == WithManageAll(old(users), userUid, ToggledAccess(currentAccess)) && error == None &&
                      success == Some(if currentAccess != 1 then ManageAllGranted else ManageAllRevoked))
      ensures !ok ==> users == old(users) && error == Some(ManageAllFailed) && success == None
    {
      error := None;
      success := None;
      var newAccess := ToggledAccess(currentAccess);
      sent := ManageAllChange(userUid, newAccess == 1);
      if !ok {
        error := Some(ManageAllFailed);
        return;
      }
      users := WithManageAll(users, userUid, newAccess);
      success := Some(if newAccess == 1 then ManageAllGranted else ManageAllRevoked);
    }

    /**
     * `handleBlogSpecificAccessChange`: the planned grants, then the planned
     * revokes, one request at a time; the first refusal stops the handler and
     * leaves the map as it was, otherwise the blog's entry becomes `selected`.
     */
    method BlogSpecificAccessChange(blogId: string, selected: seq<string>, accepts: Request -> bool)
      returns (sent: seq<Request>)
      modifies this`blogAccessMap, this`error, this`success
      ensures SentInOrder(Planned(AccessList(old(blogAccessMap), blogId), selected, blogId), accepts, sent)
      ensures AllAccepted(Planned(AccessList(old(blogAccessMap), blogId), selected, blogId), accepts) ==>
        blogAccessMap == old(blogAccessMap)[blogId := selected] && error == None && success == Some(AccessUpdated)
      ensures !AllAccepted(Planned(AccessList(old(blogAccessMap), blogId), selected, blogId), accepts) ==>
        blogAccessMap == old(blogAccessMap) && error == Some(AccessFailed) && success == None
    {
      error := None;
      success := None;
      var ok;
      sent, ok := Reconcile(AccessList(blogAccessMap, blogId), selected, blogId, accepts);
      if ok {
        blogAccessMap := blogAccessMap[blogId := selected];
        success := Some(AccessUpdated);
      } else {
        error := Some(AccessFailed);
      }
    }

    /**
     * `handleDropdownCheckboxChange`: one grant or revoke; only once it is
     * accepted does the blog's entry become the updated list.
     */
    method DropdownCheckboxChange(blogId: string, adminUid: string, isChecked: bool, ok: bool) returns (sent: Request)
      modifies this`blogAccessMap, this`error, this`success
      ensures sent == if isChecked then GrantAccess(adminUid, blogId) else RevokeAccess(adminUid, blogId)
      ensures ok ==>
        blogAccessMap == old(blogAccessMap)[blogId := CheckboxList(AccessList(old(blogAccessMap), blogId), adminUid, isChecked)] &&
        error == None && success == Some(AccessUpdated)
      ensures !ok ==> blogAccessMap == old(blogAccessMap) && error == Some(AccessFailed) && success == None
    {
      var newList := CheckboxList(AccessList(blogAccessMap, blogId), adminUid, isChecked);
      error := None;
      success := None;
      sent := if isChecked then GrantAccess(adminUid, blogId) else RevokeAccess(adminUid, blogId);
      if !ok {
        error := Some(AccessFailed);
        return;
      }
      blogAccessMap := blogAccessMap[blogId := newList];
      success := Some(AccessUpdated);
    }

    /** `handleDeleteBlog`: nothing without confirmation; the blog leaves the list once the delete succeeds. */
    method DeleteBlog(blogId: string, confirmed: bool, ok: bool)
      modifies this`blogs, this`error, this`success
      ensures !confirmed ==> blogs == old(blogs) && error == old(error) && success == old(success)
      ensures confirmed && ok ==> blogs == RemoveBlog(old(blogs), blogId) && error == None && success == Some(BlogDeleted)
      ensures confirmed && !ok ==> blogs == old(blogs) && error == Some(DeleteBlogFailed) && success == None
    {
      if !confirmed {
        return;
      }
      error := None;
      success := None;
      if !ok {
        error := Some(DeleteBlogFailed);
        return;
      }
      blogs := RemoveBlog(blogs, blogId);
      success := Some(BlogDeleted);
    }

    /** `handleDeleteUser`: nothing without confirmation; the user leaves the list once the delete succeeds. */
    method DeleteUser(uid: string, confirmed: bool, ok: bool)
      modifies this`users, this`error, this`success
      ensures !confirmed ==> users == old(users) && error == old(error) && success == old(success)
      ensures confirmed && ok ==> users == RemoveUser(old(users), uid) && error == None && success == Some(UserDeleted)
      ensures confirmed && !ok ==> users == old(users) && error == Some(DeleteUserFailed) && success == None
    {
      if !confirmed {
        return;
      }
      error := None;
      success := None;
      if !ok {
        error := Some(DeleteUserFailed);
        return;
      }
      users := RemoveUser(users, uid);
      success := Some(UserDeleted);
    }

    /**
     * `handleCreateCategory`: a name that trims to nothing is refused without
     * a request; otherwise the trimmed name is sent and, once it is created
     * and the list re-read (`refreshed`, None when that read throws), the
     * category list is replaced.
     */
    method CreateCategory(input: string, created: bool, refreshed: Option<seq<CategoryRow>>) returns (sent: Option<Request>)
      modifies this`categories, this`error, this`success
      ensures CategoryName(input).None? ==>
        sent == None && categories == old(categories) && error == Some(EmptyCategory) && success == old(success)
      ensures CategoryName(input).Some? ==> sent == Some(CategoryCreate(CategoryName(input).value))
      ensures CategoryName(input).Some? && created && refreshed.Some? ==>
        categories == refreshed.value && error == None && success == Some(CategoryCreated(CategoryName(input).value))
      ensures CategoryName(input).Some? && !(created && refreshed.Some?) ==>
        categories == old(categories) && error == Some(CreateCategoryFailed) && success == None
    {
      var name := CategoryName(input);
      if name.None? {
        error := Some(EmptyCategory);
        return None;
      }
      error := None;
      success := None;
      sent := Some(CategoryCreate(name.value));
      if !created || refreshed.None? {
        error := Some(CreateCategoryFailed);
        return;
      }
      categories := refreshed.value;
      success := Some(CategoryCreated(name.value));
    }

    /**
     * The access-loading effect: in the access section, with blogs and admins
     * loaded, the map is rebuilt from one read per blog (`fetch`, None when
     * it throws); a blog whose read fails gets no entry.
     */
    method FetchBlogAccess(fetch: string -> Option<seq<string>>)
      modifies this`blogAccessMap
      ensures !(old(activeSection) == "access" && |old(blogs)| > 0 && |old(admins)| > 0) ==>
        blogAccessMap == old(blogAccessMap)
      ensures old(activeSection) == "access" && |old(blogs)| > 0 && |old(admins)| > 0 ==>
        blogAccessMap.Keys == (set b | b in old(blogs) && fetch(b.id).Some? :: b.id) &&
        forall id | id in blogAccessMap :: Some(blogAccessMap[id]) == fetch(id)
    {
      if !(activeSection == "access" && |blogs| > 0 && |admins| > 0) {
        return;
      }
      var newMap: map<string, seq<string>> := map[];
      var i := 0;
      while i < |blogs|
        invariant 0 <= i <= |blogs|
        invariant newMap.Keys == set k | 0 <= k < i && fetch(blogs[k].id).Some? :: blogs[k].id
        invariant forall id | id in newMap :: Some(newMap[id]) == fetch(id)
      {
        var records := fetch(blogs[i].id);
        if records.Some? {
          newMap := newMap[blogs[i].id := records.value];
        }
        i := i + 1;
      }
      assert forall b | b in blogs :: exists k | 0 <= k < |blogs| :: blogs[k] == b;
      blogAccessMap := newMap;
    }
  }
}
