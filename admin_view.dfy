/**
 * The admin console (`src/components/Admin.jsx`): the data it loads, the
 * per-blog access map it builds for an admin, the blog and user lists it
 * shows and the rule that decides whether Edit/Delete appear on a blog.
 */
module AdminView {
  import opened Common
  import opened Views
  import Tables

  /** The fields of the logged-in user the console reads. */
  datatype Viewer = Viewer(uid: string, email: string, role: string, canManageAllBlogs: int)

  /** What `fetchData` leaves in the component state. */
  datatype Loaded = Loaded(blogs: seq<Blog>, accessStatus: map<string, bool>, users: seq<UserRow>, admins: seq<UserRow>)

  /** The users the console lists: enabled, and not superadmins. */
  predicate Listed(u: UserRow)
  {
    u.isDisabled == 0 && u.role != "superadmin"
  }

  predicate IsAdminRow(u: UserRow)
  {
    u.role == "admin"
  }

  /** `allUsers.filter(...)`: exactly the listed users, in server order. */
  function VisibleUsers(all: seq<UserRow>): (r: seq<UserRow>)
    ensures forall u | u in r :: u in all && Listed(u)
    ensures forall u | u in all && Listed(u) :: u in r
  {
    Filter(all, Listed)
  }

  /** The admins among the listed users. */
  function AdminsOf(users: seq<UserRow>): (r: seq<UserRow>)
    ensures forall u | u in r :: u in users && IsAdminRow(u)
    ensures forall u | u in users && IsAdminRow(u) :: u in r
  {
    Filter(users, IsAdminRow)
  }

  predicate EnabledAdmin(u: UserRow)
  {
    u.isDisabled == 0 && u.role == "admin"
  }

  /** The admin list is the enabled admins of the whole user list, in server order. */
  lemma {:induction false} AdminsAreEnabledAdmins(all: seq<UserRow>)
    ensures AdminsOf(VisibleUsers(all)) == Filter(all, EnabledAdmin)
  {
    if all != [] {
      AdminsAreEnabledAdmins(all[1..]);
      var rest := VisibleUsers(all[1..]);
      if Listed(all[0]) {
        assert VisibleUsers(all) == [all[0]] + rest;
        assert ([all[0]] + rest)[1..] == rest;
      } else {
        assert VisibleUsers(all) == rest;
      }
    }
  }

  /** Every check of the access loop returns, or the loop does not run. */
  predicate ChecksPass(viewer: Option<Viewer>, blogs: seq<Blog>, check: (string, string) -> Option<bool>)
  {
    viewer.Some? && viewer.value.role == "admin" ==> forall b | b in blogs :: check(viewer.value.uid, b.id).Some?
  }

  /**
   * `fetchData`. The three requests are parameters: `listBlogs` and
   * `listUsers` give None when the request throws, `check(uid, blogId)` is
   * `checkBlogSpecificAccess`, None when it throws. A throw anywhere empties
   * the three lists; the access map is replaced only once every check of the
   * loop has returned.
   */
  method FetchData(prev: Loaded, viewer: Option<Viewer>, listBlogs: Option<seq<Blog>>,
                   check: (string, string) -> Option<bool>, listUsers: Option<seq<UserRow>>)
    returns (next: Loaded)
    ensures listBlogs.None? || !ChecksPass(viewer, listBlogs.value, check) ==>
      next == Loaded([], prev.accessStatus, [], [])
    ensures listBlogs.Some? && ChecksPass(viewer, listBlogs.value, check) ==>
      && (viewer.None? || viewer.value.role != "admin" ==> next.accessStatus == map[])
      && (viewer.Some? && viewer.value.role == "admin" ==>
            next.accessStatus.Keys == (set b | b in listBlogs.value :: b.id) &&
            forall id | id in next.accessStatus :: Some(next.accessStatus[id]) == check(viewer.value.uid, id))
      && (listUsers.None? ==> next.blogs == [] && next.users == [] && next.admins == [])
      && (listUsers.Some? ==>
            next.blogs == listBlogs.value &&
            next.users == VisibleUsers(listUsers.value) && next.admins == AdminsOf(next.users))
  {
    if listBlogs.None? {
      return Loaded([], prev.accessStatus, [], []);
    }
    var allBlogs := listBlogs.value;
    var accessStatus: map<string, bool> := map[];
    if viewer.Some? && viewer.value.role == "admin" {
      var uid := viewer.value.uid;
      var i := 0;
      while i < |allBlogs|
        invariant 0 <= i <= |allBlogs|
        invariant forall k | 0 <= k < i :: check(uid, allBlogs[k].id).Some?
        invariant accessStatus.Keys == set k | 0 <= k < i :: allBlogs[k].id
        invariant forall id | id in accessStatus :: Some(accessStatus[id]) == check(uid, id)
      {
        var hasAccess := check(uid, allBlogs[i].id);
        if hasAccess.None? {
          return Loaded([], prev.accessStatus, [], []);
        }
        accessStatus := accessStatus[allBlogs[i].id := hasAccess.value];
        i := i + 1;
      }
      assert forall b | b in allBlogs :: exists k | 0 <= k < |allBlogs| :: allBlogs[k] == b;
    }
    if listUsers.None? {
      return Loaded([], accessStatus, [], []);
    }
    var users := VisibleUsers(listUsers.value);
    return Loaded(allBlogs, accessStatus, users, AdminsOf(users));
  }

  /**
   * The condition under which a blog card shows Edit and Delete: the viewer
   * wrote it, may manage every blog, or has a truthy entry in the access map.
   */
  predicate CanModify(viewer: Viewer, accessStatus: map<string, bool>, b: Blog)
  {
    viewer.email == b.author || viewer.canManageAllBlogs != 0 || (b.id in accessStatus && accessStatus[b.id])
  }

  /**
   * When the access map holds the server's `checkBlogAccess` verdicts, the
   * card's author matches the stored post and the viewer's flag matches the
   * stored one, the buttons appear exactly on the posts the server lets the
   * viewer delete as an admin.
   */
  lemma CanModifyMatchesServer(viewer: Viewer, accessStatus: map<string, bool>, b: Blog,
                               users: map<Tables.Uid, Tables.User>, posts: map<Tables.PostId, Tables.Post>,
                               access: set<Tables.Grant>)
    requires b.id in posts && posts[b.id].author == b.author
    requires viewer.uid in users && (viewer.canManageAllBlogs != 0 <==> users[viewer.uid].canManageAllBlogs)
    requires b.id in accessStatus && accessStatus[b.id] == Tables.HasBlogAccess(users, access, viewer.uid, b.id)
    ensures CanModify(viewer, accessStatus, b) <==>
      Tables.HasBlogAccess(users, access, viewer.uid, b.id) || posts[b.id].author == viewer.email
  {
  }

  /** `sortBlogs`: [] for an empty list, otherwise the date sort of a copy. */
  function SortBlogs(blogs: seq<Blog>, sortOption: string): (r: seq<Blog>)
    ensures blogs == [] ==> r == []
    ensures multiset(r) == multiset(blogs)
    ensures sortOption == "newest" ==> NewestFirst(r)
    ensures sortOption == "oldest" ==> OldestFirst(r)
    ensures sortOption != "newest" && sortOption != "oldest" ==> r == blogs
  {
    if blogs == [] then [] else SortByDate(sortOption, blogs)
  }

  /** `filteredAndSortedBlogs`: the title filter, then `sortBlogs`. */
  function ShownBlogs(blogs: seq<Blog>, filter: string, sortOption: string): (r: seq<Blog>)
    ensures forall b | b in r :: b in blogs && TitleMatches(b, filter)
    ensures forall b | b in blogs && TitleMatches(b, filter) :: b in r
    ensures multiset(r) == multiset(Filter(blogs, (b: Blog) => TitleMatches(b, filter)))
    ensures sortOption == "newest" ==> NewestFirst(r)
    ensures sortOption == "oldest" ==> OldestFirst(r)
    ensures sortOption != "newest" && sortOption != "oldest" ==> r == Filter(blogs, (b: Blog) => TitleMatches(b, filter))
  {
    var kept := Filter(blogs, (b: Blog) => TitleMatches(b, filter));
    var r := SortBlogs(kept, sortOption);
    assert forall b | b in r :: b in multiset(r);
    assert forall b | b in kept :: b in multiset(kept);
    r
  }

  predicate EmailMatches(filterUser: string, u: UserRow)
  {
    filterUser == "" || Contains(Lower(u.email), filterUser)
  }

  /**
   * The user panel: every user for an empty search, otherwise those whose
   * lower-cased email includes it, listed last-first.
   */
  function UserPanel(users: seq<UserRow>, filterUser: string): (r: seq<UserRow>)
    ensures filterUser == "" ==> r == Reverse(users)
    ensures forall u | u in r :: u in users && EmailMatches(filterUser, u)
    ensures forall u | u in users && EmailMatches(filterUser, u) :: u in r
    ensures Reverse(r) == Filter(users, (u: UserRow) => EmailMatches(filterUser, u))
  {
    var kept := Filter(users, (u: UserRow) => EmailMatches(filterUser, u));
    assert filterUser == "" ==> kept == users by {
      if filterUser == "" {
        FilterKeepsAll(users, (u: UserRow) => EmailMatches(filterUser, u));
      }
    }
    ReverseReverse(kept);
    Reverse(kept)
  }
}
