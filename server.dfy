/**
 * The REST backend as a state machine. Each route is one method of
 * `BlogServer`: it either rejects with an HTTP status and (with the one
 * exception of user deletion) leaves the tables as they were, or applies its
 * INSERT/UPDATE/DELETE statements and answers 200 or 201.
 *
 * Request fields are strings; a field the request leaves out is "" (the
 * handlers test fields with `!x`, which treats both alike). The caller-chosen
 * uid of signup stands for `Date.now().toString()`.
 */
module Server {
  import opened Common
  import opened Tables

  /** The profile columns that `PUT /users/:uid/<field>` rewrites. */
  datatype ProfileField = DisplayName | Email | Password | PhotoURL

  /** The role test `['admin', 'superadmin'].includes(requesterRole)`. */
  predicate IsStaff(requesterRole: string)
  {
    requesterRole == "admin" || requesterRole == "superadmin"
  }

  /** The row `insertPost` and the UPDATE statements write (`subHeading || ''`, `category || null`). */
  function PostRow(title: string, subHeading: string, content: string, author: string, date: string, category: string): (p: Post)
    ensures p.title == title && p.subHeading == subHeading && p.content == content
    ensures p.author == author && p.date == date
    ensures p.category.None? <==> category == ""
    ensures p.category.Some? ==> p.category.value == category
  {
    Post(title, subHeading, content, author, date, if category == "" then None else Some(category))
  }

  /** A user row with one profile column replaced. */
  function WithProfileField(u: User, field: ProfileField, value: string): (r: User)
    ensures r.role == u.role && r.isDisabled == u.isDisabled && r.canManageAllBlogs == u.canManageAllBlogs
    ensures r.displayName == (if field == DisplayName then value else u.displayName)
    ensures r.email == (if field == Email then value else u.email)
    ensures r.password == (if field == Password then value else u.password)
    ensures r.photoURL == (if field == PhotoURL then value else u.photoURL)
  {
    match field
    case DisplayName => u.(displayName := value)
    case Email => u.(email := value)
    case Password => u.(password := value)
    case PhotoURL => u.(photoURL := value)
  }

  class BlogServer {
    var users: map<Uid, User>
    var posts: map<PostId, Post>
    /** `blog_categories`: id -> name. */
    var categories: map<int, string>
    /** The id AUTOINCREMENT hands out next; ids are never reused. */
    var nextCategoryId: int
    var access: set<Grant>

    /** The constraints the schema and the routes keep. */
    ghost predicate Valid()
      reads this
    {
      && EmailsUnique(users)
      && "" !in users
      && CategoryNamesUnique(categories)
      && nextCategoryId >= 1
      && (forall id | id in categories :: 1 <= id < nextCategoryId)
      && UniquePairs(access)
      && (forall g | g in access :: g.user != "" && g.post != "")
    }

    /** Empty tables (the default superadmin seeding is not modelled). */
    constructor ()
      ensures Valid()
      ensures users == map[] && posts == map[] && categories == map[] && access == {}
      ensures nextCategoryId == 1
    {
      users, posts, categories, access := map[], map[], map[], {};
      nextCategoryId := 1;
    }

    /** An absent requester uid (bound as NULL) matches no user and no grant. */
    lemma AbsentRequesterHasNoAccess(p: PostId)
      requires Valid()
      ensures !HasBlogAccess(users, access, "", p)
    {
    }

    // ============================================================ blog access

    /** `POST /blog-access/grant`; `requesterUid` is None when the body leaves it out. */
    method Grant(userUid: Uid, postId: PostId, requesterRole: string, requesterUid: Option<Uid>) returns (status: int)
      requires Valid()
      modifies this
      ensures Valid()
      ensures requesterRole != "superadmin" ==> status == 403
      ensures requesterRole == "superadmin" && (userUid == "" || postId == "") ==> status == 400
      ensures requesterRole == "superadmin" && userUid != "" && postId != "" ==>
        status == (if userUid !in old(users) then 404
                   else if old(users)[userUid].role != "admin" then 400
                   else if postId !in old(posts) then 404
                   else 201)
      ensures status == 201 ==> access == InsertOrIgnore(old(access), userUid, postId, requesterUid)
      ensures status != 201 ==> access == old(access)
      ensures users == old(users) && posts == old(posts)
      ensures categories == old(categories) && nextCategoryId == old(nextCategoryId)
    {
      if requesterRole != "superadmin" {
        return 403;
      }
      if userUid == "" || postId == "" {
        return 400;
      }
      if userUid !in users {
        return 404;
      }
      if users[userUid].role != "admin" {
        return 400;
      }
      if postId !in posts {
        return 404;
      }
      access := InsertOrIgnore(access, userUid, postId, requesterUid);
      return 201;
    }

    /** `POST /blog-access/grant-specific`: as `Grant`, without checking the user or the post. */
    method GrantSpecific(userUid: Uid, postId: PostId, requesterRole: string, requesterUid: Option<Uid>) returns (status: int)
      requires Valid()
      modifies this
      ensures Valid()
      ensures status == (if requesterRole != "superadmin" then 403
                         else if userUid == "" || postId == "" then 400
                         else 201)
      ensures status == 201 ==> access == InsertOrIgnore(old(access), userUid, postId, requesterUid)
      ensures status != 201 ==> access == old(access)
      ensures users == old(users) && posts == old(posts)
      ensures categories == old(categories) && nextCategoryId == old(nextCategoryId)
    {
      if requesterRole != "superadmin" {
        return 403;
      }
      if userUid == "" || postId == "" {
        return 400;
      }
      access := InsertOrIgnore(access, userUid, postId, requesterUid);
      return 201;
    }

    /** `DELETE /blog-access/revoke`. */
    method Revoke(userUid: Uid, postId: PostId, requesterRole: string) returns (status: int)
      requires Valid()
      modifies this
      ensures Valid()
      ensures status == (if requesterRole != "superadmin" then 403
                         else if userUid == "" || postId == "" then 400
                         else if !HasRow(old(access), userUid, postId) then 404
                         else 200)
      ensures status == 200 ==> access == DeleteRow(old(access), userUid, postId)
      ensures status != 200 ==> access == old(access)
      ensures users == old(users) && posts == old(posts)
      ensures categories == old(categories) && nextCategoryId == old(nextCategoryId)
    {
      if requesterRole != "superadmin" {
        return 403;
      }
      if userUid == "" || postId == "" {
        return 400;
      }
      var remaining := DeleteRow(access, userUid, postId);
      DeleteRowChanges(access, userUid, postId);
      if remaining == access {
        return 404;
      }
      access := remaining;
      return 200;
    }

    /** `DELETE /blog-access/revoke-specific`: the same transition as `Revoke`. */
    method RevokeSpecific(userUid: Uid, postId: PostId, requesterRole: string) returns (status: int)
      requires Valid()
      modifies this
      ensures Valid()
      ensures status == (if requesterRole != "superadmin" then 403
                         else if userUid == "" || postId == "" then 400
                         else if !HasRow(old(access), userUid, postId) then 404
                         else 200)
      ensures status == 200 ==> access == DeleteRow(old(access), userUid, postId)
      ensures status != 200 ==> access == old(access)
      ensures users == old(users) && posts == old(posts)
      ensures categories == old(categories) && nextCategoryId == old(nextCategoryId)
    {
      status := Revoke(userUid, postId, requesterRole);
    }

    /** `GET /blog-access/admin/:uid`: the posts the user may manage (the ORDER BY is not modelled). */
    method AccessibleBlogsOf(uid: Uid, requesterRole: string, requesterUid: Uid) returns (status: int, blogs: set<PostId>)
      ensures status == (if requesterRole != "superadmin" && requesterUid != uid then 403
                         else if uid !in users then 404
                         else 200)
      ensures status == 200 && users[uid].canManageAllBlogs ==> blogs == posts.Keys
      ensures status == 200 && !users[uid].canManageAllBlogs ==>
        forall p :: p in blogs <==> p in posts && HasRow(access, uid, p)
      ensures status != 200 ==> blogs == {}
    {
      if requesterRole != "superadmin" && requesterUid != uid {
        return 403, {};
      }
      if uid !in users {
        return 404, {};
      }
      return 200, AccessibleBlogs(users, posts, access, uid);
    }

    /** `GET /blog-access/admin/:adminUid/:postId`. */
    method CheckAccess(adminUid: Uid, postId: PostId, requesterRole: string, requesterUid: Uid) returns (status: int, hasAccess: bool)
      ensures status == (if !IsStaff(requesterRole) then 403
                         else if requesterRole == "admin" && requesterUid != adminUid then 403
                         else 200)
      ensures status == 200 ==>
        (hasAccess <==> (adminUid in users && users[adminUid].canManageAllBlogs) || HasRow(access, adminUid, postId))
      ensures status != 200 ==> !hasAccess
    {
      if !IsStaff(requesterRole) {
        return 403, false;
      }
      if requesterRole == "admin" && requesterUid != adminUid {
        return 403, false;
      }
      return 200, HasBlogAccess(users, access, adminUid, postId);
    }

    // ============================================================ categories

    /** `POST /blog-categories`. */
    method CreateCategory(name: string, requesterRole: string) returns (status: int, id: int)
      requires Valid()
      modifies this
      ensures Valid()
      ensures status == (if requesterRole != "superadmin" then 403
                         else if name == "" then 400
                         else if name in old(categories).Values then 409
                         else 201)
      ensures status == 201 ==>
        id == old(nextCategoryId) && id !in old(categories) &&
        categories == old(categories)[id := name] && nextCategoryId == old(nextCategoryId) + 1
      ensures status != 201 ==> categories == old(categories) && nextCategoryId == old(nextCategoryId)
      ensures users == old(users) && posts == old(posts) && access == old(access)
    {
      id := 0;
      if requesterRole != "superadmin" {
        return 403, id;
      }
      if name == "" {
        return 400, id;
      }
      if name in categories.Values {
        return 409, id;
      }
      id := nextCategoryId;
      categories := categories[id := name];
      nextCategoryId := nextCategoryId + 1;
      status := 201;
    }

    /** `DELETE /blog-categories/:id` (posts that name the category keep it). */
    method DeleteCategory(id: int, requesterRole: string) returns (status: int)
      requires Valid()
      modifies this
      ensures Valid()
      ensures status == (if requesterRole != "superadmin" then 403
                         else if id !in old(categories) then 404
                         else 200)
      ensures categories == if status == 200 then old(categories) - {id} else old(categories)
      ensures users == old(users) && posts == old(posts) && access == old(access)
      ensures nextCategoryId == old(nextCategoryId)
    {
      if requesterRole != "superadmin" {
        return 403;
      }
      if id !in categories {
        return 404;
      }
      categories := categories - {id};
      return 200;
    }

    // ============================================================ posts

    /** `POST /posts` and `insertPost`; a taken id breaks the primary key (500). */
    method CreatePost(id: PostId, title: string, subHeading: string, content: string, author: string,
                      date: string, requesterRole: string, category: string) returns (status: int)
      requires Valid()
      modifies this
      ensures Valid()
      ensures status == (if !IsStaff(requesterRole) then 403
                         else if id == "" || title == "" || content == "" || author == "" || date == "" then 400
                         else if category != "" && category !in old(categories).Values then 400
                         else if id in old(posts) then 500
                         else 201)
      ensures posts == if status == 201 then old(posts)[id := PostRow(title, subHeading, content, author, date, category)]
                       else old(posts)
      ensures users == old(users) && access == old(access)
      ensures categories == old(categories) && nextCategoryId == old(nextCategoryId)
    {
      if !IsStaff(requesterRole) {
        return 403;
      }
      if id == "" || title == "" || content == "" || author == "" || date == "" {
        return 400;
      }
      if category != "" && category !in categories.Values {
        return 400;
      }
      if id in posts {
        return 500;
      }
      posts := posts[id := PostRow(title, subHeading, content, author, date, category)];
      return 201;
    }

    /**
     * `PUT /posts/:id`. A superadmin always writes (404 when no row matched).
     * An admin writes when `checkBlogAccess` holds, and then answers 200 even
     * if the post does not exist; otherwise the stored author must equal the
     * request's `author` field.
     */
    method UpdatePost(id: PostId, title: string, subHeading: string, content: string, author: string,
                      date: string, requesterRole: string, requesterUid: Uid, category: string) returns (status: int)
      requires Valid()
      modifies this
      ensures Valid()
      ensures !IsStaff(requesterRole) ==> status == 403
      ensures IsStaff(requesterRole) && (title == "" || content == "" || author == "" || date == "") ==> status == 400
      ensures IsStaff(requesterRole) && title != "" && content != "" && author != "" && date != "" ==>
        status == (if requesterRole == "superadmin" then (if id in old(posts) then 200 else 404)
                   else if HasBlogAccess(old(users), old(access), requesterUid, id) then 200
                   else if id !in old(posts) then 404
                   else if old(posts)[id].author != author then 403
                   else 200)
      ensures posts == if status == 200 && id in old(posts)
                       then old(posts)[id := PostRow(title, subHeading, content, author, date, category)]
                       else old(posts)
      ensures users == old(users) && access == old(access)
      ensures categories == old(categories) && nextCategoryId == old(nextCategoryId)
    {
      if !IsStaff(requesterRole) {
        return 403;
      }
      if title == "" || content == "" || author == "" || date == "" {
        return 400;
      }
      var row := PostRow(title, subHeading, content, author, date, category);
      if requesterRole == "superadmin" {
        if id !in posts {
          return 404;
        }
        posts := posts[id := row];
        return 200;
      }
      if HasBlogAccess(users, access, requesterUid, id) {
        if id in posts {
          posts := posts[id := row];
        }
        return 200;
      }
      if id !in posts {
        return 404;
      }
      if posts[id].author != author {
        return 403;
      }
      posts := posts[id := row];
      return 200;
    }

    /**
     * `DELETE /posts/:id`: the rule of `UpdatePost`, with the stored author
     * compared against `requesterEmail`. Every deletion is followed by
     * removing the post's grant rows; on the admin access path both run, and
     * 200 is answered, even when the post does not exist.
     */
    method DeletePost(id: PostId, requesterRole: string, requesterEmail: string, requesterUid: Uid) returns (status: int)
      requires Valid()
      modifies this
      ensures Valid()
      ensures status == (if !IsStaff(requesterRole) then 403
                         else if requesterRole == "superadmin" then (if id in old(posts) then 200 else 404)
                         else if HasBlogAccess(old(users), old(access), requesterUid, id) then 200
                         else if id !in old(posts) then 404
                         else if old(posts)[id].author != requesterEmail then 403
                         else 200)
      ensures status == 200 ==> posts == old(posts) - {id} && access == DeletePostGrants(old(access), id)
      ensures status == 200 ==> id !in posts && forall g | g in access :: g.post != id
      ensures status != 200 ==> posts == old(posts) && access == old(access)
      ensures users == old(users)
      ensures categories == old(categories) && nextCategoryId == old(nextCategoryId)
    {
      if !IsStaff(requesterRole) {
        return 403;
      }
      if requesterRole == "superadmin" {
        if id !in posts {
          return 404;
        }
      } else if !HasBlogAccess(users, access, requesterUid, id) {
        if id !in posts {
          return 404;
        }
        if posts[id].author != requesterEmail {
          return 403;
        }
      }
      posts := posts - {id};
      access := DeletePostGrants(access, id);
      return 200;
    }

    // ============================================================ users

    /** `POST /users/signup`; a taken uid or email breaks a UNIQUE constraint (409). */
    method Signup(email: string, password: string, role: string, displayName: string, photoURL: string, uid: Uid)
      returns (status: int)
      requires Valid()
      requires uid != ""
      modifies this
      ensures Valid()
      ensures status == (if email == "" || password == "" then 400
                         else if SignupRole(role).None? then 400
                         else if uid in old(users) || EmailTaken(old(users), email, uid) then 409
                         else 201)
      ensures users == if status == 201
                       then old(users)[uid := User(email, password, SignupRole(role).value, false, false, displayName, photoURL)]
                       else old(users)
      ensures status == 201 ==> users[uid].role in ["user", "admin", "superadmin"]
      ensures posts == old(posts) && access == old(access)
      ensures categories == old(categories) && nextCategoryId == old(nextCategoryId)
    {
      if email == "" || password == "" {
        return 400;
      }
      var userRole := SignupRole(role);
      if userRole.None? {
        return 400;
      }
      if uid in users || EmailTaken(users, email, uid) {
        return 409;
      }
      users := users[uid := User(email, password, userRole.value, false, false, displayName, photoURL)];
      return 201;
    }

    /** `POST /users/login`: the exact email and password pair, and not disabled. */
    method Login(email: string, password: string) returns (status: int, account: Option<(Uid, User)>)
      requires Valid()
      ensures status == (if email == "" || password == "" then 400
                         else if !exists u | u in users :: Credentials(users, u, email, password) then 401
                         else if exists u | u in users :: Credentials(users, u, email, password) && users[u].isDisabled then 403
                         else 200)
      ensures status == 200 <==> account.Some?
      ensures account.Some? ==>
        Credentials(users, account.value.0, email, password) && account.value.1 == users[account.value.0] &&
        !account.value.1.isDisabled
    {
      if email == "" || password == "" {
        return 400, None;
      }
      if !exists u | u in users :: Credentials(users, u, email, password) {
        return 401, None;
      }
      var u :| u in users && Credentials(users, u, email, password);
      forall v | v in users && Credentials(users, v, email, password) ensures v == u {
        CredentialsUnique(users, u, v, email, password);
      }
      if users[u].isDisabled {
        return 403, None;
      }
      return 200, Some((u, users[u]));
    }

    /** `PUT /users/:uid/role`. */
    method ChangeRole(uid: Uid, role: string, requesterRole: string) returns (status: int)
      requires Valid()
      modifies this
      ensures Valid()
      ensures status == (if requesterRole != "superadmin" then 403
                         else if !ValidateRole(role) then 400
                         else if uid !in old(users) then 404
                         else 200)
      ensures users == if status == 200 then old(users)[uid := old(users)[uid].(role := role)] else old(users)
      ensures posts == old(posts) && access == old(access)
      ensures categories == old(categories) && nextCategoryId == old(nextCategoryId)
    {
      if requesterRole != "superadmin" {
        return 403;
      }
      if role == "" || !ValidateRole(role) {
        return 400;
      }
      if uid !in users {
        return 404;
      }
      users := users[uid := users[uid].(role := role)];
      return 200;
    }

    /** `PUT /users/:uid/status`; `isDisabled` is None when the body's value is not a boolean. */
    method SetStatus(uid: Uid, isDisabled: Option<bool>, requesterRole: string) returns (status: int)
      requires Valid()
      modifies this
      ensures Valid()
      ensures status == (if requesterRole != "superadmin" then 403
                         else if isDisabled.None? then 400
                         else if uid !in old(users) then 404
                         else 200)
      ensures users == if status == 200 then old(users)[uid := old(users)[uid].(isDisabled := isDisabled.value)]
                       else old(users)
      ensures posts == old(posts) && access == old(access)
      ensures categories == old(categories) && nextCategoryId == old(nextCategoryId)
    {
      if requesterRole != "superadmin" {
        return 403;
      }
      if isDisabled.None? {
        return 400;
      }
      if uid !in users {
        return 404;
      }
      users := users[uid := users[uid].(isDisabled := isDisabled.value)];
      return 200;
    }

    /** `PUT /users/:uid/manage-all-blogs`. */
    method SetManageAllBlogs(uid: Uid, canManageAllBlogs: Option<bool>, requesterRole: string) returns (status: int)
      requires Valid()
      modifies this
      ensures Valid()
      ensures status == (if requesterRole != "superadmin" then 403
                         else if canManageAllBlogs.None? then 400
                         else if uid !in old(users) then 404
                         else 200)
      ensures users == if status == 200
                       then old(users)[uid := old(users)[uid].(canManageAllBlogs := canManageAllBlogs.value)]
                       else old(users)
      ensures posts == old(posts) && access == old(access)
      ensures categories == old(categories) && nextCategoryId == old(nextCategoryId)
    {
      if requesterRole != "superadmin" {
        return 403;
      }
      if canManageAllBlogs.None? {
        return 400;
      }
      if uid !in users {
        return 404;
      }
      users := users[uid := users[uid].(canManageAllBlogs := canManageAllBlogs.value)];
      return 200;
    }

    /**
     * `PUT /users/:uid/name`, `/email`, `/password` and `/photoURL`: a
     * superadmin or the user themself; an email another user has breaks
     * the UNIQUE constraint (500).
     */
    method UpdateProfile(uid: Uid, field: ProfileField, value: string, requesterRole: string, requesterUid: Uid)
      returns (status: int)
      requires Valid()
      modifies this
      ensures Valid()
      ensures status == (if requesterRole != "superadmin" && requesterUid != uid then 403
                         else if value == "" then 400
                         else if uid !in old(users) then 404
                         else if field == Email && EmailTaken(old(users), value, uid) then 500
                         else 200)
      ensures users == if status == 200 then old(users)[uid := WithProfileField(old(users)[uid], field, value)]
                       else old(users)
      ensures posts == old(posts) && access == old(access)
      ensures categories == old(categories) && nextCategoryId == old(nextCategoryId)
    {
      if requesterRole != "superadmin" && requesterUid != uid {
        return 403;
      }
      if value == "" {
        return 400;
      }
      if uid !in users {
        return 404;
      }
      if field == Email && EmailTaken(users, value, uid) {
        return 500;
      }
      users := users[uid := WithProfileField(users[uid], field, value)];
      return 200;
    }

    /**
     * `DELETE /users/:uid`: the user's grant rows are removed first and stay
     * removed even when the user does not exist (404).
     */
    method DeleteUser(uid: Uid, requesterRole: string) returns (status: int)
      requires Valid()
      modifies this
      ensures Valid()
      ensures status == (if requesterRole != "superadmin" then 403
                         else if uid !in old(users) then 404
                         else 200)
      ensures status == 403 ==> users == old(users) && access == old(access)
      ensures status != 403 ==> access == DeleteUserGrants(old(access), uid)
      ensures status != 403 ==> forall g | g in access :: g.user != uid
      ensures users == if status == 200 then old(users) - {uid} else old(users)
      ensures posts == old(posts)
      ensures categories == old(categories) && nextCategoryId == old(nextCategoryId)
    {
      if requesterRole != "superadmin" {
        return 403;
      }
      access := DeleteUserGrants(access, uid);
      if uid !in users {
        return 404;
      }
      users := users - {uid};
      return 200;
    }
  }
}
