/**
 * The four tables of the blog backend as values, and the meaning of the SQL
 * statements the routes issue against them.
 *
 * `users` and `posts` are keyed by their primary key; `blog_access` is a set
 * of rows on which the schema puts UNIQUE(user_uid, post_id); the surrogate
 * `id` and `createdAt` columns of the rows are not modelled.
 */
module Tables {
  import opened Common

  type Uid = string
  type PostId = string

  /** A `users` row; `isDisabled` and `canManageAllBlogs` are the 0/1 integer columns. */
  datatype User = User(
    email: string,
    password: string,
    role: string,
    isDisabled: bool,
    canManageAllBlogs: bool,
    displayName: string,
    photoURL: string)

  /** A `posts` row; `category` is NULL (None) for an uncategorised post. */
  datatype Post = Post(
    title: string,
    subHeading: string,
    content: string,
    author: string,
    date: string,
    category: Option<string>)

  /** A `blog_access` row: `user` may edit `post`, as granted by `grantedBy`. */
  datatype Grant = Grant(user: Uid, post: PostId, grantedBy: Uid)

  // ---------------------------------------------------------------- roles

  /** `validateRole`: membership in the list of valid roles. */
  predicate ValidateRole(role: string)
  {
    role in ["user", "admin", "superadmin"]
  }

  /**
   * The role signup stores: the requested role, or "user" when none was sent;
   * None when the outcome fails `validateRole` (a 400 before any insert).
   */
  function SignupRole(role: string): (r: Option<string>)
    ensures role == "" ==> r == Some("user")
    ensures role != "" ==> (r.Some? <==> role == "user" || role == "admin" || role == "superadmin")
    ensures r.Some? ==> ValidateRole(r.value) && (role != "" ==> r.value == role)
  {
    var userRole := if role == "" then "user" else role;
    if ValidateRole(userRole) then Some(userRole) else None
  }

  // ---------------------------------------------------------------- users

  /** The `UNIQUE` constraint on `users.email`. */
  ghost predicate EmailsUnique(users: map<Uid, User>)
  {
    forall u, v | u in users && v in users && users[u].email == users[v].email :: u == v
  }

  /** Some user other than `except` already has `email`. */
  predicate EmailTaken(users: map<Uid, User>, email: string, except: Uid)
  {
    exists u | u in users :: u != except && users[u].email == email
  }

  /** The row `SELECT ... WHERE email = ? AND password = ?` finds. */
  predicate Credentials(users: map<Uid, User>, u: Uid, email: string, password: string)
  {
    u in users && users[u].email == email && users[u].password == password
  }

  /** With unique emails, the login query finds at most one row. */
  lemma CredentialsUnique(users: map<Uid, User>, u: Uid, v: Uid, email: string, password: string)
    requires EmailsUnique(users)
    requires Credentials(users, u, email, password) && Credentials(users, v, email, password)
    ensures u == v
  {
  }

  // ---------------------------------------------------------------- categories

  /** The `UNIQUE` constraint on `blog_categories.name`. */
  ghost predicate CategoryNamesUnique(categories: map<int, string>)
  {
    forall i, j | i in categories && j in categories && categories[i] == categories[j] :: i == j
  }

  // ---------------------------------------------------------------- blog_access

  /** UNIQUE(user_uid, post_id): at most one row per pair. */
  ghost predicate UniquePairs(access: set<Grant>)
  {
    forall g, h | g in access && h in access && g.user == h.user && g.post == h.post :: g == h
  }

  /** `SELECT * FROM blog_access WHERE user_uid = ? AND post_id = ?` finds a row. */
  predicate HasRow(access: set<Grant>, u: Uid, p: PostId)
  {
    exists g | g in access :: g.user == u && g.post == p
  }

  /**
   * `INSERT OR IGNORE INTO blog_access (user_uid, post_id, granted_by)`.
   * The row is skipped when it would break UNIQUE(user_uid, post_id), and
   * also when `grantedBy` is absent (`None`, bound as NULL), since NULL in
   * the NOT NULL `granted_by` column is a conflict that OR IGNORE skips as
   * well. A present granter is stored as given, the empty string included.
   */
  function InsertOrIgnore(access: set<Grant>, u: Uid, p: PostId, grantedBy: Option<Uid>): (r: set<Grant>)
    ensures access <= r
    ensures grantedBy.Some? ==> HasRow(r, u, p)
    ensures grantedBy.None? ==> r == access
    ensures forall g | g in r && g !in access :: grantedBy.Some? && g == Grant(u, p, grantedBy.value)
    ensures UniquePairs(access) ==> UniquePairs(r)
  {
    if grantedBy.None? || HasRow(access, u, p) then access else access + {Grant(u, p, grantedBy.value)}
  }

  /** `DELETE FROM blog_access WHERE user_uid = ? AND post_id = ?`. */
  function DeleteRow(access: set<Grant>, u: Uid, p: PostId): (r: set<Grant>)
    ensures r <= access
    ensures !HasRow(r, u, p)
    ensures forall g | g in access && (g.user != u || g.post != p) :: g in r
  {
    set g | g in access && (g.user != u || g.post != p)
  }

  /** `DELETE FROM blog_access WHERE post_id = ?`. */
  function DeletePostGrants(access: set<Grant>, p: PostId): (r: set<Grant>)
    ensures r <= access
    ensures forall g | g in r :: g.post != p
    ensures forall g | g in access && g.post != p :: g in r
  {
    set g | g in access && g.post != p
  }

  /** `DELETE FROM blog_access WHERE user_uid = ?`. */
  function DeleteUserGrants(access: set<Grant>, u: Uid): (r: set<Grant>)
    ensures r <= access
    ensures forall g | g in r :: g.user != u
    ensures forall g | g in access && g.user != u :: g in r
  {
    set g | g in access && g.user != u
  }

  /**
   * Granting twice leaves the table as the first grant left it, whoever
   * grants the second time, provided the first request named its granter.
   */
  lemma InsertOrIgnoreIdempotent(access: set<Grant>, u: Uid, p: PostId, by1: Option<Uid>, by2: Option<Uid>)
    requires by1.Some?
    ensures InsertOrIgnore(InsertOrIgnore(access, u, p, by1), u, p, by2) == InsertOrIgnore(access, u, p, by1)
  {
    assert HasRow(InsertOrIgnore(access, u, p, by1), u, p);
  }

  /** An existing grant is kept with its first `granted_by`, and each pair keeps one row. */
  lemma InsertOrIgnoreKeepsFirst(access: set<Grant>, g: Grant, granter: Option<Uid>)
    requires UniquePairs(access) && g in access
    ensures InsertOrIgnore(access, g.user, g.post, granter) == access
    ensures forall h | h in InsertOrIgnore(access, g.user, g.post, granter) && h.user == g.user && h.post == g.post :: h == g
  {
    assert HasRow(access, g.user, g.post);
  }

  /** Revoke reports "changes" exactly when a row for the pair existed. */
  lemma DeleteRowChanges(access: set<Grant>, u: Uid, p: PostId)
    ensures DeleteRow(access, u, p) != access <==> HasRow(access, u, p)
  {
    if HasRow(access, u, p) {
      var g :| g in access && g.user == u && g.post == p;
      assert g !in DeleteRow(access, u, p);
    }
  }

  /** Revoking removes only the pair's row: every other pair's rows are as before. */
  lemma DeleteRowOthers(access: set<Grant>, u: Uid, p: PostId, v: Uid, q: PostId)
    requires v != u || q != p
    ensures HasRow(DeleteRow(access, u, p), v, q) <==> HasRow(access, v, q)
  {
    if HasRow(access, v, q) {
      var g :| g in access && g.user == v && g.post == q;
      assert g in DeleteRow(access, u, p);
    }
  }

  // ---------------------------------------------------------------- access checks

  /** `checkBlogAccess`: the global flag of an existing user, or a grant row for the pair. */
  predicate HasBlogAccess(users: map<Uid, User>, access: set<Grant>, u: Uid, p: PostId)
  {
    (u in users && users[u].canManageAllBlogs) || HasRow(access, u, p)
  }

  /**
   * The posts `GET /blog-access/admin/:uid` returns for an existing user:
   * every post when the user may manage all blogs, otherwise the posts the
   * join with `blog_access` finds.
   */
  function AccessibleBlogs(users: map<Uid, User>, posts: map<PostId, Post>, access: set<Grant>, u: Uid): (r: set<PostId>)
    requires u in users
    ensures r <= posts.Keys
    ensures users[u].canManageAllBlogs ==> r == posts.Keys
  {
    if users[u].canManageAllBlogs then posts.Keys
    else set p | p in posts.Keys && HasRow(access, u, p)
  }

  /** The listing and the per-post check agree: a post is listed iff it exists and the check passes. */
  lemma AccessibleBlogsMatchesCheck(users: map<Uid, User>, posts: map<PostId, Post>, access: set<Grant>, u: Uid, p: PostId)
    requires u in users
    ensures p in AccessibleBlogs(users, posts, access, u) <==> p in posts && HasBlogAccess(users, access, u, p)
  {
  }
}
