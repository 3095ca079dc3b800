# KB blog management, modelled in Dafny

KB blog management is a blog platform with three roles: "user", "admin" and
"superadmin". An Express server over SQLite stores four tables:
- `users`;
- `posts`;
- `blog_categories`;
- `blog_access`, which grants an admin the right to edit one post.

Every route checks the requester's role and answers with an HTTP status. A
React client shows:
- a superadmin dashboard (users, the all-blogs flag, per-blog admin access,
  categories);
- an admin console;
- a public article page and an article list;
- a profile page;
- a rich-text editor.

This project models two layers:

- **The backend as a state machine.** Module `Server`, class `BlogServer`,
  holds the four tables as fields. Each route is one method. Its contract
  gives the exact status for every input. It also gives the tables after
  the call, and it keeps the schema's constraints, packaged in `Valid()`:
  unique emails, unique category names, one grant row per (user, post)
  pair, and an increasing category id. Module `Tables` gives the meaning of
  the SQL statements as functions on values:
  - `INSERT OR IGNORE`;
  - the three `DELETE FROM blog_access` forms;
  - `checkBlogAccess`;
  - the accessible-blogs join.
- **The client's list and selection logic.** The modules are `Views`,
  `ArticleList`, `ArticlePage`, `AdminView`, `ProfileView`, `Editor`,
  `Routing` and `SuperAdmin`.
  - Pure list computations are functions, proved against their meaning:
    - filters are proved by membership and multiplicity;
    - sorts are proved by order and permutation;
    - reversal is proved by index.
  - The superadmin dashboard, whose handlers update component state, is the
    class `SuperAdmin.Dashboard`. Each handler is a method with a
    field-level `modifies` frame.
  - The per-blog access reconciliation is linked to the backend. If the
    dashboard's list mirrors the `blog_access` rows, the planned requests,
    applied by the backend's grant-specific and revoke-specific routes,
    leave exactly the selected admins holding a row for that blog. Every
    other blog keeps its rows.

Modelling conventions:
- A request field that is absent is the empty string wherever the handler
  tests it with `!x` or `x || ''`, which treat both alike, or only uses it
  to look up a user or a grant, which neither matches.
- The granter of a grant (`requesterUid` in the grant and grant-specific
  bodies) is bound to the insert as it comes, so it is an `Option`. If it
  is absent, the insert binds NULL into a NOT NULL column, and `OR IGNORE`
  skips that conflict. A present empty string is stored as the granter.
- SQLite's `changes` counts matched rows, so an UPDATE that matches answers
  200.
- Foreign keys are off, which is SQLite's default.
- Dates are `int` keys standing for `new Date(...)`.
- `Array.prototype.sort` is a stable insertion sort. ECMAScript requires
  sorts to be stable.
- `toLowerCase` is ASCII-only.
- `trim` uses the ECMAScript white-space set.
- `parseInt` is modelled with no radix.
- Every asynchronous call the client makes is a parameter. That means an
  `ok` flag, an `accepts` predicate over requests, or an `Option` that is
  None when the call throws.

## Model

| member | source | states |
|---|---|---|
| `Tables.SignupRole` | server.js:742-771 | A missing role becomes "user". A present role is accepted exactly when it is one of the three valid roles. An accepted role always passes `validateRole`. |
| `Tables.CredentialsUnique` | server.js:774-804 | Emails are unique, so the login query finds at most one user. |
| `Tables.InsertOrIgnore` | server.js:257-268 | `INSERT OR IGNORE` only adds rows. A present granter, even "", guarantees a row for the pair. An absent one (NULL) changes nothing. The only new row possible is the requested one, with the granter as given. One row per (user, post) pair is preserved. |
| `Tables.DeleteRow` | server.js:285-300 | The delete removes exactly the rows of the pair and keeps every other row. |
| `Tables.DeletePostGrants` | server.js:662 | After a post is deleted, no grant names it. Every grant of another post survives. |
| `Tables.DeleteUserGrants` | server.js:1178 | After a user is deleted, no grant names them. Every grant of another user survives. |
| `Tables.InsertOrIgnoreIdempotent` | server.js:257-268 | If the first grant of a pair names a granter, a second grant leaves the table as the first left it, whoever sends it. |
| `Tables.InsertOrIgnoreKeepsFirst` | server.js:257-268 | A grant that already exists is kept with its original `granted_by`. |
| `Tables.DeleteRowChanges` | server.js:285-300 | The revoke's `changes` is nonzero exactly when a row for the pair existed, so 404 means there was nothing to revoke. |
| `Tables.DeleteRowOthers` | server.js:285-300 | A revoke does not change whether any other pair has a row. |
| `Tables.AccessibleBlogs` | server.js:304-350 | The listing is a subset of the posts. A user with the all-blogs flag gets every post. |
| `Tables.AccessibleBlogsMatchesCheck` | server.js:185-199 | A post is in the listing exactly when it exists and `checkBlogAccess` passes for it. |
| `Server.PostRow` | server.js:508-525 | The stored row carries the request's fields. An empty category is stored as NULL. |
| `Server.WithProfileField` | server.js:1038-1139 | A profile update rewrites exactly the named column. |
| `Server.BlogServer.AbsentRequesterHasNoAccess` | server.js:185-199 | An absent requester uid matches no user and no grant, so the check fails. |
| `Server.BlogServer.constructor` | server.js:40-100 | The tables start empty and consistent, and the category counter starts at 1. |
| `Server.BlogServer.Grant` | server.js:223-272 | Grant is superadmin-only (403). It answers 400 for a missing field, 404 for an absent user, 400 for a non-admin target, 404 for an absent post, and otherwise 201 with the row inserted or ignored. Only `blog_access` changes, and only on 201. |
| `Server.BlogServer.GrantSpecific` | server.js:894-917 | Like `Grant`, but the user and the post are not checked. |
| `Server.BlogServer.Revoke` | server.js:275-301 | Revoke answers 403, then 400 for a missing field, then 404 when no row exists. On 200 exactly that pair's row is deleted. |
| `Server.BlogServer.RevokeSpecific` | server.js:920-946 | The same transition as `Revoke`. |
| `Server.BlogServer.AccessibleBlogsOf` | server.js:304-350 | Only a superadmin or the user themself may list (403). An absent user gives 404. The result is every post for the all-blogs flag, otherwise exactly the posts the user has a row for. |
| `Server.BlogServer.CheckAccess` | server.js:871-891 | Staff only (403). An admin may ask only about themself (403). The answer is the flag or a grant row, in both directions. |
| `Server.BlogServer.CreateCategory` | server.js:435-457 | The route answers 403, 400 for an empty name, 409 for a taken name, or 201. On 201 the new id is fresh and is the counter's value, and names stay unique. |
| `Server.BlogServer.DeleteCategory` | server.js:460-481 | The route answers 403, 404 for an unknown id, or 200. On 200 exactly that id is removed. |
| `Server.BlogServer.CreatePost` | server.js:484-525 | Staff only (403). It answers 400 for a missing field or an unknown category, 500 for a taken id, and on 201 it stores the new row. |
| `Server.BlogServer.UpdatePost` | server.js:558-640 | The status comes from the superadmin, access-check and author paths. An admin who passes the access check gets 200 even when the post is absent. The row is rewritten exactly when the answer is 200 and the post exists. |
| `Server.BlogServer.DeletePost` | server.js:643-715 | The same access rule as `UpdatePost`, with the author compared to the requester's email. On 200 the post and all of its grant rows are gone. Nothing changes otherwise. |
| `Server.BlogServer.Signup` | server.js:742-771 | It answers 400 for a missing email or password or an invalid role, 409 for a taken uid or email, and otherwise 201. On 201 the new user is enabled, has no all-blogs flag and has a valid role. |
| `Server.BlogServer.Login` | server.js:774-804 | It answers 400, 401 without matching credentials, 403 when the account is disabled, or 200. The account is returned exactly on 200, and it is the matching, enabled user. |
| `Server.BlogServer.ChangeRole` | server.js:985-1008 | Superadmin only. It answers 400 for an invalid role and 404 for an absent user. On 200 only that user's role changes. |
| `Server.BlogServer.SetStatus` | server.js:1011-1035 | Superadmin only. It answers 400 for a non-boolean value and 404 for an absent user. On 200 only that user's flag changes. |
| `Server.BlogServer.SetManageAllBlogs` | server.js:1142-1166 | The same shape as `SetStatus`, for the all-blogs flag. |
| `Server.BlogServer.UpdateProfile` | server.js:1038-1139 | A superadmin or the user themself may update (403). It answers 400 for an empty value, 404 for an absent user and 500 for a taken email. On 200 exactly one column changes. |
| `Server.BlogServer.DeleteUser` | server.js:1169-1194 | Superadmin only. The user's grant rows are deleted before the existence check, so they are gone even when the answer is 404. On 200 the user is removed. |
| `Common.ContainsEmpty` | src/components/Admin.jsx:91 | An empty search term is contained in every title. |
| `Common.TrimEmptyIff` | SuperAdminDashboard.jsx:643-644 | A name trims to nothing exactly when it is all white space. |
| `Common.ParseIntDecimal` | src/components/BasicEditor.jsx:206 | `parseInt` reads back a decimal number, whatever non-digit text follows it. |
| `Views.Filter` | src/components/Admin.jsx:91 | The result never grows. An element is in the result exactly when it is in the input and passes the predicate. |
| `Views.FilterCount` | src/components/Admin.jsx:91 | Each kept element occurs in the result exactly as often as in the input. Rejected elements do not occur. |
| `Views.FilterAppend` | SuperAdminDashboard.jsx:547 | Filtering a concatenation filters each part. |
| `Views.FilterKeepsAll` | src/components/Admin.jsx:181 | A predicate every element passes returns the input unchanged. |
| `Views.FilterFilter` | src/components/Admin.jsx:45-47 | Two filters in a row equal one filter on the conjunction. |
| `Views.FilterSamePredicate` | Article.jsx:69-73 | Predicates that agree on every element give the same list. |
| `Views.FilterNone` | SuperAdminDashboard.jsx:552 | A predicate that rejects every element returns []. |
| `Views.FilterDistinct` | SuperAdminDashboard.jsx:552 | Filtering a list without repeats gives a list without repeats. |
| `Views.Find` | SuperAdminDashboard.jsx:749 | `find` gives None exactly when no element matches. Otherwise it gives the first match. |
| `Views.Reverse` | src/components/Profile.jsx:81 | `slice(0).reverse()` has the same length, puts element i at position n-1-i, and keeps the same elements. |
| `Views.ReverseReverse` | src/components/Profile.jsx:81 | Reversing twice restores the list. |
| `Views.ReversePermutes` | src/components/Profile.jsx:81 | Reversal keeps every element's multiplicity. |
| `Views.RemoveBlog` | SuperAdminDashboard.jsx:570 | The blogs with the deleted id go, and every other blog stays. |
| `Views.RemoveBlogKeepsOthers` | SuperAdminDashboard.jsx:570 | Deleting an id no blog has changes nothing. |
| `Views.RemoveBlogAppend` | SuperAdminDashboard.jsx:570 | The delete acts on each part of a concatenation, so the kept blogs keep their order. |
| `Views.RemoveBlogSingle` | SuperAdminDashboard.jsx:570 | A single blog goes exactly when it has the id. |
| `Views.RemoveBlogCount` | SuperAdminDashboard.jsx:570 | Each other blog stays as often as it was listed. Blogs with the id do not occur. |
| `Views.AfterDelete` | src/components/Admin.jsx:141-150 | The list changes only after a confirmed, successful delete. Then exactly the blogs with that id leave, and every other blog stays as often as it was listed. `handleDelete` in src/components/Profile.jsx:41-53 does the same. |
| `Views.AfterDeleteKeepsOrder` | src/components/Admin.jsx:141-150 | The delete acts on each part of a concatenation, so the remaining blogs keep their order. |
| `Views.Insert` | src/components/Admin.jsx:75-85 | Inserting into the list adds exactly the one element. |
| `Views.Sort` | src/components/Admin.jsx:75-85 | The sort is a permutation of its input. |
| `Views.InsertSorted` | src/components/Admin.jsx:75-85 | Insertion keeps a list ordered under the date comparator. |
| `Views.SortSorted` | src/components/Admin.jsx:75-85 | The sort's result is ordered under the comparator. |
| `Views.SortNewest` | src/components/Admin.jsx:79-80 | "newest" gives non-increasing dates. |
| `Views.SortOldest` | src/components/Admin.jsx:81-82 | "oldest" gives non-decreasing dates. |
| `Views.SortOtherKeepsOrder` | src/components/Admin.jsx:84 | Any other option makes the comparator return 0 everywhere, and the stable sort keeps the input order. |
| `Views.SortByDate` | src/components/Admin.jsx:75-85 | The sorted copy is a permutation of the input. It is date-ordered for "newest" and "oldest", and it is the input itself for any other option. |
| `ArticleList.SortAndFilter` | src/components/Article.jsx:46-66 | [] for an empty list. The result holds exactly the blogs whose title matches, each as often as in the input. It is in date order for the two sort options, and in input order otherwise. |
| `ArticleList.EmptyFilterKeepsAll` | src/components/Article.jsx:49-51 | With an empty search the list is a permutation of all blogs. |
| `ArticlePage.SortAndFilter` | Article.jsx:66-88 | As `ArticleList.SortAndFilter`, with the title search, a truthy selected category and a truthy selected author all narrowing the list. |
| `ArticlePage.CategoryClick` | Article.jsx:56-59 | Clicking the selected category clears it, and clicking another selects it. The author selection is cleared either way. |
| `ArticlePage.AuthorClick` | Article.jsx:61-64 | The mirror image of `CategoryClick`, clearing the category. |
| `ArticlePage.ClickSelectsAtMostOne` | Article.jsx:56-64 | After any click, at most one of category and author is selected. |
| `ArticlePage.CategoryClickTwiceClears` | Article.jsx:56-59 | A second click on the same category returns to no selection. |
| `ArticlePage.CategoryClickShowsCategory` | Article.jsx:66-73 | After selecting a category, the page lists exactly the title-matching blogs of that category. |
| `ArticlePage.NoSelectionIsArticleList` | Article.jsx:66-88 | With nothing selected, the page equals the article list component. |
| `AdminView.VisibleUsers` | src/components/Admin.jsx:45-46 | The console lists exactly the enabled users that are not superadmins. |
| `AdminView.AdminsOf` | src/components/Admin.jsx:47 | The admin list holds exactly the admins among the listed users. |
| `AdminView.AdminsAreEnabledAdmins` | src/components/Admin.jsx:45-47 | The admin list is the enabled admins of the full user list, in server order. |
| `AdminView.FetchData` | src/components/Admin.jsx:28-58 | A failed blog fetch, or a failed access check, empties the three lists and keeps the previous access map. Otherwise an admin's map has one entry per fetched blog, holding that check's answer, and other viewers get an empty map. A failed user fetch then empties the lists only. |
| `AdminView.CanModifyMatchesServer` | src/components/Admin.jsx:137 | When the access map holds the server's verdicts, Edit/Delete appear exactly on the posts the server lets the viewer delete. |
| `AdminView.SortBlogs` | src/components/Admin.jsx:72-88 | [] for an empty list, otherwise the properties of `Views.SortByDate`. |
| `AdminView.ShownBlogs` | src/components/Admin.jsx:90-92 | Exactly the blogs whose title matches, each as often as in the input. "newest" lists them newest first and "oldest" oldest first. Any other option keeps the filtered order. |
| `AdminView.UserPanel` | src/components/Admin.jsx:181-182 | An empty search shows every user, reversed. Otherwise the panel shows exactly the users whose lower-cased email includes the search, last first. |
| `ProfileView.FilteredBlogs` | src/components/Profile.jsx:55-58 | Exactly the blogs whose title, or whose present sub-heading, matches. |
| `ProfileView.EmptyFilterKeepsAll` | src/components/Profile.jsx:55-58 | An empty search keeps every blog in order. |
| `ProfileView.Displayed` | src/components/Profile.jsx:81 | The shown list is the exact reverse of the filtered list, with the same multiplicities. |
| `ProfileView.Load` | src/components/Profile.jsx:17-29 | With no user nothing changes. Otherwise the list becomes the author's posts, or [] when the fetch throws. |
| `Editor.FontSizeBucket` | src/components/BasicEditor.jsx:206-214 | Each pixel range maps to its `execCommand` size, in both directions. NaN falls through to 6. |
| `Editor.BucketMonotone` | src/components/BasicEditor.jsx:209-214 | A larger pixel size never gives a smaller command size. |
| `Editor.DefaultOverwritten` | src/components/BasicEditor.jsx:207-214 | Size 3 comes out exactly for 17 and 18 px. The default is always overwritten. |
| `Editor.ExecArgument` | src/components/BasicEditor.jsx:204-219 | `fontSize` is passed a size from 1 to 6. Any other command is passed its value unchanged. |
| `Editor.PixelValueParses` | src/components/BasicEditor.jsx:206 | `parseInt("<n>px")` is n. |
| `Editor.OfferedSizesDistinct` | src/components/BasicEditor.jsx:85-91 | The five toolbar sizes map to command sizes 1 to 5, in order. |
| `Routing.FlagsExclusive` | src/contexts/AuthContext.jsx:696-697 | `isAdmin` and `isSuperAdmin` are never both true. |
| `Routing.RootScreen` | src/App.jsx:61-71 | "/" renders the superadmin dashboard, then the admin console, then Home for any other user, then the login page. Each case holds exactly when its condition does. |
| `SuperAdmin.WithRole` | SuperAdminDashboard.jsx:504-507 | Only the matching users' role changes, and every other field and user is kept. |
| `SuperAdmin.WithStatus` | SuperAdminDashboard.jsx:511-515 | Only the matching users' `isDisabled` becomes 1 or 0. |
| `SuperAdmin.WithManageAll` | SuperAdminDashboard.jsx:532-534 | Only the matching users' `canManageAllBlogs` changes. |
| `SuperAdmin.ToggledAccess` | SuperAdminDashboard.jsx:530 | The new flag is 0 exactly when the current flag is 1, and 1 otherwise. |
| `SuperAdmin.ToggleTwice` | SuperAdminDashboard.jsx:530 | Toggling twice restores a 0/1 flag, and turns any other value into 0. |
| `SuperAdmin.RemoveUser` | SuperAdminDashboard.jsx:584 | Users with the deleted uid go, and everyone else stays. |
| `SuperAdmin.RemoveUserAppend` | SuperAdminDashboard.jsx:584 | The delete acts on each part of a concatenation, so the kept users keep their order. |
| `SuperAdmin.RemoveUserSingle` | SuperAdminDashboard.jsx:584 | A single row goes exactly when it has the uid. |
| `SuperAdmin.RemoveUserCount` | SuperAdminDashboard.jsx:584 | Each other row stays as often as it was listed. Rows with the uid do not occur. |
| `SuperAdmin.FormFor` | SuperAdminDashboard.jsx:747-756 | Selecting a uid fills the form with the first matching user's role and status. An unknown uid gives "" and "". |
| `SuperAdmin.ResaveStatusIsNoOp` | SuperAdminDashboard.jsx:509-516 | The uids are unique, so saving the status the form was filled with leaves the list unchanged. |
| `SuperAdmin.GrantsFor` | SuperAdminDashboard.jsx:548-550 | One grant per admin uid, in order. |
| `SuperAdmin.RevokesFor` | SuperAdminDashboard.jsx:553-555 | One revoke per admin uid, in order. |
| `SuperAdmin.Planned` | SuperAdminDashboard.jsx:542-563 | The plan has one request per selected-but-unlisted uid, plus one per listed-but-unselected uid. |
| `SuperAdmin.GrantsForMembers` | SuperAdminDashboard.jsx:548-550 | A request is among the grants exactly when it grants a listed uid on the blog. |
| `SuperAdmin.RevokesForMembers` | SuperAdminDashboard.jsx:553-555 | A request is among the revokes exactly when it revokes a listed uid on the blog. |
| `SuperAdmin.PlannedContents` | SuperAdminDashboard.jsx:547-555 | The plan grants exactly the selected uids not yet listed and revokes exactly the listed uids no longer selected, all on the blog. |
| `SuperAdmin.PlannedGrantsFirst` | SuperAdminDashboard.jsx:547-555 | Every grant is sent before every revoke. |
| `SuperAdmin.PlannedSets` | SuperAdminDashboard.jsx:547-555 | The granted uids are `selected \ current`, and the revoked uids are `current \ selected`. |
| `SuperAdmin.CheckboxList` | SuperAdminDashboard.jsx:607-612 | Checking appends the uid. Unchecking removes every occurrence of it and keeps the rest. |
| `SuperAdmin.CheckIsSingleGrant` | SuperAdminDashboard.jsx:607-627 | Checking an unlisted admin sends the one grant the reconciliation would plan for the new list. |
| `SuperAdmin.FilterSingle` | SuperAdminDashboard.jsx:612 | A uid listed once is the only survivor of the filter that keeps just that uid. |
| `SuperAdmin.UncheckIsSingleRevoke` | SuperAdminDashboard.jsx:607-627 | Unchecking a listed admin, when no uid is listed twice, sends the one revoke the reconciliation would plan. |
| `SuperAdmin.DropdownLabel` | SuperAdminDashboard.jsx:629-639 | No admins gives "Select Admins". One admin gives the first matching admin's email, or "1 admin selected" when none matches. Two or more give the count in decimal, then " admins selected". |
| `SuperAdmin.LabelShowsCount` | SuperAdminDashboard.jsx:636-637 | For two or more admins, the label's leading number is the count. |
| `SuperAdmin.CategoryName` | SuperAdminDashboard.jsx:643-647 | A name is refused exactly when it is all white space. Otherwise the sent name is the trimmed input, with no white space at either end. |
| `SuperAdmin.ApplyAllAppend` | SuperAdminDashboard.jsx:547-555 | Applying two request lists in a row equals applying their concatenation, stopping at the first refusal. |
| `SuperAdmin.InsertGrantsUser` | server.js:894-917 | A grant-specific insert adds the user to the blog's grantees and leaves other blogs alone. |
| `SuperAdmin.DeleteRevokesUser` | server.js:920-946 | A revoke-specific delete removes the user from the blog's grantees and leaves other blogs alone. |
| `SuperAdmin.GrantsApply` | SuperAdminDashboard.jsx:548-550 | The grant loop is never refused. It adds exactly its uids to the blog's grantees. |
| `SuperAdmin.RevokesApply` | SuperAdminDashboard.jsx:553-555 | Revoking distinct uids that hold rows is never refused. It removes exactly those uids. |
| `SuperAdmin.GrantsElsewhereKept` | SuperAdminDashboard.jsx:553-555 | After the first revoke, the remaining uids still hold rows. |
| `SuperAdmin.PlanRealizesSelection` | SuperAdminDashboard.jsx:542-563 | Suppose the list mirrors the table and has no repeats, and the requests carry a granter. Then the plan is never refused, leaves exactly the selected admins holding a row, and keeps other blogs' rows. |
| `SuperAdmin.SentInOrderAppend` | SuperAdminDashboard.jsx:547-555 | A revoke loop after a grant loop that went through sends in the order of the whole plan. |
| `SuperAdmin.AllAcceptedAppend` | SuperAdminDashboard.jsx:547-555 | A joined plan is accepted throughout exactly when both of its parts are. |
| `SuperAdmin.SentInOrderStop` | SuperAdminDashboard.jsx:547-555 | When the grant loop stops, no revoke is sent. |
| `SuperAdmin.SendEach` | SuperAdminDashboard.jsx:548-550 | The loop sends requests in order up to and including the first refused one, and reports whether all were accepted. |
| `SuperAdmin.Reconcile` | SuperAdminDashboard.jsx:542-556 | The two loops send the plan in order, stopping at the first refusal. |
| `SuperAdmin.Dashboard.constructor` | SuperAdminDashboard.jsx:402-417 | The dashboard starts in the users section, with nothing loaded, nothing selected and no banner. |
| `SuperAdmin.Dashboard.SelectUser` | SuperAdminDashboard.jsx:747-756 | The form holds the selected uid with that user's role and status. |
| `SuperAdmin.Dashboard.Save` | SuperAdminDashboard.jsx:493-525 | With no user selected, only the error is set. Otherwise the requests are sent in order, stopping at the first failure. Both list updates map the list as it was when the handler started. So after both succeed, the list shows the status change and not the role change. Success clears the form and a failure keeps it. |
| `SuperAdmin.Dashboard.ToggleBlogAccess` | SuperAdminDashboard.jsx:527-540 | It sends the flipped flag. On success only that user's flag changes, with the granted or revoked banner. |
| `SuperAdmin.Dashboard.BlogSpecificAccessChange` | SuperAdminDashboard.jsx:542-563 | It sends the plan in order. The blog's entry becomes the selection if every request was accepted, and stays as it was otherwise. |
| `SuperAdmin.Dashboard.DropdownCheckboxChange` | SuperAdminDashboard.jsx:607-627 | It sends one grant or revoke. The entry becomes the checkbox list only on success. |
| `SuperAdmin.Dashboard.DeleteBlog` | SuperAdminDashboard.jsx:565-577 | Without confirmation nothing happens. On success only that blog leaves, and on failure there is an error. |
| `SuperAdmin.Dashboard.DeleteUser` | SuperAdminDashboard.jsx:579-591 | Without confirmation nothing happens. On success only that user leaves, and on failure there is an error. |
| `SuperAdmin.Dashboard.CreateCategory` | SuperAdminDashboard.jsx:641-659 | A blank name sets the error and sends nothing. Otherwise the trimmed name is sent. The category list is replaced only after the create and the re-read both succeed. |
| `SuperAdmin.Dashboard.FetchBlogAccess` | SuperAdminDashboard.jsx:455-471 | Outside the access section, or with no blogs or admins, nothing changes. Otherwise the map has an entry for exactly the blogs whose read succeeded, holding that read's uids. |

## Left out

- Express, CORS, JSON parsing, the SQLite driver's callbacks and the HTTP
  response bodies are not modelled. Each route's outcome is its status code
  and its effect on the tables.
- The schema creation, the migrations and the default superadmin seeding are
  left out (server.js:40-177). The model starts from empty tables.
- `Date.now()` uids, the clock behind `createdAt`/`updatedAt` and
  `Math.random` are left out. The signup uid is a parameter.
- The listing and reporting routes are not modelled: `GET /blog-access`,
  `/blog-stats`, `/blog-categories`, `/posts`, `/posts/:id`,
  `/posts/by-author`, `/users`, `/users/admins`, `/blog-access/post/:postId`
  and `/users/:uid`. They only read, and they only format rows.
- SQL `ORDER BY` is not modelled. `AccessibleBlogsOf` returns a set.
- Internal database errors (500 from a failing statement) are not modelled.
  The exceptions are the primary-key and UNIQUE conflicts that the routes
  report.
- Concurrency is not modelled. The handlers run one at a time, and each
  `await` resolves before the next statement.
- `AuthContext` is not modelled beyond the `isAdmin`/`isSuperAdmin` flags.
  Its request helpers are the parameters of the client methods.
- DOM work is not modelled: the editor's selection handling, `innerHTML`,
  image upload and paste, confirmation dialogs, `alert`, and clearing input
  fields.
- `toLowerCase` is ASCII-only. The non-ASCII case mappings of Unicode are
  not modelled.
- An absent JSON field and an empty string are the same value, except for
  the granter of a grant. Every other field is tested with `!x` or
  `x || ''`, or only looked up.
- Error banners drop the `${err.message}` suffix. The model keeps only which
  banner is shown.
- The dashboard's initial fetch effect, `handleDeleteCategory` and
  `handleLogout` are left out (SuperAdminDashboard.jsx:419-452, 593-605,
  661-674). They only fetch and set state.
- Dates are compared as integers. The parsing of `new Date(...)` and NaN
  dates is not modelled.
- `SuperAdmin.Planned`: its own contract gives only the length. Its contents
  are stated by `PlannedContents`, `PlannedSets` and `PlannedGrantsFirst`.
