# Task manager server core, modelled in Dafny

This project models the server-side decision logic of a small task-tracking
service. The service is an Express application over MongoDB with users,
tasks and reports. Each collection is modelled as a sequence of immutable
records in insertion order, and every handler as a pure function from the
request and the collection to a reply and the new collection. bcrypt and
JSON Web Tokens are passed in as function values and are otherwise
uninterpreted.

What is modelled, module by module:

- `Common`: shared types.
  - `Option` and `Result`.
  - `PathId`: a path id that is either a well-formed ObjectId or malformed. A malformed id makes the cast fail.
  - `Presence`: a JSON body field that is absent, falsy or given.
  - `Reply`: an HTTP status with a body or an error message.
  - `Handled`: a reply together with the collection after the request.
- `Text`: the string operations the server relies on. They are ECMAScript `trim` (behind the schemas' `trim: true`), `split` on one character (the bearer header), and case-insensitive containment (the search).
- `Store`: the id-keyed operations of a collection. These are `findById`, `find(filter)`, `findByIdAndUpdate` and `findByIdAndDelete`, with their order and uniqueness facts.
- `Crypto`: the bcrypt and JWT function values, the one-day token lifetime, and the three properties some lemmas assume of them.
- `UserModel`, `TaskModel`, `ReportModel`: the three schemas (models/*.js).
  - Records, enumerations, required fields, defaults and trimming.
  - Validation of a create payload and of an update payload.
  - The pre-save rule that rehashes a password only when it changed.
- `TaskFilter`: the MongoDB filter document `getTasks` builds. It is a tagged expression with an evaluator, and it is proved to select exactly the tasks the visibility, status and search rules describe.
- `Pagination`: how page and limit are clamped, the skip, the window over the matches and the page count.
- `RecentlyViewed`: the bounded most-recent-first list that reading a task updates.
- `TaskController`: the task handlers (controllers/taskController.js).
- `AdminMiddleware`: the 401/403/next gate (middleware/adminMiddleware.js).
- `ReportsController`: the report handlers (controllers/reportsController.js).
- `AuthController`: `register` and `login` (controllers/authController.js).
- `TaskRoutes`: `optionalAuth` and the route table with its guards (routes/tasks.js).

Design points that the contracts rely on:

- **Email lookups are trimmed.** `User.findOne({ email })` casts the query value through the schema's `trim` setter, so both handlers look up the trimmed email. Stored emails are trimmed too. This is what makes `register` refuse `" a@b "` when `a@b` exists.
- **Self-registration as admin is possible.** setup-admin.js seeds an admin account. `register`, however, takes `role` from the request body verbatim (controllers/authController.js:6 and 12), so anyone can open an admin account. `AuthController.AnyoneCanRegisterAsAdmin` states this.
- **Validation order in `updateTask`.** Update validators see only the payload, and they run before the lookup. An invalid payload for an absent id is therefore answered 400, not 404.
  - A truthy `createdBy` is deleted from the payload before the update.
  - A falsy `createdBy` (`null`, `""`, `0`) stays in the payload and is refused by validation, with 400.
  - Only the top-level key is stripped. A creator written through the `$set` operator reaches the store (see "## Findings").
- **Route order is immaterial for `/recently-viewed/list`.** It is registered before `/:id`. It has two segments and `/:id` matches exactly one, so the order does not decide which handler serves it. A one-segment `GET /recently-viewed` reaches `getTaskById`.
- **Only the role counts.** The identity that `optionalAuth` attaches is the stored user loaded without the password, so its role comes from the database and not from the token.

## Model

| member | source | states |
|---|---|---|
| Text.Trim | models/Task.js:5-9 | `trim` drops exactly the leading and trailing white space. The result is the infix that follows the leading white space, everything after it is white space, and it neither starts nor ends with white space. |
| Text.TrimIdempotent | models/Task.js:5-9 | A stored (already trimmed) value is unchanged by trimming again. |
| Text.TrimmedIsFixed | models/User.js:6 | The values `trim` leaves alone are exactly those with no white space at either end. |
| Text.TrimEmptyIffBlank | models/Task.js:5-9 | Trimming gives the empty string exactly when the value is all white space, so a blank title fails `required`. |
| Text.Contains | controllers/taskController.js:68-69 | Substring search is true exactly when the pattern occurs at some position of the text. |
| Text.ContainsIgnoringCaseOfFolded | controllers/taskController.js:68-69 | The `i` option makes the match insensitive to the case of the text. |
| Text.Split | routes/tasks.js:14 | `split(' ')` yields at least one piece, and no piece contains the separator. |
| Text.SplitJoin | routes/tasks.js:14 | Joining the pieces with the separator gives back the header. |
| Text.UpTo | routes/tasks.js:14 | The text before the first separator is a separator-free prefix, followed by the separator or by the end. |
| Text.SplitFirst | routes/tasks.js:14 | The first piece of a split is the text before the first separator. |
| Text.SplitAfterWord | routes/tasks.js:14 | A separator-free word followed by the separator is split off as the first piece, and the rest is split as before. |
| Store.Find | controllers/taskController.js:113 | `findById` returns a stored document with that id, and returns nothing exactly when no document has it. |
| Store.FindUnique | controllers/taskController.js:113 | With unique ids, the document found for a stored document's id is that document. |
| Store.Keep | controllers/taskController.js:88-92 | `find(filter)` returns only stored documents satisfying the filter, and all of them. |
| Store.KeepIsSubsequence | controllers/taskController.js:127-129 | Filtering keeps the remaining elements in their original order. |
| Store.Remove | controllers/taskController.js:190 | `findByIdAndDelete` keeps every document with another id and nothing with this id. When the id was present, the collection shrinks. |
| Store.Replace | controllers/taskController.js:174-177 | `findByIdAndUpdate` puts the new version at the position of that id and leaves every other position unchanged. |
| UserModel.ParseRole | models/User.js:8 | Only `user` and `admin` are roles, and each parses to the role it names. |
| UserModel.ParseRoleName | models/User.js:8 | Every role survives a round trip through its stored name. |
| UserModel.NewUser | models/User.js:6-13 | A user is created exactly when the email is not blank, the password is non-empty, and a given role is `user` or `admin`. On success: the email is stored trimmed, the role defaults to `user`, and the recently-viewed list starts empty. |
| UserModel.PreSave | models/User.js:19-23 | Saving changes nothing but the password. The password is rehashed exactly when it was modified, and otherwise the stored hash is kept. |
| UserModel.ComparePassword | models/User.js:25-27 | With a bcrypt whose hashes match their own password, a candidate that the stored hash was made from always compares equal. |
| UserModel.SavedPasswordCompares | models/User.js:19-27 | After a save that hashed the password, comparing that same password succeeds. |
| TaskModel.ParsePriority | models/Task.js:23-27 | The priorities are exactly `low`, `medium` and `high`. |
| TaskModel.ParsePriorityName | models/Task.js:23-27 | Every priority survives a round trip through its stored name. |
| TaskModel.ParseStatus | models/Task.js:28-32 | The statuses are exactly `pending`, `in_progress` and `completed`. |
| TaskModel.ParseStatusName | models/Task.js:28-32 | Every status survives a round trip through its stored name. |
| TaskModel.NewTask | models/Task.js:5-39 | A task is created exactly when title (not blank), description, assignee, creator and a valid priority are present, any given status is valid and any given category passes the ObjectId cast. The title is stored trimmed, status defaults to `pending`, deadline and category are optional (the category stored as the id it names), and the creator is the document's `createdBy`. |
| TaskModel.UpdateProblem | controllers/taskController.js:174-177 | The update validators accept a payload exactly when each field it carries is valid, any category and any `$set` creator pass the ObjectId cast, and it carries no falsy `createdBy`. |
| TaskModel.ApplyUpdate | controllers/taskController.js:174-177 | An accepted update overwrites exactly the fields the payload carries. The id is kept, the title is trimmed, a category reference is stored as the id it names, a `$set` creator replaces the creator unless a plain `createdBy` is given, and absent fields keep their stored values. |
| TaskModel.UpdateKeepsTaskValid | models/Task.js:5-22 | An accepted update keeps a valid stored task valid. |
| ReportModel.ParseCategory | models/Report.js:14-18 | The categories are exactly `work` and `complaint`. |
| ReportModel.ParseCategoryName | models/Report.js:14-18 | Every category survives a round trip through its stored name. |
| ReportModel.NewReport | models/Report.js:5-28 | A report is created exactly when the title is not blank, the description is non-empty and the category is valid. The title is stored trimmed, and owner, related task and timestamp are stored as supplied. |
| TaskFilter.ToFilter | controllers/taskController.js:29-80 | A filter document matches exactly the tasks satisfying all of its keys, and a missing key constrains nothing. |
| TaskFilter.VisibilityDoc | controllers/taskController.js:32-41 | A regular user's starting document holds only an `$or`, and an admin's is empty. Either way it matches exactly the tasks the caller may see: all of them for an admin, and otherwise those assigned to or created by the caller. |
| TaskFilter.WithStatus | controllers/taskController.js:55-58 | A truthy status adds the status key and leaves the other keys alone. On a document without a status key, the result matches exactly the old matches that have that status. A falsy status changes nothing. |
| TaskFilter.SearchClause | controllers/taskController.js:67-70 | The search `$or` matches exactly the tasks whose title or assignee contains the search, regardless of case. |
| TaskFilter.WithSearch | controllers/taskController.js:60-80 | A truthy search narrows what the document matches to the tasks that hit the search. This holds whether the search becomes the `$or` or is nested with the visibility `$or` under `$and`. The status key is kept, and a falsy search changes nothing. |
| TaskFilter.BuildFilter | controllers/taskController.js:29-80 | The filter `getTasks` builds matches a task exactly when the task is visible to the caller, has the requested status, and hits the requested search. |
| TaskFilter.FilterMeaning | controllers/taskController.js:29-80 | For every identity, status and search, the built filter matches a task exactly when the task is visible to the caller, has the requested status, and hits the requested search. |
| TaskFilter.NonAdminSeesOnlyOwnTasks | controllers/taskController.js:32-80 | Whatever status and search a regular user sends, every matching task is assigned to or created by them. |
| TaskFilter.MatchesHonourParameters | controllers/taskController.js:55-80 | Every match has the requested status, and contains the search in its title or assignee regardless of case. |
| TaskFilter.AdminUnfilteredMatchesAll | controllers/taskController.js:32-41 | An admin with neither status nor search gets the empty filter, which matches every task. |
| TaskFilter.AdminSearchOnly | controllers/taskController.js:74-79 | An admin with only a search gets just the title/assignee disjunction. |
| TaskFilter.OverwritingVisibilityLeaks | controllers/taskController.js:61-73 | Writing the search `$or` over the visibility `$or`, instead of nesting both under `$and`, would show a regular user a task that is not theirs. |
| Pagination.AtLeastOne | controllers/taskController.js:83-84 | `Math.max(n, 1)` is at least 1 and at least `n`, and is one of the two. |
| Pagination.PageCount | controllers/taskController.js:103 | `ceil(total / limit)` is the fewest pages of `limit` items that hold `total` items, and is zero exactly when there are no items. |
| Pagination.Window | controllers/taskController.js:91-92 | `.skip(s).limit(l)` yields at most `l` items, item `k` being match `s + k`. It is empty past the end, and short only at the end. |
| Pagination.Paginate | controllers/taskController.js:83-104 | Page and limit default to 1 and 5 and are clamped to at least 1. The tasks are the matches from `(page - 1) * limit` on. There are exactly `limit` of them, or fewer only when the matches run out, and none past the end. `total` counts all matches and `pages` is the ceiling. |
| Pagination.ClampedParameters | controllers/taskController.js:83-85 | A non-positive page is served as page 1, and a non-positive limit as limit 1. |
| Pagination.EveryMatchOnItsPage | controllers/taskController.js:83-104 | Every match appears on the page its position gives, and that page is within the announced page count. |
| RecentlyViewed.Without | controllers/taskController.js:127-129 | The filter removes every occurrence of the viewed id and keeps every other id. |
| RecentlyViewed.RecordView | controllers/taskController.js:127-137 | After a view, the id comes first, the list has between 1 and 5 entries, and behind the id come the most recent other ids. |
| RecentlyViewed.RecordViewOnce | controllers/taskController.js:127-137 | The viewed id occurs exactly once, and every other entry was already in the list. |
| RecentlyViewed.RecordViewKeepsOrder | controllers/taskController.js:127-137 | The other ids keep their previous relative order. |
| RecentlyViewed.RecordViewNoDuplicates | controllers/taskController.js:127-137 | A duplicate-free list stays duplicate-free. |
| RecentlyViewed.RecordViewIdempotent | controllers/taskController.js:127-137 | Viewing the same task twice in a row equals viewing it once. |
| RecentlyViewed.RevisitDoesNotGrow | controllers/taskController.js:127-137 | Re-viewing an id already in a duplicate-free list keeps its length and its set of ids. |
| RecentlyViewed.RecordViewNew | controllers/taskController.js:127-137 | A new id is pushed in front, and the oldest entry is dropped once five are held. |
| RecentlyViewed.RecordViewMovesToFront | controllers/taskController.js:127-137 | Re-viewing an id moves it to the front and closes the gap it leaves. |
| RecentlyViewed.ViewAll | controllers/taskController.js:127-137 | After a run of views, the last task viewed comes first and the list holds between one and five ids. A duplicate-free list stays duplicate-free. |
| RecentlyViewed.ViewAllKeepsNewestFive | controllers/taskController.js:127-137 | Viewing distinct tasks one by one from an empty list leaves the five most recent, newest first. |
| TaskController.FilterSelectsWanted | controllers/taskController.js:88 | The query with the built filter selects, in store order, exactly the tasks the visibility, status and search rules want. |
| TaskController.GetTasks | controllers/taskController.js:23-109 | As written: without an identity the reply is 500 (`limitNum` is read before it is declared). With an identity: 200, at most `limit` tasks, each stored and wanted. |
| TaskController.GetTasksIntended | controllers/taskController.js:44-52 | Corrected: without an identity, an empty first page with the clamped limit, total 0 and pages 0. With an identity, the same reply as `GetTasks`. |
| TaskController.AnonymousSeesNoTask | controllers/taskController.js:32-53 | Without an identity, no task is listed, as written or as intended. |
| TaskController.ListingIsPageOfWanted | controllers/taskController.js:83-104 | The authenticated listing is the requested page of the wanted tasks, and its total counts all of them whatever the page. |
| TaskController.RegularListingIsOwn | controllers/taskController.js:34-39 | A regular user's listing holds only tasks assigned to or created by them. |
| TaskController.EveryWantedTaskIsListed | controllers/taskController.js:83-104 | Every wanted task is listed on some page within the announced page count. |
| TaskController.GetTaskById | controllers/taskController.js:111-147 | A malformed id gives 400 "Invalid ID" and an absent task 404, both with users unchanged. Otherwise the reply is the stored task, and only the caller's user is changed: their list gets the view, and their password hash is kept. |
| TaskController.GetTaskByIdKeepsLists | controllers/taskController.js:119-140 | Reading a task keeps every list short and duplicate-free, keeps user ids unique, and touches no password. |
| TaskController.Resolve | controllers/taskController.js:155 | Resolution returns stored tasks named by the list, and every listed id that still names a task is present. |
| TaskController.ResolveIsKept | controllers/taskController.js:155 | Resolution is the list with dangling ids filtered out and each remaining id replaced by its stored task. List order and multiplicity are kept. |
| TaskController.ResolveAllPresent | controllers/taskController.js:155 | When every id still exists, resolution keeps them all, in list order. |
| TaskController.GetRecentlyViewedTasks | controllers/taskController.js:149-165 | Without an identity the reply is 401. A missing user gives an empty list. Otherwise the reply is the user's list, in list order, with each id that still names a task replaced by that task and each dangling id silently left out. |
| TaskController.CreateTask | controllers/taskController.js:4-21 | A task is stored (201) exactly when its payload validates. The stored and returned task is the one the schema builds from the payload: trimmed title, the given fields, the `pending` default, the caller as creator and a fresh id. A failed validation or a category that fails the ObjectId cast gives 400 and stores nothing. |
| TaskController.CreateIgnoresBodyCreator | controllers/taskController.js:7-10 | The `createdBy` a client sends has no effect on the result. |
| TaskController.CreateThenGet | controllers/taskController.js:4-147 | Once a task is created, fetching it by its new id, by any caller, answers 200 with exactly the task the creation returned. |
| TaskController.CreateKeepsStoreWellFormed | controllers/taskController.js:12 | Creating keeps task ids unique and every stored task valid. |
| TaskController.StripCreator | controllers/taskController.js:170-172 | A truthy `createdBy` is removed, a falsy one is kept, and nothing else changes. |
| TaskController.UpdateTask | controllers/taskController.js:167-186 | The update succeeds exactly for a well-formed, present id and a valid stripped payload. A falsy `createdBy`, an invalid field, or a category or `$set` creator that fails the ObjectId cast gives 400. An absent id gives 404. Every failure leaves the store unchanged. No task's id changes, and only the addressed task changes. A plain `createdBy` in the payload never changes the creator; as written, a `$set` creator in the payload does, and nothing else does. On success, the addressed task becomes, in the store and in the reply, the stored task with the stripped payload's fields applied. |
| TaskController.SetOperatorChangesCreator | controllers/taskController.js:169-177 | As written, the payload `{"$set": {"createdBy": 8}}` is accepted and hands task 1, created by user 7, to user 8. |
| TaskController.UpdateTaskIntended | controllers/taskController.js:169-177 | The update as line 169's comment intends, with a `$set` creator stripped too. It answers exactly like `UpdateTask` for every payload without one, succeeds exactly for a well-formed present id and a valid payload, and never changes any task's id or creator. |
| TaskController.UpdateKeepsStoreWellFormed | controllers/taskController.js:174-177 | Updating keeps task ids unique and every stored task valid. |
| TaskController.DeleteTask | controllers/taskController.js:188-196 | A malformed id gives 400 and an absent one 404, both with the store unchanged. Otherwise exactly the tasks with that id are gone, and the rest stay in their stored order (the store filtered by "id is not the given one"). |
| AdminMiddleware.AdminGate | middleware/adminMiddleware.js:1-6 | `next` is called exactly for an admin identity. No identity gives 401 "Unauthorized", and a non-admin gives 403 "Forbidden". |
| AdminMiddleware.MissingIdentityIsNeverForbidden | middleware/adminMiddleware.js:3-4 | The identity check comes first: a 403 always has an identity and a 401 never does. |
| AdminMiddleware.GateSeesOnlyTheRole | middleware/adminMiddleware.js:4 | Two identities with the same role get the same decision. |
| ReportsController.Insert | controllers/reportsController.js:16 | Inserting into a newest-first list keeps it newest first, and adds exactly that report. |
| ReportsController.SortNewestFirst | controllers/reportsController.js:16 | The sorted reports are a permutation of the input, ordered by `createdAt` descending. |
| ReportsController.GetReports | controllers/reportsController.js:3-22 | The listing is newest first. It holds exactly the stored reports the caller may see: all of them for an admin, and their own for anyone else. |
| ReportsController.AdminListsEveryReport | controllers/reportsController.js:5-16 | An admin's listing holds every report, each as often as it is stored. |
| ReportsController.RegularListsOwnReports | controllers/reportsController.js:5-16 | A regular user's listing is a permutation of their own reports. |
| ReportsController.RelatedTaskOf | controllers/reportsController.js:37 | `relatedTask \|\| null` keeps a given reference and turns anything falsy into none. |
| ReportsController.CreateReport | controllers/reportsController.js:24-50 | A falsy title, description or category gives 400 with the fixed message and saves nothing. A report is stored (201) exactly when the schema accepts it, owned by the caller, with the related task or none. Every failure leaves the store unchanged. |
| ReportsController.CreateReportIgnoresClaimedOwner | controllers/reportsController.js:32-38 | An owner claimed in the body has no effect. |
| ReportsController.CreateReportKeepsIdsUnique | controllers/reportsController.js:40 | Creating keeps report ids unique. |
| ReportsController.DeleteReport | controllers/reportsController.js:52-69 | A non-admin is refused with 403 and the report stays. For an admin, a malformed id gives 400 and an absent one 404, both with the store unchanged. Otherwise exactly that report is gone, and the rest stay in their stored order. |
| AuthController.FindByEmail | controllers/authController.js:9 | The lookup finds a stored user with the trimmed email, and finds nothing exactly when no user has it. |
| AuthController.Register | controllers/authController.js:4-23 | A missing email or password gives 400, and a taken (trimmed) email gives 400 "Email already in use"; nothing is stored in either case. A schema refusal gives 500. On success exactly one user is appended: trimmed email, hashed password, role from the body defaulting to `user`. The reply carries no password. |
| AuthController.RegisterKeepsUsersWellKept | controllers/authController.js:9-13 | Registration keeps ids and emails unique and every stored email valid. |
| AuthController.AnyoneCanRegisterAsAdmin | controllers/authController.js:6-13 | Any unused email with a password can be registered with role `admin`. |
| AuthController.Login | controllers/authController.js:25-46 | A missing field gives 400 and every other failure gives 401 "Invalid credentials". Success happens exactly when the stored user's hash matches. The token is then `{ id, role }` of the stored user, signed with a one-day lifetime; it verifies to that id and role, and the reply carries that role. |
| AuthController.FailedLoginsLookAlike | controllers/authController.js:30-34 | An unknown email and a wrong password get the identical reply. |
| AuthController.RegisterThenLogin | controllers/authController.js:4-46 | After a successful registration, logging in with the same email and password succeeds, with a token for the new account and its role. |
| TaskRoutes.BearerToken | routes/tasks.js:10-14 | The second space-separated piece of a `Bearer ` header is the text after the prefix up to the next space. |
| TaskRoutes.OptionalAuth | routes/tasks.js:8-23 | An identity is attached exactly when the header starts with `Bearer `, the token verifies and the user exists. That identity is the stored user, including its stored role. Every other request stays anonymous. |
| TaskRoutes.LoginTokenAuthenticates | routes/tasks.js:14-17 | A login token sent back as a bearer header authenticates as the account that logged in. |
| TaskRoutes.NoBearerNoIdentity | routes/tasks.js:10 | A header without the `Bearer ` prefix never authenticates. |
| TaskRoutes.FirstMatch | routes/tasks.js:26-37 | Dispatch picks the first registered route that matches, and no earlier route matches. |
| TaskRoutes.Dispatch | routes/tasks.js:26-37 | The dispatched route is a registered route matching the verb and path. There is none exactly when no route matches. |
| TaskRoutes.Admit | routes/tasks.js:26-37 | Optional authentication always proceeds. Authentication proceeds exactly with an identity, and the admin chain exactly with an admin identity. A 403 always has an identity. |
| TaskRoutes.WritesAreAdminOnly | routes/tasks.js:33-37 | Every POST, PUT and DELETE on tasks is behind the admin chain, so only an admin reaches the handler. |
| TaskRoutes.ReadsAreOpen | routes/tasks.js:26-30 | `GET /` and `GET /:id` reach their handlers whatever the identity. |
| TaskRoutes.RecentlyViewedNeedsIdentity | routes/tasks.js:28-30 | `GET /recently-viewed/list` reaches only its own handler, and only with an identity. |

## Findings

| source | as written | input that shows it | evidently intended | confidence | as-written member | corrected member |
|---|---|---|---|---|---|---|
| controllers/taskController.js:44-52 | The anonymous branch builds its reply with `limit: limitNum`, but `limitNum` is a `const` declared only at line 84. Reading it raises a ReferenceError (temporal dead zone), and the catch at lines 106-107 answers 500. | `GET /api/tasks` with no `Authorization` header | 200 with `{ tasks: [], pagination: { page: 1, limit, total: 0, pages: 0 } }` | high; not executed | TaskController.GetTasks | TaskController.GetTasksIntended |
| controllers/taskController.js:169-177 | Only a top-level `createdBy` is deleted. The rest of the body goes to `findByIdAndUpdate` unchanged, and MongoDB update operators in it are applied. server.js:24 parses JSON with no sanitizer, and models/Task.js:18-22 does not make `createdBy` immutable. | `PUT /api/tasks/<id>` by an admin with body `{"$set": {"createdBy": "<another user's id>"}}` | the creator stays, as the comment at line 169 says ("Prevent updating createdBy field") | high; not executed | TaskController.SetOperatorChangesCreator | TaskController.UpdateTaskIntended |

For the first row, no task leaks either way (`TaskController.AnonymousSeesNoTask`). The listing lemmas are stated about the corrected definition; for an authenticated caller it equals the code as written. For the second row, `TaskController.UpdateTask` models the handler as written, and `UpdateTaskIntended` agrees with it on every payload without a `$set` creator.

## Left out

- **Regular-expression search.** The search string is passed to MongoDB as a regular expression with the `i` option. Here it is a literal substring with ASCII case folding. Patterns with metacharacters, and Unicode case folding, are not modelled.
- **Non-numeric `page` and `limit`.** `parseInt` of a non-number gives NaN, and `Math.max(NaN, 1)` is NaN. The model takes both parameters as integers when present.
- **Order of unsorted queries.** `Task.find(filter).skip().limit()` runs with no sort. MongoDB does not promise any order for such a query, nor the same order across requests. The model fixes insertion order. `TaskController.EveryWantedTaskIsListed` (no wanted task lost across pages) depends on that fixed order: separate page requests under a changing natural order could skip or repeat a task.
- **Populated references.** `populate` of `createdBy`, `category` and `relatedTask` in replies is left out: a reply carries the stored record. In `getRecentlyViewedTasks`, `populate` is modelled by `Resolve`.
- **Cryptography.** bcrypt's salt generation, hashing and comparison, and JWT signing, verification and expiry, are uninterpreted function values. The salt is a parameter, and the clock lives inside `verify`. Lemmas that need a property of them (`Crypto.Sound`, `Crypto.Matches`, `Crypto.SpaceFree`) take it as a precondition.
- **Timestamps.** Task and user timestamps are not modelled. A report's `createdAt` is a parameter (`now`). `deadline` is an integer time value rather than a Date.
- **Library error wording.** Cast and validation error messages only approximate Mongoose's wording. Their status codes, and every literal message the handlers write themselves, are exact.
- **Database failures.** Failures other than validation and casting are left out: a lost connection, the duplicate-key error of the unique email index under concurrent registrations, and a failing `user.save()` in `getTaskById` (which its catch would answer with 400 "Invalid ID").
- **Concurrency.** The read-modify-write race on `recentlyViewedTasks` between concurrent requests is left out. So is the race between the email check and the save in `register`.
- **Unusual JSON values.** Non-string values where strings are expected, and `role: null`, are left out. A JSON `null` is treated like an absent field.
- **authMiddleware.** middleware/authMiddleware.js is not part of this model. It is taken to answer 401 exactly when no valid identity is present. Its message text is not known, and `TaskRoutes.NotAuthenticated` stands for it.
- **The report routes.** routes/reports.js is not part of this model. It puts the admin gate in front of `deleteReport`, so that handler's own 403 can only be reached by calling it directly.
- **Express path parsing.** URL decoding, trailing slashes and case-insensitive matching are left out: `Dispatch` takes the path already split into segments.
- **Other parts of the repository.** The browser client (public/), server bootstrap (server.js), the seeding script (setup-admin.js), the category and user controllers and routes, and the Category model are not part of this model.
- **Logging.** Console logging is left out.
- TaskController.CreateTask: the spread body may carry its own `_id`. Mongoose would store that id as sent, and answer 400 when it is taken or is not an ObjectId. The model always gives the new task the fresh server id `freshId`. A `deadline` that fails the Date cast (also 400) is not modelled either, since `deadline` is an integer here.
- TaskController.UpdateTask: an `_id` inside the update payload, and a `deadline` that fails the Date cast, are not modelled. The payload type carries neither, so their 400 answers do not arise.
- TaskController.UpdateTask: of the MongoDB update operators a payload may carry, only `$set.createdBy` is modelled, because it is the one that defeats the strip. Other `$set` keys act like the plain fields. `$unset`, `$inc`, `$push` and the rest are left out.
- ReportsController.GetReports: MongoDB leaves the order of reports with equal `createdAt` unspecified. The contract therefore states only the newest-first order and the permutation, not which of several equally old reports comes first.
