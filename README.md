# User CRUD app: the users table, its controller and the Users page

This project models the core of a small user-management application:

- **The `users` table** (`backend/src/db.ts`): rows `{id, name, email, avatar, created_at}` with an
  AUTOINCREMENT id, NOT NULL name and email, a UNIQUE email and a nullable avatar, kept by a
  `Database` object whose invariant (`Db.TableInvariant`) says ids are positive, never above the
  AUTOINCREMENT counter and strictly increasing, and no two rows share an email. `initDB` seeds
  two rows into an empty table.
- **The controller** (`backend/src/controllers/users.controller.ts`): `getUsers`, `getUser`,
  `createUser`, `updateUser`, `deleteUser` and `getUserStats` as methods over the database;
  `getUser`, `createUser`, `updateUser` and `deleteUser` answer with a `Reply` whose variant fixes
  the HTTP status (200, 201, 404, 409, 500), while `getUsers` and `getUserStats` return their rows. The SQL
  engine is abstract: what each statement does to the rows and which constraint it violates are
  functions in module `Db`; `DATE(created_at)` is the date part of a timestamp; the stats query is
  a grouping fold whose result is proved ascending, complete and correctly counted.
- **The Users page** (`frontend/src/pages/Users.tsx`): `validate` as a function of the form, with
  the email pattern `^[^\s@]+@[^\s@]+\.[^\s@]+$` given both by its structure and as a character
  rule, proved equivalent; the page's React state as a class whose handlers (`resetForm`,
  `saveUser`, `confirmDelete`, the input handlers and modal buttons) change its fields.
  The optimistic edit patch and the delete filter are the same row transforms as the backend's
  UPDATE without avatar and DELETE (`Db.UpdateWhere`, `Db.Without`).

Files: `maybe.dfy` (Option), `db.dfy`, `users_controller.dfy`, `users_form.dfy`, `users_page.dfy`.

Two behaviours of the code worth knowing: `createUser` answers with `{id, name, email, avatar}`
only, without `created_at`; an update of an id that no row has answers 200 with an empty body,
not 404.

## Model

| member | source | states |
|---|---|---|
| `Db.Lookup` | backend/src/controllers/users.controller.ts:14-17 | The lookup by id finds nothing exactly when no row has that id; otherwise it returns a row of the table with that id. |
| `Db.LookupFindsTheRow` | backend/src/db.ts:16 | Because ids are a primary key, looking up a row's id yields that very row, unchanged. |
| `Db.InsertViolation` | backend/src/controllers/users.controller.ts:30-33 | The constraint SQLite reports for the INSERT: none exactly when name and email are present and no row holds the email; NOT NULL is checked in column order (name before email) before UNIQUE, so a missing name is reported even when the email is also missing or taken; a UNIQUE failure is always on email with both fields present. |
| `Db.UpdateViolation` | backend/src/controllers/users.controller.ts:69-77 | The constraint SQLite reports for the UPDATE: none when no row has the id (a statement that changes no row checks nothing); otherwise none exactly when name and email are present and no other row holds the email, with the same NOT NULL-before-UNIQUE order as the INSERT. |
| `Db.UpdateWhere` | backend/src/controllers/users.controller.ts:68-78 | UPDATE ... WHERE id = ? keeps the table's length; what it does row by row is stated by `Db.UpdateWhereAt`. |
| `Db.UpdateWhereAt` | backend/src/controllers/users.controller.ts:68-78 | UPDATE keeps every row's id and created_at; rows with another id are untouched; the matching row gets the new name and email, and the new avatar only when one is given — without one the avatar stays. |
| `Db.UpdateWhereAbsent` | backend/src/controllers/users.controller.ts:74-77 | An UPDATE of an id no row has leaves the table as it was. |
| `Db.UpdateWhereKeepsInvariant` | backend/src/db.ts:18 | An UPDATE whose email no other row holds keeps emails unique and ids as they were. |
| `Db.Without` | backend/src/controllers/users.controller.ts:107 | DELETE ... WHERE id = ? never adds rows, and every row left has another id and was in the table. |
| `Db.WithoutMembers` | backend/src/controllers/users.controller.ts:107 | After DELETE exactly the rows with another id remain. |
| `Db.WithoutConcat` | frontend/src/pages/Users.tsx:118 | Deleting keeps the remaining rows in their order (it distributes over concatenation). |
| `Db.WithoutAbsent` | backend/src/controllers/users.controller.ts:107 | Deleting an id no row has changes nothing. |
| `Db.WithoutIdempotent` | backend/src/controllers/users.controller.ts:104-108 | Deleting the same id twice leaves the same table as deleting it once. |
| `Db.WithoutShrinks` | backend/src/controllers/users.controller.ts:107 | DELETE never adds rows and removes at least one when a row has the id. |
| `Db.WithoutKeepsInvariant` | backend/src/db.ts:15-19 | A DELETE keeps the table invariant (unique emails, increasing ids, counter above every id). |
| `Db.AppendKeepsInvariant` | backend/src/db.ts:16-18 | An INSERT of a row with the next AUTOINCREMENT id and an email no row holds keeps the invariant, with the counter advanced to that id. |
| `Db.SeedRowsValid` | backend/src/db.ts:30-33 | The two seed rows have distinct emails and consecutive fresh ids, so they form a valid table. |
| `Db.Database.constructor` | backend/src/db.ts:13-21 | A new database has the table, empty, with the counter at 0. |
| `Db.Database.InitDB` | backend/src/db.ts:25-33 | On an empty table the two seed rows (admin@example.com and test@example.com, avatar NULL) are inserted with the next two ids; on a table with rows nothing changes; the table is non-empty afterwards, so a second run changes nothing. |
| `UsersController.AvatarPath` | backend/src/controllers/users.controller.ts:26 | The avatar column is set exactly when a file came with the request, and then it is "/uploads/" followed by the stored file name, which stripping the prefix gives back (update computes the same value at line 64, `undefined` standing for no file). |
| `UsersController.ErrorReplyAsWritten` | backend/src/controllers/users.controller.ts:41-56 | The catch block as written answers either 409 with the duplicate message or 500 with the failure message; a NOT NULL failure on email is answered 409, a failure on name 500; any failure on email, UNIQUE or NOT NULL, is answered 409, and only those. |
| `UsersController.ErrorReply` | backend/src/controllers/users.controller.ts:86-99 | The catch block with the intended test answers 409 with the duplicate message exactly for a UNIQUE failure on email, and 500 with the failure message for every other failure. |
| `UsersController.MissingEmailReportedAsDuplicate` | backend/src/controllers/users.controller.ts:43-50 | As written, a create with no email on an empty table, and an update with no email of a row whose email nobody else holds, are both answered 409 "already exists". |
| `UsersController.ConflictIffEmailTaken` | backend/src/controllers/users.controller.ts:86-99 | With the intended test, a create answers 409 exactly when name and email are both present and a row already holds the email, and 500 exactly when name or email is missing (so a missing name with a taken email is 500). An update answers 409 exactly when a row has the id, both fields are present and another row holds the email, and 500 exactly when a row has the id and a field is missing; an update of an id no row has fails with neither. |
| `UsersController.GetUsers` | backend/src/controllers/users.controller.ts:5-9 | Returns every row in the table's order. |
| `UsersController.GetUser` | backend/src/controllers/users.controller.ts:12-20 | Answers 404 "User not found." exactly when no row has the id; otherwise 200 with the row that has it, unchanged. |
| `UsersController.CreateUser` | backend/src/controllers/users.controller.ts:23-57 | Succeeds (201) exactly when name and email are present and the email is not held; then the table gains exactly one row, whose id exceeds every id issued before, the body echoes id, name, email and avatar, and avatar is "/uploads/<file>" with a file and NULL without. A held email gives 409 "User already exists with this email.", a missing field 500 "Failed to create user.", and the table and counter are then unchanged. |
| `UsersController.UpdateUser` | backend/src/controllers/users.controller.ts:61-100 | An id no row has changes nothing and answers 200 with an empty body. Otherwise: an email held by another row gives 409 "Another user already exists with this email.", a missing field 500, both leaving the table unchanged; else only that row changes, in name, email and — only with a file — avatar, and the answer is that row as it now is. |
| `UsersController.DeleteUser` | backend/src/controllers/users.controller.ts:104-112 | Always answers "User deleted successfully."; afterwards no row has the id, the other rows stay in order, and deleting an absent id changes nothing. |
| `UsersController.AddDateCorrect` | backend/src/controllers/users.controller.ts:120-124 | Counting one more row on a day keeps the buckets strictly ascending and positive, adds that day's bucket if missing, and raises that day's count and the total by one, every other day unchanged. |
| `UsersController.GrowthStats` | backend/src/controllers/users.controller.ts:118-125 | The grouped result has no more buckets than there are rows, and is empty exactly when the table is; its full meaning is `UsersController.GrowthStatsCorrect`. |
| `UsersController.GrowthStatsCorrect` | backend/src/controllers/users.controller.ts:118-125 | The grouped result is strictly ascending by day, has a bucket for exactly the days on which rows were created, gives each day the number of rows created on it, and its counts sum to the number of rows. |
| `UsersController.GrowthStatsExample` | backend/src/controllers/users.controller.ts:118-125 | Rows created on 2024-01-01 twice and 2024-01-02 once give exactly [(2024-01-01, 2), (2024-01-02, 1)]. |
| `UsersController.GetUserStats` | backend/src/controllers/users.controller.ts:115-128 | Every bucket's count is the positive number of rows created that day, buckets are strictly ascending, every row's day has a bucket, and the counts sum to the number of rows. |
| `UsersForm.Trim` | frontend/src/pages/Users.tsx:38 | `trim()` never lengthens a string, and its result, unless empty, neither begins nor ends with whitespace; its meaning for the test `!s.trim()` is `UsersForm.TrimEmptyIffBlank`. |
| `UsersForm.MatchesEmailRegex` | frontend/src/pages/Users.tsx:42 | The pattern `^[^\s@]+@[^\s@]+\.[^\s@]+$` read by its structure; a string it matches has at least 5 characters and is not blank. |
| `UsersForm.IsEmailAddress` | frontend/src/pages/Users.tsx:42 | The pattern as a rule on characters; a string it accepts has at least 5 characters and is not blank. |
| `UsersForm.NameError` | frontend/src/pages/Users.tsx:38-39 | The name has no error exactly when it is not blank and has at least 3 characters; a blank name gets "Name is required". |
| `UsersForm.EmailError` | frontend/src/pages/Users.tsx:41-44 | The email has no error exactly when the pattern matches it; a blank email gets "Email is required". |
| `UsersForm.AvatarError` | frontend/src/pages/Users.tsx:46-52 | No file, or an image of at most 5 MiB, has no error; any other file has one, and a non-image gets "Only image files allowed". |
| `UsersForm.Validate` | frontend/src/pages/Users.tsx:35-52 | The error record has a key for exactly the fields whose check fails, and every message in it is non-empty. |
| `UsersForm.TrimEmptyIffBlank` | frontend/src/pages/Users.tsx:38 | `!s.trim()` holds exactly when the string is empty or all whitespace. |
| `UsersForm.EmailRuleMatchesRegex` | frontend/src/pages/Users.tsx:42 | The character rule (no whitespace, exactly one '@' not at the start, a '.' in the domain that is neither its first nor last character) accepts exactly the strings the regular expression matches. |
| `UsersForm.ValidateMessages` | frontend/src/pages/Users.tsx:35-52 | Each field has at most one message: "Name is required" for a blank name, else "Minimum 3 characters" below 3 characters; "Email is required" for a blank email, else "Invalid email address" when the pattern does not match; "Only image files allowed" for a non-image whatever its size, else "Image must be less than 5MB" above 5 MiB. |
| `UsersForm.ValidateEmptyIffAcceptable` | frontend/src/pages/Users.tsx:54-55 | The check passes (empty error record) exactly when the name is non-blank with at least 3 characters, the email matches the pattern and any file is an image of at most 5 MiB. |
| `UsersForm.SizeBoundary` | frontend/src/pages/Users.tsx:46-52 | An image of exactly 5 MiB passes, one byte more is rejected, and a file whose type does not start with "image/" (application/pdf, say) is rejected whatever its size. |
| `UsersForm.EmailExamples` | frontend/src/pages/Users.tsx:41-44 | "foo@bar" is rejected as invalid and "foo@bar.com" accepted. |
| `UsersForm.NameExamples` | frontend/src/pages/Users.tsx:38-39 | "Al" is rejected as too short and "Ale" accepted. |
| `UsersPage.SaveRequest` | frontend/src/pages/Users.tsx:74-95 | A save sends PUT for the editing id exactly when that id is truthy (not null and not 0), and POST otherwise, carrying the form's name, email and file. |
| `UsersPage.ErrorsAfterFailure` | frontend/src/pages/Users.tsx:102-108 | After a failed save the errors hold the server's message on email exactly when the status is 409, and nothing on name or avatar. |
| `UsersPage.OptimisticPatch` | frontend/src/pages/Users.tsx:84-90 | The optimistic edit keeps the list's length, order, ids and avatars, gives the edited rows the new name and email and leaves every other row as it was. |
| `UsersPage.Page.constructor` | frontend/src/pages/Users.tsx:10-24 | The page starts with no users, closed modals, an empty form, no errors, no edited id and not loading. |
| `UsersPage.Page.LoadUsers` | frontend/src/pages/Users.tsx:26-29 | The list becomes the one the server returned. |
| `UsersPage.Page.ResetForm` | frontend/src/pages/Users.tsx:58-67 | Empty name and email, no file, no preview, no errors and no edited id. |
| `UsersPage.Page.StartAdd` | frontend/src/pages/Users.tsx:131-135 | The add modal opens on a reset form. |
| `UsersPage.Page.StartEdit` | frontend/src/pages/Users.tsx:168-179 | The edit modal opens for that row's id with its name and email, no file, its avatar URL (if any) as preview and no errors. |
| `UsersPage.Page.AskDelete` | frontend/src/pages/Users.tsx:186 | The delete confirmation is armed with the row's id. |
| `UsersPage.Page.CloseFormModal` | frontend/src/pages/Users.tsx:198-201 | Both form modals close; the form itself is kept. |
| `UsersPage.Page.CancelDelete` | frontend/src/pages/Users.tsx:273 | The delete confirmation is cleared. |
| `UsersPage.Page.OnNameInput` | frontend/src/pages/Users.tsx:210 | Only the form's name changes. |
| `UsersPage.Page.OnEmailInput` | frontend/src/pages/Users.tsx:220-223 | Only the form's email changes, and the email error becomes empty while the other errors stay. |
| `UsersPage.Page.OnFileInput` | frontend/src/pages/Users.tsx:231-240 | The picked file replaces the form's file; a new file's URL becomes the preview, and with no file the previous preview is kept. |
| `UsersPage.Page.RunValidate` | frontend/src/pages/Users.tsx:35-56 | Stores the error record and answers true exactly when it is empty. |
| `UsersPage.Page.SaveUser` | frontend/src/pages/Users.tsx:69-111 | A form that fails validation sends nothing and leaves list, form and flags unchanged. Otherwise PUT when editing and POST when not; on success the edited row's name and email are patched (avatar untouched), the form resets and the modals close; on 409 the errors are exactly the server's message on email; on other failures no errors and nothing else changes; loading is false at the end. |
| `UsersPage.Page.ConfirmDelete` | frontend/src/pages/Users.tsx:113-125 | With no armed id nothing is sent or changed; otherwise DELETE is sent, a success removes exactly the rows with that id keeping the rest in order, and the confirmation is cleared whatever the outcome. |

## Left out

- Multer's disk storage and its `Date.now()` file names (`backend/src/routes/users.routes.ts`): the handlers take the stored file name as a parameter; writing, serving and never deleting upload files are not modelled.
- `CURRENT_TIMESTAMP` and `DATE()`: the insertion time is a parameter of `CreateUser` and `InitDB`; `DATE(created_at)` is the date part of that value, ordered as its `YYYY-MM-DD` text.
- Store failures other than constraint violations (I/O errors, a locked or full database, AUTOINCREMENT exhaustion at 2^63-1): so `deleteUser`'s 500 answer `{error: err.message}` cannot arise in the model, and create and update fail with 500 only through a NOT NULL violation.
- The path parameter is taken as an integer; a non-numeric id matches no row, which is the same as an integer no row has.
- JSON serialisation, Express/CORS/static bootstrap (`backend/src/app.ts`), the router wiring, and the axios wrapper (`frontend/src/api.ts`, including its unused `/add` call).
- `frontend/src/pages/Dashboard.tsx` (floating-point "active" figure, client-clock "new this week", charts), `frontend/src/App.tsx` and `frontend/src/components/Modal.tsx`: presentation only.
- Async ordering, React re-rendering and closures, toasts, `URL.createObjectURL` (its URL is a parameter of `OnFileInput`), and the regular-expression engine itself (the pattern is a predicate).
- UsersForm.NameError: lengths are counted in Unicode characters, while JavaScript's `length` counts UTF-16 code units, so a name with characters outside the Basic Multilingual Plane can be judged long enough by the browser and too short here.
- UsersForm.Validate: uses `NameError`, so its "Minimum 3 characters" key is decided on Unicode characters, not UTF-16 code units.
- UsersForm.ValidateMessages: its clauses on `|f.name| < 3` count Unicode characters, not UTF-16 code units.
- UsersForm.ValidateEmptyIffAcceptable: the `|f.name| >= 3` of `Acceptable` counts Unicode characters, not UTF-16 code units.
- UsersPage.Page.RunValidate: stores `Validate(form)`, so the name-length error follows the same Unicode-character count.
- UsersPage.Page.SaveUser: sends or withholds the request by `Validate`, so a name whose UTF-16 length is 3 or more but whose character count is below 3 is withheld here and sent by the browser.
- Each handler is modelled as one atomic step. In the code, `updateUser`'s UPDATE and the SELECT that reads the row back are two awaited statements, so another request (a DELETE, say) between them can make the real answer an empty body where `UsersController.UpdateUser` promises the updated row. `createUser` reads nothing back (its answer is built from the request and the new id), so its answer cannot change, but the row it reports may already be gone when the answer arrives.
- UsersController.CreateUser: follows the intended duplicate-email test (see Findings), so a request with no email field is answered 500 here where the code as written answers 409.
- UsersController.UpdateUser: same as CreateUser for an update without an email field of an existing row.

## Findings

| source | as written | input that shows it | evidently intended | confidence | as-written member | corrected member |
|---|---|---|---|---|---|---|
| backend/src/controllers/users.controller.ts:43-46 | The duplicate-email test is `err.code === "SQLITE_CONSTRAINT" && err.message.includes("users.email")`; the driver gives NOT NULL failures the same code, and "NOT NULL constraint failed: users.email" also names the column (the same test is repeated at lines 87-90). | POST /api/users with a `name` field and no `email` field, on an empty table: answered 409 "User already exists with this email." although no email is held. | Only a UNIQUE violation on email is a duplicate (409); a missing field is a failure like any other (500 "Failed to create user."). | medium, not executed | `UsersController.ErrorReplyAsWritten`, `UsersController.MissingEmailReportedAsDuplicate` | `UsersController.ErrorReply`, `UsersController.ConflictIffEmailTaken` |
