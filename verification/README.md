# ayutenn skeleton: user store, login session and client helpers in Dafny

This project models the application core of the ayutenn skeleton, a PHP web
application with a small JavaScript front end. It covers:

- the user table and its manager (`SampleUserManager`): create, look up, list,
  update, soft-delete;
- the session gate (`Auth`): login, logout, "is someone logged in", "who";
- the controllers for registration, login and logout, the `NeedAuth` route
  middleware and the sample JSON API;
- the flash message component (`FlashMessage::render`) and the `h` escaping
  helper;
- the client-side helpers `util.escapeHtml` and `util.switchView`, and the
  per-file acceptance rule of `FileUploader.handleFiles`.

The database table is a sequence of rows (`UserStore.Table`), in insertion
order. `$_SESSION` is an immutable value (`Framework.Session`) that holds three
things: the ordinary keys, the framework's flash message queue and the
remembered form input. Every operation is a pure function from the state
before to the state after. Where the original reads something it cannot see,
the model takes it as a parameter:
- `salt` stands for the randomness of `password_hash`;
- `fault` says that opening the database connection or running a query throws;
- a file's `size` and `mimeType` are what the browser reports.

Files, one module each: `wrappers.dfy`, `password.dfy`, `user_store.dfy`,
`user_store_props.dfy`, `framework.dfy`, `auth.dfy`, `sample_register.dfy`,
`login.dfy`, `logout.dfy`, `need_auth.dfy`, `sample_api.dfy`, `strings.dfy`,
`html.dfy`, `util.dfy`, `file_uploader.dfy`, `flash_message.dfy`,
`scenarios.dfy` (properties that span several of them).

## Model

| member | source | states |
|---|---|---|
| UserStore.GetUser | app/database/SampleUserManager.php:72-104 | Succeeds exactly when some row has the id and, unless deleted rows are included, is not deleted. On success the data is every such row, in table order, and is nonempty. Otherwise the result is the "not found" alert. |
| UserStore.CreateUser | app/database/SampleUserManager.php:18-63 | If the id already has a live row: the duplicate alert and an unchanged table. Otherwise exactly one row is appended: the id, the name, an empty profile, not deleted, and a hash that the password verifies. |
| UserStore.SortById | app/database/SampleUserManager.php:132-133 | `ORDER BY user_id`: the result is sorted by id and is a permutation of the input. |
| UserStore.Insert | app/database/SampleUserManager.php:132-133 | Inserting into a sorted listing keeps it sorted and adds exactly that row. |
| UserStore.Window | app/database/SampleUserManager.php:134-136 | `LIMIT offset, count`: at most `count` rows, namely the rows from position `offset` on. |
| UserStore.GetUsers | app/database/SampleUserManager.php:114-146 | As written. With deleted rows included it fails (empty `WHERE`). Otherwise it succeeds with the "listed" message and at most `count` live rows of the table, sorted by id, starting at row `page` of the sorted listing. |
| UserStore.GetUsersIntended | app/database/SampleUserManager.php:114-146 | Corrected listing. Page `page` starts at row `PageStart(page, count)`. Including deleted rows lists all rows. The result is sorted and is drawn from the table. |
| UserStoreProps.PageStartIsProduct | app/database/SampleUserManager.php:134-136 | The corrected page offset is `page * count`. |
| UserStore.UpdateUser | app/database/SampleUserManager.php:149-174 | Every row with the id, deleted or not, gets the new name and profile. All other fields and all other rows are unchanged. It always succeeds. |
| UserStore.DeleteUser | app/database/SampleUserManager.php:176-194 | Every row with the id is marked deleted. Nothing else changes. It always succeeds, even for an unknown id. |
| UserStoreProps.CreatePreservesUnique | app/database/SampleUserManager.php:24-27 | If every id had at most one live row before, that still holds after `createUser`. |
| UserStoreProps.UpdatePreservesUnique | app/database/SampleUserManager.php:155-164 | `updateUser` preserves "at most one live row per id". |
| UserStoreProps.DeletePreservesUnique | app/database/SampleUserManager.php:178-185 | `deleteUser` preserves "at most one live row per id". |
| UserStoreProps.CreateThenGet | app/database/SampleUserManager.php:25-62 | After a successful create, `getUser` for that id returns exactly the new row, with its name and a hash that verifies the password. |
| UserStoreProps.CreateTwice | app/database/SampleUserManager.php:25-27 | A second create with the same id is refused with the duplicate alert and leaves the table as the first create left it. |
| UserStoreProps.DeleteThenGet | app/database/SampleUserManager.php:176-194 | After `deleteUser`, the default `getUser` reports "not found". With deleted rows included, the rows are still returned, marked deleted. |
| UserStoreProps.DeleteIdempotent | app/database/SampleUserManager.php:178-193 | Deleting twice is the same as deleting once. |
| UserStoreProps.RecreateAfterDelete | app/database/SampleUserManager.php:25-27 | After a soft delete the id can be registered again, because the duplicate check only looks at live rows. |
| UserStoreProps.UpdateFramesOtherIds | app/database/SampleUserManager.php:155-164 | `updateUser` does not change the lookup result of any other id. |
| UserStoreProps.UpdateThenGet | app/database/SampleUserManager.php:155-173 | After `updateUser`, `getUser` for the id succeeds exactly when it did before, and every row it returns carries the new name and profile. |
| UserStoreProps.GetUsersPagesOverlap | app/database/SampleUserManager.php:134-141 | As written: with at least two rows per page, the second row of page `p` is the first row of page `p + 1`. |
| UserStoreProps.GetUsersWithDeletedFails | app/database/SampleUserManager.php:120-131 | As written: asking for deleted rows always fails with the empty-`WHERE` error. |
| UserStoreProps.IntendedPagesTile | app/database/SampleUserManager.php:134-141 | Corrected: pages `p` and `p + 1` are together exactly the next `2 * count` rows of the sorted listing, so they do not overlap. |
| UserStoreProps.IntendedListsDeleted | app/database/SampleUserManager.php:120-131 | Corrected: one page as large as the table, with deleted rows included, holds every row of the table. |
| Auth.Login | app/helper/Auth.php:14-37 | Fails when no live row has the id, or when the password does not verify against the first such row. A failure leaves the session unchanged. A success stores the id under `AYLogin`, and some live row with the id verifies the password. |
| Auth.Logout | app/helper/Auth.php:44-47 | The whole session is emptied: keys, flash queue and remembered input. |
| Auth.IsLogined | app/helper/Auth.php:54-57 | `isset`: false when `AYLogin` is missing and when it holds `null`, true when it holds any other value. |
| Auth.GetLoginUser | app/helper/Auth.php:64-67 | For a logged-in session, returns exactly the value stored under `AYLogin`, which is not null. |
| Auth.LoginThenCurrentUser | app/helper/Auth.php:32-36 | After a successful login the session is logged in as exactly that id. Other keys, the flash queue and the remembered input are unchanged. |
| Auth.LoginFailuresIndistinguishable | app/helper/Auth.php:21-30 | An unknown id and a wrong password give the same result: `false` and the untouched session. |
| Auth.LogoutLogsOut | app/helper/Auth.php:44-57 | After logout, `isLogined` is false. |
| SampleRegister.Main | app/controller/SampleRegister.php:51-94 | Each of the four paths queues exactly one flash and redirects: mismatch, throwing store, duplicate, success. Only success changes the table (one new live row), clears the remembered input and redirects to `/`. The mismatch is checked before the store is touched. |
| LoginController.Main | app/controller/session/Login.php:19-45 | A throwing store gives the DB alert and `/login`. A successful `Auth::login` gives the success info, logged in as the id, cleared input and `/top`. Any other failure gives the credentials alert and `/login`, with the session keys untouched. |
| LoginController.UnknownIdLooksLikeWrongPassword | app/controller/session/Login.php:25-35 | An unknown id and a wrong password give identical responses. |
| LogoutController.Main | app/controller/session/Logout.php:10-16 | Afterwards nobody is logged in, the only thing the session holds is the farewell info message, and the redirect is `/`. |
| LogoutController.MainIsUnconditional | app/controller/session/Logout.php:10-16 | The response does not depend on the session before logout. |
| NeedAuth.Handle | app/routes/middleware/NeedAuth.php:14-19 | An anonymous session gets exactly one "login required" info message. A logged-in session is unchanged. The login state and other keys never change. |
| NeedAuth.ShouldOverride | app/routes/middleware/NeedAuth.php:25-28 | The route is overridden exactly when `AYLogin` is missing or null, which is exactly when `handle` changes the session. |
| NeedAuth.LoginAndLogoutGate | app/routes/middleware/NeedAuth.php:25-28 | The route is not overridden after a successful login, and is overridden after logout. |
| SampleApi.Main | app/api/SampleApi.php:42-61 | Succeeds exactly when the id has a live row. On success the payload is only `user_name`, taken from a live row with the id. Otherwise the payload is only the not-found message. |
| SampleApi.DeletedUserNotServed | app/api/SampleApi.php:49-60 | After `deleteUser` the API answers "not found" for that id. |
| Strings.Split | app/public/assets/js/ayutenn/FileUploader.js:137 | `split(',')`: at least one part, no part contains the separator, and joining the parts with the separator gives back the input. |
| Strings.IndexOf | app/public/assets/js/ayutenn/FileUploader.js:143 | `indexOf`: -1 exactly when the pattern does not occur. Otherwise the returned position is the first occurrence. |
| FileUploader.AcceptedBy | app/public/assets/js/ayutenn/FileUploader.js:138-152 | The scan accepts exactly when some entry accepts the file type. |
| FileUploader.Decide | app/public/assets/js/ayutenn/FileUploader.js:127-161 | Each file gets one decision about itself. It is the size error exactly when the file is oversized. It is the type error exactly when the file is within the size limit, the type list is set and no entry of the list accepts the type. |
| FileUploader.DecideAgrees | app/public/assets/js/ayutenn/FileUploader.js:127-161 | The per-file decision uploads exactly the acceptable files: within the size limit, and either no type list or some entry accepts. It gives the size error exactly for oversized files. |
| FileUploader.HandleFiles | app/public/assets/js/ayutenn/FileUploader.js:120-163 | One decision per file, in order. A file is uploaded exactly when acceptable, and gets the size error exactly when oversized. The uploads are the acceptable files in their original order. |
| FileUploader.SizeLimitInclusive | app/public/assets/js/ayutenn/FileUploader.js:129-132 | A file of exactly the maximum size is uploaded when no type list is set. |
| FileUploader.WildcardIsPlainPrefix | app/public/assets/js/ayutenn/FileUploader.js:142-147 | For a base without a slash, `base/*` accepts exactly the types that start with `base`. |
| FileUploader.ImageWildcard | app/public/assets/js/ayutenn/FileUploader.js:142-147 | `image/*` accepts `imagex/png` and refuses `text/plain`. |
| FileUploader.EntriesNotTrimmed | app/public/assets/js/ayutenn/FileUploader.js:137-151 | In the list `"a, b"` the entry `" b"` keeps its space, so type `b` is refused. |
| FileUploader.TrailingCommaAcceptsUntyped | app/public/assets/js/ayutenn/FileUploader.js:135-151 | A list ending in a comma has an empty entry, which accepts files of unknown (empty) type. |
| Util.EscapeHtml | app/public/assets/js/ayutenn/util.js:3-11 | The result of the six chained replaces is each character of the input replaced by its own entity. |
| Util.EscapeRulesAreSubstitution | app/public/assets/js/ayutenn/util.js:3-11 | The six chained replaces are one per-character substitution, so nothing is escaped twice. |
| Util.EscapeRulesChar | app/public/assets/js/ayutenn/util.js:4-10 | Each special character becomes its own entity, and every other character is kept. |
| Util.EscapeHtmlOutput | app/public/assets/js/ayutenn/util.js:3-11 | The output contains none of `< > " ' /` and is never shorter than the input. Text without special characters is unchanged. |
| Util.EscapeHtmlRoundTrip | app/public/assets/js/ayutenn/util.js:3-11 | Decoding the six entities gives back the original text. |
| Util.EscapeHtmlInjective | app/public/assets/js/ayutenn/util.js:3-11 | Different texts escape to different strings. |
| Util.SwitchView | app/public/assets/js/ayutenn/util.js:12-21 | Every element of the group with the key is shown. Every other element of the group is hidden. Elements outside the group are untouched. |
| Util.SwitchViewUnknownKeyHidesGroup | app/public/assets/js/ayutenn/util.js:15-20 | When no element of the group has the key, the whole group ends up hidden. |
| Util.SwitchViewIdempotent | app/public/assets/js/ayutenn/util.js:12-21 | Switching to the same view twice is the same as switching once. |
| Html.H | app/helper/shorthands.php:6-9 | The output contains none of `< > " '` and is never shorter than the input. Text without special characters is unchanged. |
| FlashMessage.Render | app/views/components/FlashMessage.php:27-48 | Prints one div per queued message, in queue order, and nothing for an empty queue. |
| FlashMessage.DivShape | app/views/components/FlashMessage.php:35-47 | Each message is one div: it starts with the alert class prefix and ends with the closing tag. No `<` occurs in between, and the escaped text contains no quote that could end the attribute. |
| FlashMessage.TypeClassTable | app/views/components/FlashMessage.php:16-20 | Info, error and alert map to `alert-info`, `alert-error` and `alert-warning`, so distinct kinds get distinct classes. Any other type falls back to `alert-info`. |
| FlashMessage.RenderSingle | app/views/components/FlashMessage.php:35-47 | One message whose text needs no escaping renders as one div showing the text verbatim. |
| FlashMessage.MissingKeysDefault | app/views/components/FlashMessage.php:36-37 | A missing type renders as `INFO` and a missing text as empty text, so a message with neither renders as an empty info box. |
| Scenarios.RegisterThenLogin | app/controller/SampleRegister.php:66-79 | Registering a fresh id and then logging in with the same password succeeds, redirects to `/top` and passes `NeedAuth`. |
| Scenarios.RegisterThenWrongPassword | app/helper/Auth.php:27-30 | After registration, any password that differs from the registered one within the first 72 UTF-8 bytes (the bytes bcrypt reads) is refused, and the session is unchanged. |
| Scenarios.RegisterThenLongPrefixLogsIn | app/helper/Auth.php:27-30 | After registering a password of 72 bytes or more, any password with the same first 72 bytes logs in. |
| Password.VerifyRejectsOthers | app/helper/Auth.php:27-30 | `password_verify` refuses a password that differs from the hashed one within the first 72 UTF-8 bytes. |
| Password.LongPasswordsCollide | app/database/SampleUserManager.php:30 | bcrypt reads only the first 72 bytes, so two passwords that agree there verify against each other's hash. |
| Password.ShortAsciiPasswordsDistinct | app/database/SampleUserManager.php:30 | Distinct ASCII passwords of at most 72 characters never verify against each other's hash. |
| Scenarios.RegisterTwice | app/controller/SampleRegister.php:80-84 | A second registration of the same id reports the duplicate, returns to the form and leaves the table as it was. |
| Scenarios.LogoutRendersFarewell | app/controller/session/Logout.php:12-13 | The page after logout renders exactly one info box with the farewell text. |

## Left out

- Database access (PDO, `DbConnector`, `executeStatement`, `executeAndFetchAll`) is replaced by the table value.
- The timestamp columns (`last_login`, `on_create`, `on_update`) are not modelled, because they hold `CURRENT_TIMESTAMP`, a clock read.
- Hashing is not cryptography. `PASSWORD_DEFAULT` is bcrypt, which reads only the first 72 bytes of the UTF-8 password. `Password.Hash` records the salt and those bytes, and `Password.Verify` compares a candidate's first 72 bytes with them. Passwords that share their first 72 bytes therefore verify against each other's hash (`Password.LongPasswordsCollide`). bcrypt's handling of NUL bytes depends on the implementation and is not modelled.
- UserStore.GetUser: `getUser` has no `ORDER BY`, so the database may return matching rows in any order. The model returns them in table order.
- UserStore.GetUser: the `WHERE user.user_id = :user_id` test (SampleUserManager.php:88) compares with the column's collation, which is case-insensitive under common MySQL defaults. The model compares ids by exact code points, so `Alice` and `alice` are different users here.
- UserStore.CreateUser: the duplicate check uses the same exact-code-point comparison, so under a case-insensitive collation the database may treat as a duplicate an id the model accepts.
- UserStore.UpdateUser: the `WHERE user_id = :user_id` test (SampleUserManager.php:162) is modelled by exact code-point equality, not by the column's collation.
- UserStore.DeleteUser: the `WHERE user_id = :user_id` test (SampleUserManager.php:183) is modelled by exact code-point equality, not by the column's collation.
- UserStoreProps.RecreateAfterDelete: the schema of the `user` table is not part of this model. The lemma assumes `user_id` has no unique key. With one, the re-insert after a soft delete would throw, and `createUser` would report the DB error.
- UserStore.GetUsers: `page` and `count` are naturals. A negative `LIMIT` is an SQL error whose form depends on the database engine.
- UserStore.SortById: the collation of `user_id` is the database's. The model orders by code points.
- UserStore.CreateUser: the store's `QueryResult::success()` carries an empty message in the model. The framework's default message is not part of this model.
- UserStore.GetUsers: `getUsers` names its parameter `$page` but binds it directly as the `LIMIT` offset. The model follows the code (see Findings).
- UserStore.GetUsersIntended: `ORDER BY user_id` leaves the order of rows with equal ids to the database. Such ties arise once deleted rows are listed and an id was re-created after a delete. `UserStore.SortById` breaks them by table order, so the model fixes one of the orders the database may choose.
- The framework's form validation, routing, views (`head.php`, the guest pages), `index.php`, `route.php` and the logger are not modelled. Controllers start after validation has succeeded.
- SampleApi.Main: `SampleApi` has no `try`/`catch`, so a database exception propagates to the framework, which is not part of this model. The API is modelled without faults.
- Auth.GetLoginUser: `$_SESSION` contents written by code outside the model are abstracted to `Value`. The PHP return type `array` is not checked, so a non-array value (a `TypeError` in PHP) is returned as is.
- Util.SwitchView: the DOM query is modelled as a filter on each element's group and key attributes. Selector quoting (a group or key containing a quote) is left out, because it depends on the CSS selector parser.
- FileUploader: the upload request (`uploadFile`), progress display, `formatFileSize`, the error callbacks and the drag-and-drop wiring are I/O and are left out. A decision records which of upload and error happens.
- The other widgets (`accordion.js`, `customSelect.js`, `modal.js`, `popover.js`, `tab.js`, `toast.js`) and `scripts/download_assets.php` are outside the modelled core.
- Html.H: `htmlspecialchars` returns `""` for invalid UTF-8. A Dafny `string` always holds valid characters, so that case cannot arise.

## Findings

| source | as written | input that shows it | evidently intended | confidence | as-written member | corrected member |
|---|---|---|---|---|---|---|
| app/database/SampleUserManager.php:134-141 | `LIMIT :page, :count` binds the page number as the row offset | three live users `a`, `b`, `c` and `count = 2`: page 0 is `a, b` and page 1 is `b, c` | the offset is `page * count`, so pages do not overlap | medium, not executed | UserStoreProps.GetUsersPagesOverlap | UserStoreProps.IntendedPagesTile |
| app/database/SampleUserManager.php:120-131 | with `include_deleted_user = true` the `WHERE` clause is empty, giving `WHERE ORDER BY` | `getUsers(0, 10, true)` on any table | no filter at all, so deleted rows are listed too | high, not executed | UserStoreProps.GetUsersWithDeletedFails | UserStoreProps.IntendedListsDeleted |
