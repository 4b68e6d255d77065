# GoDrive image catalogue, modelled in Dafny

GoDrive is a Telegram bot that keeps images on Google Drive and indexes them
in a single SQLite table, `images`. This project models the catalogue side of
the bot: the table and the queries `drive_bot/database.py` runs on it, the
`db_operation` retry decorator that wraps those queries, the admin `/upload`
and `/delete` commands, and the "Get Drive Link" button, whose callback data
is `"link_" + title`.

Layout, one module per file:

- `wrappers.dfy` (`Wrappers`): `Option`.
- `strings.dfy` (`Strings`): the Python string operations the bot uses:
  `strip`, `" ".join`, the `in` substring test and `replace(old, "")`.
- `schema.dfy` (`Schema`): the schema as `init_db` and `migrate_database` see it.
- `catalogue.dfy` (`Catalogue`): the row type, the table constraints, the
  `ImageStore` class (rows, the `AUTOINCREMENT` counter and the schema), the
  in-place updates as store methods, and `list_images`, `search_images` and
  `get_stats` as functions over the rows.
- `retry.dfy` (`Retry`): `db_operation` as a method with a loop. It is proved
  against an accumulator function and a closed form.
- `upload.dfy` (`UploadHandler`): `is_valid_title`, the title choice and the
  guard chain of `upload_image`.
- `delete.dfy` (`DeleteHandler`): the admin hard delete.
- `callback.dfy` (`ButtonHandler`): the callback codec and `button_callback`.

The Telegram download, the Drive calls and the outcome of each database
attempt are parameters. The handlers return their replies and a trace of
what they did to the connection and to Drive. The clock is a `nat`
parameter (`now`).

Some behaviours of the source are kept as written, not tidied up. The delete
handler never calls `close()` when the title is missing or the Drive call
raises. Upload checks the title against every row, soft-deleted ones
included. The button serves the link of a soft-deleted image.

## Model

| member | source | states |
|---|---|---|
| Catalogue.WellFormedTitlesUnique | drive_bot/database.py:24-36 | the table constraints (`UNIQUE (title)`, unique `drive_file_id`, increasing ids) imply that no two rows share a title |
| Catalogue.HasTitle | drive_bot/handlers/upload_handler.py:67-68 | defines "some row, active or not, has the title", the `SELECT 1 ... WHERE title = ?` duplicate check; `Catalogue.FindByTitle` and `UploadHandler.ExistingTitleStopsUpload` state its use |
| Catalogue.HasDriveId | drive_bot/database.py:27 | defines "some row has the Drive id", the `drive_file_id UNIQUE` constraint the INSERT checks; `Catalogue.ImageStore.Insert` states its use |
| Catalogue.Filter | drive_bot/database.py:191 | a `WHERE` clause keeps exactly the rows satisfying it, never more rows than the table, each at most as often as in the table |
| Catalogue.FindByTitle | drive_bot/handlers/button_handler.py:17-19 | a `WHERE title = ?` lookup with no `is_active` filter finds a row exactly when some row, active or not, has the title, and the row it finds has that title |
| Catalogue.FindByTitleUnique | drive_bot/database.py:36 | with unique titles the lookup returns the one row that has the title |
| Catalogue.FindActive | drive_bot/database.py:173-178 | finds a row exactly when an active row has the title; the row found is active and has the title |
| Catalogue.ImageStore.constructor | drive_bot/database.py:11-69 | a fresh file holds no rows, its counter starts at 1 and its schema is what a successful `init_db` creates on an empty file |
| Catalogue.ImageStore.InitDb | drive_bot/database.py:11-69 | `init_db` changes only the schema and reports success, both as `Schema.InitDb` says, and changes no row |
| Catalogue.ImageStore.MigrateDatabase | drive_bot/database.py:72-93 | `migrate_database` changes only the schema, as `Schema.Migrate` says, and reports whether it raised |
| Catalogue.ImageStore.Insert | drive_bot/database.py:22-37 | an INSERT succeeds exactly when neither the title nor the Drive id is in any row, soft-deleted rows included; on success it appends one row whose id is the counter, above every earlier id, and keeps the constraints; on failure nothing changes |
| Catalogue.ImageStore.AddImage | drive_bot/database.py:132-160 | returns True exactly when neither the title nor the Drive id is taken; then it appends one active `image/jpeg` row with a new, larger id and `last_accessed` set to now; otherwise it returns False and the table is unchanged |
| Catalogue.Touched | drive_bot/database.py:169-172 | the `UPDATE` sets `last_accessed` on the rows with the title, active or not, and changes no other row |
| Catalogue.TouchedKeepsTable | drive_bot/database.py:169-172 | the update changes nothing but `last_accessed` and keeps the table constraints |
| Catalogue.ImageStore.GetImageByTitle | drive_bot/database.py:162-178 | stamps `last_accessed` on the row with the title whether or not it is active, then returns a row exactly when an active row has the title; that row carries the new stamp |
| Catalogue.Deactivated | drive_bot/database.py:204-207 | the soft delete sets `is_active = 0` on the rows with the title and changes no other row; the row count stays the same |
| Catalogue.DeactivatedKeepsRows | drive_bot/database.py:204-207 | the soft delete changes only `is_active`, removes no row and keeps the table constraints |
| Catalogue.DeactivatedCompatible | drive_bot/database.py:204-207 | the soft delete keeps the uniqueness and id-order constraints |
| Catalogue.DeactivatedIdempotent | drive_bot/database.py:204-207 | a second soft delete of the same title leaves the table identical |
| Catalogue.DeactivatedHidesTitle | drive_bot/database.py:204-207 | after the soft delete no active row has the title |
| Catalogue.DeactivatedKeepsTitle | drive_bot/database.py:204-207 | after the soft delete the title is still taken exactly when it was before |
| Catalogue.ImageStore.DeleteImage | drive_bot/database.py:197-208 | returns true exactly when a row with the title exists, even one already inactive; the table becomes the soft-deleted table |
| Catalogue.Removed | drive_bot/handlers/delete_handler.py:42 | the `DELETE` keeps exactly the rows whose title differs |
| Catalogue.RemovedKeepsTable | drive_bot/handlers/delete_handler.py:42 | the hard delete keeps the table constraints and leaves no row with the title |
| Catalogue.RemovedCount | drive_bot/handlers/delete_handler.py:42 | with unique titles the hard delete removes one row when the title exists and none otherwise |
| Catalogue.ImageStore.HardDelete | drive_bot/handlers/delete_handler.py:42-43 | the committed `DELETE` leaves the table as `Removed` says and keeps the constraints |
| Catalogue.ActiveRows | drive_bot/database.py:191 | `WHERE is_active = 1` keeps exactly the active rows |
| Catalogue.Listing | drive_bot/database.py:188-192 | defines the active rows ordered by `upload_time DESC`; `Catalogue.ListingFacts` states that it is newest first and holds exactly the active rows |
| Catalogue.Page | drive_bot/database.py:188-195 | defines the `LIMIT ? OFFSET ?` window of the listing; `Catalogue.PageFacts` states its facts |
| Catalogue.InsertByTime | drive_bot/database.py:192 | inserting one row into the ordered result adds exactly that row: a permutation with one more element |
| Catalogue.InsertByTimeSorted | drive_bot/database.py:192 | inserting into a newest-first sequence keeps it newest first |
| Catalogue.SortNewestFirst | drive_bot/database.py:192 | `ORDER BY upload_time DESC` yields a permutation of its input with non-increasing upload times |
| Catalogue.InsertByTimeTitlesUnique | drive_bot/database.py:192 | inserting a row with a new title keeps titles unique |
| Catalogue.SortTitlesUnique | drive_bot/database.py:192 | ordering keeps titles unique |
| Catalogue.Start | drive_bot/database.py:193 | `OFFSET` clamps: a negative offset starts at row 0, one within the table at that row, one past it at the end |
| Catalogue.Window | drive_bot/database.py:193 | `LIMIT ? OFFSET ?` is a contiguous slice; with non-negative arguments its length is the limit or what is left after the offset, whichever is smaller; a negative limit is no limit and a negative offset counts as zero |
| Catalogue.WindowAt | drive_bot/database.py:193 | element `i` of a `LIMIT ? OFFSET ?` window is element `offset + i` of the result, or element `i` for a negative offset |
| Catalogue.ListingFacts | drive_bot/database.py:188-192 | the ordered listing holds the active rows only, as many as there are, newest first |
| Catalogue.PageOfSorted | drive_bot/database.py:193 | a window of a newest-first sequence is newest first and holds only its elements |
| Catalogue.PageFacts | drive_bot/database.py:188-195 | a page holds active rows only, newest first, and for non-negative arguments has `min(limit, max(0, active - offset))` rows |
| Catalogue.ListImages | drive_bot/database.py:180-195 | `list_images` returns entries of active rows only, with non-increasing upload times, and for non-negative arguments `min(limit, max(0, active - offset))` of them; entry `i` is row `offset + i` of the newest-first listing (row `i` for a negative offset) |
| Catalogue.WindowsDisjoint | drive_bot/database.py:193 | windows at offsets `k` and `k + limit` of a sequence with unique titles share no title |
| Catalogue.ListPagesDisjoint | drive_bot/database.py:180-195 | the pages at offsets `k` and `k + limit` share no image |
| Catalogue.Matches | drive_bot/database.py:221 | the `WHERE` of `search_images` keeps exactly the active rows whose title contains the query |
| Catalogue.SearchImages | drive_bot/database.py:210-224 | the hits are the active rows whose title contains the query, in table order: the first `min(limit, matches)` of them, or all of them for a negative limit |
| Catalogue.KnownSizeTotal | drive_bot/database.py:235 | the sum of the known sizes is 0 when no size is known |
| Catalogue.SumSizes | drive_bot/database.py:235 | `SUM(file_size)` is NULL exactly when no size is known, and otherwise the sum of the known sizes |
| Catalogue.OldestUpload | drive_bot/database.py:236 | `MIN(upload_time)` is NULL exactly over no rows, and otherwise the least upload time, which some row has |
| Catalogue.NewestUpload | drive_bot/database.py:237 | `MAX(upload_time)` is NULL exactly over no rows, and otherwise the greatest upload time, which some row has |
| Catalogue.GetStats | drive_bot/database.py:226-241 | `total_images` is the number of active rows; `total_size` is the sum of the non-null sizes of active rows, NULL when there are none; the oldest and newest upload times are the least and greatest over active rows, and the newest is NULL exactly when there is no active row |
| Schema.InitDb | drive_bot/database.py:11-69 | succeeds exactly when each index exists or its column does; then it creates exactly what is missing (the images table, both indexes, the metadata table, `schema_version = '1.1'` when absent) and keeps existing tables, metadata values and `user_version`; when an index cannot be created on an existing table lacking its column, the statements before it stay applied and the metadata is unchanged |
| Schema.InitDbFreshFile | drive_bot/database.py:11-69 | on an empty file `init_db` succeeds and creates the table, both indexes and `schema_version = '1.1'` |
| Schema.CreateIndex | drive_bot/database.py:41-46 | `CREATE INDEX IF NOT EXISTS` succeeds exactly when the index exists or the table has its column; it then adds the index, and otherwise changes nothing |
| Schema.InitDbIdempotent | drive_bot/database.py:11-69 | once `init_db` has succeeded, running it again on every start-up changes nothing |
| Schema.AddColumn | drive_bot/database.py:84-85 | `ALTER TABLE ... ADD COLUMN` succeeds exactly when the table exists and lacks the column; otherwise the schema is unchanged |
| Schema.Migrate | drive_bot/database.py:72-93 | defines `migrate_database` as written: at `user_version` 0 two unconditional `ADD COLUMN`s, then `user_version = 1`, an earlier `ALTER` staying applied when a later one fails; `Schema.MigrateLegacyTable` and `Schema.MigrateFailsAfterInit` state its facts |
| Schema.MigrateLegacyTable | drive_bot/database.py:72-93 | on a version-0 table lacking both columns, the migration adds them and sets `user_version` to 1 |
| Schema.MigrateFailsAfterInit | drive_bot/database.py:81-87 | on a file `init_db` created, the migration as written raises, changes nothing and leaves `user_version` at 0 |
| Schema.MigrateFixed | drive_bot/database.py:72-93 | the corrected migration fails only when there is no images table at version 0, and then changes nothing |
| Schema.MigrateFixedAfterInit | drive_bot/database.py:72-93 | the corrected migration succeeds after `init_db` and leaves the version at 1 or above; for a file at `user_version` 0, which is every file `init_db` created, since `init_db` never sets it, both columns are then present; a file already past version 0 is left as `init_db` left it |
| Schema.MigrateFixedIdempotent | drive_bot/database.py:72-93 | running the corrected migration again changes nothing |
| Retry.TryOnce | drive_bot/database.py:101-128 | one attempt retries exactly on a "locked" OperationalError before the last attempt, with connect, the back-off wait and close; otherwise it ends the call with what `Final` says |
| Retry.IsLockError | drive_bot/database.py:109-110 | defines "an OperationalError whose text contains `locked`", the retry condition; `Retry.RetryOnlyOnLock` states its use |
| Retry.BackoffMs | drive_bot/database.py:111-113 | defines the wait `(attempt + 1) * 0.5` s in milliseconds; `Retry.BackoffIsLinear` states it in the trace |
| Retry.Final | drive_bot/database.py:106-128 | defines an attempt after which the wrapper stops: commit and return, rollback on a non-operational `sqlite3.Error`, escape otherwise, close in every case; `Retry.FinalFacts` states its facts |
| Retry.Wrapper | drive_bot/database.py:95-130 | defines the wrapper's result and trace over three attempt outcomes; `Retry.WrapperClosedForm`, `Retry.AttemptsBounded`, `Retry.EveryConnectionClosed`, `Retry.CommitOnlyOnReturn` and `Retry.RetryOnlyOnLock` state its facts |
| Retry.DbOperation | drive_bot/database.py:95-130 | the wrapper's result and its trace of connects, commits, rollbacks, closes and waits are those of the specification `Wrapper` |
| Retry.Stop | drive_bot/database.py:100-114 | the attempt at which the wrapper stops is below three, is not a retrying failure, and every earlier attempt was |
| Retry.RunFromClosedForm | drive_bot/database.py:100-129 | the run is the retried blocks up to the stopping attempt followed by that attempt's events and outcome |
| Retry.FinalFacts | drive_bot/database.py:102-128 | the last attempt connects first and closes last; it commits exactly when the call returned, rolls back exactly on a `sqlite3.Error` that is no OperationalError, and an exception escapes exactly when it is no `sqlite3.Error` |
| Retry.WrapperClosedForm | drive_bot/database.py:95-130 | the wrapper's result and trace in closed form from attempt 0 |
| Retry.AttemptsBounded | drive_bot/database.py:99-100 | at most three attempts, numbered in order, each connecting once |
| Retry.EveryConnectionClosed | drive_bot/database.py:126-128 | every connection is closed before the next one opens and before the wrapper returns |
| Retry.CommitOnlyOnReturn | drive_bot/database.py:106-108 | a commit happens exactly when the caller gets the wrapped call's result, at most once, and that result is what the last attempt returned after lock errors only |
| Retry.RetryOnlyOnLock | drive_bot/database.py:110-114 | an attempt `b` happens only for `b < 3` and only when every attempt before it raised a "locked" OperationalError |
| Retry.NoRetryAfterOtherFailure | drive_bot/database.py:115-125 | any other failure ends the call with no retry and no result; only a non-operational `sqlite3.Error` rolls back, and only an exception outside `sqlite3.Error` escapes |
| Retry.BackoffIsLinear | drive_bot/database.py:111-113 | each wait follows the connect of a retried attempt below the last one and lasts `500 * (attempt + 1)` ms |
| Retry.LockedTwiceThenSuccess | drive_bot/database.py:100-114 | two lock errors then success: the result comes back after waits of 500 ms and 1000 ms, with one commit |
| Retry.LockedThroughout | drive_bot/database.py:110-118 | three lock errors: no result and no commit |
| Strings.StripLeft | drive_bot/handlers/upload_handler.py:38 | `lstrip` removes only leading whitespace, and all of it |
| Strings.StripRight | drive_bot/handlers/upload_handler.py:38 | `rstrip` removes only trailing whitespace, and all of it |
| Strings.Strip | drive_bot/handlers/upload_handler.py:38-40 | defines `str.strip()`, also used at delete_handler.py:20, as the right strip of the left strip; `Strings.StripIsTrim`, `Strings.StripEnds` and `Strings.StripIdempotent` state its facts |
| Strings.StripIsTrim | drive_bot/handlers/upload_handler.py:38 | `strip` returns an infix of its input with only whitespace cut off either end |
| Strings.StripEnds | drive_bot/handlers/upload_handler.py:38 | a stripped string has no whitespace at either end |
| Strings.StripIdempotent | drive_bot/handlers/upload_handler.py:38 | stripping twice is stripping once |
| Strings.Join | drive_bot/handlers/delete_handler.py:20 | joining one argument gives it back; a join starts with the first argument |
| Strings.RemoveAll | drive_bot/handlers/button_handler.py:13 | `replace(pat, "")` never makes a string longer |
| Strings.RemoveAllAbsent | drive_bot/handlers/button_handler.py:13 | removing a pattern that does not occur changes nothing |
| Strings.RemoveAllPresentShrinks | drive_bot/handlers/button_handler.py:13 | removing a pattern that occurs makes the string strictly shorter |
| UploadHandler.AllTitleChars | drive_bot/handlers/upload_handler.py:16 | true exactly when every character is alphanumeric or one of ` -_.,` |
| UploadHandler.IsValidTitleIff | drive_bot/handlers/upload_handler.py:12-16 | the empty title and titles over 100 characters are refused; any other title is valid exactly when every character is allowed |
| UploadHandler.IsValidTitle | drive_bot/handlers/upload_handler.py:12-16 | defines `is_valid_title`; `UploadHandler.IsValidTitleIff` states its facts |
| UploadHandler.ExtractTitle | drive_bot/handlers/upload_handler.py:37-43 | a chosen title is already stripped |
| UploadHandler.ExtractTitleChoice | drive_bot/handlers/upload_handler.py:37-43 | the joined, stripped arguments win over the caption; the stripped caption is used only without arguments and when it is non-empty; with neither there is no title |
| UploadHandler.NewRow | drive_bot/handlers/upload_handler.py:114-128 | defines the five INSERT values (title, Telegram file id, Drive id, `webViewLink`, `webContentLink` or `''`), the others NULL; `UploadHandler.InsertOnlyAfterDrive` states its use |
| UploadHandler.Handle | drive_bot/handlers/upload_handler.py:25-154 | defines the handler once the title is extracted: the four guards in order, then the duplicate check, the Drive calls and the INSERT; `UploadHandler.GuardsBeforeDatabase` states its facts |
| UploadHandler.UploadSpec | drive_bot/handlers/upload_handler.py:18-154 | defines `upload_image` on a table: `Handle` with the title `ExtractTitle` picks; `UploadHandler.UploadImage` is proved equal to it and the upload lemmas state its facts |
| UploadHandler.GuardsBeforeDatabase | drive_bot/handlers/upload_handler.py:25-63 | the guards answer in the order non-admin, no photo, no title, invalid title, each exactly under its condition, and each before the database is opened |
| UploadHandler.ExistingTitleStopsUpload | drive_bot/handlers/upload_handler.py:66-73 | any row with the title, active or soft-deleted, stops the upload before the download and any Drive call |
| UploadHandler.InsertOnlyAfterDrive | drive_bot/handlers/upload_handler.py:76-134 | a row is inserted only after the download, the Drive create and the permission call, under the name `title + ".jpg"`; it holds the title, the largest photo, the Drive id, `webViewLink` as share link and `webContentLink` or "" as direct link |
| UploadHandler.OnlySuccessInserts | drive_bot/handlers/upload_handler.py:113-148 | a row is inserted exactly when the reply is the success message; every failure leaves the table alone |
| UploadHandler.ConnectionClosed | drive_bot/handlers/upload_handler.py:149-152 | once the connection is opened it is closed, last |
| UploadHandler.UploadImage | drive_bot/handlers/upload_handler.py:18-154 | the reply and trace are the specification's, and the table gains the specified row exactly when one is inserted and is otherwise unchanged |
| UploadHandler.StoreUpload | drive_bot/handlers/upload_handler.py:62-154 | the part after validation: the reply and trace are `Stored`'s, and the table gains the specified row exactly when one is inserted |
| DeleteHandler.GuardsFirst | drive_bot/handlers/delete_handler.py:12-18 | a non-admin gets "admin only" and an admin without arguments gets the usage text, each exactly under its condition, before the database is opened and with no change |
| DeleteHandler.DeleteTitle | drive_bot/handlers/delete_handler.py:20 | defines the title `" ".join(context.args).strip()`; `Strings.StripIsTrim` states what the strip keeps |
| DeleteHandler.Lookup | drive_bot/handlers/delete_handler.py:22-51 | defines the handler once the title is known: SELECT, "not found", Drive delete, DELETE, commit, close; `DeleteHandler.MissingTitle` and `DeleteHandler.DriveDeleteFirst` state its facts |
| DeleteHandler.DeleteSpec | drive_bot/handlers/delete_handler.py:10-51 | defines `delete_image` on a table: the two guards, then `Lookup`; `DeleteHandler.GuardsFirst` states its facts and `DeleteHandler.AdminDelete` is proved equal to it |
| DeleteHandler.MissingTitle | drive_bot/handlers/delete_handler.py:26-34 | the reply is "not found" exactly when no row, active or not, has the title; the table is unchanged and `close()` is never called |
| DeleteHandler.DriveDeleteFirst | drive_bot/handlers/delete_handler.py:36-51 | the Drive file of the row is deleted before the row; if that fails the row stays, the reply is an error and `close()` is never called; otherwise the row is deleted and committed and the connection closed |
| DeleteHandler.HardDeleteEffect | drive_bot/handlers/delete_handler.py:42-43 | a successful delete removes the row with the title entirely, keeps every other row, and shrinks the table by one |
| DeleteHandler.AdminDelete | drive_bot/handlers/delete_handler.py:10-51 | the reply and trace are the specification's; the table loses the row with the title exactly when the specification removes it and is otherwise unchanged |
| DeleteHandler.RemoveByTitle | drive_bot/handlers/delete_handler.py:22-51 | the part after the guards: reply, trace and table as `Lookup` says |
| ButtonHandler.EncodeCallback | drive_bot/handlers/text_handler.py:24 | the data starts with `link_` and the intended decoding gives the title back |
| ButtonHandler.DecodeFixed | drive_bot/handlers/button_handler.py:13 | the corrected decoding removes a leading `link_` and nothing else |
| ButtonHandler.DecodeCallback | drive_bot/handlers/button_handler.py:13 | the decoding as written never makes the data longer |
| ButtonHandler.DecodeEncode | drive_bot/handlers/button_handler.py:13 | for a title without `link_` in it, decoding the button's data gives the title back |
| ButtonHandler.DecodeEncodeLoses | drive_bot/handlers/button_handler.py:13 | for a title with `link_` in it, the decoded title is strictly shorter, so another title is looked up |
| ButtonHandler.ValidTitleDecodedWrongly | drive_bot/handlers/upload_handler.py:12-16 | `xlink_y` passes the title validator, and its button looks up `xy` |
| ButtonHandler.DecodeFixedEncode | drive_bot/handlers/inline_handler.py:33 | the corrected decoding gives back every title, and differs from the decoding as written exactly on titles with `link_` in them |
| ButtonHandler.LinkCaption | drive_bot/handlers/button_handler.py:25-28 | the found-link caption contains the title and the share link, and differs from the not-found caption |
| ButtonHandler.CallbackCaption | drive_bot/handlers/button_handler.py:13-28 | defines the caption for callback data on a table: decode, look the title up in any row, the not-found or the link caption; `ButtonHandler.ButtonCallback`, `ButtonHandler.ButtonServesRow` and `ButtonHandler.WrongLinkServed` state its facts |
| ButtonHandler.ButtonCallback | drive_bot/handlers/button_handler.py:8-33 | the caption is "Link not found." exactly when no row, active or not, has the decoded title; otherwise it is the link caption of that row and contains its share link |
| ButtonHandler.ButtonServesRow | drive_bot/handlers/button_handler.py:17-19 | a button whose title has no `link_` in it serves the share link of the row with that title, even a soft-deleted one |
| ButtonHandler.WrongLinkServed | drive_bot/handlers/button_handler.py:13-19 | with rows `xy` and `xlink_y`, the button of `xlink_y` serves the share link of `xy` |

## Left out

- Telegram and Google Drive I/O (`reply_text`, `get_file`, `download_to_memory`, `files().create`, `files().delete`, `permissions().create`, `edit_message_caption`, `query.answer`): each is an outcome parameter or is left out. Reply texts are named constructors, not strings, except the button captions.
- Progress messages of the upload handler ("Downloading", "Uploading") and all logging: user-visible output only.
- `Catalogue.SearchImages`: `LIKE` ignores ASCII case and treats `%` and `_` in the query as wildcards. The model matches a plain, case-sensitive substring.
- `Catalogue.ListImages`: SQL leaves the order of rows with equal `upload_time` open. The model's `Catalogue.Listing` keeps table order among them, so which of several equally old rows a page holds is one choice SQLite may make, not the only one.
- `UploadHandler.AllTitleChars`: `isalnum` is Unicode-aware in Python. The model accepts ASCII letters and digits only.
- `Strings.StripLeft`, `Strings.StripRight`, `Strings.Strip`, `UploadHandler.ExtractTitle` and `DeleteHandler.DeleteTitle`: `strip` removes all Unicode whitespace. The model removes the ASCII whitespace `str.isspace()` accepts (tab, line feed, vertical tab, form feed, carriage return, U+001C to U+001F, space) and no non-ASCII whitespace such as U+0085, U+00A0 or U+2000 to U+200A.
- `Retry.DbOperation`: the waits are modelled as integer milliseconds and are not timed. The `'update' in kwargs` failure notices are user I/O, treated as "returns None". A failure of `connect`, `PRAGMA busy_timeout`, `commit` or `close` itself is not modelled.
- The store methods (`Catalogue.ImageStore.AddImage`, `GetImageByTitle`, `DeleteImage`) model one attempt of the decorated body together with its commit. `Retry.DbOperation` models the decorator separately, over abstract attempt outcomes, so what a retried body does to the table is not combined with the retries.
- `upload_time DEFAULT CURRENT_TIMESTAMP` and `datetime.now()` are the same `now` parameter. Timestamps are `nat`, not text.
- `UploadHandler.UploadImage`: only the Telegram download, the two Drive calls, a Drive file without `webViewLink` (the `KeyError` of `uploaded_file['webViewLink']`, answered as a failed upload with no INSERT) and the INSERT's IntegrityError can fail in the model. A failure of `connect`, of the duplicate-check SELECT or of `commit` is not modelled. A Drive file created before a later failure is not removed, in the source as in the model.
- `DeleteHandler.AdminDelete`: only the Drive delete can fail in the model. A failure of `connect`, the SELECT, the DELETE or `commit` is not modelled, and neither is the exception text in the error reply.
- `ButtonHandler.ButtonCallback`: the "Error retrieving link." caption comes only from failing I/O or queries, which are not modelled. The `db_operation` wrapper around the handler is modelled on its own in `Retry`. Telegram's 64-byte limit on callback data is not modelled.
- Concurrency: the race between the upload's duplicate check and its INSERT, and handlers interleaving on the same file. The model is sequential.
- SQLite internals: WAL mode, `foreign_keys`, `busy_timeout`, `row_factory`, real lock detection.
- `main.py`, `drive_bot/logger.py`, `drive_bot/drive_service.py`, `drive_bot/utils.py`, `setup.py` and the package `__init__` files: wiring, configuration, credentials and file-system helpers.
- `drive_bot/handlers/search_handler.py`, `text_handler.py`, `inline_handler.py` and `start_handler.py`: lookup and reply glue. Only their `"link_" + title` encoding is modelled, as `ButtonHandler.EncodeCallback`.
- The Python default arguments (`limit=100, offset=0` for listing, `limit=20` for search): the model takes the arguments explicitly.

## Findings

| source | as written | input that shows it | evidently intended | confidence | as-written member | corrected member |
|---|---|---|---|---|---|---|
| drive_bot/handlers/button_handler.py:13 | `query.data.replace("link_", "")` removes every `link_`, not only the prefix the buttons add | the valid title `xlink_y`: its button data `link_xlink_y` decodes to `xy`, so the button serves the link of `xy` or says "not found" | drop only the leading `link_` | high; not executed | ButtonHandler.ValidTitleDecodedWrongly | ButtonHandler.DecodeFixedEncode |
| drive_bot/database.py:81-87 | at `user_version` 0 the script adds `uploader_id` and `last_accessed` unconditionally | a file created by `init_db`: it already has both columns and `user_version` 0, so the first `ALTER` raises and the migration never completes | add only the missing columns, then set `user_version = 1` | medium (`main.py` never calls `migrate_database`); not executed | Schema.MigrateFailsAfterInit | Schema.MigrateFixedAfterInit |

The handler and store members model the code as written
(`ButtonHandler.ButtonCallback` decodes with `DecodeCallback`, and
`Catalogue.ImageStore.MigrateDatabase` runs `Schema.Migrate`). The corrected
definitions `ButtonHandler.DecodeFixed` and `Schema.MigrateFixed` are stated
and proved beside them.
