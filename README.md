# Hydraulisc accounts, admission and migration — a Dafny model

This project models the identity and admission logic of the Hydraulisc social/blog server:

- the registration gate (`checkRegistrationMode`) and the admin gate (`requireAdmin`) of `middleware/auth.js`, as pure decision functions over the configuration flags and the session user;
- the account, invite and session store behind `routes/auth.js` and `routes/api.js`, as a class `Accounts.Site` holding the `users` rows, the `invites` table (code to `used`), the `posts` rows, the AUTOINCREMENT counters and the requesting client's `req.session.user`; its methods are the `/login`, `/register`, `/logout` and `/admin/generate-invite` handlers, and `Api` holds the `/upload`, `/avatarUpdate` and `/bannerUpdate` handlers acting on the same object;
- schema migration v1 (`migrate-database-v1.js`) as a class over two generic tables whose methods run the two migration lists, specified by a fold `MigrationV1.Run` of one-step functions;
- `sanitizeText` (`middleware/forceTextDirections.js`), the stripping of bidirectional control characters, as a recursive filter.

Two small pure helpers the handlers rely on are modelled too: `String.prototype.trim` (`JsString.Trim`, applied to the user name before insertion) and the hex encoding of the random invite bytes (`Hex.HexEncode`, with its inverse).

Foreign calls become inputs. `bcrypt.compare` is a function parameter `verify` of `Login`. `bcrypt.hash` (salted, so not a function of the password) is the string `hashed` given to `Register`. `crypto.randomBytes(16)` is an oracle sequence of 16-byte strings. Whether a SQL statement succeeds is a boolean parameter per statement: `readOk`, `inviteReadOk`, `consumeOk`, `insertOk`, `reloadOk`, `updateOk`, and the `StepOutcome` of each migration entry. The INSERTs of the minting loop are the exception: the model decides only their UNIQUE-constraint failure, from the table itself, and leaves their other errors out. The multer file name and the clock (`created_at`) are inputs, and `global-variables.json` becomes the `Admission.Config` value.

The model follows the code where it departs from the intended design of unique `Name#DDDD` identities, uniform login failures and destroyed sessions:

- login looks a user up by `username` alone, and reports "User not found." and "Invalid password." separately;
- no discriminator is allocated;
- logout overwrites the session user with a record of nulls instead of removing it. That record passes the `!req.session.user` guards of the API and auth routes (routes/api.js:16, 36, 58, routes/auth.js:134, 150, middleware/auth.js:27). The page routes of index.js test `req.session.user?.id` instead (index.js:198, 366, 422) and refuse it, so for instance `/settings` redirects to `/login`; those pages are not part of this model. On the profile routes the `UPDATE ... WHERE id = ?` it leads to matches no row; on the upload route it leads to an INSERT with a NULL `user_id`.

The registration INSERT (`routes/auth.js:94-96`) supplies neither `discriminator` nor `language`. The `users` table of `index.js:22-35` declares both `NOT NULL` without defaults, so on a database created by that DDL the INSERT is refused. Migration v1 adds `discriminator` as a nullable column and never adds `language`. Migrations v2 and v3 (`migrate-database-v2.js:17-28`, `migrate-database-v3.js:52-63`) recreate `users` with `discriminator TEXT NOT NULL`, so the INSERT is refused there as well. The model leaves the INSERT's outcome as the parameter `insertOk` and proves what happens in both cases.

The same holds for uploads. The `posts` table of `index.js:48-60` declares `user_id` and `title` `NOT NULL`, so an upload by the logged-out record (whose `id` is null) or without a `title` is refused by that INSERT with 500 "Database error" (`routes/api.js:22-24`). The model does not decide this from the row: it is one of the cases `Api.Upload` leaves to `insertOk`, and with `insertOk` true it stores the NULLs.

The `users` table of `index.js:22-35` has no `banner` column either. It is added by migration v1 (`migrate-database-v1.js:35-38`) and is part of the v2 and v3 tables. On a database that index.js alone created, the UPDATE of `routes/api.js:64` fails with "no such column" and `/bannerUpdate` always answers 500. `Api.BannerUpdate` leaves this case to `updateOk`.

## Model

| member | source | states |
|---|---|---|
| `Admission.CheckRegistrationMode` | middleware/auth.js:7-19 | neither flag: 403 whatever the code; invite mode with a missing or empty code: 400; the disabled test comes first; registration proceeds iff some flag is set and invite mode has a non-empty code; open without invite mode always proceeds |
| `Admission.RequireAdmin` | middleware/auth.js:26-36 | no session user: 401; a user whose `isAdmin` is not true: 403; proceeds iff the session user is an administrator (also the copy at routes/auth.js:149-159) |
| `Admission.LoggedOutIsNotAdmin` | routes/auth.js:138-159 | the null record logout leaves is refused by requireAdmin with 403, not 401 |
| `TextDirection.SanitizeText` | middleware/forceTextDirections.js:5-8 | the result has none of U+200E, U+200F, U+202D, U+202E, U+2066-U+2069, is no longer than the input and contains only input characters |
| `TextDirection.SanitizeChar` | middleware/forceTextDirections.js:7 | a one-character string is emptied exactly when the character is in the class |
| `TextDirection.SanitizeConcat` | middleware/forceTextDirections.js:7 | sanitizing a concatenation is the concatenation of the sanitized parts; with SanitizeChar this fixes the result as the in-order filter |
| `TextDirection.SanitizeFixedIff` | middleware/forceTextDirections.js:7 | the output equals the input iff the input has no character of the class |
| `TextDirection.SanitizeIdempotent` | middleware/forceTextDirections.js:7 | sanitizing twice equals sanitizing once |
| `TextDirection.SanitizeKeepsOthers` | middleware/forceTextDirections.js:7 | every character outside the class occurs in the output exactly as often as in the input |
| `TextDirection.EmbeddingControlsKept` | middleware/forceTextDirections.js:7 | U+202A, U+202B and U+202C pass through unchanged |
| `JsString.Trim` | routes/auth.js:96 | the result is a contiguous slice of the input with only whitespace cut off either end, and neither end of it is whitespace |
| `JsString.TrimIdempotent` | routes/auth.js:96 | trimming a trimmed name changes nothing |
| `JsString.TrimFixes` | routes/auth.js:96 | a name with no whitespace at its ends is stored as typed |
| `Hex.HexEncode` | routes/auth.js:175 | two lower-case hex digits per byte, so 16 random bytes give a 32-character code |
| `Hex.DecodeEncode` | routes/auth.js:175 | decoding the hex code gives back the random bytes |
| `Hex.EncodeInjective` | routes/auth.js:175 | distinct random byte strings give distinct invite codes |
| `Accounts.FindByUsername` | routes/auth.js:34 | the index of the first row with that exact username, or none iff no row has it |
| `Accounts.FindAfterAppend` | routes/auth.js:34 | after a row is appended, a lookup by its username finds it only when no older row has the same name; otherwise the older row wins |
| `Accounts.InsertCodes` | routes/auth.js:174-178 | the sequence of inserts of the minting loop never removes or alters an invite that existed |
| `Accounts.InsertCode` | routes/auth.js:177 | an INSERT into the UNIQUE `code` column adds a new code with `used` 0 and leaves an existing code's row as it was |
| `Accounts.InsertCodesSpec` | routes/auth.js:174-178 | after minting, the codes are exactly the old codes plus the new ones; old invites keep their `used`; new ones are unused |
| `Accounts.InsertCodesHas` | routes/auth.js:174-178 | a code is in the invite table after minting iff it was there before or was minted |
| `Accounts.InsertFreshCodes` | routes/auth.js:174-178 | with fresh, pairwise distinct codes the invite table grows by exactly their number |
| `Accounts.Site.constructor` | index.js:22-60 | a fresh database: empty tables, counters at 1, no session user |
| `Accounts.Site.IsFirstUser` | routes/auth.js:17-24 | true iff the users table has no rows |
| `Accounts.Site.Login` | routes/auth.js:27-58 | missing or empty credentials: 400; lookup error: 500; unknown name: 401 "User not found."; failing verify: 401 "Invalid password."; session unchanged in all of these; on success the session is exactly {id, username, isAdmin = (isAdmin == 1)} of the first matching row |
| `Accounts.Site.HasUnusedInvite` | routes/auth.js:71-74 | the invite query finds a row iff the code is in the table with `used` 0 |
| `Accounts.Site.Register` | routes/auth.js:61-130 | gate refusal, invite lookup error, or an unknown or used code: that status and nothing changes; otherwise the code's `used` becomes 1 (all other invites unchanged) before the insert and stays 1 if the insert fails (500); if that UPDATE fails the code stays unused and registration still goes on; on insert success exactly one user row is appended with a fresh id, the trimmed name, the hash, the default pfp, theme 'default', the default biography, no banner and `isAdmin` 1 iff the table was empty; the session then holds that user unless reloading the row fails; posts untouched; ids stay unique |
| `Accounts.Site.Logout` | routes/auth.js:133-144 | no session user: 401; otherwise the session user becomes the all-null record and nothing is sent; a logout of the all-null record again sends nothing and leaves the same state |
| `Accounts.Site.GenerateInvite` | routes/auth.js:162-183 | requireAdmin's refusals pass through; a missing, zero, empty or non-numeric count: 400 with no inserts; otherwise the loop guarded by `i < count` yields max(count, 0) codes, the hex of the random bytes in order, each 32 hex digits, are returned and inserted as unused |
| `Api.Upload` | routes/api.js:15-28 | no session user: 401, then no file: 400, then insert failure: 500, with no change; on success exactly one post is appended with the session user's id, the body title, the clock and the stored filename |
| `Api.AvatarUpdate` | routes/api.js:35-50 | same guards; on success only the rows whose id is the session user's id get pfp "/avatars/" + filename, all else is unchanged; the logged-out record changes nothing |
| `Api.BannerUpdate` | routes/api.js:57-69 | same guards; on success only the session user's row gets banner "/banners/" + filename; the logged-out record changes nothing |
| `MigrationV1.ColumnExists` | migrate-database-v1.js:55-63 | true iff some column of the PRAGMA result has that name |
| `MigrationV1.AddColumn` | migrate-database-v1.js:76 | afterwards the column exists as the new last column with its type, every row gains the key with NULL and keeps every other value |
| `MigrationV1.FillNulls` | migrate-database-v1.js:84-95 | no NULL is left in the column; the NULLs became the default; values already there and all other columns are untouched; no key is added or removed |
| `MigrationV1.FillNullsIdempotent` | migrate-database-v1.js:86 | filling a second time changes nothing |
| `MigrationV1.Step` | migrate-database-v1.js:67-102 | a present column is skipped; a failed PRAGMA or ALTER leaves the table as it was; otherwise the column exists afterwards; values of earlier columns never change; an added column holds the default in every row, or NULL everywhere when the default is null or the UPDATE failed |
| `MigrationV1.ApplyMigration` | migrate-database-v1.js:68-100 | one forEach iteration of the callback chain computes Step |
| `MigrationV1.Run` | migrate-database-v1.js:67-102 | the forEach over a migration list only appends columns and keeps the rows |
| `MigrationV1.RunAddsEntry` | migrate-database-v1.js:76-80 | an entry whose PRAGMA and ALTER succeed has its column afterwards, whatever failed in the other entries: a failure does not stop the rest |
| `MigrationV1.RunAddsAll` | migrate-database-v1.js:66-103 | with no failed PRAGMA or ALTER, every listed column exists afterwards |
| `MigrationV1.RunSkipsPresent` | migrate-database-v1.js:98-99 | when every listed column is present, a run changes nothing |
| `MigrationV1.RunIdempotent` | migrate-database-v1.js:74 | after a run without failed PRAGMA or ALTER, a second run changes nothing whatever the database answers |
| `MigrationV1.RunKeepsExistingValues` | migrate-database-v1.js:84-86 | a run never alters a value in a column that existed before it |
| `MigrationV1.Database.ApplyMigrations` | migrate-database-v1.js:66-103 | the users table becomes the run of the users list; posts untouched |
| `MigrationV1.Database.ApplyPostMigrations` | migrate-database-v1.js:105-142 | the posts table becomes the run of the posts list; users untouched |
| `MigrationV1.Database.Migrate` | migrate-database-v1.js:145-146 | the script runs both lists, each on its own table |
| `MigrationV1.ListedColumnsExist` | migrate-database-v1.js:13-52 | without schema faults users has pfp, theme, biography, indexable, banner and discriminator, and posts has filename |

## Left out

- Express routing, EJS rendering, cookies and session persistence (`req.session.save` and its error path; after a successful registration that path calls `logError` at routes/auth.js:120, which routes/auth.js neither defines nor imports, so it throws a ReferenceError instead of redirecting to `/login` and the request is never answered), static files and the feed and profile queries of index.js.
- `sanitizeContent` (index.js:96-105): it wraps the sanitize-html library, which is not part of this model.
- bcrypt, crypto.randomBytes, multer storage and SQLite constraint checking are foreign code. They appear only as the inputs described above.
- Errors of `SELECT COUNT(*)` in `isFirstUser`. On an error the callback calls `reject` and then reads `row.count` of an undefined `row` (routes/auth.js:20-21). That throws inside the sqlite3 callback, outside the handler's `try`, so the request is not answered with the catch-all 500. The count is taken as always readable.
- Registration requests without a `username` or `password` field; the model takes both as strings. In the source `registerUser` then rejects at `bcrypt.hash(undefined, 10)` or at `username.trim()` (routes/auth.js:91, 96), after the invite UPDATE at routes/auth.js:77 has already spent the code in invite mode, so the request uses up the invite and creates no account. The call at routes/auth.js:78 and 82 is neither awaited nor caught, so the rejection goes unhandled; under Node's default since v15 that ends the server process, and the request is never answered.
- Concurrency: requests and migration callbacks are modelled as sequential steps. This leaves out the check-then-update race on invites (routes/auth.js:71-77), the count-then-insert race on the first admin (routes/auth.js:67, 94), and `db.close` racing pending migrations (migrate-database-v1.js:149).
- A failing INSERT inside the generate-invite loop: the model stands an existing code in for it, leaves the table unchanged and still returns the code. Other statement errors there, which the source does not handle, are not modelled.
- `Accounts.Site.GenerateInvite`: the count is modelled as an integer or as a string whose numeric reading is an integer. Fractional counts, for which the loop runs up to the ceiling, and other JSON values such as booleans are not modelled. Nor is a count that reads as Infinity (the string "Infinity", or the JSON number `1e309`). It passes `!count || isNaN(count)`, and the loop at routes/auth.js:174 then never ends, inserting codes without bound and never answering.
- JavaScript strings are UTF-16 code units and Dafny's are Unicode scalar values, so lone surrogates cannot be represented. Every character the sanitizer and trim look at lies in the Basic Multilingual Plane.
- The migration model tables hold text or NULL only. The BOOLEAN `indexable` default `'1'` is kept as the string the script passes, and column types are carried as text.
- migrate-database-v2.js, migrate-database-v3.js, generate-invites.js, routes/legal.js and the public/js scripts are not part of this model.
- Discriminator allocation, `Name#DDDD` login, rate limiting and forced content takedown are not in the code and are not modelled.
