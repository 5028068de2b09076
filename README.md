# OxidePaste paste lifecycle and access-control policy, in Dafny

OxidePaste is a small pastebin written in Rust (axum, askama, sqlx over SQLite).
This project models its core and proves properties of the model:

- **Expiration tokens** (`src/models.rs`). `Expiration::from_str` turns a token such as `"30m"`, `"2h"`, `"7d"` or `"never"` into `Never | Minutes(n) | Hours(n) | Days(n)`. `to_datetime` then turns that into an optional absolute expiry. Timestamps are whole seconds, and the clock reading `now` is a parameter.
- **The handlers' decisions** (`src/handlers.rs`):
  - resolving the session cookie to a user, login and registration;
  - creating a paste;
  - viewing a paste, with lazy expiry, the password gate and the view counter;
  - submitting a paste password, the raw view and deletion;
  - the dashboard and public listings;
  - the "expires in" bucketing.
  
  Each handler is a method over the database that returns the outcome it renders. Its effect on the tables is stated in its postconditions.
- **The database** (`src/db.rs`). `Db.Store` holds the `pastes` and `users` tables as maps. Its invariant `Valid` states the schema constraints: primary keys, the AUTOINCREMENT counter and UNIQUE usernames. Its methods are the single SQL statements the handlers issue, plus the expiry sweep `cleanup_expired_pastes`.

The modules are:

- `Wrappers`: `Option`.
- `Text`: Rust's `str::len` in UTF-8 bytes, `str::parse::<i64>` and `i64::to_string`.
- `Models`: the records and the expiration policy.
- `Db`: the tables, the SQL statements and the sweep.
- `Auth`: sessions, login and registration.
- `Pastes`: the paste handlers.
- `Listings`: the dashboard and public pages.
- `Scenarios`: end-to-end runs on a fresh database, proved from the handlers' contracts.

External collaborators are function parameters:

- bcrypt's hash, as `hash: string -> Option<string>`, where `None` is a hashing error;
- bcrypt's verify, as `verify: (string, string) -> bool`;
- the nanoid generator, as the `newId` argument of `CreatePaste`.

The handlers' contracts assume nothing about `hash` and `verify`. Hashing is modelled as a function, so the same password always gives the same hash in the model, whereas bcrypt salts each call; no contract compares two hashes of one password. The end-to-end runs in `Scenarios` assume that hashing their sample passwords succeeds, and `ProtectedPaste` assumes that `verify` accepts a password against its own hash and rejects the wrong one.

Behaviour of the code the model keeps, which a reader might not expect:

- Lazy expiry in `view_paste` and the sweep both delete a paste only when its expiry is strictly before `now` (`<`, not `<=`).
- The number in an expiration token is a signed `i64`. `"-5m"` parses to `Minutes(-5)`, so the paste is already expired when it is created (`Models.ToDateTimeExamples`). A prefix that does not parse, or that overflows, counts as 0.
- `verify_paste_password` and `view_raw` do not check expiry. They serve an expired paste until a view or a sweep deletes it.
- `verify_paste_password` shows a paste only if it has a hash and the password verifies. A paste without a password always answers "Incorrect password", even for its owner.
- In `create_paste`, if hashing a non-empty password fails, the paste is stored without a password rather than refused (`Pastes.NewPaste`).
- Username and password lengths in `register` are byte lengths (`Text.Utf8Len`), not character counts.

## Model

| member | source | states |
|---|---|---|
| `Text.Utf8Len` | src/handlers.rs:169-181 | the byte length `len()` compares is at least the number of characters, and equals it exactly when every character is ASCII |
| `Text.ParseI64` | src/models.rs:85 | a parsed `i64` lies in the `i64` range and comes from a non-empty string |
| `Text.ParseNeedsDigits` | src/models.rs:85 | only an optional sign followed by ASCII digits parses |
| `Text.FormatInt` | src/handlers.rs:151 | `to_string` writes a non-empty string, with a leading `-` exactly for negative numbers and decimal digits after it |
| `Text.FormatNatDigits` | src/handlers.rs:151 | the digits `to_string` writes read back as the number written |
| `Text.ParseFormatRoundTrip` | src/handlers.rs:110-111 | every `i64` written by `to_string` (the session cookie) parses back to itself |
| `Models.FromStr` | src/models.rs:74-93 | total parser; any magnitude it returns is an `i64` |
| `Models.ToDateTime` | src/models.rs:95-106 | no expiry exactly for `Never`; `Minutes(n)`, `Hours(n)` and `Days(n)` expire at `now` plus 60n, 3600n and 86400n seconds |
| `Models.ByteLengthOfToken` | src/models.rs:79-82 | for a token that can be split, the byte-length test `len < 2` is the character-length test |
| `Models.FromStrNever` | src/models.rs:74-93 | `Never` exactly when the token is shorter than 2 characters or its last character is not `m`, `h` or `d` (covers `""` and `"never"`) |
| `Models.FromStrUnit` | src/models.rs:84-92 | the last character picks Minutes/Hours/Days, and the magnitude is the prefix parsed as `i64`, or 0 |
| `Models.FromStrWithPrefix` | src/models.rs:84-92 | a non-empty prefix followed by `m`, `h` or `d` parses to that unit with the prefix read as `i64`, or 0 |
| `Models.DurationSeconds` | src/models.rs:100-102 | 0 for `Never`; 60, 3600 and 86400 seconds per unit of magnitude for minutes, hours and days, with the magnitude's sign |
| `Models.FromStrNeverExamples` | src/models.rs:75-91 | `""`, `"never"`, `"m"`, `"5"`, `"5x"`, `"5M"` all mean `Never` |
| `Models.FromStrPlainExamples` | src/models.rs:84-90 | `"30m"` is `Minutes(30)`, `"2d"` is `Days(2)`, `"1h"` is `Hours(1)` |
| `Models.FromStrSignedExamples` | src/models.rs:85 | `"-5m"` is `Minutes(-5)`, `"+5h"` is `Hours(5)`, `"xm"` is `Minutes(0)` |
| `Models.FromStrOverflow` | src/models.rs:85 | a digit prefix beyond `i64::MAX` gives magnitude 0 |
| `Models.ExpiryNotBeforeNow` | src/models.rs:98-105 | a non-negative magnitude never gives an expiry before `now` |
| `Models.ToDateTimeExamples` | src/models.rs:98-105 | `"30m"` expires at now+1800, `"2d"` at now+172800, `"1h"` at now+3600, `"-1m"` at now-60 |
| `Db.Expired` | src/db.rs:66 | a paste without expiry never expires; one with an expiry is expired exactly when `now` is strictly later |
| `Db.Swept` | src/db.rs:66-70 | the table after a sweep keeps exactly the unexpired rows, unchanged |
| `Db.Store.constructor` | src/db.rs:15-38 | new tables are empty and satisfy the key and uniqueness constraints |
| `Db.Store.DeletePaste` | src/handlers.rs:369-372 | delete by id removes exactly that key (a no-op when absent) |
| `Db.Store.IncrementViewCount` | src/handlers.rs:386-389 | the paste's view count goes up by exactly 1 and nothing else changes |
| `Db.Store.InsertPaste` | src/handlers.rs:327-337 | insert succeeds exactly when the id is not yet a key (primary key) |
| `Db.Store.InsertUser` | src/handlers.rs:215-219 | insert fails on a taken name (UNIQUE) or an exhausted AUTOINCREMENT counter; otherwise the new row gets the next id |
| `Db.Store.CleanupExpiredPastes` | src/db.rs:65-71 | removes exactly the pastes whose expiry is before `now`, leaves the others unchanged, returns old size minus new size, and leaves no expired paste |
| `Db.SweptRemovesExpired` | src/db.rs:66-70 | the sweep's key set is the old one minus the expired ids, and the removed count is their number |
| `Db.SweptIdempotent` | src/db.rs:66-70 | after a sweep no paste is expired, so a second sweep at the same time changes nothing |
| `Db.SweepsCompose` | src/main.rs:22-29 | a sweep at `now` followed by one at a later time equals the later sweep alone |
| `Db.LazyDeleteThenSweep` | src/handlers.rs:367-375 | deleting an expired paste on access and then sweeping equals sweeping alone |
| `Auth.CurrentUser` | src/handlers.rs:109-118 | no user for a missing cookie or a value that is not an `i64`; otherwise a user exactly when the parsed id is a key of the users table, and then that row |
| `Auth.SessionRoundTrip` | src/handlers.rs:109-118 | the cookie value `user.id.to_string()` resolves back to that user's row |
| `Auth.CurrentUserIsARow` | src/handlers.rs:109-118 | a resolved user is the users-table row stored under its own id |
| `Auth.Login` | src/handlers.rs:128-157 | signs in exactly when a user of that name exists and the password verifies; one failure message for both failures; the session resolves to that user |
| `Auth.ValidateRegistration` | src/handlers.rs:168-202 | the error reported is a failing check with no failing check ranked before it (username length, password length, match, taken); no error means every check passes |
| `Auth.Register` | src/handlers.rs:163-237 | input checks, then hashing, then insert; every failure leaves the users table unchanged; success adds exactly the new row under the next id and hands out a session that resolves to it |
| `Auth.ShortUsernameFirst` | src/handlers.rs:169-174 | a username under 3 bytes is rejected for its length whether or not the name is taken |
| `Pastes.IsOwner` | src/handlers.rs:378 | a visitor owns nothing and an anonymous paste has no owner |
| `Pastes.Gated` | src/handlers.rs:378-380 | an unprotected paste is never gated, nor is one viewed by its owner; for a visitor or an anonymous paste, gated exactly when protected |
| `Pastes.MayDelete` | src/handlers.rs:496-500 | anyone may delete an anonymous paste; a visitor may delete only anonymous pastes |
| `Pastes.CalculateExpiresIn` | src/handlers.rs:515-531 | none without expiry; "Expired" exactly when no time is left; otherwise whole days if at least a day is left, else whole hours if at least an hour, else whole minutes (0 under a minute), each within its bucket's bounds |
| `Pastes.NewPaste` | src/handlers.rs:311-325 | the inserted row: language defaults to "plaintext", an empty password is never hashed, a hash is stored only for a non-empty password and equals its hash, the expiry comes from the token, the view count starts at 0, the owner is the signed-in user |
| `Pastes.CreatePaste` | src/handlers.rs:306-343 | a fresh id inserts exactly the new row and redirects to `/<id>`; a taken id is a server error with the tables unchanged |
| `Pastes.ViewPaste` | src/handlers.rs:345-402 | missing: not found, unchanged; expired: exactly that id is deleted, not found; gated for a non-owner: prompt without error, unchanged; otherwise shown and view count +1 only; nothing expired and nothing protected is ever shown to a non-owner |
| `Pastes.VerifyPastePassword` | src/handlers.rs:404-456 | shown (and counted) only when the paste has a hash and the password verifies; otherwise "Incorrect password" with the tables unchanged, also for the owner |
| `Pastes.ViewRaw` | src/handlers.rs:458-478 | content exactly for an existing paste without a password, forbidden for a protected one, not found for a missing one |
| `Pastes.DeletePaste` | src/handlers.rs:480-509 | the paste is removed exactly when it exists and the requester owns it or it is anonymous; always a redirect to `/` |
| `Pastes.OnlyOwnerDeletesOwned` | src/handlers.rs:496-500 | an owned paste may be deleted by its owner and by no one else |
| `Listings.Selects` | src/handlers.rs:258-279 | the dashboard never lists an anonymous paste; the public page never lists a protected or expired paste |
| `Listings.IsPage` | src/handlers.rs:256-280 | the first row of a page is at least as new as every selected row of the table |
| `Listings.InsertionPoint` | src/handlers.rs:258 | the position after every row at least as new and before the first strictly older one |
| `Listings.InsertNewest` | src/handlers.rs:258 | inserting keeps a sequence newest first, adds exactly the new row, and keeps ids distinct |
| `Listings.CollectStep` | src/handlers.rs:256-263 | scanning one more row keeps "exactly the selected rows seen so far, newest first, each once" |
| `Listings.CollectedPage` | src/handlers.rs:258 | the first 50 of all selected rows, newest first, form a page |
| `Listings.Newest` | src/handlers.rs:256-263 | the query returns a page: at most 50 selected rows of the table, each once, newest first; any selected row left out means the page is full and the row is no newer than the page's last one |
| `Listings.PageLength` | src/handlers.rs:280 | a page holds exactly min(50, number of selected rows) rows |
| `Listings.ShowDashboard` | src/handlers.rs:247-267 | no resolved user: redirect to login; otherwise a page of that user's own pastes and no one else's |
| `Listings.PublicPastes` | src/handlers.rs:269-288 | a page of pastes without a password whose expiry is absent or after `now` |
| `Scenarios.ExpiringPaste` | src/handlers.rs:367-375 | a paste expiring in "1m" is shown at once, and 61 seconds later is not found and gone from the table |
| `Scenarios.ProtectedPaste` | src/handlers.rs:377-383 | protected paste: a visitor gets the prompt, a wrong password "Incorrect password", the right one the paste; the owner sees it without a password |
| `Scenarios.AnonymousDeletion` | src/handlers.rs:498-505 | an anonymous paste is deleted at any user's request |
| `Scenarios.OwnedDeletion` | src/handlers.rs:496-505 | an owned paste survives another user's delete request and goes at its owner's |

## Left out

- HTTP glue is not modelled: axum routing, form and path extraction, status codes, and askama templates and their rendering. Each handler returns an outcome datatype instead. The date format of the view page and the text of the "N days/hours/minutes" strings are not modelled either; `CalculateExpiresIn` returns the bucket and its number.
- `logout` and the cookie jar are not modelled. A session is the optional cookie value.
- SQLite, sqlx and the pool are not modelled. The tables are in-memory maps and each SQL statement is one method. The timestamp columns are compared as integer seconds, whereas SQLite compares the stored text with `datetime('now')`. Database errors that the handlers swallow with `unwrap_or` or `let _` are not modelled.
- The `ORDER BY created_at DESC LIMIT 50` queries are modelled by a scan of the table (`Listings.Newest`). Ties in `created_at` come out in scan order; SQLite leaves their order unspecified too.
- The background tokio task, its 300-second interval and its logging are not modelled. Only the single sweep it calls is modelled, and `Db.SweepsCompose` states what successive sweeps do.
- Concurrency is not modelled: races on `view_count` and between the lazy delete and the sweep. The model is sequential.
- bcrypt and nanoid are parameters, not verified code. `src/utils.rs` is not part of this model.
- The wall clock is a parameter. chrono panics when adding a duration moves a date outside its representable range; that overflow is not modelled. Durations beyond `i64::MAX` milliseconds are excluded by `requires` (`Models.DurationInRange`), because chrono panics on them.
- Models.FromStr: tokens whose last character is not ASCII are excluded by `requires`, because `split_at` panics on them.
- Models.ToDateTime: durations beyond `i64::MAX` milliseconds are excluded by `requires`, because chrono panics on them. A date pushed outside chrono's range also panics in the source, but the model returns a value for it.
- Pastes.CreatePaste: expiration tokens that would make `from_str` or `to_datetime` panic are excluded by `requires` (`Pastes.AcceptableToken`).
- `view_count` is a `nat`. The handlers decode the column into an `i32` field; counts past `i32::MAX` are not modelled.
- `get_supported_languages` is constant data with nothing to prove.
