# Staff credentials and sessions, modelled in Dafny

This project models the credential and session core of a small staff
authentication web service written in Rust over MySQL. Two tables hold its
state:

- `staff_users` holds one row per staff account. Each row carries the login,
  the argon2 encoded password hash, the salt and the `active`/`deleted` flags.
- `staff_session` holds one row per issued bearer session. Each row carries
  the token, its expiry time and a `locked` flag.

Each table is a class (`Auth.StaffUserTable`, `StaffSession.SessionRepo`).
A class holds the rows in insertion order and the table's AUTO_INCREMENT
counter. Its functions model the `SELECT` statements and its methods model
the `INSERT` statements. The SELECTs have no `ORDER BY`, so the server
promises no row order. The model's `fetch_one` (`Store.FetchOne`) scans in
insertion order: it returns the first matching row, or `RowNotFound`.
`count(*)` is `Store.CountWhere`.

The registration handler (`Auth.Add`) and the sign-in routine
(`Auth.AuthUser`) are methods over these tables. They keep the source's
order of checks and its early returns. The foreign pieces are parameters:

- argon2's `hash_encoded`/`verify_encoded` are the `Auth.Argon2` function
  fields. `None` stands for a library error.
- OpenSSL's `rand_bytes` is `Auth.Entropy`.
- The validator crate's e-mail check is `isEmail`.
- MySQL's `UUID()` is the `uuid` argument.
- `unix_timestamp()` and `NOW()` are the `now` argument.
- A query or statement that errors is a boolean argument. Three are modelled:
  the `is_valid` count query, the duplicate-login query and the user `INSERT`.

Some behaviours of the code are worth stating up front, because the model
keeps them as they are:

- `expire` and `lock` are `// TODO` stubs (src/modules/staff_session.rs:92
  and 97). They answer `false` and change nothing, so a session can only
  become invalid by time.
- A failed salt generation or hash panics the handler through `unwrap` and
  `expect` (src/modules/auth.rs:202 and 222). The model's outcome for this is
  `AddOutcome.Panicked`.
- The session lifetime is the constant 108000 seconds
  (src/modules/auth.rs:183).
- A missing user and a wrong password both yield `RowNotFound`. There is no
  separate authentication error.
- The duplicate check looks at every row with the login, inactive and deleted
  ones included. A failing duplicate-check query followed by a successful
  insert adds a second account with the same login, provided the table has no
  unique key on `login` (`Scenarios.FailedDuplicateCheckAdmitsDuplicate`).

## Model

| member | source | states |
|---|---|---|
| `Store.FirstIndex` | src/modules/staff_session.rs:35-37 | the index found selects a matching row with no match before it; no index means no row matches |
| `Store.FetchOne` | src/modules/staff_session.rs:35-37 | `fetch_one` returns the first matching row in insertion order, or `RowNotFound` exactly when no row matches |
| `Store.CountWhere` | src/modules/staff_session.rs:69-78 | `count(*)` is at most the table size and is positive exactly when some row matches |
| `StaffSession.SessionRepo.GetByToken` | src/modules/staff_session.rs:33-38 | returns a stored row carrying the token, or `RowNotFound` exactly when no row carries it |
| `StaffSession.SessionRepo.GetById` | src/modules/staff_session.rs:58-63 | returns the stored row with that id, or `RowNotFound` exactly when no row has it |
| `StaffSession.SessionRepo.Add` | src/modules/staff_session.rs:40-56 | appends exactly one row: the caller's staff id, the UUID token, created/updated at `now`, expiring at `now + lifetime`, unlocked; the new id is above every existing id and the counter moves on by one; earlier rows are unchanged; the result is the row read back by the generated id |
| `StaffSession.SessionRepo.IsValid` | src/modules/staff_session.rs:65-90 | always `Ok`; true exactly when the count query succeeds and some row has the token, `expireAt > now` and `locked = 0`; a failed count query reads as false |
| `StaffSession.SessionRepo.Expire` | src/modules/staff_session.rs:92-95 | the stub answers `Ok(false)` and touches no row |
| `StaffSession.SessionRepo.Lock` | src/modules/staff_session.rs:97-100 | the stub answers `Ok(false)` and touches no row |
| `StaffSession.UniqueTokenValidity` | src/modules/staff_session.rs:69-76 | a row whose token no other row carries is valid exactly while it is unlocked and `now < expireAt` |
| `StaffSession.FreshSessionLifecycle` | src/modules/staff_session.rs:43-51 | the row `add` just appended, with a fresh token and a positive lifetime, is valid at its creation time and at any later instant exactly until `expireAt` |
| `Auth.GenerateRandomSalt` | src/modules/auth.rs:199-204 | fills all 32 bytes from the entropy source; no salt (the panic) exactly when the source fails |
| `Auth.HashIsNotPlaintext` | src/modules/auth.rs:141-157 | when argon2 returns its encoded form (the `$argon2i$v=19$m=4096,t=10,p=4$` header, 117 characters), the hash of a password that passed validation differs from the password |
| `Auth.HashPassword` | src/modules/auth.rs:206-223 | the argon2 encoded hash under Argon2i, version 0x13, 4096 KiB memory, 10 passes, 4 parallel lanes, no secret or associated data, a 32-byte digest |
| `Auth.VerifyPassword` | src/modules/auth.rs:225-230 | true exactly when argon2 verifies the password; a library error counts as a mismatch |
| `Auth.ValidateRequest` | src/modules/auth.rs:17-28 | the request passes exactly when the e-mail check accepts the address and the password has 12 to 64 characters, both bounds inclusive |
| `Auth.SaltToString` | src/modules/auth.rs:156 | the salt column has 32 characters, each with the code point of the matching salt byte |
| `Auth.SaltToStringInjective` | src/modules/auth.rs:156 | two salts stored as the same string are the same salt |
| `Auth.StaffUserTable.FindByLogin` | src/modules/auth.rs:119-121 | returns a row with that login whatever its flags, or `RowNotFound` exactly when no row has it |
| `Auth.StaffUserTable.FindActiveByLogin` | src/modules/auth.rs:185-189 | returns a row with that login, `active = 1` and `deleted = 0`, or `RowNotFound` exactly when none exists |
| `Auth.StaffUserTable.Insert` | src/modules/auth.rs:145-157 | appends exactly one row with the next generated id and both timestamps at `now`; earlier rows are unchanged |
| `Auth.Add` | src/modules/auth.rs:115-178 | checks in the source's order. An existing login, whatever its flags, answers "already exists" unless the duplicate query failed. Then an invalid request answers a validation error. Then a salt or hash failure panics, and a failed insert answers "cannot insert". Each of these leaves the table unchanged. Otherwise one row is inserted: login and email are the request's address, project 1, active, not deleted, the password hash of the 32-byte salt. When argon2 produces its 117-character encoded form, the stored password differs from the plaintext. The answer is the first row with that login, which is the new row when none existed before |
| `Auth.AuthUser` | src/modules/auth.rs:180-197 | succeeds exactly when the first active, non-deleted row with the login has a hash that verifies the password. It then appends exactly one session for that row's id, with `expireAt = now + 108000`, and returns it. A missing user and a wrong password both fail with `RowNotFound` and add no session |
| `Scenarios.RetiredLoginBlocksRegistration` | src/modules/auth.rs:119-130 | a login held only by inactive or deleted rows cannot sign in but still counts as an existing user at registration |
| `Scenarios.RegisterThenSignIn` | src/modules/auth.rs:115-197 | a new address registers; signing in with its password then gives a session that is valid until `now + 108000`; a rejected password gives `RowNotFound` and no extra session |
| `Scenarios.RegisterTwice` | src/modules/auth.rs:119-130 | after a successful registration the same request answers "already exists" and inserts nothing |
| `Scenarios.FailedDuplicateCheckAdmitsDuplicate` | src/modules/auth.rs:123-126 | a failing duplicate query followed by a successful insert lets an existing address register again; the table gains a second row with that login, and the re-read, scanning in insertion order, answers the older row |

## Left out

- HTTP glue: the `authorization` handler's response mapping, the route table, `ApiAuthSuccessResponse`, `ApiResponse` and all response texts. They are transport formatting. Registration answers are the `AddOutcome` cases instead.
- `SessionRepo::new` and the connection pool: each table is one object that the callers share. Asynchronous execution and concurrent requests are not modelled.
- `Session::get_token` is the `token` field.
- Integer widths: `dbId`/`u64` ids and timestamps, the `i32` project id, the `i8`/`i16` flags and the `u64` sum `unix_timestamp() + lifetime` are unbounded integers. Overflow is not modelled.
- Store errors other than the three modelled ones. Every other query and statement always answers, so `auth_user`'s `?` only passes on `RowNotFound`. The session insert inside `auth_user` always succeeds, so its `unwrap` never panics. The re-read after registration always finds the row, so `ReReadFailed` ("Everything bad") never occurs.
- StaffSession.SessionRepo.IsValid: never returns an error. The decode error that `try_get("cnt")` can raise is not modelled.
- StaffSession.SessionRepo.Add: does not require the UUID to be new. Lemmas that need a unique token take that as a hypothesis, as MySQL's `UUID()` guarantees it.
- The internals of argon2, OpenSSL's `rand_bytes` and the validator's e-mail regular expression are oracles. Auth.HashPassword states only that the library is called with the fixed parameters. The UTF-8 encoding of the password (`as_bytes`) is not modelled. Password length is counted in characters, as the validator counts it.
- Store.FetchOne: MySQL gives no row order for a SELECT without `ORDER BY`. The model scans in insertion order, so "the first matching row" is the model's choice. Where several rows match, the result may differ from the server's.
- Auth.StaffUserTable.FindByLogin: `login = ?` is exact string equality, that is, a binary collation is assumed. MySQL's default case-insensitive collations (and PAD SPACE trailing-space rules) would also match case variants of the login.
- Auth.StaffUserTable.FindActiveByLogin: the same exact-equality assumption for `login = ?`. A sign-in as `A@B.COM` does not find the row `a@b.com` in the model.
- StaffSession.SessionRepo.GetByToken: `token = ?` is exact string equality (binary collation assumed).
- StaffSession.SessionRepo.IsValid: `token = ?` is exact string equality (binary collation assumed).
- Auth.AuthUser: only the first active, non-deleted row with the login (in insertion order) has its hash checked. When several such rows exist, as a failed duplicate check can create, the server might pick another one.
- Auth.Add: "the stored password is not the plaintext" holds only under `Argon2.EncodedForm`, the library's 117-character encoded output. The argon2 internals are not modelled, so nothing stronger is claimed.
- The schema is not part of this model: no unique key on `login` or `token` is assumed.
- How MySQL stores salt characters above 127 in a text column is not modelled.
- `dbRepo` (a trait with no implementation), the client list endpoint and the program's start-up and configuration are not part of this model.
