# hexagonal-users-kata: the account handlers, modelled in Dafny

The repository is a small user-account service: register, log in, change a
password and fetch a profile, each an HTTP handler that validates its input,
reads or writes one `users` table, hashes or verifies a password with bcrypt
and answers with a JSON body and a status. Two revisions of the handlers live
side by side: the App Router routes (`app/api/users/route.ts`,
`app/api/auth/route.ts`) and the older Pages Router handlers
(`pages/api/register.ts`, `pages/api/change-password.ts`,
`pages/api/profile.ts`). Both are modelled, each as written.

Modules, one per source file or component:

- `Validation` (validation.dfy): `isValidPassword` and `isValidEmail` as
  character-class predicates, each proved equal to the literal meaning of its
  regular expression (`PasswordRegex`, `EmailRegex`, ghost predicates that
  quantify over the positions the pattern's parts match); `validateCredentials`.
- `Crypto` (crypto.dfy): `hashPassword` and `verifyPassword` over bcrypt
  strings `"$2b$10$" + salt + checksum`.
- `Store` (store.dfy): the `users` table as a class with a map from e-mail to
  `(id, password column)` and the serial sequence's next value; the queries
  the handlers run (lookup by e-mail and by id, insert, update of the
  password column). Its invariant `Valid()` says ids are positive, below the
  sequence's next value and distinct; the unique e-mail constraint holds
  because the table is keyed by e-mail.
- `Http` (http.dfy): the response bodies. A body has no password field; a
  user in a body is always the `{ id, email }` projection.
- `UsersRoute`, `AuthRoute`, `RegisterPage`, `ChangePasswordPage`,
  `ProfilePage`: one module per handler file. Handlers that write the table
  are methods that `modify` it; handlers that only read it are functions.
- `Scenarios` (scenarios.dfy): requests run one after another, and what
  follows from the handlers' contracts.

Each handler's contract has one clause per early return, in the source's
order: which check fires first, which status and message it gives, that a
failure leaves the table unchanged (`unchanged(db)`), and that a success
changes exactly the row for the given e-mail (a map update).

Assumptions:

- `validateCredentials` is imported by both app routes but is not defined in
  `lib/utils/validation.ts`. It is modelled as the check sequence of
  `pages/api/change-password.ts:26-41`: both fields present, then the e-mail
  format, then the password strength, each failing with status 400 and that
  file's message.
- A request field is `Option<string>`: `None` is an absent field. JavaScript's
  `!field` is `Missing` (absent or empty). `regex.test(field)` on an absent
  field tests the text `"undefined"` (`RegexInput`).
- bcrypt's random salt is a parameter of the handlers that hash.

The two revisions differ: the Pages change-password handler has no
same-password check and answers 201; both change-password handlers answer
400 for an unknown user; each is modelled as written.

## Model

| member | source | states |
|---|---|---|
| `Validation.Scan` | lib/utils/validation.ts:2-4 | one pass records exactly whether some character is lower-case, upper-case, a digit, `_`, and whether every character is in `[a-zA-Z0-9_]` |
| `Validation.IsValidPassword` | lib/utils/validation.ts:1-5 | a password is accepted iff it has at least 6 characters, all in `[a-zA-Z0-9_]`, among them a lower-case letter, an upper-case letter, a digit and `_`; `PasswordMatchesRegex` ties this to the pattern itself |
| `Validation.PasswordMatchesRegex` | lib/utils/validation.ts:1-5 | `IsValidPassword(s)` holds iff the password pattern matches `s`: the four look-aheads find their class before any line terminator, `|s| >= 6`, and every character is in `[a-zA-Z0-9_]` |
| `Validation.PasswordRejectsForeignChar` | lib/utils/validation.ts:3 | a character outside `[a-zA-Z0-9_]` anywhere rejects the password even when all four classes are present |
| `Validation.PasswordAcceptsExamples` | lib/utils/validation.ts:2-4 | `"Abc123_"` and `"Xyz789_"` match the pattern |
| `Validation.PasswordRejectsExamples` | lib/utils/validation.ts:2-4 | `"abc123_"`, `"ABC123_"`, `"Abcdef_"`, `"Abc123"` and `"Ab1_"` do not match |
| `Validation.IsValidEmail` | lib/utils/validation.ts:7-10 | an accepted address has no white space and exactly one `@`, which is not its first character; `EmailMatchesRegex` ties the test to the pattern itself |
| `Validation.EmailMatchesRegex` | lib/utils/validation.ts:7-10 | `IsValidEmail(s)` (no white space, exactly one `@`, something before it, a `.` neither first nor last after it) holds iff the e-mail pattern matches `s` as three `[^\s@]+` runs around the `@` and the `.` |
| `Validation.EmailRejectsSecondAt` | lib/utils/validation.ts:8 | two `@` anywhere reject the address |
| `Validation.EmailRejectsWhitespace` | lib/utils/validation.ts:8 | a white-space character (JavaScript's `\s`) anywhere rejects the address |
| `Validation.EmailExamples` | lib/utils/validation.ts:8-9 | `"a@b.co"` matches; `"a@b"`, `"a b@c.com"` and `""` do not |
| `Validation.ValidateCredentials` | pages/api/change-password.ts:26-41 | no failure iff both fields are present, the e-mail matches and the password matches; every failure is 400; presence is checked first, then the e-mail, then the password, each with its own message |
| `Validation.RegexInput` | pages/api/change-password.ts:43-48 | an absent field is tested as `"undefined"`, which the password pattern rejects |
| `Crypto.Hash` | lib/utils/api.ts:13-15 | the hash is a bcrypt string that carries the salt it was made with and the password's checksum |
| `Crypto.Verify` | lib/utils/api.ts:17-22 | a string verifies a password iff it is a bcrypt string whose checksum part is that password's checksum, under whatever salt it carries; `VerifyHash` and `VerifyOnlyOriginal` follow |
| `Crypto.VerifyHash` | lib/utils/api.ts:17-22 | a hash verifies against the password it was made from |
| `Crypto.VerifyOnlyOriginal` | lib/utils/api.ts:17-22 | a hash verifies against no other password |
| `Crypto.DigestIsNotAPassword` | lib/utils/api.ts:13-15 | a stored bcrypt string never passes the password pattern (it begins with `$`), so the column never holds a valid plaintext password |
| `Store.UsersTable.constructor` | lib/migrations.ts:7-12 | the new table is empty, valid, and its sequence starts at 1 |
| `Store.UsersTable.FindByEmail` | lib/utils/api.ts:5-11 | a user is found iff the e-mail is a key; the result carries that e-mail and the row's id and password column |
| `Store.UsersTable.FindById` | app/api/users/route.ts:118-122 | a row is found iff some row has the id; the result is that row's id and e-mail |
| `Store.UsersTable.Insert` | app/api/users/route.ts:34-38 | exactly one row is added, under the new e-mail, with the sequence's next id, which is larger than every existing id; the ids stay distinct |
| `Store.UsersTable.UpdatePassword` | app/api/users/route.ts:94-98 | only the row with the e-mail changes, only its password column, and its id stays; an unknown e-mail changes nothing |
| `UsersRoute.Post` | app/api/users/route.ts:16-51 | a validation failure returns its own status and message; a known e-mail gives 400 "User already exists"; both leave the table unchanged; otherwise one row is added under the sequence's next id holding `Hash(password)`, which differs from the plaintext, the sequence advances by one, and the answer is 201 with `{ id, email }` and redirect "/profile"; ids stay distinct |
| `UsersRoute.Put` | app/api/users/route.ts:53-107 | checks in order: credentials, missing new password (400), new password strength (400, the generic password message), new equal to old (400), unknown e-mail (400 "User not found"), old password not verifying (400 "Invalid password"); every failure leaves the table unchanged; success replaces only that row's password with `Hash(newPassword)`, keeps every id, and answers 200 with redirect "/login" |
| `UsersRoute.Get` | app/api/users/route.ts:109-132 | NaN or 0 gives 400 "User ID is required"; otherwise 200 iff a row has the id, else 404; a 200 body is only the `{ id, email }` of the row with that id |
| `AuthRoute.Post` | app/api/auth/route.ts:11-36 | a validation failure is returned before any lookup; with valid credentials the answer is 200 iff the e-mail has a row and the password verifies against its hash, otherwise the same 401 "Invalid credentials" for an unknown e-mail and a wrong password; the 200 body carries the row without its password column; the table is only read |
| `AuthRoute.LoginFindsHashedPassword` | app/api/auth/route.ts:23-32 | once the credentials pass validation, a row holding `Hash(password)` logs in with that password and returns its id and e-mail |
| `AuthRoute.LoginRefusesOtherPassword` | app/api/auth/route.ts:23-26 | a row holding the hash of another password refuses the login with 401 |
| `RegisterPage.RegisterHandler` | pages/api/register.ts:5-43 | a method other than POST gives 405; a missing or empty field gives 400 with no format or strength check; a known e-mail gives 400 "User already exists"; all leave the table unchanged; otherwise one row is added holding `Hash(password)` and the answer is 201 "User created successfully" |
| `ChangePasswordPage.PlaintextLookupNeverMatches` | pages/api/change-password.ts:51-60 | on a table whose password columns are all bcrypt strings, the lookup that compares the column with a valid plaintext password finds no row |
| `ChangePasswordPage.ChangePasswordHandler` | pages/api/change-password.ts:16-75 | a method other than POST gives 405; then the credential checks, then a weak or absent new password gives 400 with the "New password" message, before the store is read; a row matches only when its column equals the plaintext, else 400 "User not found"; a match sets that row's password to `Hash(newPassword)` and answers 201, with no old-differs-from-new check; every failure leaves the table unchanged; on a table of hashed passwords the handler never changes anything |
| `ChangePasswordPage.CorrectedChangePasswordHandler` | pages/api/change-password.ts:50-71 | the same checks, but the row matches when the password verifies against its hash; success replaces only that row's password with `Hash(newPassword)` and answers 201 |
| `ProfilePage.IntegerText` | pages/api/profile.ts:18 | digit text is read as its decimal value; accepted text is digits after an optional sign and ends in a digit; a negative value needs a leading `-`; `DecimalRoundTrip` shows every id's decimal text is read back as that id |
| `ProfilePage.DecimalRoundTrip` | pages/api/profile.ts:16-20 | the integer cast of the decimal text of a number gives the number back |
| `ProfilePage.ProfileHandler` | pages/api/profile.ts:4-30 | a missing or empty `userId` gives 400 "User ID is required"; text that is not an integer is a store error (500); otherwise 200 iff a row has that id, else 404 "User not found"; a 200 body is exactly `{ user: { id, email } }` of that row; the table is only read |
| `ProfilePage.ProfileOfListedId` | pages/api/profile.ts:16-26 | asking for the decimal id of a row returns that row's `{ id, email }` with 200 |
| `Scenarios.RegisterThenLogin` | app/api/users/route.ts:33-47 | after a successful registration, logging in with the same credentials succeeds and returns the created id and e-mail |
| `Scenarios.RegisterTwice` | app/api/users/route.ts:28-31 | a second registration with the same e-mail is refused with 400 and the table keeps the first row |
| `Scenarios.ChangeThenLogin` | app/api/users/route.ts:93-103 | when the request passes every PUT check and the old password verifies, the change succeeds, then the new password logs in and the old one gets 401 |
| `Scenarios.PageChangePasswordAfterRegister` | pages/api/change-password.ts:51-60 | registering `a@b.co` / `Abc123_` through the Pages handler and then changing the password with the right old password gives 400 "User not found" |
| `Scenarios.CorrectedChangePasswordAfterRegister` | pages/api/change-password.ts:62-71 | with the corrected lookup, a password registered through the Pages handler can be changed, and the stored hash then verifies the new password |

## Findings

| source | as written | input that shows it | evidently intended | confidence | as-written member | corrected member |
|---|---|---|---|---|---|---|
| pages/api/change-password.ts:51-56 | the user is looked up by `email` and by `password` equal to the plaintext, while every path that writes the column stores a bcrypt string (`$2b$10$...`), and the plaintext has already passed a pattern that excludes `$`; the lookup never matches, so the handler never changes a password | register `a@b.co` / `Abc123_` through pages/api/register.ts, then POST `{ email: "a@b.co", password: "Abc123_", newPassword: "Xyz789_" }`: 400 "User not found" (`Scenarios.PageChangePasswordAfterRegister`, `ChangePasswordPage.PlaintextLookupNeverMatches`) | look the row up by e-mail and verify the plaintext against the stored hash, as app/api/users/route.ts:84-91 does | high, not executed | `ChangePasswordPage.ChangePasswordHandler` | `ChangePasswordPage.CorrectedChangePasswordHandler` |

## Left out

- The `catch` blocks that answer 500 with the error's text: store and runtime faults have no counterpart here. The one store error the model keeps is `ServerFault`, for `userId` text that is not an integer in pages/api/profile.ts.
- `Store.UsersTable.Insert` requires the e-mail to be absent: the handlers check first, and the unique-constraint error is reachable only through two registrations racing between check and insert. Concurrency is not modelled; handlers run one at a time.
- Request parsing (`request.json()`, `new URL`, `req.query`): fields are strings or absent. A JSON `null`, a number or an object in a field are not modelled. GET's id is what `parseInt` produced, with `None` for NaN; `parseInt`'s own rules are not modelled.
- `ProfilePage.IntegerText` accepts an optional sign and decimal digits. The surrounding white space and other spellings PostgreSQL also accepts are not modelled.
- The 32-bit range of the `id` column: ids are unbounded, the sequence never runs out, and an out-of-range id is an ordinary lookup that finds nothing rather than a store error.
- `Crypto.Hash`: the checksum is modelled as the password itself, an injective stand-in. One-wayness, the 72-byte limit of bcrypt, the cost of hashing and constant-time comparison are not modelled. `Crypto.Verify` is false on a column that is not a bcrypt string, where bcrypt may report an error instead.
- JavaScript strings are UTF-16; the model works on Unicode scalar values. Both patterns give the same answer either way, because every character either pattern names (its classes, `@`, `.`, and the `\s` set) is a single BMP code unit, so the two code units of a surrogate pair fall in the same class as the scalar value they encode. A lone surrogate, which a JavaScript string can hold, cannot be represented in the model.
- The error message of the login route's 500 path ("Server error: ...").
- lib/db.ts (connection pool and environment), the migration runner of lib/migrations.ts (only the schema is kept), pages/api/login.ts (a stub that answers nothing) and pages/api/test.ts (a hello-world route).
