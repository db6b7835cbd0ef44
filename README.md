# Account registration and login of the social-media blog API

This project models the account service of a small social-media backend:
`AccountService.registerNewAccount`, which validates a candidate account and
persists it through the account store, and `AccountService.verifyLogin`,
which looks an account up by username. The store (`AccountDAO`) is modelled
abstractly as a class whose field is the `account` table, a sequence of
`Account(id, username, password)` rows in the order the backend returns
them.

Modules:

- `Model` (`model.dfy`): the `Account` record and `Option`, which stands for
  Java's `null`-or-value results.
- `JavaString` (`javastring.dfy`): `String.isBlank()` (empty or
  `Character.isWhitespace` code points only) and `String.length()` (UTF-16
  code units, since a Dafny `string` is a sequence of Unicode scalar values).
- `DAO` (`dao.dfy`): the store. `FindByUsername` is the
  `SELECT ... WHERE username = ?` that keeps the first row, `Insert` is the
  effect of `addAccount` on the table, and the class `AccountDAO` holds the
  table as a field, reads it in `GetAccountByUsername` and appends to it in
  `AddAccount`.
- `Service` (`service.dfy`): `Register` is `registerNewAccount` as a function
  of the table, the candidate account and the backend's behaviour. The class
  `AccountService` holds the DAO. Its method `RegisterNewAccount` runs the
  same guards in the same order and is proved to agree with `Register`.
  `VerifyLogin` is a function that only reads the table, so it cannot change
  the store.

Backend errors are parameters. The DAO catches every `SQLException` and
returns `null`, so each call takes a flag saying whether the backend failed.
The key the backend generates for a new row is also a parameter
(`Backend.generatedId`).

Two points where the code and its documentation differ. The model follows the code in both:

- The doc comment of `registerNewAccount` says the password "must be at least
  4 characters". The code rejects only lengths below 3. `PasswordLengthBoundary`
  and `ThreeCharacterPasswordAccepted` show that a three-character password is
  accepted.
- The doc comment of `registerNewAccount` says the account must not already
  exist. The code only pre-checks this with a lookup, and a failed lookup
  reads as "not found". `DuplicateWhenLookupFails` shows that in that case a
  second `alice` row can be inserted unless the database rejects it.
  `RegisterPreservesUniqueness` therefore assumes the lookup answered.

`verifyLogin` does not compare passwords. It returns whatever row the store
holds for the username (`VerifyLoginIgnoresPassword`). The model keeps that
behaviour and does not add a password check.

## Model

| member | source | states |
|---|---|---|
| `JavaString.IsWhitespace` | src/main/java/Service/AccountService.java:26-28 | a definition without a contract: `Character.isWhitespace`, the Unicode space, line and paragraph separators except the no-break spaces, plus U+0009..U+000D and U+001C..U+001F |
| `JavaString.IsBlank` | src/main/java/Service/AccountService.java:26-28 | a definition without a contract: `String.isBlank()`, true for the empty string and for strings of whitespace only |
| `JavaString.Utf16Length` | src/main/java/Service/AccountService.java:28 | `length()` counts UTF-16 code units: between `|s|` and `2*|s|`, and zero exactly for the empty string |
| `JavaString.Utf16LengthOfBmp` | src/main/java/Service/AccountService.java:28 | for characters of the Basic Multilingual Plane, `length()` equals the number of characters |
| `DAO.FindByUsername` | src/main/java/DAO/AccountDAO.java:13-36 | the lookup returns `None` exactly when no row has the username; otherwise it returns a stored row with that username, and no earlier row has it (first row of the result set) |
| `DAO.FindByUsernameUnique` | src/main/java/DAO/AccountDAO.java:13-36 | when usernames are unique, the lookup of a row's username returns that row |
| `DAO.InsertPreservesUniqueness` | src/main/java/DAO/AccountDAO.java:63-83 | inserting a username the table lacks keeps usernames unique |
| `DAO.AccountDAO.constructor` | src/main/java/DAO/AccountDAO.java:11 | a DAO over a table with the given rows |
| `DAO.AccountDAO.GetAccountByUsername` | src/main/java/DAO/AccountDAO.java:13-36 | a returned account is a stored row with that username; `None` means a backend error or no such row |
| `DAO.AccountDAO.AddAccount` | src/main/java/DAO/AccountDAO.java:63-83 | the returned value and the new table are those of `Insert`: either one row appended and returned, or nothing changed and `None` |
| `Service.WeakPassword` | src/main/java/Service/AccountService.java:28 | a definition without a contract: the password guard as written, blank or fewer than 3 UTF-16 code units |
| `Service.BmpPasswordGuard` | src/main/java/Service/AccountService.java:28 | for passwords of Basic Multilingual Plane characters, the guard refuses exactly the blank ones and those of fewer than 3 characters |
| `Service.BlankUsernameRejected` | src/main/java/Service/AccountService.java:26-27 | a blank username yields `None` and an unchanged table, whatever the password and the backend |
| `Service.WeakPasswordRejected` | src/main/java/Service/AccountService.java:28-29 | a blank password or one shorter than 3 code units yields `None` and an unchanged table |
| `Service.DuplicateUsernameRejected` | src/main/java/Service/AccountService.java:30-31 | a username already in the table yields `None` and an unchanged table when the lookup answers |
| `Service.Register` | src/main/java/Service/AccountService.java:17-34 | an account is returned exactly when the username is not blank, the password is not blank and has at least 3 code units, the username was absent (or the lookup failed), and the insert worked; it has the given username and password and the generated id; the table is unchanged exactly when `None` is returned, and otherwise gains exactly the returned account |
| `Service.RegisterPreservesUniqueness` | src/main/java/Service/AccountService.java:30-33 | with the lookup answering, registration keeps usernames unique |
| `Service.LookupAfterRegister` | src/main/java/Service/AccountService.java:30-33 | after a successful registration whose lookup answered, looking up the username returns the registered account |
| `Service.PasswordLengthBoundary` | src/main/java/Service/AccountService.java:20-28 | the guard refuses `"ab"` and accepts `"abc"`: the code's minimum is 3, not the documented 4 |
| `Service.ThreeCharacterPasswordAccepted` | src/main/java/Service/AccountService.java:20-33 | a fresh, non-blank username with password `"abc"` registers when the backend does not fail |
| `Service.DuplicateWhenLookupFails` | src/main/java/Service/AccountService.java:30-33 | when the duplicate-check lookup fails, a second row with a taken username is appended, usernames are no longer unique, and a lookup of that username then finds the older row |
| `Service.AccountService.constructor` | src/main/java/Service/AccountService.java:13-15 | the service uses the DAO it is given |
| `Service.AccountService.RegisterNewAccount` | src/main/java/Service/AccountService.java:25-34 | the result and the new table are those of `Register`; a rejection leaves the table unchanged; a success appends exactly the returned account; uniqueness is preserved when the lookup answers |
| `Service.AccountService.VerifyLogin` | src/main/java/Service/AccountService.java:36-38 | a returned account is a stored row with the given username; when the lookup answers and such a row exists, one is returned |
| `Service.AccountService.VerifyLoginIgnoresPassword` | src/main/java/Service/AccountService.java:36-38 | the answer does not depend on the supplied password |
| `Service.AccountService.VerifyLoginFindsStoredRow` | src/main/java/Service/AccountService.java:36-38 | with unique usernames, login returns exactly the row holding the username |

## Left out

- The HTTP controller (`SocialMediaController`): routing, JSON mapping and status codes are library plumbing.
- `MessageService` has no methods, so there is no message logic to model. `MessageDAO` issues SQL only.
- `AccountDAO.getAccountById` is not called by the account service.
- SQL, connection handling and autoincrement keys. The generated key is a parameter, and the model does not promise that keys are distinct.
- DAO.AccountDAO.AddAccount: every insert is all-or-nothing, as its doc comment promises, and returns the new row. The source inserts and then re-reads the row by username (src/main/java/DAO/AccountDAO.java:77). If that re-read fails, the source returns `null` although the row was stored. If the username already had a row, the re-read may return that other row. Neither case is modelled. The model returns the new row. In the model an insert goes last, so a re-read in the case of `Service.DuplicateWhenLookupFails` would find the older row. That lemma therefore states only the table afterwards and what a lookup then finds.
- Backend behaviour of the `account` table, which is not part of this model. The model assumes three things. Rows come back in insertion order, because `SELECT ... WHERE username = ?` has no `ORDER BY` and the first row `rs.next()` yields is the backend's choice. There is no unique constraint on `username`, so a duplicate insert fails only through `insertFails`. The SQL `=` on usernames is exact string equality, whereas on some backends it follows a collation that ignores case or trailing spaces.
- The no-argument constructors. They create a DAO that obtains a connection from `ConnectionUtil` on every call (src/main/java/DAO/AccountDAO.java:19,69).
- Null usernames or passwords, which make Java throw `NullPointerException`. Strings are plain values here.
- Unpaired UTF-16 surrogates. A Java string can hold one (a JSON `\ud800` escape yields one), and `length()` counts it as one unit that is not whitespace. A Dafny `string` holds only Unicode scalar values, so it cannot represent such a password or username.
- Error logging with `System.out.println`.
- Concurrent registrations racing on the same username. The model is sequential.
