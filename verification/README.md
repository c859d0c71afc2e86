# Contract Language Simplifier: accounts and login screens

This project models the account subsystem of the Contract Language Simplifier
web application (`app.py`). It has two parts:

- **The credential store.** This is the SQLite `users` table, with its three
  operations:
  - `create_user` inserts an account, and the UNIQUE constraint on `email`
    rejects duplicates.
  - `verify_user` looks an email up and checks the password against the
    stored bcrypt hash.
  - `reset_password` replaces the hash on the matching rows.
- **The authentication screens.** The session holds a page selector
  (`login`, `signup`, `forgot`, starting at `login`) and the logged-in user.
  Each button press runs the form's checks first. Only then does it call the
  store.

Modules:

- `Bcrypt` (bcrypt.dfy): a salted stand-in for bcrypt. It proves the one
  property the application relies on, `Verify(p, Hash(q, s)) <==> p == q`.
- `Users` (users.dfy): the table as its rows in insertion order plus the
  AUTOINCREMENT counter. The schema constraints (unique email, unique
  issued ids) are the predicate `Valid`. This module also holds the three
  operations.
- `AccountView` (account_view.dfy): the table seen as a map from email to
  account `(id, name, passwordHash, createdAt)`. It proves that each
  operation acts on that map as a single-key update or lookup.
- `AuthProperties` (auth_properties.dfy): what `verify_user` returns after
  a `create_user` or a `reset_password`.
- `Session` (session.dfy): the screens as a pure function
  `Step(session, table, event, env)`. It returns the new session, the new
  table, the message shown and the store call made.
- `SessionProperties` (session_properties.dfy): where each button leads,
  that the checks come before store calls, that the two kinds of failed
  login give the same session, table and message, and an invariant that
  holds along every run.
- `Scenarios` (scenarios.dfy): a walk-through in which Alice signs up, Bob
  tries her email, and Alice logs in and resets her password, played
  through `Step`.

Inputs that the code gets from libraries or the environment become
parameters (`Env`):

- the salt that bcrypt draws at random;
- the `datetime.utcnow().isoformat()` timestamp, kept as an opaque string.

Three behaviours of the code are worth noting, and the model keeps them:

- There is no separate "logged in" page. A successful login sets
  `session_state.user` and leaves the page selector on `login`. The switch to
  the Simplify page is presentation. Logging in again overwrites the user.
- A sign-up with an empty field shows a warning. A mismatched confirmation
  shows an error. The two texts differ.
- A reset on an unregistered email updates nothing and still reports
  success. There is no `NotFound` error and no generic storage-error path in
  the code.

## Model

| member | source | states |
|---|---|---|
| `Bcrypt.VerifyHash` | app.py:61 | A password verifies against the hash of a password, under any salt, exactly when the two are equal. |
| `Bcrypt.Hash` | app.py:47 | `bcrypt.hash` with its random salt made an input: the stored hash records that salt. What verifies against it is stated by `Bcrypt.VerifyHash`. |
| `Bcrypt.Verify` | app.py:61 | `bcrypt.verify`: re-digest the password under the stored salt and compare. Its law with `Hash` is `Bcrypt.VerifyHash`. |
| `Users.Empty` | app.py:22-37 | A newly created `users` table has no rows and meets the schema's constraints. |
| `Users.FindRow` | app.py:58-59 | The lookup by email returns the first row with exactly that email, or nothing exactly when no row has it. |
| `Users.FindRowUnique` | app.py:58-59 | Under UNIQUE(email), the lookup returns the one row that has the email. |
| `Users.CreateUser` | app.py:42-53 | Succeeds, with `(True, None)`, exactly when the email is not yet registered. On success it appends exactly one row with the given name and email, the given timestamp, a hash that verifies the password and an id larger than every existing id, and leaves existing rows alone. A duplicate gives `(False, "Email already exists.")` and leaves the table unchanged. The schema constraints are preserved. |
| `Users.VerifyUser` | app.py:55-63 | Returns only the public identity (id, name, email) of a row whose email is exactly the one given and whose hash verifies the password. Under UNIQUE(email) it returns an identity exactly when such a row exists. An unknown email gives `None`. |
| `Users.SetHashWhere` | app.py:68 | The UPDATE replaces the hash on every row whose email matches and leaves every other row as it was. |
| `Users.ResetPassword` | app.py:65-70 | Only `password_hash` changes, on the rows with the email. The new hash verifies the new password and no other. Id, name, email and created_at of every row, and every other row in full, stay the same. An unknown email changes nothing. The constraints are preserved. |
| `AuthProperties.CreateThenVerify` | app.py:42-63 | After creating an account on a fresh email, that email with its password logs in as `(new id, name, email)`, and any other password is refused. |
| `AuthProperties.CreateTwiceRejected` | app.py:42-51 | A second creation with a registered email fails with the duplicate message for any name and password. The first account is unchanged and still logs in. |
| `AuthProperties.ResetThenVerify` | app.py:55-70 | After a reset of a registered email, the new password logs in as the same identity as before, and every other password, the old one included, is refused. |
| `AccountView.AccountsOfKeys` | app.py:26-32 | The map's keys are exactly the emails present in the table. |
| `AccountView.AccountsOfAt` | app.py:26-32 | Under UNIQUE(email), the map holds each row's id, name, hash and timestamp under that row's email. |
| `AccountView.CreateUserView` | app.py:42-51 | On the map, account creation adds exactly one key (the new email) when the email is absent, and otherwise leaves the map unchanged. It succeeds exactly when the email is not a key. |
| `AccountView.SetHashWhereView` | app.py:68 | On the map, the UPDATE replaces only the hash stored under the email, and only if the email is a key. |
| `AccountView.ResetPasswordView` | app.py:65-70 | On the map, a reset replaces the hash under the email with the new password's hash. Every other key and field is unchanged, and an absent email is a no-op. |
| `AccountView.VerifyUserView` | app.py:55-63 | Login is a map lookup of the exact email followed by a password check against the stored hash. |
| `Session.Initial` | app.py:103-104 | A new session starts on the login page with nobody logged in. |
| `Session.Step` | app.py:111-182 | One button press on the current page gives the new session, table, message and store call. Its properties are the `SessionProperties` lemmas below. |
| `SessionProperties.StepStoreEffect` | app.py:111-182 | A button press changes the table only through the store call it reports. No call means no change. |
| `SessionProperties.GuardsBeforeStoreCalls` | app.py:143-178 | `verify_user` is called only from the login button with its fields. `create_user` is called only from the sign-up button, once all fields are filled and the confirmation matches. `reset_password` is called only from the reset button under the same checks. The user changes only through a login that verified. |
| `SessionProperties.RejectedFormsTouchNothing` | app.py:143-178 | A sign-up or reset form that fails its checks, or a button the page does not show, makes no store call and leaves session and table unchanged. |
| `SessionProperties.LoginPageLinks` | app.py:127-134 | On the login page, "Create Account" goes to `signup` and "Forgot Password?" goes to `forgot`. Neither touches the store or the user. |
| `SessionProperties.BackToLogin` | app.py:158-160 | "Back to Login" on `signup` or on `forgot` (the same code at app.py:180-182) goes to `login`, keeping the user and the table. |
| `SessionProperties.LoginOutcome` | app.py:118-126 | A verified login sets the user to the verified identity, keeps the page on `login` and greets the user by name. A failed login leaves the session unchanged and shows "Invalid email or password.". |
| `SessionProperties.LoginFailureUniform` | app.py:119-126 | An unknown email and a registered email with a wrong password give the very same session, table and message. |
| `SessionProperties.SignUpOutcome` | app.py:143-156 | An empty name, email or password gives the "All fields are required." warning. A mismatched confirmation gives "Passwords do not match.". Neither calls the store. A valid form with a new email creates the account and goes to `login` with the success message. A valid form with a registered email stays on `signup`, shows "Email already exists." and leaves the table unchanged. |
| `SessionProperties.ResetOutcome` | app.py:168-178 | An empty email or new password gives a warning. A mismatched confirmation gives an error. Neither calls the store. Otherwise the reset runs and the page goes to `login` with the success message. |
| `SessionProperties.StepPreservesInvariant` | app.py:111-182 | Every button press keeps the schema constraints. It also keeps the logged-in user equal to the public identity of a stored row. |
| `SessionProperties.RunPreservesInvariant` | app.py:111-182 | The invariant holds after any sequence of button presses. |
| `SessionProperties.ReachableInvariant` | app.py:26-32 | Starting from a fresh session and an empty table, every reachable table has unique emails and unique issued ids, and any logged-in user is a stored account's identity. |
| `Scenarios.AliceAndBob` | app.py:111-182 | In a walk-through of the screens, Alice signs up and Bob's sign-up with her email is refused without changing the table. Alice logs in as `(1, "Alice", "alice@x.com")` and then resets her password. After that, her old password is refused and the new one logs in. |

## Left out

- Rendering, styling, `st.rerun`, `st.switch_page` and `time.sleep` are presentation. Button presses are events. "Switch to the Simplify page" is only the user being set.
- SQLite connection handling, `PRAGMA foreign_keys`, durability and atomicity are I/O. AUTOINCREMENT is modelled only as a counter that issues a fresh, larger id. Database errors other than the UNIQUE violation are not caught by the code. They would propagate as exceptions and are not modelled.
- The internals of bcrypt are not modelled. `Bcrypt.Hash` is a salted, injective stand-in chosen so that `VerifyHash` can be proved.
- Bcrypt.VerifyHash: stronger than the real library, because bcrypt reads only the first 72 bytes of a password. Two passwords that agree on those bytes (a 73-byte password and its 72-byte prefix, say) verify against each other's hashes.
- AuthProperties.ResetThenVerify: "every other password is refused" holds of the real library only for passwords that differ within their first 72 bytes, for the reason given for Bcrypt.VerifyHash.
- AuthProperties.CreateThenVerify: "any other password is refused" holds of the real library only for passwords that differ within their first 72 bytes, for the reason given for Bcrypt.VerifyHash.
- Users.ResetPassword: "the new hash verifies the new password and no other" holds of the real library only up to the first 72 bytes of a password, for the reason given for Bcrypt.VerifyHash.
- The hash library refuses passwords containing a NUL character. This error is not modelled.
- The claim "the hash never equals the plaintext" is not stated. The stored hash has its own type here, and a user may type any text as a password.
- The salt and `datetime.utcnow()` are parameters of each step (`Env`), because they come from randomness and a clock.
- SessionProperties.LoginFailureUniform: states only that the session, table and message are the same. Time is not modelled. An unknown email skips the hash check at app.py:61 (the `and` short-circuits), so it answers faster than a registered email with a wrong password.
- Concurrent sign-ups on the same email are left out. The model is sequential, and the store's UNIQUE constraint decides such races.
- pages/1_Simplify.py, pages/2_Text_Analysis.py and pages/3_MultiLevel_Simplification.py are left out. They call pretrained models, file extractors and readability libraries, whose logic is not visible, and their scores are floating point. Their small pure pieces (extension parsing, glossary lookup, level map, highlight regex) are presentation around those calls.
- pages/4_Admin_Dashboard.py shows fixed metrics only.
- Logout is left out because the code has none. `NotFound` and `StorageError` results are left out because the code has neither.
