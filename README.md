# User controller model

A Dafny model of the user-resource REST controller of next-postgres
(`api/controllers/user.js`). The controller registers users, fetches one user,
updates a user's profile, lets the logged-in user delete their own account,
and logs out. Its decision logic is what is modelled here.

- `js_string.dfy`, module `JsString`: the JavaScript built-ins the controller
  relies on. A request field is `Option<string>`, where `None` stands for
  `undefined`/`null`. The module also gives JavaScript truthiness of such a
  field, `String.prototype.trim` (with ECMAScript's whitespace and
  line-terminator set) and `String.prototype.toLowerCase`.
- `user_controller.dfy`, module `UserController`: the helpers `isEmptyOrNull`
  and `getUserProps`, and a class `Controller` that owns the state the
  handlers change:
  - `users`: the user table, `map<Id, UserRecord>`.
  - `session`: the id attached to the requester's session (`req.user`).
  - `nextId`: the next auto-increment id the table hands out.
  - `hash`: the one-way bcrypt hash, injected as a function.

  Each handler is a method that returns a `Response`, which is a status code
  plus a body. Its `ensures` say which inputs are rejected before any write,
  what the table and session are afterwards, and that no other row changes.
  The freshly generated salt, the clock and the outcome of `req.login` are
  method parameters.

Behaviour worth knowing, all taken from the code as written:
- `update` stores the supplied password as given. It does not hash it,
  whereas `create` stores `hash(password, salt)`.
- `update` does not consult the session, so it can change any user.
- `update` does not lower-case a new username, and it stores any truthy
  username as given, so a whitespace-only username such as `"   "` can be
  stored.
- When `req.login` fails in `create`, the new row is already stored even
  though the answer is 500 "Auth error".
- `deleteViewer` without a session reads `req.user.id` on an undefined
  `req.user`. That throws inside the `try`, so the answer is 500 with the raw
  error object.

## Model

| member | source | states |
|---|---|---|
| `UserController.IsEmptyOrNull` | api/controllers/user.js:5-7 | a field is blank exactly when it is absent, or every character is whitespace (the empty string included) |
| `UserController.FilledByOneChar` | api/controllers/user.js:5-7 | one non-whitespace character anywhere makes a field non-blank |
| `UserController.FilledIsTruthy` | api/controllers/user.js:157-159 | a non-blank field is truthy, so JavaScript `or` with a fallback always picks it |
| `JsString.LeadingSpaces` | api/controllers/user.js:6 | how much `trim` drops at the front: every counted character is whitespace and the next one, if any, is not |
| `JsString.TrailingSpaces` | api/controllers/user.js:6 | how much `trim` drops at the back: every counted character is whitespace and the one before them, if any, is not |
| `JsString.Trim` | api/controllers/user.js:6 | `trim()` is empty exactly when the string is all whitespace; otherwise it starts and ends with non-whitespace |
| `JsString.TrimCutsOnlyEndSpaces` | api/controllers/user.js:6 | `trim()` returns the input with a whitespace-only prefix and a whitespace-only suffix cut off, and the rest unchanged |
| `JsString.TrimIdempotent` | api/controllers/user.js:6 | trimming a trimmed string changes nothing |
| `JsString.ToLower` | api/controllers/user.js:46 | the ASCII model of `toLowerCase()`: it keeps the length and maps each A-Z letter to its lower-case form in place |
| `JsString.ToLowerIsLower` | api/controllers/user.js:46 | a lowered username holds no A-Z letter |
| `JsString.ToLowerIdempotent` | api/controllers/user.js:46 | lowering a lowered username changes nothing |
| `JsString.ToLowerKeepsBlankness` | api/controllers/user.js:46 | lowering neither makes a blank name filled nor a filled name blank, so the username `create` stores is never blank |
| `UserController.StoredUsernameIsFilledAndLower` | api/controllers/user.js:25-46 | the username `create` stores, the lower-cased input that passed the blank check, is itself not blank and holds no A-Z letter |
| `UserController.AddKeepsKeyed` | api/controllers/user.js:45-49 | the row `User.create` adds under the next id does not overwrite an existing row, and the table stays keyed by id |
| `UserController.ReplaceKeepsKeyed` | api/controllers/user.js:156-160 | rewriting a row in place under its own id keeps the table keyed by id |
| `UserController.RemoveKeepsKeyed` | api/controllers/user.js:179 | destroying a row keeps the table keyed by id |
| `UserController.Project` | api/controllers/user.js:9-17 | `getUserProps`: the five public fields (id, username, email, createdAt, updatedAt) copied from the record; the result type has no salt or password |
| `JsString.Truthy` | api/controllers/user.js:157-159 | the truthiness test behind each `or` fallback of `update`: the field is present and not the empty string |
| `UserController.ProjectionHidesSecrets` | api/controllers/user.js:9-17 | `getUserProps` ignores salt and password: records that differ only there project alike |
| `UserController.ProjectionKeepsPublicFields` | api/controllers/user.js:9-17 | two records project alike exactly when they agree on id, username, email, createdAt and updatedAt |
| `UserController.Controller.Create` | api/controllers/user.js:20-63 | any blank username, password or verify gives 500 "Please fill out all fields." and changes nothing. This check runs before the comparison. Then password != verify gives 500 "Your passwords do not match." and changes nothing. Otherwise exactly one row is added under a fresh id, holding the lower-cased username, the salt and `hash(password, salt)`. If login succeeds, the session becomes that user and the answer is 200 with the row's projection. If login fails, the session is kept and the answer is 500 "Auth error" |
| `UserController.Controller.Logout` | api/controllers/user.js:87-92 | the session is cleared and the answer is always 200 "You are successfully logged out", so two logouts answer alike |
| `UserController.Controller.Get` | api/controllers/user.js:109-138 | 200 exactly when the id is in the table, with that row's projection; otherwise 404 "404 on user get"; the state is not modified |
| `UserController.Controller.Update` | api/controllers/user.js:140-166 | a blank password gives 500 "You must provide a password." before any lookup. A missing id gives 404 "404 no user on update". In both cases nothing changes. Otherwise only that row changes: email and username are replaced by the supplied values when truthy and kept otherwise; the password becomes the supplied plaintext; salt and createdAt are kept; the answer is 200 with the new projection |
| `UserController.Controller.DeleteViewer` | api/controllers/user.js:168-187 | with no session, 500 with the raw error and nothing changes. With a session whose user is not in the table, 403 "Forbidden: User Not Found" and nothing changes. Otherwise the session is cleared, exactly that row is removed, and the answer is 200 `{viewer: null}` |

## Left out

- `auth` (api/controllers/user.js:65-85): its outcome is decided entirely by the passport local-strategy authenticator, which is not part of this model.
- `list` (api/controllers/user.js:94-107): it only forwards a database query; the ordering and the excluded columns are the database's work.
- The `catch` branches that answer 500 with a database error, such as a duplicate username, an unparsable id or a lost connection. The table's constraints live in the database, and that failure path is not modelled. The one exception modelled is the thrown `req.user.id` in `deleteViewer`, which the controller's own code causes.
- `JsString.ToLower`: maps only the ASCII letters A-Z. Real `toLowerCase` also lowers non-ASCII letters such as 'É', and can change the length (U+0130 becomes two code units). The model's length and "no A-Z letter" facts are about the ASCII mapping only.
- bcrypt: `genSaltSync(10)` is a method parameter (the cost factor 10 is not modelled) and `hashSync` is the injected function `hash`, with no property assumed of it.
- Timestamps: `create` sets `createdAt` and `updatedAt` to the `now` parameter and `update` sets `updatedAt` to it. The ORM skips the write when no field changes; that is not modelled.
- `get`'s eager loading of posts and comments and its column exclusion: the projection drops both anyway, and the response is the same.
- Request bodies holding non-string values (numbers, objects), on which `trim` or `toLowerCase` would throw. Fields are modelled as strings or absent.
- Passport's session serialisation: the session is the user's id, and `req.user` is the row for that id.
- async scheduling, concurrent requests, HTTP transport and the `req`/`res` objects.
