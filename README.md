# User registry of the travel-planner backend

This project models the user registry of a Flask travel-planner service in Dafny.
It covers the `User` table and its two endpoints:

- `POST /register` runs a fixed-order validation chain over the JSON body and the table. The checks are missing fields, then a taken username, then a taken nickname. If all pass, it inserts one row with the next auto-increment id and answers 201.
- `POST /login` looks a user up by username and checks the password against the stored hash. It answers 200 with the profile, or one generic 401.

Files:

- `users.dfy` (module `Users`) holds the row type `User` and the two unique columns. It has the lookup `FindFirst`, which is `User.query.filter_by(col=v).first()`. It also holds the hash abstraction behind `set_password` / `check_password`.
- `registry.dfy` (module `Registry`) holds the registration payload, Python falsiness and the validation chain `Validate`. It also holds the class `UserTable`, whose `Register` method updates the table and the id counter in place.
- `login.dfy` (module `Authentication`) holds `Login`, a function over the table. It cannot change the table.
- `properties.dfy` (module `Properties`) holds lemmas that relate registration and login, plus a client method that walks through a register/login sequence.

Password hashing comes from a library, werkzeug. It is not modelled. Instead it is passed in as two function parameters:

- `hash(salt, password)` stands for `generate_password_hash`. The salt is random in the library, so here it is a parameter of `Register`.
- `verify(stored, password)` stands for `check_password_hash`.

Only one property of them is assumed: a password is accepted against a hash made from it (`VerifiesOwnHash`). It appears as a `requires` on exactly the lemmas that need it. The row type has no plaintext-password field. The stored value is `hash(salt, password)`; that this value differs from the plaintext is a property of the library that the model does not capture.

Login indexes `data['username']` directly, so a missing key raises `KeyError`; the model represents that path as `KeyMissing` and gives it no status code.

## Model

| member | source | states |
|---|---|---|
| `Users.FindFirst` | app.py:80-83 | The lookup returns the position of the first row whose column holds the value, with no earlier row holding it. It returns None exactly when no row holds the value. |
| `Users.FindFirstUnique` | app.py:44-46 | When a column is unique (username, nickname), the lookup finds the one row holding the value. |
| `Users.CheckPassword` | app.py:53-54 | `check_password` accepts exactly when the hashing library accepts the candidate password against the row's stored hash; nothing else about the row is consulted. |
| `Users.SetPassword` | app.py:50-51 | `set_password` stores the hash of the password and leaves id, username, nickname, birthyear and gender unchanged. |
| `Users.CheckPasswordAfterSet` | app.py:50-54 | Under the hash round-trip property, `check_password` accepts the password that `set_password` just stored. |
| `Registry.Validate` | app.py:76-83 | Returns "Missing required fields" exactly when some required field is falsy: absent, null, empty text or birthyear 0. Otherwise returns "Username already exists" exactly when the username is taken. Otherwise returns "Nickname already exists" exactly when the nickname is taken. Otherwise passes. The first failing check wins. |
| `Registry.Status` | app.py:77-91 | A registration answers 201 exactly when it created a row and 400 exactly when it was rejected. |
| `Registry.Message` | app.py:77-91 | Each outcome has its own reply text, and each text belongs to exactly one outcome: "User created successfully", "Missing required fields", "Username already exists", "Nickname already exists". |
| `Registry.NewUser` | app.py:86-87 | The inserted row carries the submitted username, nickname, birthyear and gender, the assigned id, and the hash of the password (not the password). |
| `Registry.InsertKeepsInvariant` | app.py:80-89 | An insert that passed validation keeps the table invariant. Usernames stay unique, nicknames stay unique, every row has truthy required fields, and ids stay increasing and below the counter. |
| `Registry.UserTable.constructor` | app.py:42-48 | A new table is empty, satisfies the invariant and hands out id 1 first. |
| `Registry.UserTable.Register` | app.py:66-91 | Keeps the invariant. Succeeds exactly when validation passes and otherwise reports the first failing check. A rejected request leaves the rows and the counter unchanged. An accepted one appends exactly one new row with id = old counter, keeps all earlier rows, and advances the counter by one. |
| `Authentication.Login` | app.py:95-110 | A missing `username` key raises. If the username names no row, the answer is the refusal and the `password` key is never read. If it names a row and the `password` key is missing, the call raises. Otherwise the answer is the profile (username, nickname, birthyear, gender) of the first matching row exactly when that row accepts the password, and the refusal otherwise. |
| `Authentication.Status` | app.py:101-110 | A login reply is 200 exactly when it logged in and 401 exactly when it refused. |
| `Authentication.Message` | app.py:102-110 | The reply text is "Logged in successfully" exactly for a login and "Invalid username or password" exactly for a refusal. |
| `Authentication.Profile` | app.py:103-108 | `user_info` carries the row's username, nickname, birthyear and gender, and neither the id nor the password hash. |
| `Authentication.LoginSucceedsExactly` | app.py:98-109 | With unique usernames, login succeeds exactly when some row has that username and accepts the password, and it returns that row's profile. |
| `Authentication.UnknownUserLooksLikeWrongPassword` | app.py:98-110 | An unknown username and a known username with a wrong password give the same refusal outcome, so the reply does not reveal whether the account exists. |
| `Properties.LoginAfterRegistration` | app.py:86-109 | Under the hash round-trip property, logging in right after a successful registration with the same credentials succeeds. It returns exactly the submitted username, nickname, birthyear and gender. |
| `Properties.UsernameTakenAfterRegistration` | app.py:80-81 | After a successful registration, a complete request with the same username is refused with "Username already exists". |
| `Properties.NicknameTakenAfterRegistration` | app.py:82-83 | After a successful registration, a complete request with a new username but the same nickname is refused with "Nickname already exists". |
| `Properties.OtherLoginsUnchanged` | app.py:86-100 | Inserting a row does not change the outcome of any login under a different username. |
| `Properties.Walkthrough` | app.py:66-110 | On a fresh table: registering alice/pw1/Ali/1990/F answers 201. Logging in as alice then returns that profile. Registering alice again answers 400 "Username already exists". Logging in as an unknown user answers 401. |

## Left out

- Flask and flask_restful routing, CORS configuration, the after-request `Content-Type` header and server start-up are framework plumbing.
- Environment loading, the connection string, the pyodbc and SQLAlchemy configuration and `db.create_all` are infrastructure. The table is modelled as an in-memory sequence of rows in insertion order.
- `.first()` (app.py:80, 82, 98) has no `order_by`, so the database promises no particular row. The model takes the first row in insertion order. This choice matters only if a column held a value twice, which the unique constraints on username and nickname (app.py:44, 46) rule out; `Users.FindFirstUnique` shows the lookup then finds the only matching row.
- The internals of werkzeug's `generate_password_hash` / `check_password_hash` are not modelled. They are function parameters with only the round-trip property assumed. The random salt is a parameter.
- Concurrency is left out. The model does not capture the check-then-insert race between two simultaneous registrations, or the database's unique constraint as a backstop for it. Session commit and rollback, and a commit that fails, are left out too.
- The database engine's rules are left out. Column widths (`String(80)`, `String(255)`, `String(10)`), the 32-bit `Integer` range of `birthyear` (app.py:47) and the collation's case-insensitive comparison are not modelled; a value outside them would fail at commit. Lookups compare strings exactly.
- Request bodies that are not JSON objects are left out. So are JSON values of the wrong type, such as a number as username or a text birthyear. Each payload field is either absent/null or a value of the column's type. In the login payload, None means the key is absent. A `null` username or password at login is not modelled.
- The exception `KeyError` is modelled as the outcome `KeyMissing`. What the framework then sends back is not modelled.
- `Properties.Walkthrough` has no wrong-password step: the only property assumed of `verify` says what it accepts, not what it rejects. `Authentication.Login` still covers the refusal for a password that `verify` rejects.
- The other scripts in the repository are outside this model. One alters a table once, one tests the connection, and one prints the connection string.
