/**
 Login (`POST /login`): a read-only lookup by username followed by a password
 check, answering with the profile or with one generic refusal.
 */
module Authentication {
  import opened Users

  /** The JSON body as `data[key]` sees it: None when the key is absent. */
  datatype LoginRequest = LoginRequest(username: Option<string>, password: Option<string>)

  /** The `user_info` object of a successful reply. */
  datatype UserInfo = UserInfo(username: string, nickname: string, birthyear: int, gender: string)

  /**
   What the handler does: reply with the profile, reply with the generic
   refusal, or raise `KeyError` for a key it indexes that is absent.
   */
  datatype LoginOutcome = LoggedIn(info: UserInfo) | InvalidCredentials | KeyMissing(key: string)

  /** The public part of a row: everything except the id and the password hash. */
  function Profile(u: User): (info: UserInfo)
    ensures info.username == u.username && info.nickname == u.nickname
    ensures info.birthyear == u.birthyear && info.gender == u.gender
  {
    UserInfo(u.username, u.nickname, u.birthyear, u.gender)
  }

  /** Row `i` is the one `filter_by(username=name).first()` returns. */
  ghost predicate FirstWithUsername(users: seq<User>, name: string, i: int) {
    && 0 <= i < |users|
    && users[i].username == name
    && forall j :: 0 <= j < i ==> users[j].username != name
  }

  /**
   `UserLogin.post`. The username key is read first; the password key is read
   only once a row was found, because the handler's `and` short-circuits. An
   unknown user and a wrong password give the same refusal.
   */
  function Login(users: seq<User>, req: LoginRequest, verify: VerifyFn): (r: LoginOutcome)
    ensures r == KeyMissing("username") <==> req.username.None?
    ensures r == KeyMissing("password") <==>
      req.username.Some? && Taken(users, Username, req.username.value) && req.password.None?
    ensures r.KeyMissing? ==> r.key in {"username", "password"}
    ensures r.LoggedIn? <==>
      && req.username.Some? && req.password.Some?
      && exists i :: FirstWithUsername(users, req.username.value, i)
                     && CheckPassword(users[i], req.password.value, verify)
    ensures r.LoggedIn? ==>
      exists i :: FirstWithUsername(users, req.username.value, i) && r.info == Profile(users[i])
    ensures r.InvalidCredentials? <==>
      && req.username.Some?
      && (|| !Taken(users, Username, req.username.value)
          || (&& req.password.Some?
              && exists i :: FirstWithUsername(users, req.username.value, i)
                             && !CheckPassword(users[i], req.password.value, verify)))
  {
    match req.username
    case None => KeyMissing("username")
    case Some(name) =>
      match FindFirst(users, Username, name)
      case None => InvalidCredentials
      case Some(i) =>
        assert FirstWithUsername(users, name, i);
        match req.password
        case None => KeyMissing("password")
        case Some(password) =>
          if CheckPassword(users[i], password, verify) then LoggedIn(Profile(users[i]))
          else InvalidCredentials
  }

  /** The HTTP status of a reply; a raised `KeyError` has none of the handler's own. */
  function Status(r: LoginOutcome): (code: int)
    requires !r.KeyMissing?
    ensures code == 200 <==> r.LoggedIn?
    ensures code == 401 <==> r.InvalidCredentials?
  {
    if r.LoggedIn? then 200 else 401
  }

  /** The `message` of the JSON reply. */
  function Message(r: LoginOutcome): (m: string)
    requires !r.KeyMissing?
    ensures m == "Logged in successfully" <==> r.LoggedIn?
    ensures m == "Invalid username or password" <==> r.InvalidCredentials?
  {
    if r.LoggedIn? then "Logged in successfully" else "Invalid username or password"
  }

  /**
   In a table with unique usernames, login succeeds exactly when some row
   carries the username and accepts the password, and returns that row's profile.
   */
  lemma {:induction false} LoginSucceedsExactly(users: seq<User>, name: string, password: string, verify: VerifyFn)
    requires Unique(users, Username)
    ensures Login(users, LoginRequest(Some(name), Some(password)), verify).LoggedIn? <==>
      exists i :: 0 <= i < |users| && users[i].username == name && CheckPassword(users[i], password, verify)
    ensures forall i :: 0 <= i < |users| && users[i].username == name && CheckPassword(users[i], password, verify) ==>
      Login(users, LoginRequest(Some(name), Some(password)), verify) == LoggedIn(Profile(users[i]))
  {
    forall i | 0 <= i < |users| && users[i].username == name
      ensures FirstWithUsername(users, name, i)
    {
      FindFirstUnique(users, Username, name, i);
    }
  }

  /**
   The refusal does not reveal whether the account exists: an unknown username
   and a known one with a wrong password get the same outcome, hence the same
   status and message.
   */
  lemma UnknownUserLooksLikeWrongPassword(
    users: seq<User>, unknown: string, known: string, password: string, wrong: string, verify: VerifyFn)
    requires !Taken(users, Username, unknown)
    requires Unique(users, Username)
    requires exists i :: 0 <= i < |users| && users[i].username == known && !CheckPassword(users[i], wrong, verify)
    ensures Login(users, LoginRequest(Some(unknown), Some(password)), verify) == InvalidCredentials
    ensures Login(users, LoginRequest(Some(known), Some(wrong)), verify) == InvalidCredentials
  {
    var i :| 0 <= i < |users| && users[i].username == known && !CheckPassword(users[i], wrong, verify);
    FindFirstUnique(users, Username, known, i);
  }
}
