/**
 Properties that relate registration and login: what a successful
 registration makes possible and what it rules out afterwards.
 */
module Properties {
  import opened Users
  import opened Registry
  import opened Authentication

  /** The credentials of a registration request, as a login request. */
  function Credentials(req: RegisterRequest): LoginRequest {
    LoginRequest(req.username, req.password)
  }

  /**
   Under the hashing library's round-trip property, logging in right after a
   successful registration, with the same username and password, succeeds and
   returns exactly the submitted profile.
   */
  lemma LoginAfterRegistration(
    users: seq<User>, id: nat, req: RegisterRequest, salt: string, hash: HashFn, verify: VerifyFn)
    requires Validate(users, req) == None
    requires VerifiesOwnHash(hash, verify)
    ensures Login(users + [NewUser(id, req, salt, hash)], Credentials(req), verify)
      == LoggedIn(UserInfo(req.username.value, req.nickname.value, req.birthyear.value, req.gender.value))
  {
    var u := NewUser(id, req, salt, hash);
    FindFirstAppended(users, u, Username);
    assert (users + [u])[|users|] == u;
  }

  /** After a successful registration, a second one with the same username is refused as a duplicate username. */
  lemma UsernameTakenAfterRegistration(
    users: seq<User>, id: nat, req: RegisterRequest, salt: string, hash: HashFn, again: RegisterRequest)
    requires Validate(users, req) == None
    requires !MissingFields(again) && again.username == req.username
    ensures Validate(users + [NewUser(id, req, salt, hash)], again) == Some(UsernameExists)
  {
    var u := NewUser(id, req, salt, hash);
    FindFirstAppended(users, u, Username);
  }

  /**
   After a successful registration, a second one with a new username but the
   same nickname is refused as a duplicate nickname.
   */
  lemma NicknameTakenAfterRegistration(
    users: seq<User>, id: nat, req: RegisterRequest, salt: string, hash: HashFn, again: RegisterRequest)
    requires Validate(users, req) == None
    requires !MissingFields(again) && !Taken(users, Username, again.username.value)
    requires again.username != req.username && again.nickname == req.nickname
    ensures Validate(users + [NewUser(id, req, salt, hash)], again) == Some(NicknameExists)
  {
    var u := NewUser(id, req, salt, hash);
    FindFirstAppendedOther(users, u, Username, again.username.value);
    FindFirstAppended(users, u, Nickname);
  }

  /** A registration does not change the outcome of any login for another username. */
  lemma OtherLoginsUnchanged(
    users: seq<User>, id: nat, req: RegisterRequest, salt: string, hash: HashFn,
    login: LoginRequest, verify: VerifyFn)
    requires !MissingFields(req)
    requires login.username != req.username
    ensures Login(users + [NewUser(id, req, salt, hash)], login, verify) == Login(users, login, verify)
  {
    var u := NewUser(id, req, salt, hash);
    if login.username.Some? {
      FindFirstAppendedOther(users, u, Username, login.username.value);
      assert forall i :: 0 <= i < |users| ==> (users + [u])[i] == users[i];
    }
  }

  /** A register/login sequence on a fresh table. */
  method Walkthrough(hash: HashFn, verify: VerifyFn)
    returns (first: RegisterOutcome, login: LoginOutcome, again: RegisterOutcome, stranger: LoginOutcome)
    requires VerifiesOwnHash(hash, verify)
    ensures first == Created && Registry.Status(first) == 201
    ensures login == LoggedIn(UserInfo("alice", "Ali", 1990, "F"))
    ensures again == Rejected(UsernameExists) && Registry.Message(again) == "Username already exists"
    ensures stranger == InvalidCredentials && Authentication.Status(stranger) == 401
  {
    var table := new UserTable();
    var alice := RegisterRequest(Some("alice"), Some("pw1"), Some("Ali"), Some(1990), Some("F"));
    first := table.Register(alice, "salt-1", hash);
    LoginAfterRegistration([], 1, alice, "salt-1", hash, verify);
    login := Login(table.users, Credentials(alice), verify);
    var twin := RegisterRequest(Some("alice"), Some("pw2"), Some("Other"), Some(1991), Some("M"));
    UsernameTakenAfterRegistration([], 1, alice, "salt-1", hash, twin);
    again := table.Register(twin, "salt-2", hash);
    stranger := Login(table.users, LoginRequest(Some("bob"), Some("pw1")), verify);
  }
}
