/**
 Registration (`POST /register`): a fixed-order validation chain over the
 request payload and the current table, then one insert with the next
 auto-increment id.
 */
module Registry {
  import opened Users

  /**
   The JSON body as `data.get(key)` sees it: None when the key is absent or
   holds null.
   */
  datatype RegisterRequest = RegisterRequest(
    username: Option<string>,
    password: Option<string>,
    nickname: Option<string>,
    birthyear: Option<int>,
    gender: Option<string>)

  /** Python falsiness of a text field: absent, null or the empty string. */
  predicate FalsyText(s: Option<string>) {
    s.None? || s.value == ""
  }

  /** Python falsiness of the year: absent, null or 0. */
  predicate FalsyYear(y: Option<int>) {
    y.None? || y.value == 0
  }

  /** `not all([username, password, nickname, birthyear, gender])`. */
  predicate MissingFields(req: RegisterRequest) {
    FalsyText(req.username) || FalsyText(req.password) || FalsyText(req.nickname)
    || FalsyYear(req.birthyear) || FalsyText(req.gender)
  }

  datatype RegisterError = MissingRequiredFields | UsernameExists | NicknameExists

  datatype RegisterOutcome = Created | Rejected(error: RegisterError)

  /** The HTTP status the handler answers with. */
  function Status(o: RegisterOutcome): (code: int)
    ensures code == 201 <==> o.Created?
    ensures code == 400 <==> o.Rejected?
  {
    if o.Created? then 201 else 400
  }

  /** The `message` of the JSON reply. */
  function Message(o: RegisterOutcome): (m: string)
    ensures m == "User created successfully" <==> o.Created?
    ensures m == "Missing required fields" <==> o == Rejected(MissingRequiredFields)
    ensures m == "Username already exists" <==> o == Rejected(UsernameExists)
    ensures m == "Nickname already exists" <==> o == Rejected(NicknameExists)
  {
    match o
    case Created => "User created successfully"
    case Rejected(MissingRequiredFields) => "Missing required fields"
    case Rejected(UsernameExists) => "Username already exists"
    case Rejected(NicknameExists) => "Nickname already exists"
  }

  /**
   The validation chain, in the handler's order: missing fields, then a taken
   username, then a taken nickname. The first failing check is the one reported.
   */
  function Validate(users: seq<User>, req: RegisterRequest): (r: Option<RegisterError>)
    ensures r == Some(MissingRequiredFields) <==> MissingFields(req)
    ensures r == Some(UsernameExists) <==>
      !MissingFields(req) && Taken(users, Username, req.username.value)
    ensures r == Some(NicknameExists) <==>
      !MissingFields(req) && !Taken(users, Username, req.username.value)
      && Taken(users, Nickname, req.nickname.value)
    ensures r == None <==>
      !MissingFields(req) && !Taken(users, Username, req.username.value)
      && !Taken(users, Nickname, req.nickname.value)
  {
    if MissingFields(req) then Some(MissingRequiredFields)
    else if FindFirst(users, Username, req.username.value).Some? then Some(UsernameExists)
    else if FindFirst(users, Nickname, req.nickname.value).Some? then Some(NicknameExists)
    else None
  }

  /**
   The row the handler builds: `User(username=…, nickname=…, birthyear=…,
   gender=…)` with the id the table assigns, then `set_password`.
   */
  function NewUser(id: nat, req: RegisterRequest, salt: string, hash: HashFn): (u: User)
    requires !MissingFields(req)
    ensures u.id == id && u.username == req.username.value && u.nickname == req.nickname.value
    ensures u.birthyear == req.birthyear.value && u.gender == req.gender.value
    ensures u.passwordHash == hash(salt, req.password.value)
  {
    var blank := User(id, req.username.value, "", req.nickname.value, req.birthyear.value, req.gender.value);
    SetPassword(blank, salt, req.password.value, hash)
  }

  /** Every stored row holds truthy values in its required columns. */
  ghost predicate Complete(u: User) {
    u.username != "" && u.nickname != "" && u.birthyear != 0 && u.gender != ""
  }

  /** The table's invariant: unique usernames and nicknames, complete rows, increasing ids below the counter. */
  ghost predicate TableInvariant(users: seq<User>, nextId: nat) {
    && Unique(users, Username)
    && Unique(users, Nickname)
    && 1 <= nextId
    && (forall i :: 0 <= i < |users| ==> Complete(users[i]) && 1 <= users[i].id < nextId)
    && (forall i, j :: 0 <= i < j < |users| ==> users[i].id < users[j].id)
  }

  /** A registration that passes validation keeps the table's invariant. */
  lemma {:induction false} InsertKeepsInvariant(users: seq<User>, nextId: nat, req: RegisterRequest, salt: string, hash: HashFn)
    requires TableInvariant(users, nextId)
    requires Validate(users, req) == None
    ensures TableInvariant(users + [NewUser(nextId, req, salt, hash)], nextId + 1)
  {
    var u := NewUser(nextId, req, salt, hash);
    var all := users + [u];
    forall i, j | 0 <= i < j < |all|
      ensures Field(all[i], Username) != Field(all[j], Username)
      ensures Field(all[i], Nickname) != Field(all[j], Nickname)
      ensures all[i].id < all[j].id
    {
      if j == |users| {
        assert all[i] == users[i];
      }
    }
  }

  /** The user table with its auto-increment id counter. */
  class UserTable {
    var users: seq<User>
    var nextId: nat

    ghost predicate Valid()
      reads this
    {
      TableInvariant(users, nextId)
    }

    /** An empty table whose first id is 1. */
    constructor ()
      ensures Valid()
      ensures users == [] && nextId == 1
    {
      users := [];
      nextId := 1;
    }

    /**
     `UserRegistration.post`. A rejected request leaves the table as it was;
     an accepted one appends exactly one row, built from the request with the
     password replaced by its hash, under the next id.
     */
    method Register(req: RegisterRequest, salt: string, hash: HashFn) returns (outcome: RegisterOutcome)
      requires Valid()
      modifies this
      ensures Valid()
      ensures outcome.Created? <==> Validate(old(users), req) == None
      ensures outcome.Rejected? ==> Validate(old(users), req) == Some(outcome.error)
      ensures outcome.Rejected? ==> users == old(users) && nextId == old(nextId)
      ensures outcome.Created? ==>
        && users == old(users) + [NewUser(old(nextId), req, salt, hash)]
        && nextId == old(nextId) + 1
    {
      var error := Validate(users, req);
      if error.Some? {
        return Rejected(error.value);
      }
      var row := NewUser(nextId, req, salt, hash);
      InsertKeepsInvariant(users, nextId, req, salt, hash);
      users := users + [row];
      nextId := nextId + 1;
      return Created;
    }
  }
}
