/**
 The `User` table of the travel-planner backend: one row per account, the two
 columns that are unique, the lookup `User.query.filter_by(col=v).first()`, and
 the password-hash abstraction behind `set_password` / `check_password`.
 */
module Users {

  datatype Option<T> = None | Some(value: T)

  /** A row of the table. There is no plaintext-password column: only its hash is kept. */
  datatype User = User(
    id: nat,
    username: string,
    passwordHash: string,
    nickname: string,
    birthyear: int,
    gender: string)

  /** The columns the handlers query by. Both are declared unique. */
  datatype Column = Username | Nickname

  function Field(u: User, c: Column): string {
    match c
    case Username => u.username
    case Nickname => u.nickname
  }

  /** Some row holds `v` in column `c`. */
  ghost predicate Taken(users: seq<User>, c: Column, v: string) {
    exists i :: 0 <= i < |users| && Field(users[i], c) == v
  }

  /** No two rows share a value in column `c`. */
  ghost predicate Unique(users: seq<User>, c: Column) {
    forall i, j :: 0 <= i < j < |users| ==> Field(users[i], c) != Field(users[j], c)
  }

  /**
   `User.query.filter_by(c=v).first()`: the position of the first row, in table
   order, whose column `c` holds `v`, or None when no row does.
   */
  function FindFirst(users: seq<User>, c: Column, v: string): (r: Option<nat>)
    ensures r.Some? ==> r.value < |users| && Field(users[r.value], c) == v
    ensures r.Some? ==> forall j :: 0 <= j < r.value ==> Field(users[j], c) != v
    ensures r.None? <==> !Taken(users, c, v)
    decreases |users|
  {
    if |users| == 0 then None
    else if Field(users[0], c) == v then Some(0)
    else
      match FindFirst(users[1..], c, v)
      case None => None
      case Some(k) => Some(k + 1)
  }

  /** In a table where column `c` is unique, the row found is the only one holding `v`. */
  lemma {:induction false} FindFirstUnique(users: seq<User>, c: Column, v: string, i: nat)
    requires Unique(users, c)
    requires i < |users| && Field(users[i], c) == v
    ensures FindFirst(users, c, v) == Some(i)
  {
    var r := FindFirst(users, c, v);
    assert r.Some? by { assert Taken(users, c, v); }
  }

  /** Appending a row whose value is new in column `c` makes that row the one found. */
  lemma {:induction false} FindFirstAppended(users: seq<User>, u: User, c: Column)
    requires !Taken(users, c, Field(u, c))
    ensures FindFirst(users + [u], c, Field(u, c)) == Some(|users|)
  {
    var all := users + [u];
    assert Field(all[|users|], c) == Field(u, c);
    var r := FindFirst(all, c, Field(u, c));
    assert r.Some? by { assert Taken(all, c, Field(u, c)); }
  }

  /** Appending a row with a different value in column `c` does not change what a lookup of `v` finds. */
  lemma {:induction false} FindFirstAppendedOther(users: seq<User>, u: User, c: Column, v: string)
    requires Field(u, c) != v
    ensures FindFirst(users + [u], c, v) == FindFirst(users, c, v)
    decreases |users|
  {
    if |users| > 0 && Field(users[0], c) != v {
      assert (users + [u])[1..] == users[1..] + [u];
      FindFirstAppendedOther(users[1..], u, c, v);
    }
  }

  /** `generate_password_hash(password)`: the library draws a salt and hashes the password with it. */
  type HashFn = (string, string) -> string

  /** `check_password_hash(stored_hash, password)`. */
  type VerifyFn = (string, string) -> bool

  /**
   The one property assumed of the hashing library: a password checked against a
   hash made from it, with any salt, is accepted.
   */
  ghost predicate VerifiesOwnHash(hash: HashFn, verify: VerifyFn) {
    forall salt, password :: verify(hash(salt, password), password)
  }

  /** `set_password`: the row keeps every field except `passwordHash`, which becomes the hash of `password`. */
  function SetPassword(u: User, salt: string, password: string, hash: HashFn): (r: User)
    ensures r.passwordHash == hash(salt, password)
    ensures r.id == u.id && r.username == u.username && r.nickname == u.nickname
    ensures r.birthyear == u.birthyear && r.gender == u.gender
  {
    u.(passwordHash := hash(salt, password))
  }

  /** `check_password`: the candidate password is checked against the stored hash only. */
  function CheckPassword(u: User, password: string, verify: VerifyFn): (ok: bool)
    ensures ok <==> verify(u.passwordHash, password)
  {
    verify(u.passwordHash, password)
  }

  /** A row whose password was just set accepts that same password. */
  lemma CheckPasswordAfterSet(u: User, salt: string, password: string, hash: HashFn, verify: VerifyFn)
    requires VerifiesOwnHash(hash, verify)
    ensures CheckPassword(SetPassword(u, salt, password, hash), password, verify)
  {
  }
}
