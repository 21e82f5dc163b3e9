/**
 * The user registry and its service (`backend/services/user.py`).
 *
 * The `users` table is a finite map from the primary key, the username, to
 * the rest of the row. The service performs no uniqueness checks of its own;
 * the table's constraints (primary key, unique and non-null email, non-null
 * name) are what reject a bad insert.
 */
module UserService {
  import opened Wrappers

  /** A `users` row without its key; every column is non-null. */
  datatype UserRecord = UserRecord(email: string, name: string, passwordHash: string)

  /** The request body of a signup; as in the user schema, `email` and `name` may be omitted. */
  datatype Registration = Registration(username: string, email: Option<string>, name: Option<string>, passwordHash: string)

  type Registry = map<string, UserRecord>

  /** The storage engine's answer to an insert that violates a constraint. */
  datatype StoreError = IntegrityError

  /** The unique constraint on `email`: no two usernames share one. */
  ghost predicate EmailsUnique(reg: Registry) {
    forall u, v | u in reg && v in reg && u != v :: reg[u].email != reg[v].email
  }

  /** Primary-key lookup: the row stored under `username`, or nothing. */
  function GetUserByUsername(reg: Registry, username: string): (r: Option<UserRecord>)
    ensures r.Some? <==> username in reg
    ensures r.Some? ==> r.value == reg[username]
  {
    if username in reg then Some(reg[username]) else None
  }

  /** A lookup found a row. */
  function ExistsUser(result: Option<UserRecord>): bool {
    result.Some?
  }

  /** `exists_user` applied to a primary-key lookup holds exactly when the username has a row. */
  lemma ExistsUserIff(reg: Registry, username: string)
    ensures ExistsUser(GetUserByUsername(reg, username)) <==> username in reg
  {
  }

  /**
   * Some stored user has exactly this email. An absent email becomes an
   * `IS NULL` filter, which no row of the non-null column matches.
   */
  function ExistsUserEmail(reg: Registry, email: Option<string>): (b: bool)
    ensures b <==> email.Some? && exists u :: u in reg && reg[u].email == email.value
  {
    match email
    case None => false
    case Some(e) =>
      var emails := set u | u in reg :: reg[u].email;
      e in emails
  }

  /** The supplied string equals the stored `password_hash` of an existing user, compared as is. */
  function ValidateCredentials(reg: Registry, username: string, password: string): (b: bool)
    ensures b <==> username in reg && reg[username].passwordHash == password
  {
    match GetUserByUsername(reg, username)
    case None => false
    case Some(user) => user.passwordHash == password
  }

  /** The constraints an insert of `user` must meet: new key, email and name present, email not taken. */
  predicate Insertable(reg: Registry, user: Registration) {
    && user.username !in reg
    && user.email.Some?
    && user.name.Some?
    && !ExistsUserEmail(reg, user.email)
  }

  /**
   * Inserts the registration as one new row. The commit fails with the
   * table's integrity error when the username or the email is already taken,
   * or when the email or the name is missing.
   */
  function CreateUser(reg: Registry, user: Registration): (r: Result<Registry, StoreError>)
    ensures r.Ok? <==> user.username !in reg && user.email.Some? && user.name.Some?
                       && forall u :: u in reg ==> reg[u].email != user.email.value
    ensures r.Ok? ==> r.value.Keys == reg.Keys + {user.username}
    ensures r.Ok? ==> r.value[user.username] == UserRecord(user.email.value, user.name.value, user.passwordHash)
    ensures r.Ok? ==> forall u :: u in reg ==> r.value[u] == reg[u]
  {
    if !Insertable(reg, user) then Err(IntegrityError)
    else Ok(reg[user.username := UserRecord(user.email.value, user.name.value, user.passwordHash)])
  }

  /** A successful insert grows the table by exactly one row. */
  lemma CreateUserAddsOne(reg: Registry, user: Registration)
    requires CreateUser(reg, user).Ok?
    ensures |CreateUser(reg, user).value| == |reg| + 1
  {
    var r := CreateUser(reg, user).value;
    assert r.Keys == reg.Keys + {user.username};
    assert user.username !in reg.Keys;
  }

  /** A successful insert keeps every email unique. */
  lemma CreateUserKeepsEmailsUnique(reg: Registry, user: Registration)
    requires EmailsUnique(reg)
    requires CreateUser(reg, user).Ok?
    ensures EmailsUnique(CreateUser(reg, user).value)
  {
    var r := CreateUser(reg, user).value;
    forall u, v | u in r && v in r && u != v
      ensures r[u].email != r[v].email
    {
      if u == user.username {
        assert v in reg;
      } else if v == user.username {
        assert u in reg;
      } else {
        assert u in reg && v in reg;
      }
    }
  }
}
