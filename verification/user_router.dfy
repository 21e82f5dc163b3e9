/**
 * The signup and login endpoints (`backend/routers/user.py`).
 *
 * Each handler is a decision function over the registry. Signup returns the
 * registry after the request alongside the response; login only reads it.
 */
module UserRouter {
  import opened Wrappers
  import JwtHandler
  import opened UserService
  import opened Http

  /** The request body of a login. */
  datatype Login = Login(username: string, password: string)

  datatype SignupOutcome = SignupOutcome(response: Response, registry: Registry)

  /** `model_dump()` of a registration whose email and name are present: every field by its wire name. */
  function Dump(user: Registration): map<string, string>
    requires user.email.Some? && user.name.Some?
  {
    map["username" := user.username, "password_hash" := user.passwordHash,
        "email" := user.email.value, "name" := user.name.value]
  }

  function UsernameTaken(user: Registration): Response {
    HttpException(HTTP_403_FORBIDDEN, "A user with username " + user.username + " already exists!",
                  map["Username-Conflict" := user.username])
  }

  function EmailTaken(email: string): Response {
    HttpException(HTTP_403_FORBIDDEN, "A user with email " + email + " already exists!",
                  map["Email-Conflict" := email])
  }

  /**
   * `user_signup`: refuse a taken username, then a taken email, else insert
   * and echo the registration without its password. An insert the table
   * refuses (an email or name left out) escapes as a server error.
   */
  function UserSignup(reg: Registry, user: Registration): (r: SignupOutcome)
    ensures r.response.status in {HTTP_201_CREATED, HTTP_403_FORBIDDEN, HTTP_500_INTERNAL_SERVER_ERROR}
    ensures user.username in reg ==> r == SignupOutcome(UsernameTaken(user), reg)
    ensures user.username !in reg && ExistsUserEmail(reg, user.email) ==>
              r == SignupOutcome(EmailTaken(user.email.value), reg)
    ensures r.response.status == HTTP_201_CREATED <==>
              user.username !in reg && user.email.Some? && user.name.Some? && !ExistsUserEmail(reg, user.email)
    ensures r.response.status == HTTP_500_INTERNAL_SERVER_ERROR <==>
              user.username !in reg && !ExistsUserEmail(reg, user.email) && (user.email.None? || user.name.None?)
    ensures r.response.status == HTTP_201_CREATED ==>
              && r.registry.Keys == reg.Keys + {user.username}
              && r.registry[user.username] == UserRecord(user.email.value, user.name.value, user.passwordHash)
              && forall u :: u in reg ==> r.registry[u] == reg[u]
    ensures r.response.status == HTTP_201_CREATED ==>
              && "password_hash" !in r.response.body
              && r.response.body.Keys == {"username", "email", "name"}
              && r.response.body["username"] == user.username
              && r.response.body["email"] == user.email.value
              && r.response.body["name"] == user.name.value
    ensures r.response.status != HTTP_201_CREATED ==> r.registry == reg
  {
    var result := GetUserByUsername(reg, user.username);
    if ExistsUser(result) then SignupOutcome(UsernameTaken(user), reg)
    else if ExistsUserEmail(reg, user.email) then SignupOutcome(EmailTaken(user.email.value), reg)
    else
      match CreateUser(reg, user)
      case Ok(reg') => SignupOutcome(Response(HTTP_201_CREATED, map[], Dump(user) - {"password_hash"}), reg')
      case Err(_) => SignupOutcome(InternalServerError, reg)
  }

  function UnknownUser(login: Login): Response {
    HttpException(HTTP_403_FORBIDDEN, "Not found user with username " + login.username + "!",
                  map["Username-Conflict" := login.username])
  }

  function WrongPassword(login: Login): Response {
    HttpException(HTTP_403_FORBIDDEN, "Invalid username or password!", map["Username-Conflict" := login.username])
  }

  /**
   * `user_login` at clock reading `now`: refuse an unknown username, then a
   * password that differs from the stored `password_hash`, else issue a token.
   */
  function UserLogin(cfg: JwtHandler.Config, reg: Registry, login: Login, now: int): (r: Response)
    ensures r.status == HTTP_200_OK || r.status == HTTP_403_FORBIDDEN
    ensures r.status == HTTP_200_OK <==> login.username in reg && reg[login.username].passwordHash == login.password
    ensures login.username !in reg ==> r == UnknownUser(login)
    ensures login.username in reg && reg[login.username].passwordHash != login.password ==> r == WrongPassword(login)
    ensures r.status == HTTP_200_OK ==> r.headers == map[] && r.body == JwtHandler.SignJwt(cfg, login.username, now)
    ensures r.status != HTTP_200_OK ==> "access_token" !in r.body
  {
    var result := GetUserByUsername(reg, login.username);
    if !ExistsUser(result) then UnknownUser(login)
    else if !ValidateCredentials(reg, login.username, login.password) then WrongPassword(login)
    else Response(HTTP_200_OK, map[], JwtHandler.SignJwt(cfg, login.username, now))
  }

  /**
   * After a successful signup, a second signup under the same username is
   * refused with the username conflict, whatever its email, and the first
   * user's row is left as it was.
   */
  lemma SecondSignupRefused(reg: Registry, first: Registration, second: Registration)
    requires UserSignup(reg, first).response.status == HTTP_201_CREATED
    requires second.username == first.username
    ensures var reg1 := UserSignup(reg, first).registry;
            var again := UserSignup(reg1, second);
            && again.response == UsernameTaken(second)
            && again.response.headers["Username-Conflict"] == first.username
            && again.registry == reg1
            && again.registry[first.username] == UserRecord(first.email.value, first.name.value, first.passwordHash)
  {
  }

  /** Signup keeps the unique-email invariant of the registry. */
  lemma SignupKeepsEmailsUnique(reg: Registry, user: Registration)
    requires EmailsUnique(reg)
    ensures EmailsUnique(UserSignup(reg, user).registry)
  {
    if UserSignup(reg, user).response.status == HTTP_201_CREATED {
      CreateUserKeepsEmailsUnique(reg, user);
    }
  }

  /**
   * After a successful signup, logging in with the same secret issues a
   * token for that username, and any other secret is refused.
   */
  lemma SignupThenLogin(cfg: JwtHandler.Config, reg: Registry, user: Registration, password: string, now: int)
    requires UserSignup(reg, user).response.status == HTTP_201_CREATED
    ensures var reg1 := UserSignup(reg, user).registry;
            var r := UserLogin(cfg, reg1, Login(user.username, password), now);
            && (password == user.passwordHash ==> r == Response(HTTP_200_OK, map[], JwtHandler.SignJwt(cfg, user.username, now)))
            && (password != user.passwordHash ==> r == WrongPassword(Login(user.username, password)))
  {
  }

  /**
   * A signup that leaves out its email gets past both conflict checks (no
   * row has a null email) and is then refused by the table: the client sees
   * a server error, not a 4xx answer, and nothing is inserted.
   */
  lemma SignupWithoutEmailIsServerError(reg: Registry, user: Registration)
    requires user.username !in reg
    requires user.email.None?
    ensures UserSignup(reg, user).response.status == HTTP_500_INTERNAL_SERVER_ERROR
    ensures UserSignup(reg, user).registry == reg
  {
  }
}
