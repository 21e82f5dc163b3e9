/** End-to-end properties that span the login endpoint and the bearer gate. */
module Scenarios {
  import opened Wrappers
  import JwtHandler
  import AuthHandler
  import UserService
  import UserRouter
  import Http

  /**
   * The token a successful login returns opens the gate for exactly the
   * `EXPIRY_TIME` seconds after the login, boundary instant included.
   */
  lemma LoginTokenOpensGate(cfg: JwtHandler.Config, reg: UserService.Registry, login: UserRouter.Login, now: int, later: int)
    requires UserRouter.UserLogin(cfg, reg, login, now).status == Http.HTTP_200_OK
    ensures var token := UserRouter.UserLogin(cfg, reg, login, now).body["access_token"];
            var v := AuthHandler.Authenticate(cfg, Some(AuthHandler.Credentials("Bearer", token)), later);
            later <= now + cfg.expiryTime <==> v == AuthHandler.Accept(token)
  {
    AuthHandler.SignedTokenAdmitted(cfg, login.username, now, later);
  }

  /**
   * Signup, login and a protected request in sequence: a user who has just
   * signed up and logs in with their secret gets a token the gate accepts
   * until it expires.
   */
  lemma SignupLoginAccess(cfg: JwtHandler.Config, reg: UserService.Registry, user: UserService.Registration, now: int, later: int)
    requires UserRouter.UserSignup(reg, user).response.status == Http.HTTP_201_CREATED
    requires now <= later <= now + cfg.expiryTime
    ensures var reg1 := UserRouter.UserSignup(reg, user).registry;
            var r := UserRouter.UserLogin(cfg, reg1, UserRouter.Login(user.username, user.passwordHash), now);
            && r.status == Http.HTTP_200_OK
            && AuthHandler.Authenticate(cfg, Some(AuthHandler.Credentials("Bearer", r.body["access_token"])), later)
               == AuthHandler.Accept(r.body["access_token"])
  {
    var reg1 := UserRouter.UserSignup(reg, user).registry;
    UserRouter.SignupThenLogin(cfg, reg, user, user.passwordHash, now);
    LoginTokenOpensGate(cfg, reg1, UserRouter.Login(user.username, user.passwordHash), now, later);
  }
}
