/**
 * The bearer gate in front of every protected route
 * (`JWTBearer.__call__` in `backend/middlewares/auth_handler.py`).
 *
 * The credentials are what the framework's HTTP bearer parser extracted from
 * the `Authorization` header, or nothing. The gate consults the token alone:
 * it has no access to the user registry.
 */
module AuthHandler {
  import opened Wrappers
  import TokenCodec
  import JwtHandler
  import opened Http

  /** `HTTPAuthorizationCredentials`: the scheme word and the token after it. */
  datatype Credentials = Credentials(scheme: string, credentials: string)

  /** The gate either lets the request through with the raw token or raises an HTTP error. */
  datatype Verdict = Accept(token: string) | Reject(status: int, detail: string)

  function Authenticate(cfg: JwtHandler.Config, creds: Option<Credentials>, now: int): (v: Verdict)
    ensures v.Accept? <==>
            creds.Some? && creds.value.scheme == "Bearer" && JwtHandler.VerifyJwt(cfg, creds.value.credentials, now)
    ensures v.Accept? ==> v.token == creds.value.credentials
    ensures v.Reject? ==> v.status == HTTP_403_FORBIDDEN
    ensures creds.Some? && creds.value.scheme != "Bearer" ==> v.Reject? && v.detail == "Invalid authentication scheme."
    ensures creds.Some? && creds.value.scheme == "Bearer" && !JwtHandler.VerifyJwt(cfg, creds.value.credentials, now)
            ==> v.Reject? && v.detail == "Invalid or Expired token!"
    ensures creds.None? ==> v.Reject? && v.detail == "Invalid authorization code."
  {
    match creds
    case Some(Credentials(scheme, token)) =>
      if scheme != "Bearer" then Reject(HTTP_403_FORBIDDEN, "Invalid authentication scheme.")
      else if !JwtHandler.VerifyJwt(cfg, token, now) then Reject(HTTP_403_FORBIDDEN, "Invalid or Expired token!")
      else Accept(token)
    case None => Reject(HTTP_403_FORBIDDEN, "Invalid authorization code.")
  }

  /**
   * The scheme is checked before the token: a token that would be accepted,
   * presented under any other scheme word, gets the scheme message.
   */
  lemma SchemeCheckedFirst(cfg: JwtHandler.Config, scheme: string, username: string, issued: int, now: int)
    requires scheme != "Bearer"
    requires now <= issued + cfg.expiryTime
    ensures var token := JwtHandler.SignJwt(cfg, username, issued)["access_token"];
            && Authenticate(cfg, Some(Credentials("Bearer", token)), now) == Accept(token)
            && Authenticate(cfg, Some(Credentials(scheme, token)), now)
               == Reject(HTTP_403_FORBIDDEN, "Invalid authentication scheme.")
  {
    JwtHandler.SignedTokenLifetime(cfg, username, issued, now);
  }

  /**
   * A token from `SignJwt` passes the gate up to and including its expiry
   * instant and is refused afterwards.
   */
  lemma SignedTokenAdmitted(cfg: JwtHandler.Config, username: string, issued: int, now: int)
    ensures var token := JwtHandler.SignJwt(cfg, username, issued)["access_token"];
            var v := Authenticate(cfg, Some(Credentials("Bearer", token)), now);
            && (now <= issued + cfg.expiryTime <==> v == Accept(token))
            && (issued + cfg.expiryTime < now <==> v == Reject(HTTP_403_FORBIDDEN, "Invalid or Expired token!"))
  {
    JwtHandler.SignedTokenLifetime(cfg, username, issued, now);
  }

  /**
   * Identity is never resolved: a correctly signed, unexpired token is
   * accepted whatever username it names, and even when it names none.
   */
  lemma AcceptsAnyNamedUser(cfg: JwtHandler.Config, username: Option<string>, expires: int, now: int)
    requires now <= expires
    ensures var token := TokenCodec.Encode(TokenCodec.Claims(username, Some(expires)), cfg.key, cfg.algorithm);
            Authenticate(cfg, Some(Credentials("Bearer", token)), now) == Accept(token)
  {
    var c := TokenCodec.Claims(username, Some(expires));
    var token := TokenCodec.Encode(c, cfg.key, cfg.algorithm);
    TokenCodec.DecodeIff(token, cfg.key, cfg.algorithm, c);
  }
}
