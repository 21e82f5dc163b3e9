/**
 * Token issuance and validity (`backend/utils/jwt_handler.py`).
 *
 * The key, algorithm and lifetime come from the process configuration; the
 * clock reading is the explicit parameter `now`, in whole seconds. The
 * payload carries a custom `expires` claim that the signing library does not
 * check, so the expiry test here is the only one a token is subject to.
 */
module JwtHandler {
  import opened Wrappers
  import TokenCodec

  /** `KEY`, `ALGORITHM` and `EXPIRY_TIME` read from the environment file. */
  datatype Config = Config(key: string, algorithm: string, expiryTime: int)

  /** The bearer token transport shape: `{access_token, token_type}`. */
  function TokenResponse(token: string): (r: map<string, string>)
    ensures r.Keys == {"access_token", "token_type"}
    ensures r["access_token"] == token
    ensures r["token_type"] == "bearer"
  {
    map["access_token" := token, "token_type" := "bearer"]
  }

  /** The claims `sign_jwt` puts in a token issued at `now`. */
  function IssuedClaims(cfg: Config, username: string, now: int): TokenCodec.Claims {
    TokenCodec.Claims(Some(username), Some(now + cfg.expiryTime))
  }

  /** Signs `{username, expires: now + EXPIRY_TIME}` and wraps the token in the transport shape. */
  function SignJwt(cfg: Config, username: string, now: int): (r: map<string, string>)
    ensures r.Keys == {"access_token", "token_type"}
    ensures r["token_type"] == "bearer"
    ensures TokenCodec.Decode(r["access_token"], cfg.key, cfg.algorithm)
            == Some(TokenCodec.Claims(Some(username), Some(now + cfg.expiryTime)))
  {
    var claims := IssuedClaims(cfg, username, now);
    assert claims == TokenCodec.Claims(Some(username), Some(now + cfg.expiryTime));
    var token := TokenCodec.Encode(claims, cfg.key, cfg.algorithm);
    TokenCodec.DecodeEncode(claims, cfg.key, cfg.algorithm);
    var r := TokenResponse(token);
    assert r["access_token"] == token;
    r
  }

  /**
   * The payload of a token that decodes under the server's key and whose
   * `expires` claim is not before `now`; `None` stands for the empty
   * dictionary returned on a decode error, a missing claim or expiry.
   */
  function DecodeJwt(cfg: Config, token: string, now: int): (r: Option<TokenCodec.Claims>)
    ensures r.Some? ==> TokenCodec.Decode(token, cfg.key, cfg.algorithm) == r
    ensures r.Some? ==> r.value.expires.Some? && now <= r.value.expires.value
    ensures r.None? ==> forall c: TokenCodec.Claims ::
              token == TokenCodec.Encode(c, cfg.key, cfg.algorithm) ==> c.expires.None? || c.expires.value < now
  {
    match TokenCodec.Decode(token, cfg.key, cfg.algorithm)
    case None =>
      // `jwt.DecodeError`: bad signature or malformed token
      assert forall c: TokenCodec.Claims :: token != TokenCodec.Encode(c, cfg.key, cfg.algorithm) by {
        forall c: TokenCodec.Claims ensures token != TokenCodec.Encode(c, cfg.key, cfg.algorithm) {
          TokenCodec.DecodeIff(token, cfg.key, cfg.algorithm, c);
        }
      }
      None
    case Some(claims) =>
      assert forall c: TokenCodec.Claims :: token == TokenCodec.Encode(c, cfg.key, cfg.algorithm) ==> c == claims by {
        forall c: TokenCodec.Claims | token == TokenCodec.Encode(c, cfg.key, cfg.algorithm) ensures c == claims {
          TokenCodec.DecodeIff(token, cfg.key, cfg.algorithm, c);
        }
      }
      match claims.expires
      case None => None  // `KeyError` on the missing claim
      case Some(expires) => if expires >= now then Some(claims) else None
  }

  /**
   * A token is valid exactly when `decode_jwt` returns a non-empty payload,
   * that is, when it is some claim set signed with the server's key and
   * algorithm whose `expires` claim is present and not before `now`.
   */
  function VerifyJwt(cfg: Config, token: string, now: int): (valid: bool)
    ensures valid <==> DecodeJwt(cfg, token, now).Some?
    ensures valid <==>
            exists c: TokenCodec.Claims :: token == TokenCodec.Encode(c, cfg.key, cfg.algorithm)
                                         && c.expires.Some? && now <= c.expires.value
  {
    var payload := DecodeJwt(cfg, token, now);
    if payload.Some? then
      TokenCodec.DecodeIff(token, cfg.key, cfg.algorithm, payload.value);
      true
    else
      false
  }

  /**
   * Round trip: a token from `SignJwt` at `issued` decodes to its username
   * for every `now` up to and including `issued + EXPIRY_TIME`, and to the
   * empty payload at every later `now`.
   */
  lemma SignedTokenLifetime(cfg: Config, username: string, issued: int, now: int)
    ensures var token := SignJwt(cfg, username, issued)["access_token"];
            && (now <= issued + cfg.expiryTime ==>
                 DecodeJwt(cfg, token, now) == Some(IssuedClaims(cfg, username, issued))
                 && VerifyJwt(cfg, token, now))
            && (issued + cfg.expiryTime < now ==>
                 DecodeJwt(cfg, token, now).None? && !VerifyJwt(cfg, token, now))
  {
  }

  /**
   * A token signed with another key under the server's algorithm never
   * verifies, whatever its claims: the library's decode error is absorbed
   * into "invalid".
   */
  lemma ForeignKeyTokenInvalid(cfg: Config, c: TokenCodec.Claims, key: string, now: int)
    requires key != cfg.key
    ensures !VerifyJwt(cfg, TokenCodec.Encode(c, key, cfg.algorithm), now)
  {
    TokenCodec.ForeignTokenFails(c, key, cfg.algorithm, cfg.key, cfg.algorithm);
  }

  /** A correctly signed payload that lacks `expires` is treated as invalid, not as never expiring. */
  lemma MissingExpiresInvalid(cfg: Config, username: Option<string>, now: int)
    ensures DecodeJwt(cfg, TokenCodec.Encode(TokenCodec.Claims(username, None), cfg.key, cfg.algorithm), now).None?
  {
    var c := TokenCodec.Claims(username, None);
    TokenCodec.DecodeIff(TokenCodec.Encode(c, cfg.key, cfg.algorithm), cfg.key, cfg.algorithm, c);
  }
}
