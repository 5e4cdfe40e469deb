/** Login, refresh and revoke (internal/handlers/authHandler.go) over the
    users table and the refresh_tokens table.

    The clock is the parameter `now`, in seconds. `faults` names the store
    queries that fail with a driver error (anything but sql.ErrNoRows) on
    this request. Password checking and the JWT primitives are the
    handler's constant fields. The SQL of CreateRefreshToken and
    RevokeRefreshToken is not part of this model: the insert is assumed to
    fail on a driver error or an existing token (the token is the table's
    key), and the revoke is assumed to set `revokedAt` on the matching row
    and do nothing when there is none. */
module AuthHandler {
  import opened Common
  import opened Database
  import Uuids
  import Jwt
  import Hex
  import RefreshToken

  /** time.Hour, the lifetime of an access token. */
  const AccessTokenLifetime := 3600

  /** AddDate(0, 0, 60) taken as 60 days of 86400 seconds. */
  const RefreshTokenLifetime := 60 * 86400

  /** The store queries that can fail with a driver error. */
  datatype Query = GetUserByEmailQuery | CreateRefreshTokenQuery | GetRefreshTokenQuery | RevokeRefreshTokenQuery

  datatype LoginDto = LoginDto(email: string, password: string)

  /** The body of a successful login: the user with both tokens. */
  datatype LoginResponse = LoginResponse(user: User, token: string, refreshToken: string)

  datatype RefreshJwtResponse = RefreshJwtResponse(token: string)

  /** validateRefreshToken: the owner of a stored, unrevoked token that has
      not expired. A token expiring exactly now is still accepted (the check
      is a strict "before"). */
  function ValidateRefreshToken(tokens: map<string, RefreshTokenRecord>, token: string, now: int,
                                fetchFails: bool): (r: Fallible<Uuid, string>)
    ensures r.err.None? <==>
      !fetchFails && token in tokens && tokens[token].revokedAt.None? && now <= tokens[token].expiresAt
    ensures r.err.None? ==> r.value == tokens[token].userId
    ensures r.err.Some? ==> r.value == Uuids.Nil
  {
    if fetchFails then Fallible(Uuids.Nil, Some("Unexpected error"))
    else if token !in tokens then Fallible(Uuids.Nil, Some("Token not found"))
    else
      var record := tokens[token];
      if record.expiresAt < now || record.revokedAt.Some? then
        Fallible(Uuids.Nil, Some("Refresh token is no longer valid"))
      else Fallible(record.userId, None)
  }

  /** The table after RevokeRefreshToken(token) at time `now`. */
  function Revoked(tokens: map<string, RefreshTokenRecord>, token: string, now: int)
    : (r: map<string, RefreshTokenRecord>)
    ensures r.Keys == tokens.Keys
    ensures token in r ==> r[token] == tokens[token].(revokedAt := Some(now))
    ensures forall t :: t in r && t != token ==> r[t] == tokens[t]
  {
    if token in tokens then tokens[token := tokens[token].(revokedAt := Some(now))] else tokens
  }

  /** A token that expires now is accepted; one that expired a second ago is not. */
  lemma ExpiryBoundary(tokens: map<string, RefreshTokenRecord>, token: string, now: int)
    requires token in tokens && tokens[token].revokedAt.None?
    ensures tokens[token].expiresAt == now ==>
      ValidateRefreshToken(tokens, token, now, false) == Fallible(tokens[token].userId, None)
    ensures tokens[token].expiresAt == now - 1 ==>
      ValidateRefreshToken(tokens, token, now, false)
        == Fallible(Uuids.Nil, Some("Refresh token is no longer valid"))
  {
  }

  /** After a revoke no refresh token validates any more, whatever the time,
      and the other tokens validate exactly as before. */
  lemma RevokedNeverValidates(tokens: map<string, RefreshTokenRecord>, token: string, revokedAt: int,
                              now: int, fetchFails: bool)
    ensures ValidateRefreshToken(Revoked(tokens, token, revokedAt), token, now, fetchFails).err.Some?
    ensures forall t :: t != token ==>
      ValidateRefreshToken(Revoked(tokens, token, revokedAt), t, now, fetchFails)
        == ValidateRefreshToken(tokens, t, now, fetchFails)
  {
  }

  /** Revoking twice leaves the table as one revoke at the later time does. */
  lemma RevokeTwice(tokens: map<string, RefreshTokenRecord>, token: string, first: int, second: int)
    ensures Revoked(Revoked(tokens, token, first), token, second) == Revoked(tokens, token, second)
  {
  }

  class AuthHandler {
    /** The users table, keyed by email. */
    var users: map<string, User>
    /** The refresh_tokens table, keyed by token. */
    var refreshTokens: map<string, RefreshTokenRecord>
    const jwtSecret: string
    const codec: Jwt.Primitives
    /** CheckPasswordHash(password, hash), with its error taken as a mismatch. */
    const checkPasswordHash: (string, string) -> bool

    constructor (users: map<string, User>, refreshTokens: map<string, RefreshTokenRecord>,
                 jwtSecret: string, codec: Jwt.Primitives, checkPasswordHash: (string, string) -> bool)
      ensures this.users == users && this.refreshTokens == refreshTokens
      ensures this.jwtSecret == jwtSecret && this.codec == codec
      ensures this.checkPasswordHash == checkPasswordHash
    {
      this.users := users;
      this.refreshTokens := refreshTokens;
      this.jwtSecret := jwtSecret;
      this.codec := codec;
      this.checkPasswordHash := checkPasswordHash;
    }

    /** The user a login body names and whose password it knows, if any. */
    function Authenticate(dto: LoginDto): (r: Option<User>)
      reads this
      ensures r.Some? <==> dto.email in users && checkPasswordHash(dto.password, users[dto.email].hashedPassword)
      ensures r.Some? ==> r.value == users[dto.email]
    {
      if dto.email in users && checkPasswordHash(dto.password, users[dto.email].hashedPassword)
      then Some(users[dto.email]) else None
    }

    /** LoginHandler. `entropy` is what the random source delivers for the
        new refresh token. */
    method LoginHandler(dto: Option<LoginDto>, now: int, entropy: seq<Byte>, faults: set<Query>)
      returns (r: Reply<LoginResponse>)
      modifies this`refreshTokens
      ensures dto.None? ==> r == Fail(StatusBadRequest, "Invalid JSON")
      ensures dto.Some? && GetUserByEmailQuery in faults ==>
        r == Fail(StatusInternalServerError, "An error occured")
      // an unknown email and a wrong password get the same answer
      ensures dto.Some? && GetUserByEmailQuery !in faults && Authenticate(dto.value).None? ==>
        r == Fail(StatusUnauthorized, "unauthorized")
      ensures dto.Some? && GetUserByEmailQuery !in faults && Authenticate(dto.value).Some? ==>
        var user := Authenticate(dto.value).value;
        var refresh := Hex.Encode(entropy[..Min(|entropy|, RefreshToken.BufferSize)]);
        if CreateRefreshTokenQuery in faults || refresh in old(refreshTokens) then
          r == Abort("Refresh Token  error") && refreshTokens == old(refreshTokens)
        else
          && r == Json(StatusOK, LoginResponse(user, Jwt.MakeJWT(codec, user.id, jwtSecret, AccessTokenLifetime, now), refresh))
          && refreshTokens == old(refreshTokens)[refresh := RefreshTokenRecord(user.id, now + RefreshTokenLifetime, None)]
          && |refreshTokens| == |old(refreshTokens)| + 1
      ensures !r.Json? ==> refreshTokens == old(refreshTokens)
    {
      if dto.None? {
        return Fail(StatusBadRequest, "Invalid JSON");
      }
      if GetUserByEmailQuery in faults {
        return Fail(StatusInternalServerError, "An error occured");
      }
      if dto.value.email !in users {
        return Fail(StatusUnauthorized, "unauthorized");
      }
      var user := users[dto.value.email];
      if !checkPasswordHash(dto.value.password, user.hashedPassword) {
        return Fail(StatusUnauthorized, "unauthorized");
      }
      var token := Jwt.MakeJWT(codec, user.id, jwtSecret, AccessTokenLifetime, now);
      var refreshToken := RefreshToken.MakeRefreshToken(entropy);
      if CreateRefreshTokenQuery in faults || refreshToken in refreshTokens {
        return Abort("Refresh Token  error");
      }
      refreshTokens := refreshTokens[refreshToken := RefreshTokenRecord(user.id, now + RefreshTokenLifetime, None)];
      return Json(StatusOK, LoginResponse(user, token, refreshToken));
    }

    /** RefreshTokenHandler: reads the table and never changes it; the
        refresh token is not rotated. */
    function RefreshTokenHandler(authHeader: string, now: int, faults: set<Query>): (r: Reply<RefreshJwtResponse>)
      reads this
      ensures Jwt.GetBearerToken(authHeader).err.Some? ==>
        r == Fail(StatusUnauthorized, "Access toke is required")
      ensures Jwt.GetBearerToken(authHeader).err.None? ==>
        var v := ValidateRefreshToken(refreshTokens, Jwt.GetBearerToken(authHeader).value, now,
                                      GetRefreshTokenQuery in faults);
        if v.err.Some? then r == Fail(StatusUnauthorized, v.err.value)
        else r == Json(StatusOK, RefreshJwtResponse(Jwt.MakeJWT(codec, v.value, jwtSecret, AccessTokenLifetime, now)))
    {
      var token := Jwt.GetBearerToken(authHeader);
      if token.err.Some? then Fail(StatusUnauthorized, "Access toke is required")
      else
        var userID := ValidateRefreshToken(refreshTokens, token.value, now, GetRefreshTokenQuery in faults);
        if userID.err.Some? then Fail(StatusUnauthorized, userID.err.value)
        else Json(StatusOK, RefreshJwtResponse(Jwt.MakeJWT(codec, userID.value, jwtSecret, AccessTokenLifetime, now)))
    }

    /** RevokeRefreshTokenHandler: 400 without a bearer token; otherwise 204,
        whether or not the token exists and whether or not the store fails. */
    method RevokeRefreshTokenHandler(authHeader: string, now: int, faults: set<Query>) returns (r: Reply<()>)
      modifies this`refreshTokens
      ensures Jwt.GetBearerToken(authHeader).err.Some? ==>
        r == Fail(StatusBadRequest, "invalid token") && refreshTokens == old(refreshTokens)
      ensures Jwt.GetBearerToken(authHeader).err.None? ==>
        && r == NoContent
        && refreshTokens == if RevokeRefreshTokenQuery in faults then old(refreshTokens)
                            else Revoked(old(refreshTokens), Jwt.GetBearerToken(authHeader).value, now)
    {
      var token := Jwt.GetBearerToken(authHeader);
      if token.err.Some? {
        return Fail(StatusBadRequest, token.err.value);
      }
      if RevokeRefreshTokenQuery !in faults {
        refreshTokens := Revoked(refreshTokens, token.value, now);
      }
      return NoContent;
    }
  }

  /** A successful refresh hands out an access token that validates, for
      the next hour, to the owner of the refresh token. */
  lemma RefreshIssuesOwnerToken(h: AuthHandler, token: string, now: int, faults: set<Query>, at: int)
    requires Jwt.Sound(h.codec)
    requires h.RefreshTokenHandler(Jwt.BearerPrefix + token, now, faults).Json?
    requires at < now + AccessTokenLifetime
    ensures token in h.refreshTokens
    ensures Jwt.ValidateJWT(h.codec, h.RefreshTokenHandler(Jwt.BearerPrefix + token, now, faults).payload.token,
                            h.jwtSecret, at)
         == Fallible(h.refreshTokens[token].userId, None)
  {
    Jwt.BearerRoundTrip(token);
    Jwt.RoundTrip(h.codec, h.refreshTokens[token].userId, h.jwtSecret, AccessTokenLifetime, now, at);
  }

  /** A store failure while reading the token is answered 401, not 500. */
  lemma RefreshStoreErrorUnauthorized(h: AuthHandler, token: string, now: int, faults: set<Query>)
    requires GetRefreshTokenQuery in faults
    ensures h.RefreshTokenHandler(Jwt.BearerPrefix + token, now, faults)
         == Fail(StatusUnauthorized, "Unexpected error")
  {
    Jwt.BearerRoundTrip(token);
  }

  /** The session lifecycle end to end: a login, a refresh with the new
      refresh token whose access token names the user, a revoke, a refused
      refresh, and a second revoke that still answers 204. */
  method SessionLifecycle(h: AuthHandler, dto: LoginDto, now: int, entropy: seq<Byte>)
    returns (login: Reply<LoginResponse>, refreshed: Reply<RefreshJwtResponse>, revoked: Reply<()>,
             refused: Reply<RefreshJwtResponse>, revokedAgain: Reply<()>)
    requires Jwt.Sound(h.codec)
    requires h.Authenticate(dto).Some?
    requires Hex.Encode(entropy[..Min(|entropy|, RefreshToken.BufferSize)]) !in h.refreshTokens
    modifies h`refreshTokens
    ensures login.Json? && login.payload.user == h.Authenticate(dto).value
    ensures refreshed.Json?
    ensures Jwt.ValidateJWT(h.codec, refreshed.payload.token, h.jwtSecret, now) == Fallible(login.payload.user.id, None)
    ensures revoked == NoContent && revokedAgain == NoContent
    ensures refused == Fail(StatusUnauthorized, "Refresh token is no longer valid")
  {
    var user := h.Authenticate(dto).value;
    login := h.LoginHandler(Some(dto), now, entropy, {});
    assert login.Json? && login.payload.user == user;
    var token := login.payload.refreshToken;
    assert h.refreshTokens[token] == RefreshTokenRecord(user.id, now + RefreshTokenLifetime, None);
    var header := Jwt.BearerPrefix + token;
    Jwt.BearerRoundTrip(token);
    refreshed := h.RefreshTokenHandler(header, now, {});
    RefreshIssuesOwnerToken(h, token, now, {}, now);
    revoked := h.RevokeRefreshTokenHandler(header, now, {});
    assert h.refreshTokens[token].revokedAt == Some(now);
    refused := h.RefreshTokenHandler(header, now, {});
    revokedAgain := h.RevokeRefreshTokenHandler(header, now, {});
  }
}
