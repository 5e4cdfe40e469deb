/** Access tokens and bearer headers (internal/auth/jwt.go).

    An access token is a JSON Web Token signed with HS256 (section 3.2 of
    RFC 7518) carrying the registered claims `iss`, `sub`, `iat` and `exp`
    (sections 4.1.1, 4.1.2, 4.1.6 and 4.1.4 of RFC 7519). HMAC-SHA256 and the
    base64url/JSON wire form live in a foreign library; they are the
    parameters gathered in `Primitives`, and `Sound` states what the model
    assumes of them. Times are whole seconds. */
module Jwt {
  import opened Common
  import Uuids

  type Uuid = Uuids.Uuid

  /** The registered claims golang-jwt reads into `jwt.RegisteredClaims`. */
  datatype Claims = Claims(iss: string, sub: string, iat: Option<int>, exp: Option<int>)

  /** The signature of a token. */
  type Tag = seq<Byte>

  /** The foreign half of the codec: the MAC of the claims under a secret,
      the compact serialisation `header.claims.signature`, and its parser,
      which answers `None` for anything that is not an HS256 token. */
  datatype Primitives = Primitives(
    mac: (string, Claims) -> Tag,
    serialize: (Claims, Tag) -> string,
    parse: string -> Option<(Claims, Tag)>)

  /** The assumption the model makes about the foreign half: parsing undoes
      serialising, the empty string is not a token, and a different secret
      gives a different tag for the same claims. The last is an
      idealisation of HMAC-SHA256: it pads keys shorter than its block with
      zero bytes and hashes longer ones, so for instance the secrets "k" and
      "k\0" do give the same tag. What is proved under `Sound` about wrong
      secrets holds only for secrets the MAC tells apart. */
  ghost predicate Sound(p: Primitives)
  {
    && (forall c, t :: p.parse(p.serialize(c, t)) == Some((c, t)))
    && p.parse("") == None
    && (forall k1, k2, c :: k1 != k2 ==> p.mac(k1, c) != p.mac(k2, c))
  }

  const Issuer := "chirpy"

  /** Why ValidateJWT refused a token. */
  datatype JwtError = Malformed | SignatureInvalid | Expired | InvalidSubject

  /** The claims MakeJWT signs for `userId` at time `now`. */
  function IssuedClaims(userId: Uuid, expiresIn: int, now: int): (c: Claims)
    ensures c.iss == Issuer && Uuids.Parse(c.sub) == Some(userId)
    ensures c.iat == Some(now) && c.exp.Some? && c.exp.value - now == expiresIn
  {
    Uuids.ParseToString(userId);
    Claims(Issuer, Uuids.ToString(userId), Some(now), Some(now + expiresIn))
  }

  /** MakeJWT. Its error result is always nil (the signing error is
      discarded), so the model returns the token alone. */
  function MakeJWT(p: Primitives, userId: Uuid, secret: string, expiresIn: int, now: int): (token: string)
    ensures Sound(p) ==> p.parse(token).Some?
    ensures Sound(p) ==> var (c, t) := p.parse(token).value;
      && c.iss == Issuer && c.sub == Uuids.ToString(userId)
      && c.iat == Some(now) && c.exp == Some(now + expiresIn)
      && t == p.mac(secret, c)
  {
    var claims := IssuedClaims(userId, expiresIn, now);
    p.serialize(claims, p.mac(secret, claims))
  }

  /** ValidateJWT at time `now`: parse, check the signature, check expiry
      (absent `exp` is not checked), then read the subject as a UUID. */
  function ValidateJWT(p: Primitives, token: string, secret: string, now: int): (r: Fallible<Uuid, JwtError>)
    ensures r.err.Some? ==> r.value == Uuids.Nil
    // accepted exactly when every check passes, with the subject's UUID
    ensures r.err.None? <==>
      && p.parse(token).Some?
      && p.parse(token).value.1 == p.mac(secret, p.parse(token).value.0)
      && (p.parse(token).value.0.exp.Some? ==> now < p.parse(token).value.0.exp.value)
      && Uuids.Parse(p.parse(token).value.0.sub).Some?
    ensures r.err.None? ==> Uuids.Parse(p.parse(token).value.0.sub) == Some(r.value)
    // the error names the first check that fails
    ensures p.parse(token).None? ==> r.err == Some(Malformed)
    ensures p.parse(token).Some? ==>
      var (claims, tag) := p.parse(token).value;
      && (tag != p.mac(secret, claims) ==> r.err == Some(SignatureInvalid))
      && (tag == p.mac(secret, claims) && claims.exp.Some? && claims.exp.value <= now ==>
            r.err == Some(Expired))
      && (tag == p.mac(secret, claims) && (claims.exp.Some? ==> now < claims.exp.value)
            && Uuids.Parse(claims.sub).None?
          ==> r.err == Some(InvalidSubject))
  {
    match p.parse(token)
    case None => Fallible(Uuids.Nil, Some(Malformed))
    case Some((claims, tag)) =>
      if tag != p.mac(secret, claims) then Fallible(Uuids.Nil, Some(SignatureInvalid))
      else if claims.exp.Some? && !(now < claims.exp.value) then Fallible(Uuids.Nil, Some(Expired))
      else
        match Uuids.Parse(claims.sub)
        case None => Fallible(Uuids.Nil, Some(InvalidSubject))
        case Some(id) => Fallible(id, None)
  }

  /** A token made with `secret` validates with `secret` to the same user
      until it expires. */
  lemma RoundTrip(p: Primitives, userId: Uuid, secret: string, expiresIn: int, now: int, at: int)
    requires Sound(p)
    requires at < now + expiresIn
    ensures ValidateJWT(p, MakeJWT(p, userId, secret, expiresIn, now), secret, at) == Fallible(userId, None)
  {
    Uuids.ParseToString(userId);
  }

  /** A token made with one secret is refused under any other. */
  lemma WrongSecretRejected(p: Primitives, userId: Uuid, signedWith: string, checkedWith: string,
                            expiresIn: int, now: int, at: int)
    requires Sound(p)
    requires signedWith != checkedWith
    ensures ValidateJWT(p, MakeJWT(p, userId, signedWith, expiresIn, now), checkedWith, at)
         == Fallible(Uuids.Nil, Some(SignatureInvalid))
  {
    var c := IssuedClaims(userId, expiresIn, now);
    assert p.mac(signedWith, c) != p.mac(checkedWith, c);
  }

  /** A correctly signed token is refused as expired from its `exp` on,
      e.g. one made with a negative lifetime. */
  lemma ExpiredRejected(p: Primitives, userId: Uuid, secret: string, expiresIn: int, now: int, at: int)
    requires Sound(p)
    requires now + expiresIn <= at
    ensures ValidateJWT(p, MakeJWT(p, userId, secret, expiresIn, now), secret, at)
         == Fallible(Uuids.Nil, Some(Expired))
  {
  }

  /** A correctly signed, unexpired token whose subject is not a UUID is
      refused for its subject (the "invalid token subject" error). */
  lemma BadSubjectRejected(p: Primitives, claims: Claims, secret: string, now: int)
    requires Sound(p)
    requires claims.exp.Some? ==> now < claims.exp.value
    requires Uuids.Parse(claims.sub).None?
    ensures ValidateJWT(p, p.serialize(claims, p.mac(secret, claims)), secret, now)
         == Fallible(Uuids.Nil, Some(InvalidSubject))
  {
  }

  /** The empty string, which is what GetBearerToken yields for a missing
      header, never validates. */
  lemma EmptyTokenRejected(p: Primitives, secret: string, now: int)
    requires Sound(p)
    ensures ValidateJWT(p, "", secret, now) == Fallible(Uuids.Nil, Some(Malformed))
  {
  }

  const BearerPrefix := "Bearer "

  /** GetBearerToken on the value of the Authorization header (the empty
      string when the header is absent): strip the case-sensitive prefix
      "Bearer " once, or fail with "invalid token". */
  function GetBearerToken(authHeader: string): (r: Fallible<string, string>)
    ensures r.err.None? <==> BearerPrefix <= authHeader
    ensures r.err.None? ==> authHeader == BearerPrefix + r.value
    ensures r.err.Some? ==> r == Fallible("", Some("invalid token"))
  {
    if BearerPrefix <= authHeader then Fallible(authHeader[|BearerPrefix|..], None)
    else Fallible("", Some("invalid token"))
  }

  /** Stripping the prefix undoes adding it, whatever the token holds. */
  lemma BearerRoundTrip(token: string)
    ensures GetBearerToken(BearerPrefix + token) == Fallible(token, None)
  {
    assert (BearerPrefix + token)[|BearerPrefix|..] == token;
  }

  /** The edge cases: an absent header and a lower-case scheme fail, a bare
      prefix gives the empty token, and only one prefix is removed. */
  lemma BearerEdgeCases()
    ensures GetBearerToken("").err.Some?
    ensures GetBearerToken("bearer x") == Fallible("", Some("invalid token"))
    ensures GetBearerToken("Bearer ") == Fallible("", None)
    ensures GetBearerToken("Bearer Bearer x") == Fallible("Bearer x", None)
  {
    BearerRoundTrip("");
    BearerRoundTrip("Bearer x");
    assert !(BearerPrefix <= "bearer x") by { assert "bearer x"[0] != BearerPrefix[0]; }
  }
}
