/** The chirp handlers (internal/handlers/chirpyHandler.go). Store queries
    are the function parameters `getUserByID`, `getChirpyByID` and
    `createChirpy` (what the store answers), and the request body is the
    result of JSON decoding, `None` when decoding fails. */
module ChirpyHandler {
  import opened Common
  import opened Database
  import Uuids
  import Jwt
  import Text
  import Profanity

  /** A chirp may hold at most this many code points. */
  const MaxChirpLength := 140

  /** The JSON body of a chirp, as the handlers answer it. */
  datatype ChirpResponse = ChirpResponse(id: Uuid, body: string, userId: Uuid, createdAt: int, updatedAt: int)

  /** The zero value of a ChirpResponse. */
  const EmptyResponse := ChirpResponse(Uuids.Nil, "", Uuids.Nil, 0, 0)

  /** mapChirp: every field of the row is copied unchanged. */
  function MapChirp(row: Chirp): (r: ChirpResponse)
    ensures r.id == row.id && r.body == row.body && r.userId == row.userId
    ensures r.createdAt == row.createdAt && r.updatedAt == row.updatedAt
  {
    ChirpResponse(row.id, row.body, row.userId, row.createdAt, row.updatedAt)
  }

  /** mapChirps: a slice of the same length, filled element by element. */
  method MapChirps(rows: seq<Chirp>) returns (chirps: seq<ChirpResponse>)
    ensures |chirps| == |rows|
    ensures forall i :: 0 <= i < |rows| ==> chirps[i] == MapChirp(rows[i])
  {
    chirps := seq(|rows|, _ => EmptyResponse);
    for i := 0 to |rows|
      invariant |chirps| == |rows|
      invariant forall k :: 0 <= k < i ==> chirps[k] == MapChirp(rows[k])
    {
      chirps := chirps[i := MapChirp(rows[i])];
    }
  }

  /** replaceBadWords: lower-case, split, overwrite the bad words in place, join. */
  method ReplaceBadWords(chirp: string) returns (cleaned: string)
    ensures cleaned == Profanity.Censor(chirp)
  {
    var lowered := Text.ToLower(chirp);
    var words := Text.Split(lowered);
    ghost var split := words;
    for i := 0 to |words|
      invariant |words| == |split|
      invariant forall k :: 0 <= k < i ==> words[k] == Profanity.CensorWord(split[k])
      invariant forall k :: i <= k < |words| ==> words[k] == split[k]
    {
      if words[i] in Profanity.BadWords {
        words := words[i := Profanity.Mask];
      }
    }
    assert words == Profanity.CensorAll(split);
    cleaned := Text.Join(words);
  }

  /** The length gate of CreateChirpy counts code points (runes); on ASCII
      text it agrees with a gate on the UTF-8 byte length. */
  predicate TooLong(body: string): (r: bool)
    ensures Text.Ascii(body) ==> (r <==> Text.Utf8Len(body) > MaxChirpLength)
  {
    |body| > MaxChirpLength
  }

  /** What CreateChirpy answered, and the insert it issued if it got that far. */
  datatype Created = Created(reply: Reply<ChirpResponse>, written: Option<CreateChirpyParams>)

  /** CreateChirpy: authenticate (a failed GetBearerToken is ignored: its
      empty token goes on to ValidateJWT), decode, check the length, clean,
      look the user up, insert. */
  function CreateChirpy(codec: Jwt.Primitives, jwtSecret: string, now: int, authHeader: string,
                        body: Option<string>, getUserByID: Uuid -> Lookup<User>,
                        createChirpy: CreateChirpyParams -> Option<Chirp>): (r: Created)
    ensures Jwt.ValidateJWT(codec, Jwt.GetBearerToken(authHeader).value, jwtSecret, now).err.Some? ==>
      r == Created(Fail(StatusUnauthorized, "Unauthorized"), None)
    ensures r.written.Some? ==>
      && body.Some? && !TooLong(body.value)
      && r.written.value.body == Profanity.Censor(body.value)
    // the chirp is filed under the user the token names, as the store found it
    ensures r.written.Some? ==>
      var auth := Jwt.ValidateJWT(codec, Jwt.GetBearerToken(authHeader).value, jwtSecret, now);
      && auth.err.None? && getUserByID(auth.value).Found?
      && r.written.value.userId == getUserByID(auth.value).row.id
    ensures r.reply.Json? ==>
      && r.written.Some? && r.reply.status == StatusCreated
      && createChirpy(r.written.value).Some?
      && r.reply.payload == MapChirp(createChirpy(r.written.value).value)
  {
    var userID := Jwt.ValidateJWT(codec, Jwt.GetBearerToken(authHeader).value, jwtSecret, now);
    if userID.err.Some? then Created(Fail(StatusUnauthorized, "Unauthorized"), None)
    else if body.None? then Created(Fail(StatusBadRequest, "Invalid JSON"), None)
    else if TooLong(body.value) then Created(Fail(StatusBadRequest, "Chirp is too long"), None)
    else
      var cleaned := Profanity.Censor(body.value);
      match getUserByID(userID.value)
      case NoRows => Created(Fail(StatusNotFound, "User not found"), None)
      case DriverError => Created(Fail(StatusNotFound, "User not found"), None)
      case Found(user) =>
        var params := CreateChirpyParams(cleaned, user.id);
        match createChirpy(params)
        case None => Created(Fail(StatusInternalServerError, "Could not create chirpy"), Some(params))
        case Some(created) => Created(Json(StatusCreated, MapChirp(created)), Some(params))
  }

  /** The status CreateChirpy answers is fixed by the first gate that fails:
      401 exactly when the token does not validate, 400 for a body that
      does not decode or is too long, 404 for any failed user lookup (a
      store error included), 500 when the insert fails, and 201 otherwise.
      The insert is issued exactly when the user lookup succeeds. */
  lemma CreateChirpyStatus(codec: Jwt.Primitives, jwtSecret: string, now: int, authHeader: string,
                           body: Option<string>, getUserByID: Uuid -> Lookup<User>,
                           createChirpy: CreateChirpyParams -> Option<Chirp>)
    ensures var r := CreateChirpy(codec, jwtSecret, now, authHeader, body, getUserByID, createChirpy);
      var auth := Jwt.ValidateJWT(codec, Jwt.GetBearerToken(authHeader).value, jwtSecret, now);
      var gated := auth.err.None? && body.Some? && !TooLong(body.value);
      && (r.reply.status == StatusUnauthorized <==> auth.err.Some?)
      && (r.reply.status == StatusBadRequest <==> auth.err.None? && (body.None? || TooLong(body.value)))
      && (r.reply.status == StatusNotFound <==> gated && !getUserByID(auth.value).Found?)
      && (r.written.Some? <==> gated && getUserByID(auth.value).Found?)
      && (r.reply.status == StatusInternalServerError <==> r.written.Some? && createChirpy(r.written.value).None?)
      && (r.reply.status == StatusCreated <==> r.written.Some? && createChirpy(r.written.value).Some?)
  {
  }

  /** Without a well-formed bearer header the answer is 401, before the body
      is read and without any store access. */
  lemma MissingHeaderUnauthorized(codec: Jwt.Primitives, jwtSecret: string, now: int, authHeader: string,
                                  body: Option<string>, getUserByID: Uuid -> Lookup<User>,
                                  createChirpy: CreateChirpyParams -> Option<Chirp>)
    requires Jwt.Sound(codec)
    requires !(Jwt.BearerPrefix <= authHeader)
    ensures CreateChirpy(codec, jwtSecret, now, authHeader, body, getUserByID, createChirpy)
         == Created(Fail(StatusUnauthorized, "Unauthorized"), None)
  {
    Jwt.EmptyTokenRejected(codec, jwtSecret, now);
  }

  /** With a valid access token, a body of over 140 code points is refused
      with 400 before it is cleaned or stored. */
  lemma OverLimitRejected(codec: Jwt.Primitives, jwtSecret: string, now: int, authHeader: string,
                          body: string, getUserByID: Uuid -> Lookup<User>,
                          createChirpy: CreateChirpyParams -> Option<Chirp>)
    requires Jwt.ValidateJWT(codec, Jwt.GetBearerToken(authHeader).value, jwtSecret, now).err.None?
    requires |body| > MaxChirpLength
    ensures CreateChirpy(codec, jwtSecret, now, authHeader, Some(body), getUserByID, createChirpy)
         == Created(Fail(StatusBadRequest, "Chirp is too long"), None)
  {
  }

  /** A token made by MakeJWT for a known user, a body of exactly 140 code
      points and a working store give 201 with the cleaned body stored
      under that user. */
  lemma AtLimitStored(codec: Jwt.Primitives, jwtSecret: string, issuedAt: int, now: int,
                      user: User, body: string, getUserByID: Uuid -> Lookup<User>,
                      createChirpy: CreateChirpyParams -> Option<Chirp>)
    requires Jwt.Sound(codec)
    requires now < issuedAt + 3600
    requires |body| == MaxChirpLength
    requires getUserByID(user.id) == Found(user)
    requires createChirpy(CreateChirpyParams(Profanity.Censor(body), user.id)).Some?
    ensures var token := Jwt.MakeJWT(codec, user.id, jwtSecret, 3600, issuedAt);
      var r := CreateChirpy(codec, jwtSecret, now, Jwt.BearerPrefix + token, Some(body), getUserByID, createChirpy);
      && r.reply.Json? && r.reply.status == StatusCreated
      && r.written == Some(CreateChirpyParams(Profanity.Censor(body), user.id))
  {
    var token := Jwt.MakeJWT(codec, user.id, jwtSecret, 3600, issuedAt);
    Jwt.BearerRoundTrip(token);
    Jwt.RoundTrip(codec, user.id, jwtSecret, 3600, issuedAt, now);
  }

  /** GetAllChirps: 500 on a store error, otherwise 200 with every row mapped. */
  method GetAllChirps(rows: Option<seq<Chirp>>) returns (r: Reply<seq<ChirpResponse>>)
    ensures rows.None? ==> r == Fail(StatusInternalServerError, "Could not fetch chirps")
    ensures rows.Some? ==>
      && r.Json? && r.status == StatusOK && |r.payload| == |rows.value|
      && forall i :: 0 <= i < |rows.value| ==> r.payload[i] == MapChirp(rows.value[i])
  {
    if rows.None? {
      return Fail(StatusInternalServerError, "Could not fetch chirps");
    }
    var chirps := MapChirps(rows.value);
    return Json(StatusOK, chirps);
  }

  /** GetChirpyById. The row is answered as the store returned it. */
  function GetChirpyById(chirpID: string, getChirpyByID: Uuid -> Lookup<Chirp>): (r: Reply<Chirp>)
    ensures chirpID == "" ==> r == Fail(StatusBadRequest, "Chirp ID is required")
    ensures chirpID != "" && Uuids.Parse(chirpID).None? ==> r == Fail(StatusBadRequest, "Invalid UUID format")
    ensures Uuids.Parse(chirpID).Some? ==>
      match getChirpyByID(Uuids.Parse(chirpID).value)
      case Found(chirp) => r == Json(StatusOK, chirp)
      case NoRows => r == Fail(StatusNotFound, "Chirp Not Found")
      case DriverError => r == Fail(StatusInternalServerError, "Could not retrieve chirp")
  {
    if chirpID == "" then Fail(StatusBadRequest, "Chirp ID is required")
    else
      match Uuids.Parse(chirpID)
      case None => Fail(StatusBadRequest, "Invalid UUID format")
      case Some(id) =>
        match getChirpyByID(id)
        case NoRows => Fail(StatusNotFound, "Chirp Not Found")
        case DriverError => Fail(StatusInternalServerError, "Could not retrieve chirp")
        case Found(chirp) => Json(StatusOK, chirp)
  }

  /** The status of GetChirpyById is fixed by the id and the store's answer:
      400 exactly for ids that are not UUIDs (the empty id among them), and
      the store is asked only for the parsed id. */
  lemma GetChirpyStatus(chirpID: string, getChirpyByID: Uuid -> Lookup<Chirp>)
    ensures var r := GetChirpyById(chirpID, getChirpyByID);
      && (r.Fail? && r.status == StatusBadRequest <==> Uuids.Parse(chirpID).None?)
      && (r.Fail? && r.status == StatusNotFound <==>
            Uuids.Parse(chirpID).Some? && getChirpyByID(Uuids.Parse(chirpID).value).NoRows?)
      && (r.Fail? && r.status == StatusInternalServerError <==>
            Uuids.Parse(chirpID).Some? && getChirpyByID(Uuids.Parse(chirpID).value).DriverError?)
  {
  }
}
