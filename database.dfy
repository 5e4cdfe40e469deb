/** The rows the handlers read from and write to the Postgres store, with
    the fields the handlers use. The generated query code itself is not part
    of this model: each query becomes a map lookup or a function parameter. */
module Database {
  import opened Common
  import Uuids

  type Uuid = Uuids.Uuid

  /** A row of the users table. */
  datatype User = User(id: Uuid, email: string, hashedPassword: string)

  /** A row of the refresh_tokens table, keyed by the token text. */
  datatype RefreshTokenRecord = RefreshTokenRecord(userId: Uuid, expiresAt: int, revokedAt: Option<int>)

  /** A row of the chirps table. */
  datatype Chirp = Chirp(id: Uuid, body: string, userId: Uuid, createdAt: int, updatedAt: int)

  /** The arguments of the chirp insert. */
  datatype CreateChirpyParams = CreateChirpyParams(body: string, userId: Uuid)

  /** Outcome of a single-row query: the row, `sql.ErrNoRows`, or any other driver error. */
  datatype Lookup<+T> = Found(row: T) | NoRows | DriverError
}
