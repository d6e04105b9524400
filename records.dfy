/** The record shapes of the user API (`UserCreate`, `UserUpdate`, `UserInDB`),
    the row of table `personas` they are stored as, and the exceptions that
    reach the API layer. */
module Records {

  datatype Option<+T> = None | Some(value: T)

  datatype Result<+T, +E> = Success(value: T) | Failure(error: E)

  /** The exceptions the API layer sees. */
  datatype Exception =
    /** FastAPI's `HTTPException`: an HTTP status code and a detail text. */
    | HttpException(statusCode: int, detail: string)
    /** Any other Python exception; `message` is its `str(e)`. */
    | Error(message: string)

  /** Pydantic's `ValidationError` when a `UserInDB` is built with
      `certificado_N=None`: the field is declared `str` (Pydantic 1 wording). */
  const CertificadoNotStr := Error("1 validation error for UserInDB\ncertificado_N\n  none is not an allowed value (type=type_error.none.not_allowed)")

  /** A row of table `personas` as sqlite3 returns it: the integer primary
      key, then the text columns username, nacimiento, numero, gmail,
      profesion and certificado_N. The last one is nullable, since an update
      without a certificate writes NULL into it. */
  type Row = (int, string, string, string, string, string, Option<string>)

  /** A stored user as the API returns it; every field is required. */
  datatype UserInDB = UserInDB(
    id: int,
    username: string,
    nacimiento: string,
    numero: string,
    gmail: string,
    profesion: string,
    certificadoN: string)

  /** The body of a create request: all six fields are required. */
  datatype UserCreate = UserCreate(
    username: string,
    nacimiento: string,
    numero: string,
    gmail: string,
    profesion: string,
    certificadoN: string)
  {
    /** The row the INSERT stores: the rowid, then the six fields in column
        order. The certificate is required, so the row is never NULL there
        and always reads back as a record. */
    function AsRow(id: int): (r: Row)
      ensures r.0 == id && r.5 == profesion
      ensures r.6 == Some(certificadoN)
      ensures FromRow(r).Success? && FromRow(r).value.id == id
    {
      (id, username, nacimiento, numero, gmail, profesion, Some(certificadoN))
    }

    /** `UserInDB(id=id, **user.dict())`: the input echoed back under an id;
        it is exactly the record the stored row holds. */
    function WithId(id: int): (u: UserInDB)
      ensures u.id == id
      ensures ToRow(u) == AsRow(id)
    {
      UserInDB(id, username, nacimiento, numero, gmail, profesion, certificadoN)
    }
  }

  /** The body of an update request: `certificadoN` may be omitted (None). */
  datatype UserUpdate = UserUpdate(
    username: string,
    nacimiento: string,
    numero: string,
    gmail: string,
    profesion: string,
    certificadoN: Option<string>)
  {
    /** The row the UPDATE leaves behind: the id, then the six parameters in
        column order; an omitted certificate is written as NULL, so the row
        reads back as a record exactly when a certificate was given. */
    function AsRow(id: int): (r: Row)
      ensures r.0 == id && r.5 == profesion
      ensures r.6 == certificadoN
      ensures FromRow(r).Success? <==> certificadoN.Some?
    {
      (id, username, nacimiento, numero, gmail, profesion, certificadoN)
    }

    /** `UserInDB(id=id, **user.dict())`: the input echoed back under an id.
        Without a certificate Pydantic refuses to build it; otherwise it is
        exactly the record the updated row holds. */
    function WithId(id: int): (r: Result<UserInDB, Exception>)
      ensures r.Success? <==> certificadoN.Some?
      ensures r.Success? ==> r.value.id == id && ToRow(r.value) == AsRow(id)
      ensures r.Failure? ==> r.error == CertificadoNotStr
    {
      match certificadoN
      case None => Failure(CertificadoNotStr)
      case Some(c) => Success(UserInDB(id, username, nacimiento, numero, gmail, profesion, c))
    }
  }

  /** `UserInDB(id=row[0], username=row[1], ..., certificado_N=row[6])`: the
      row's columns in order, refused when the certificate column is NULL. */
  function FromRow(row: Row): (r: Result<UserInDB, Exception>)
    ensures r.Success? <==> row.6.Some?
    ensures r.Success? ==> ToRow(r.value) == row
    ensures r.Failure? ==> r.error == CertificadoNotStr
  {
    match row.6
    case None => Failure(CertificadoNotStr)
    case Some(c) => Success(UserInDB(row.0, row.1, row.2, row.3, row.4, row.5, c))
  }

  /** The row a record is stored as, its fields in column order. */
  function ToRow(u: UserInDB): (row: Row)
    ensures row.0 == u.id && row.5 == u.profesion && row.6 == Some(u.certificadoN)
  {
    (u.id, u.username, u.nacimiento, u.numero, u.gmail, u.profesion, Some(u.certificadoN))
  }

  /** A record survives being stored and read back column by column. */
  lemma RecordRoundTrip(u: UserInDB)
    ensures FromRow(ToRow(u)) == Success(u)
  {
  }
}
