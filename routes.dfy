/** The API routes of main.py that do more than pass the store's answer on:
    how they turn the store's outcome into a response or an HTTP error. */
module Routes {
  import opened Records
  import opened Rows
  import opened Store

  /** Raised by the profession route when the store finds nobody. */
  const NoUsersWithProfession := HttpException(404, "No se encontraron usuarios con esta profesión")

  /** The profession route's response for the store's outcome: an
      exception from the store propagates, an empty list becomes the 404, and
      any other list is returned unchanged. The route never answers an empty
      list. */
  function ProfesionResponse(outcome: Result<seq<UserInDB>, Exception>): (r: Result<seq<UserInDB>, Exception>)
    ensures r.Success? ==> r == outcome && r.value != []
    ensures outcome.Success? && outcome.value != [] ==> r == outcome
    ensures outcome.Failure? ==> r == outcome
    ensures outcome == Success([]) ==> r == Failure(NoUsersWithProfession)
  {
    match outcome
    case Failure(_) => outcome
    case Success(users) => if users == [] then Failure(NoUsersWithProfession) else outcome
  }

  /** Over a table, the profession route answers 404 exactly when no row has
      that profession, raises the validation error exactly when a matching
      row has a NULL certificate, raises nothing else, and so succeeds
      exactly when some row has the profession and every such row has a
      certificate, listing exactly the rows that have it. */
  lemma ProfesionRouteOverTable(rows: seq<Row>, profesion: string)
    ensures ProfesionResponse(ByProfession(rows, profesion)) == Failure(NoUsersWithProfession) <==>
            forall i :: 0 <= i < |rows| ==> rows[i].5 != profesion
    ensures ProfesionResponse(ByProfession(rows, profesion)) == Failure(CertificadoNotStr) <==>
            exists i :: 0 <= i < |rows| && rows[i].5 == profesion && rows[i].6.None?
    ensures ProfesionResponse(ByProfession(rows, profesion)).Failure? ==>
            ProfesionResponse(ByProfession(rows, profesion)).error == NoUsersWithProfession ||
            ProfesionResponse(ByProfession(rows, profesion)).error == CertificadoNotStr
    ensures ProfesionResponse(ByProfession(rows, profesion)).Success? <==>
            (exists i :: 0 <= i < |rows| && rows[i].5 == profesion) &&
            (forall i :: 0 <= i < |rows| && rows[i].5 == profesion ==> rows[i].6.Some?)
    ensures ProfesionResponse(ByProfession(rows, profesion)).Success? ==>
            forall u :: u in ProfesionResponse(ByProfession(rows, profesion)).value <==>
                        ToRow(u) in rows && u.profesion == profesion
  {
    ByProfessionEmpty(rows, profesion);
    ByProfessionFails(rows, profesion);
    if ByProfession(rows, profesion).Success? {
      forall u | ToRow(u) in rows && u.profesion == profesion
        ensures u in ByProfession(rows, profesion).value
      {
        ByProfessionCount(rows, profesion, u);
      }
    }
  }

  /** `obtener_usuarios_por_profesion_route`: GET /users/{profesion}. It
      answers the 404 when no row has the profession, the validation error
      when a matching row has no certificate, and otherwise the list of
      exactly the matching rows. */
  method ObtenerUsuariosPorProfesionRoute(table: PersonasTable, profesion: string)
    returns (r: Result<seq<UserInDB>, Exception>)
    ensures r == ProfesionResponse(ByProfession(table.rows, profesion))
    ensures r == Failure(NoUsersWithProfession) <==>
            forall i :: 0 <= i < |table.rows| ==> table.rows[i].5 != profesion
    ensures r == Failure(CertificadoNotStr) <==>
            exists i :: 0 <= i < |table.rows| && table.rows[i].5 == profesion && table.rows[i].6.None?
    ensures r.Failure? ==> r.error == NoUsersWithProfession || r.error == CertificadoNotStr
    ensures r.Success? <==>
            (exists i :: 0 <= i < |table.rows| && table.rows[i].5 == profesion) &&
            (forall i :: 0 <= i < |table.rows| && table.rows[i].5 == profesion ==> table.rows[i].6.Some?)
    ensures r.Success? ==>
            forall u :: u in r.value <==> ToRow(u) in table.rows && u.profesion == profesion
  {
    var users := table.ObtenerUsuariosPorProfesion(profesion);
    r := ProfesionResponse(users);
    ProfesionRouteOverTable(table.rows, profesion);
  }

  /** The update route's response for the store's outcome: a success and an
      `HTTPException` pass through unchanged; any other exception becomes a
      500 whose detail is the exception's text. The route raises nothing
      but `HTTPException`. */
  function EditarResponse(outcome: Result<UserInDB, Exception>): (r: Result<UserInDB, Exception>)
    ensures r.Failure? ==> r.error.HttpException?
    ensures r.Success? <==> outcome.Success?
    ensures outcome.Success? || outcome.error.HttpException? ==> r == outcome
    ensures outcome.Failure? && outcome.error.Error? ==>
              r == Failure(HttpException(500, outcome.error.message))
  {
    match outcome
    case Success(_) => outcome
    case Failure(HttpException(_, _)) => outcome
    case Failure(Error(message)) => Failure(HttpException(500, message))
  }

  /** `editar_usuario_route`: PUT /users/{id}. A failure inside sqlite3,
      including an id too large for SQLite's INTEGER, is a 500 and a missing
      id a 404; none of these changes the table. An update
      without a certificate is committed and then answered with a 500. */
  method EditarUsuarioRoute(table: PersonasTable, id: int, user: UserUpdate, fault: Option<string>)
    returns (r: Result<UserInDB, Exception>)
    requires table.Valid()
    modifies table
    ensures table.Valid()
    ensures fault.Some? ==>
              r == Failure(HttpException(500, fault.value)) && table.rows == old(table.rows)
    ensures fault.None? && !SqliteInteger(id) ==>
              r == Failure(HttpException(500, IdOutOfRange.message)) && table.rows == old(table.rows)
    ensures fault.None? && SqliteInteger(id) && !HasId(old(table.rows), id) ==>
              r == Failure(UserNotFound) && table.rows == old(table.rows)
    ensures fault.None? && SqliteInteger(id) && HasId(old(table.rows), id) ==>
              table.rows == Overwritten(old(table.rows), id, user) &&
              r == (if user.certificadoN.Some? then user.WithId(id)
                    else Failure(HttpException(500, CertificadoNotStr.message)))
  {
    var outcome := table.EditarUsuario(id, user, fault);
    r := EditarResponse(outcome);
  }
}
