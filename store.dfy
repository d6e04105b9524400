/** The record store: table `personas` and the four functions of main.py that
    run one SQL statement each against it. */
module Store {
  import opened Records
  import opened Rows

  /** Raised by `editar_usuario` when no row has the given id. */
  const UserNotFound := HttpException(404, "Usuario no encontrado")

  /** What `obtener_usuarios` raises on an empty table: `users` is bound
      only inside the loop over the fetched rows (Python 3.11 wording). */
  const UsersUnbound := Error("cannot access local variable 'users' where it is not associated with a value")

  /** What sqlite3 raises when a Python int bound as a statement parameter
      does not fit SQLite's signed 64-bit INTEGER (`OverflowError`). */
  const IdOutOfRange := Error("Python int too large to convert to SQLite INTEGER")

  /** The values a statement parameter of SQLite type INTEGER can hold. */
  predicate SqliteInteger(n: int) {
    -0x8000_0000_0000_0000 <= n < 0x8000_0000_0000_0000
  }

  /** Table `personas` of `personas.db`. */
  class PersonasTable {
    /** The committed rows, in the order a full scan returns them. */
    var rows: seq<Row>

    /** The primary key is unique. */
    ghost predicate Valid()
      reads this
    {
      UniqueIds(rows)
    }

    /** Opens a table that already holds `initial`. */
    constructor (initial: seq<Row>)
      requires UniqueIds(initial)
      ensures Valid() && rows == initial
    {
      rows := initial;
    }

    /** `nuevo_usuario`: inserts the six fields under the rowid the store
        assigns, commits, and echoes the input back under that id. */
    method NuevoUsuario(user: UserCreate) returns (created: UserInDB)
      requires Valid()
      modifies this
      ensures Valid()
      ensures created == user.WithId(created.id)
      ensures !HasId(old(rows), created.id)
      ensures rows == old(rows) + [user.AsRow(created.id)]
      ensures rows == Inserted(old(rows), user)
    {
      var userId := NextRowId(rows);
      rows := rows + [user.AsRow(userId)];
      created := user.WithId(userId);
    }

    /** `obtener_usuarios` as written: each pass of the loop over the fetched
        rows rebinds `users` to the mapping of all rows, so on an empty table
        `users` is never bound and the return raises. A row with a NULL
        certificate makes the first pass raise. */
    method ObtenerUsuariosAsWritten() returns (result: Result<seq<UserInDB>, Exception>)
      ensures rows == [] ==> result == Failure(UsersUnbound)
      ensures rows != [] ==> result == ToUsers(rows)
      ensures result.Success? <==> rows != [] && AllCertified(rows)
    {
      var users: seq<UserInDB> := [];
      var bound := false;
      for i := 0 to |rows|
        invariant bound <==> i > 0
        invariant bound ==> ToUsers(rows) == Success(users)
      {
        var mapped := ToUsers(rows);
        if mapped.Failure? {
          return Failure(mapped.error);
        }
        users := mapped.value;
        bound := true;
      }
      if !bound {
        return Failure(UsersUnbound);
      }
      return Success(users);
    }

    /** `obtener_usuarios` as intended: the mapping of all rows, which is the
        empty list for an empty table. */
    method ObtenerUsuarios() returns (result: Result<seq<UserInDB>, Exception>)
      ensures result == ToUsers(rows)
      ensures rows == [] ==> result == Success([])
      ensures result.Success? <==> AllCertified(rows)
      ensures result.Success? ==> forall u :: multiset(result.value)[u] == multiset(rows)[ToRow(u)]
    {
      result := ToUsers(rows);
      if result.Success? {
        forall u ensures multiset(result.value)[u] == multiset(rows)[ToRow(u)] {
          ToUsersCount(rows, u);
        }
      }
    }

    /** `obtener_usuarios_por_profesion`: the rows whose profesion equals the
        argument exactly, as records; possibly none. A matching row with a
        NULL certificate makes it raise. */
    method ObtenerUsuariosPorProfesion(profesion: string) returns (result: Result<seq<UserInDB>, Exception>)
      ensures result == ByProfession(rows, profesion)
      ensures result.Failure? <==>
                exists i :: 0 <= i < |rows| && rows[i].5 == profesion && rows[i].6.None?
      ensures result.Success? ==>
                forall u :: u in result.value <==> ToRow(u) in rows && u.profesion == profesion
      ensures result == Success([]) <==> forall i :: 0 <= i < |rows| ==> rows[i].5 != profesion
    {
      result := ByProfession(rows, profesion);
      ByProfessionFails(rows, profesion);
      ByProfessionEmpty(rows, profesion);
      if result.Success? {
        forall u | ToRow(u) in rows && u.profesion == profesion ensures u in result.value {
          ByProfessionCount(rows, profesion, u);
        }
      }
    }

    /** `editar_usuario`: overwrites the six fields of the row with the given
        id, commits, and echoes the input back under that id. `fault` stands
        for an exception raised by sqlite3 itself, which leaves nothing
        committed. An id that does not fit SQLite's INTEGER makes binding
        the parameters raise before the UPDATE runs. When no row has the id (`rowcount == 0`) the 404 is raised
        before the commit, so the table is left as it was. Without a
        certificate the echo fails validation after the commit. */
    method EditarUsuario(id: int, user: UserUpdate, fault: Option<string>)
      returns (result: Result<UserInDB, Exception>)
      requires Valid()
      modifies this
      ensures Valid()
      ensures fault.Some? ==> result == Failure(Error(fault.value)) && rows == old(rows)
      ensures fault.None? && !SqliteInteger(id) ==>
                result == Failure(IdOutOfRange) && rows == old(rows)
      ensures fault.None? && SqliteInteger(id) && !HasId(old(rows), id) ==>
                result == Failure(UserNotFound) && rows == old(rows)
      ensures fault.None? && SqliteInteger(id) && HasId(old(rows), id) ==>
                RowCount(old(rows), id) == 1 &&
                rows == Overwritten(old(rows), id, user) &&
                result == user.WithId(id) &&
                (result.Success? <==> user.certificadoN.Some?)
    {
      if fault.Some? {
        return Failure(Error(fault.value));
      }
      if !SqliteInteger(id) {
        return Failure(IdOutOfRange);
      }
      var updated := Overwritten(rows, id, user);
      var rowcount := RowCount(rows, id);
      if rowcount == 0 {
        return Failure(UserNotFound);
      }
      rows := updated;
      result := user.WithId(id);
    }
  }
}
