/** A client of the store and the routes: a walk-through that creates one
    user in an empty table and queries by profession, updates that user,
    misses an id nobody has, updates without a certificate, and updates an id
    too large for SQLite. */
module Scenario {
  import opened Records
  import opened Rows
  import opened Store
  import opened Routes

  const ana := UserCreate("ana", "1990-01-01", "555", "ana@x.com", "chef", "c1")

  /** In an empty table, ana gets id 1 and is echoed back unchanged; the chef
      query finds exactly that record and the pilot query is a 404. */
  method CreateThenQuery() returns (created: UserInDB, chefs: Result<seq<UserInDB>, Exception>,
                                     pilots: Result<seq<UserInDB>, Exception>)
    ensures created == UserInDB(1, "ana", "1990-01-01", "555", "ana@x.com", "chef", "c1")
    ensures chefs == Success([created])
    ensures pilots == Failure(NoUsersWithProfession)
  {
    var table := new PersonasTable([]);
    created := table.NuevoUsuario(ana);
    assert table.rows == [ToRow(created)];
    assert table.rows[0].5 == "chef";
    assert Matching(table.rows[1..], "chef") == [];
    assert Matching(table.rows, "chef") == table.rows;
    assert ToUsers(table.rows[1..]) == Success([]);
    RecordRoundTrip(created);
    assert FromRow(table.rows[0]) == Success(created);
    assert [created] + [] == [created];
    assert ByProfession(table.rows, "chef") == Success([created]);
    chefs := ObtenerUsuariosPorProfesionRoute(table, "chef");
    pilots := ObtenerUsuariosPorProfesionRoute(table, "pilot");
  }

  /** Updating ana with a new profession and certificate keeps the id and is
      echoed back; updating id 2, which nobody has, is a 404 and changes
      nothing, so the listing shows the updated record. */
  method UpdateThenMiss() returns (updated: Result<UserInDB, Exception>,
                                   missing: Result<UserInDB, Exception>,
                                   after: Result<seq<UserInDB>, Exception>)
    ensures updated == Success(UserInDB(1, "ana", "1990-01-01", "555", "ana@x.com", "pastry chef", "c2"))
    ensures missing == Failure(UserNotFound)
    ensures after == Success([UserInDB(1, "ana", "1990-01-01", "555", "ana@x.com", "pastry chef", "c2")])
  {
    var table := new PersonasTable([]);
    var created := table.NuevoUsuario(ana);
    var change := UserUpdate("ana", "1990-01-01", "555", "ana@x.com", "pastry chef", Some("c2"));
    updated := EditarUsuarioRoute(table, 1, change, None);
    assert table.rows == [change.AsRow(1)];
    missing := EditarUsuarioRoute(table, 2, change, None);
    assert table.rows[1..] == [];
    RecordRoundTrip(updated.value);
    assert FromRow(table.rows[0]) == Success(updated.value);
    assert [updated.value] + [] == [updated.value];
    after := table.ObtenerUsuarios();
  }

  /** Updating ana without a certificate writes NULL into the row and then
      answers 500, since the echoed record fails validation; from then on the
      listing and the chef query raise the same validation error. */
  method UpdateWithoutCertificate() returns (updated: Result<UserInDB, Exception>, stored: seq<Row>,
                                             listing: Result<seq<UserInDB>, Exception>,
                                             chefs: Result<seq<UserInDB>, Exception>)
    ensures updated == Failure(HttpException(500, CertificadoNotStr.message))
    ensures stored == [(1, "ana", "1990-01-01", "555", "ana@x.com", "chef", None)]
    ensures listing == Failure(CertificadoNotStr)
    ensures chefs == Failure(CertificadoNotStr)
  {
    var table := new PersonasTable([]);
    var created := table.NuevoUsuario(ana);
    var change := UserUpdate("ana", "1990-01-01", "555", "ana@x.com", "chef", None);
    updated := EditarUsuarioRoute(table, 1, change, None);
    stored := table.rows;
    assert stored == [change.AsRow(1)];
    listing := table.ObtenerUsuarios();
    chefs := ObtenerUsuariosPorProfesionRoute(table, "chef");
    assert stored[0].5 == "chef" && stored[0].6.None?;
  }

  /** Updating id 2^63, one past SQLite's largest INTEGER, answers a 500
      carrying sqlite3's overflow text rather than a 404, and leaves ana's
      row as it was. */
  method UpdateOutOfRange() returns (updated: Result<UserInDB, Exception>, stored: seq<Row>)
    ensures updated == Failure(HttpException(500, "Python int too large to convert to SQLite INTEGER"))
    ensures stored == [(1, "ana", "1990-01-01", "555", "ana@x.com", "chef", Some("c1"))]
  {
    var table := new PersonasTable([]);
    var created := table.NuevoUsuario(ana);
    var change := UserUpdate("ana", "1990-01-01", "555", "ana@x.com", "pilot", Some("c2"));
    updated := EditarUsuarioRoute(table, 0x8000_0000_0000_0000, change, None);
    stored := table.rows;
  }

  /** The listing as written fails on the empty table it should list as []. */
  method EmptyTableListing() returns (asWritten: Result<seq<UserInDB>, Exception>,
                                      intended: Result<seq<UserInDB>, Exception>)
    ensures asWritten == Failure(UsersUnbound)
    ensures intended == Success([])
  {
    var table := new PersonasTable([]);
    asWritten := table.ObtenerUsuariosAsWritten();
    intended := table.ObtenerUsuarios();
  }
}
