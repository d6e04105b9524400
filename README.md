# User-records API: a Dafny model

This project models the core of a small user-records service written in
Python. That core has two parts:

- the **record store**: four functions of `main.py` (`nuevo_usuario`,
  `obtener_usuarios`, `obtener_usuarios_por_profesion`, `editar_usuario`).
  Each runs one SQL statement against the SQLite table `personas`.
- the two **API routes** that turn the store's outcome into an HTTP result:
  `obtener_usuarios_por_profesion_route` and `editar_usuario_route`.

The table is modelled as an in-memory sequence of rows. Each row is a 7-tuple:
the id, then the six text columns in the order of the INSERT (main.py:126).
No `CREATE TABLE` appears in the program, so its schema is not known. The model
assumes two things about it:

- `id` is the table's integer primary key, an alias of the rowid, so the
  `cursor.lastrowid` of an insert is the new row's `id`;
- `certificado_N` is nullable, so an update without a certificate stores NULL
  (main.py:87, main.py:165).

`UserInDB` declares `certificado_N` as `str` (main.py:68, inherited at
main.py:89). So building a record from a row whose certificate is NULL, or
echoing back an update without one, fails Pydantic validation. The model does
the same.

Layout:

- `records.dfy` (module `Records`): the request and response shapes
  `UserCreate`, `UserUpdate` and `UserInDB`, and the row type. It also holds
  the rows the INSERT and UPDATE write, the column-by-column mapping from rows
  to records with its validation failure, and the exceptions the API sees
  (`HTTPException`, and any other exception via its `str(e)`).
- `rows.dfy` (module `Rows`): what each SQL statement does to the rows, or reads
  from them, as pure functions. The properties relating them are lemmas.
  `Lookup`, the row that a read of one id sees, is an observer used to state
  these properties; it is not a function of the program.
- `store.dfy` (module `Store`): class `PersonasTable`. It holds the committed
  rows. Its five methods model the four store functions, the listing both as
  written and as intended. A method that changes the
  table states its new contents in terms of the old ones.
- `routes.dfy` (module `Routes`): the two routes. Each is a pure mapping from the
  store's outcome to a response, plus a method that calls the store.
- `scenario.dfy` (module `Scenario`): a walk-through on a fresh table. It
  creates "ana", queries "chef" and "pilot", updates ana with and without a
  certificate, updates an id nobody has, and updates an id too large for
  SQLite.

The model makes these choices:

- **Ids.** The store assigns the id `cursor.lastrowid`. The model uses SQLite's
  rule for rowids without `AUTOINCREMENT`: one more than the largest rowid,
  or 1 in an empty table. An `AUTOINCREMENT` column assigns the same id when
  no row was ever deleted and the largest id is positive. It differs when
  deleted rows left its sequence counter ahead of the largest id, and when
  every id is at most 0 (it then assigns 1).
- **Failures inside sqlite3.** Only `editar_usuario` has a parameter
  `fault: Option<string>` for these. Its route is the only code that handles
  such an exception (it turns it into a 500). The fault is raised before
  anything is committed, so the table is left unchanged.
- **Ids too large for SQLite.** The path id of an update is an unbounded
  Python int (main.py:202). When it falls outside SQLite's signed 64-bit
  INTEGER, binding it (main.py:163-166) raises `OverflowError` before the
  UPDATE runs, and the route answers 500 with its text (main.py:214-215).
  The model does the same, using CPython's wording of the message.
- **Update without a certificate.** An omitted `certificado_N` is written as
  NULL, which clears the stored certificate. The update is committed, and then
  the echoed `UserInDB` fails validation, so the route answers 500. After that,
  listing the table, and querying that row's profession, raise the same
  validation error.
- **Listing an empty table.** The module docstring promises a list of all users
  (main.py:5), and the route declares `response_model=List[UserInDB]`
  (main.py:172). For an empty table that list is `[]`. The code raises instead
  (see "## Findings"). The model has both: the code as written, and the
  corrected listing.

## Model

| member | source | states |
|---|---|---|
| Records.UserCreate.AsRow | main.py:126-127 | the row the INSERT stores: the new id in column 0, the profession in column 5, and the certificate, never NULL, in column 6, so the row always reads back as a record under that id |
| Records.UserUpdate.AsRow | main.py:164-165 | the row the UPDATE leaves: the id in column 0, the profession in column 5, and the certificate exactly as given in column 6, NULL when it was omitted; it reads back as a record exactly when a certificate was given |
| Records.UserCreate.WithId | main.py:131 | the returned record is the input under the given id, and it is exactly the record held by the row the INSERT stored |
| Records.UserUpdate.WithId | main.py:170 | without a certificate, building the record fails validation; otherwise it is the input under the given id, exactly what the updated row holds |
| Records.FromRow | main.py:140-141 | a row maps to a record exactly when its certificate is not NULL, otherwise to the validation error; the record is stored as exactly that row |
| Records.ToRow | main.py:126-127 | the row a record is stored as, in column order: id in column 0, profession in column 5, the certificate in column 6 |
| Records.RecordRoundTrip | main.py:151-152 | storing a record and mapping its row back column by column gives the same record |
| Rows.MaxId | main.py:129 | the largest rowid in a non-empty table: at least every row's id, and some row's id |
| Rows.NextRowId | main.py:129 | the lastrowid of an insert: greater than every existing id, so fresh; 1 on an empty table, otherwise one more than an existing id |
| Rows.Inserted | main.py:125-128 | the INSERT keeps the primary key unique; afterwards the ids are the old ids plus the new one |
| Rows.ToUsers | main.py:140-141 | the comprehension succeeds exactly when every row has a certificate, giving one record per row, each stored as exactly that row; otherwise it raises the validation error |
| Rows.Matching | main.py:150 | the WHERE clause keeps only rows of the table whose profession equals the argument exactly |
| Rows.ByProfession | main.py:150-152 | every record returned has exactly the asked profession and comes from a row of the table; a failure is the validation error |
| Rows.RowCount | main.py:163-167 | the UPDATE's rowcount is 0 exactly when no row has the id, and at most 1 while ids are unique |
| Rows.Overwritten | main.py:163-166 | the UPDATE changes no row's id, keeps the table's size and set of ids, and keeps ids unique |
| Rows.MatchingCount | main.py:150 | the filter keeps each row with that profession as often as the table holds it, and no other row |
| Rows.ToUsersCount | main.py:140-141 | a successful mapping lists each record as often as its row occurs |
| Rows.ByProfessionFails | main.py:150-152 | the profession query raises exactly when some row with that profession has a NULL certificate |
| Rows.ByProfessionCount | main.py:150-152 | a successful profession query returns each row with that profession exactly as often as the table holds it, and no other row |
| Rows.ByProfessionEmpty | main.py:150-152 | the profession query returns [] exactly when no row has that profession |
| Rows.CreateReadBack | main.py:125-131 | after a create, the new id reads back as the inserted row, which maps to the echoed record; every other id reads as before |
| Rows.CreateListedOnce | main.py:125-141 | a create does not change whether the table can be listed; when it can, the listing holds the created record exactly once |
| Rows.UpdateReadBack | main.py:163-170 | after an update of an existing id, that id reads back as the update's row under the same id |
| Rows.UpdateLeavesOthers | main.py:163-166 | an update of one id leaves what every other id reads back unchanged |
| Rows.UncertifiedUpdateBreaksReads | main.py:136-152 | after an update without a certificate that matched a row, the listing and the query for the updated profession both raise |
| Store.PersonasTable.NuevoUsuario | main.py:117-131 | appends exactly one row holding the six input fields under a fresh id; returns the input echoed under that id; ids stay unique |
| Store.PersonasTable.ObtenerUsuariosAsWritten | main.py:133-142 | as written: raises UnboundLocalError on an empty table; otherwise the comprehension's outcome, which succeeds exactly when every row has a certificate |
| Store.PersonasTable.ObtenerUsuarios | main.py:133-142 | as intended: [] for an empty table; succeeds exactly when every row has a certificate, listing each row's record as often as the row occurs |
| Store.PersonasTable.ObtenerUsuariosPorProfesion | main.py:144-153 | raises exactly when a matching row has a NULL certificate; otherwise returns exactly the rows whose profession equals the argument (membership both ways), [] exactly when none has it |
| Store.PersonasTable.EditarUsuario | main.py:155-170 | a sqlite3 failure, an id outside SQLite's 64-bit INTEGER (OverflowError while binding) or an absent id (404 before the commit) leaves the table unchanged; otherwise exactly one row matched, it is overwritten and committed, and the echo succeeds exactly when a certificate was given |
| Routes.ProfesionResponse | main.py:187-190 | a store exception propagates unchanged, an empty list becomes the 404, and a non-empty list is returned unchanged; the route never answers an empty list |
| Routes.ProfesionRouteOverTable | main.py:179-190 | over any table, the route answers 404 exactly when no row has the profession, raises the validation error exactly when a matching row lacks a certificate, and raises nothing else; it succeeds exactly when some row has the profession and all such rows have a certificate, and then lists exactly the matching rows |
| Routes.ObtenerUsuariosPorProfesionRoute | main.py:179-190 | GET /users/{profesion}: the 404 exactly when no row has that profession, the validation error exactly when a matching row lacks a certificate, no other exception; it succeeds exactly when some row matches and all matches have a certificate, listing exactly the matching rows |
| Routes.EditarResponse | main.py:210-215 | a success or HTTPException passes through unchanged; any other exception becomes a 500 carrying its text; only HTTPException is ever raised |
| Routes.EditarUsuarioRoute | main.py:201-215 | PUT /users/{id}: 500 with the fault's text on a sqlite3 failure, 500 with the overflow text for an id outside SQLite's 64-bit INTEGER, or 404 for an absent id in range, all leaving the table unchanged; otherwise the overwrite is committed and the answer is the echoed record, or a 500 with the validation error's text when no certificate was given |
| Scenario.CreateThenQuery | main.py:117-190 | in an empty table the first user gets id 1 and is echoed; the query for its profession lists exactly it; another profession is a 404 |
| Scenario.UpdateThenMiss | main.py:155-215 | an update with a certificate keeps the id and is echoed; an update of an unknown id is a 404; the listing shows the updated record |
| Scenario.UpdateWithoutCertificate | main.py:133-215 | an update without a certificate stores NULL and answers 500; afterwards the listing and the profession query raise the validation error |
| Scenario.UpdateOutOfRange | main.py:155-215 | an update of id 2^63 answers a 500 with sqlite3's overflow text, not a 404, and the stored row stays as created |
| Scenario.EmptyTableListing | main.py:133-142 | on an empty table the listing as written fails, and the corrected listing returns [] |

## Left out

- Connection handling, cursors and commit (`get_db_connection`, main.py:104-115): these are sqlite3 plumbing. The model has an in-memory table. A committed write is an assignment to `rows`; an uncommitted one is never assigned.
- Failures inside sqlite3 on create, list and the profession query are not modelled. None of these functions handles them. Only the update takes a `fault` parameter, since its route maps such failures explicitly.
- An exception that no route catches is raised as is in the model. This covers the validation error on a GET, and the listing's UnboundLocalError. FastAPI turns such an exception into a 500 response, and that conversion is framework behaviour outside this model.
- Row order: a `SELECT` without `ORDER BY` has engine-defined order. The model returns rows in table order.
- Email validation (`EmailStr`, main.py:66 and main.py:85) is a foreign validator, and the model accepts any string in `gmail`. It runs on request bodies before the store is called. It also runs inside the store, because `UserInDB` inherits `gmail: EmailStr`: every read (main.py:140, main.py:151) and every echo (main.py:131, main.py:170) validates the address again.
- Records.FromRow: does not fail on a stored address that `EmailStr` rejects, and does not model any normalisation of the address. A row written through the API holds an address that was already validated; a row put into the table some other way may not.
- The text of the validation error (`CertificadoNotStr`) follows Pydantic 1. Pydantic 2 words it differently. Only the 500's detail depends on it.
- Rows.NextRowId: ids are unbounded. SQLite's rowid is a signed 64-bit integer. Past the largest value, SQLite picks an unused rowid at random, or fails with an `AUTOINCREMENT` column.
- The create route `crear_nuevo_usuario` and the list route `obtener_todos_los_usuarios` (main.py:172-177, main.py:192-199) only return the store's result. They are not modelled separately.
- The debug `print` of each row (main.py:139) only produces output.
- The FastAPI application, CORS configuration and `uvicorn.run` (main.py:29-49, main.py:217-218) are framework wiring.
- The Flask presentation layer (`pagina/main.py`) and the request script (`peticiones.py`). They only make HTTP calls and render templates; there is no store logic in them.

## Findings

| source | as written | input that shows it | evidently intended | confidence | as-written member | corrected member |
|---|---|---|---|---|---|---|
| main.py:138-142 | `users` is bound only inside `for row in rows`, so `return users` raises `UnboundLocalError` when no row is fetched | an empty table `personas`: GET / answers 500 instead of `[]` | `users = [UserInDB(...) for row in rows]` outside the loop, returning `[]` for an empty table, the list of all users the docstring (main.py:5) and `response_model=List[UserInDB]` (main.py:172) promise | not executed; high, from reading the code | Store.PersonasTable.ObtenerUsuariosAsWritten | Store.PersonasTable.ObtenerUsuarios |

The exception text in `UsersUnbound` is Python 3.11's wording. Earlier
versions word it differently.
