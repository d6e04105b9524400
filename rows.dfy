/** What the SQL statements of the record store do to, or read from, the rows
    of table `personas`, as functions of the rows. */
module Rows {
  import opened Records

  /** Some row has primary key `id`. */
  predicate HasId(rows: seq<Row>, id: int) {
    exists i :: 0 <= i < |rows| && rows[i].0 == id
  }

  /** The primary key is unique. */
  predicate UniqueIds(rows: seq<Row>) {
    forall i, j :: 0 <= i < j < |rows| ==> rows[i].0 != rows[j].0
  }

  /** The largest rowid in a non-empty table. */
  function MaxId(rows: seq<Row>): (m: int)
    requires rows != []
    ensures forall i :: 0 <= i < |rows| ==> rows[i].0 <= m
    ensures HasId(rows, m)
  {
    if |rows| == 1 then rows[0].0
    else
      var rest := MaxId(rows[1..]);
      if rows[0].0 >= rest then rows[0].0 else rest
  }

  /** The rowid SQLite gives a row inserted without one (`cursor.lastrowid`):
      one more than the largest rowid, or 1 when the table is empty. */
  function NextRowId(rows: seq<Row>): (id: int)
    ensures !HasId(rows, id)
    ensures forall i :: 0 <= i < |rows| ==> rows[i].0 < id
    ensures rows == [] ==> id == 1
    ensures rows != [] ==> HasId(rows, id - 1)
  {
    if rows == [] then 1 else MaxId(rows) + 1
  }

  /** The table after `INSERT INTO personas (<six columns>) VALUES (...)`. */
  function Inserted(rows: seq<Row>, user: UserCreate): (r: seq<Row>)
    ensures UniqueIds(rows) ==> UniqueIds(r)
    ensures forall id :: HasId(r, id) <==> HasId(rows, id) || id == NextRowId(rows)
  {
    var row := user.AsRow(NextRowId(rows));
    var r := rows + [row];
    assert forall i :: 0 <= i < |rows| ==> r[i] == rows[i];
    assert r[|rows|] == row;
    r
  }

  /** Every row has a certificate. */
  predicate AllCertified(rows: seq<Row>) {
    forall i :: 0 <= i < |rows| ==> rows[i].6.Some?
  }

  /** `[UserInDB(id=row[0], ..., certificado_N=row[6]) for row in rows]`:
      each row mapped column by column into a record, in order. A row with a
      NULL certificate makes the whole comprehension raise. */
  function ToUsers(rows: seq<Row>): (r: Result<seq<UserInDB>, Exception>)
    ensures r.Success? <==> AllCertified(rows)
    ensures r.Success? ==>
              |r.value| == |rows| && forall i :: 0 <= i < |rows| ==> ToRow(r.value[i]) == rows[i]
    ensures r.Failure? ==> r.error == CertificadoNotStr
  {
    if rows == [] then Success([])
    else
      assert AllCertified(rows) <==> rows[0].6.Some? && AllCertified(rows[1..]);
      match FromRow(rows[0])
      case Failure(e) => Failure(e)
      case Success(u) =>
        match ToUsers(rows[1..])
        case Failure(e) => Failure(e)
        case Success(us) => Success([u] + us)
  }

  /** `WHERE profesion = ?`: the rows whose profesion equals the argument, by
      exact string equality, in table order. */
  function Matching(rows: seq<Row>, profesion: string): (r: seq<Row>)
    ensures |r| <= |rows|
    ensures forall row :: row in r ==> row in rows && row.5 == profesion
  {
    if rows == [] then []
    else
      var first := if rows[0].5 == profesion then [rows[0]] else [];
      first + Matching(rows[1..], profesion)
  }

  /** `obtener_usuarios_por_profesion`'s query: the matching rows, mapped
      into records. */
  function ByProfession(rows: seq<Row>, profesion: string): (r: Result<seq<UserInDB>, Exception>)
    ensures r.Success? ==> forall u :: u in r.value ==> u.profesion == profesion && ToRow(u) in rows
    ensures r.Failure? ==> r.error == CertificadoNotStr
  {
    var r := ToUsers(Matching(rows, profesion));
    assert r.Success? ==> forall u :: u in r.value ==> ToRow(u) in Matching(rows, profesion);
    r
  }

  /** `cursor.rowcount` after `UPDATE ... WHERE id = ?`: how many rows have
      that id. */
  function RowCount(rows: seq<Row>, id: int): (n: nat)
    ensures n <= |rows|
    ensures n == 0 <==> !HasId(rows, id)
    ensures UniqueIds(rows) ==> n <= 1
  {
    if rows == [] then 0
    else
      assert UniqueIds(rows) ==> UniqueIds(rows[1..]);
      assert UniqueIds(rows) && rows[0].0 == id ==> !HasId(rows[1..], id);
      assert HasId(rows, id) && rows[0].0 != id ==> HasId(rows[1..], id);
      (if rows[0].0 == id then 1 else 0) + RowCount(rows[1..], id)
  }

  /** The table after `UPDATE personas SET <six columns> WHERE id = ?`: the
      rows with that id hold the update's parameters, every other row is as
      it was, and no row's id changes. */
  function Overwritten(rows: seq<Row>, id: int, user: UserUpdate): (r: seq<Row>)
    ensures |r| == |rows|
    ensures forall i :: 0 <= i < |rows| ==> r[i].0 == rows[i].0
    ensures forall k :: HasId(r, k) <==> HasId(rows, k)
    ensures UniqueIds(rows) ==> UniqueIds(r)
  {
    seq(|rows|, i requires 0 <= i < |rows| =>
      if rows[i].0 == id then user.AsRow(id) else rows[i])
  }

  /** An observer, not a function of the program: the row a read of one id
      sees, the first row with that id. */
  function Lookup(rows: seq<Row>, id: int): (r: Option<Row>)
    ensures r.None? <==> !HasId(rows, id)
    ensures r.Some? ==> r.value.0 == id && r.value in rows
  {
    if rows == [] then None
    else if rows[0].0 == id then Some(rows[0])
    else
      assert HasId(rows, id) ==> HasId(rows[1..], id);
      Lookup(rows[1..], id)
  }

  /** The filter keeps each row whose profesion equals the argument exactly,
      as often as the table holds it, and no other row. */
  lemma {:induction false} MatchingCount(rows: seq<Row>, profesion: string, row: Row)
    ensures multiset(Matching(rows, profesion))[row] ==
            if row.5 == profesion then multiset(rows)[row] else 0
  {
    if rows != [] {
      MatchingCount(rows[1..], profesion, row);
      assert rows == [rows[0]] + rows[1..];
    }
  }

  /** A successful mapping yields each record as often as its row occurs. */
  lemma {:induction false} ToUsersCount(rows: seq<Row>, u: UserInDB)
    requires ToUsers(rows).Success?
    ensures multiset(ToUsers(rows).value)[u] == multiset(rows)[ToRow(u)]
  {
    if rows != [] {
      ToUsersCount(rows[1..], u);
      assert rows == [rows[0]] + rows[1..];
    }
  }

  /** The profession query raises exactly when some row with that profession
      has a NULL certificate. */
  lemma ByProfessionFails(rows: seq<Row>, profesion: string)
    ensures ByProfession(rows, profesion).Failure? <==>
            exists i :: 0 <= i < |rows| && rows[i].5 == profesion && rows[i].6.None?
  {
    var m := Matching(rows, profesion);
    if ByProfession(rows, profesion).Failure? {
      var k :| 0 <= k < |m| && m[k].6.None?;
      assert m[k] in m;
      var i :| 0 <= i < |rows| && rows[i] == m[k];
    } else {
      forall i | 0 <= i < |rows| && rows[i].5 == profesion ensures rows[i].6.Some? {
        MatchingCount(rows, profesion, rows[i]);
        assert rows[i] in multiset(rows);
        assert rows[i] in multiset(m);
        var k :| 0 <= k < |m| && m[k] == rows[i];
      }
    }
  }

  /** When the profession query succeeds, it returns each record with that
      profession exactly as often as its row occurs, and no other record. */
  lemma ByProfessionCount(rows: seq<Row>, profesion: string, u: UserInDB)
    requires ByProfession(rows, profesion).Success?
    ensures multiset(ByProfession(rows, profesion).value)[u] ==
            if u.profesion == profesion then multiset(rows)[ToRow(u)] else 0
  {
    ToUsersCount(Matching(rows, profesion), u);
    MatchingCount(rows, profesion, ToRow(u));
  }

  /** The profession query returns the empty list exactly when no row has
      that profession. */
  lemma ByProfessionEmpty(rows: seq<Row>, profesion: string)
    ensures ByProfession(rows, profesion) == Success([]) <==>
            forall i :: 0 <= i < |rows| ==> rows[i].5 != profesion
  {
    var m := Matching(rows, profesion);
    if ByProfession(rows, profesion) == Success([]) {
      forall i | 0 <= i < |rows| ensures rows[i].5 != profesion {
        MatchingCount(rows, profesion, rows[i]);
        assert rows[i] in multiset(rows);
      }
    } else if forall i :: 0 <= i < |rows| ==> rows[i].5 != profesion {
      if m != [] {
        assert m[0] in m;
      }
    }
  }

  /** Reading a table with one more row at the end: ids already present read
      as before; the new row's id reads as the new row. */
  lemma {:induction false} LookupAppend(rows: seq<Row>, row: Row, id: int)
    ensures Lookup(rows + [row], id) ==
            if HasId(rows, id) then Lookup(rows, id)
            else if row.0 == id then Some(row)
            else None
  {
    if rows != [] {
      assert (rows + [row])[1..] == rows[1..] + [row];
      LookupAppend(rows[1..], row, id);
      assert HasId(rows, id) && rows[0].0 != id ==> HasId(rows[1..], id);
    }
  }

  /** A created user reads back, under the id it was given, as the input
      plus that id; every other id reads as before. */
  lemma CreateReadBack(rows: seq<Row>, user: UserCreate)
    ensures Lookup(Inserted(rows, user), NextRowId(rows)) == Some(user.AsRow(NextRowId(rows)))
    ensures FromRow(user.AsRow(NextRowId(rows))) == Success(user.WithId(NextRowId(rows)))
    ensures forall k :: k != NextRowId(rows) ==> Lookup(Inserted(rows, user), k) == Lookup(rows, k)
  {
    var row := user.AsRow(NextRowId(rows));
    LookupAppend(rows, row, NextRowId(rows));
    forall k | k != NextRowId(rows) ensures Lookup(Inserted(rows, user), k) == Lookup(rows, k) {
      LookupAppend(rows, row, k);
    }
  }

  /** A create does not change whether the table can be listed, and when it
      can, the listing holds the created record exactly once. */
  lemma CreateListedOnce(rows: seq<Row>, user: UserCreate)
    ensures ToUsers(Inserted(rows, user)).Success? <==> ToUsers(rows).Success?
    ensures ToUsers(Inserted(rows, user)).Success? ==>
              multiset(ToUsers(Inserted(rows, user)).value)[user.WithId(NextRowId(rows))] == 1
  {
    var created := user.WithId(NextRowId(rows));
    var after := Inserted(rows, user);
    assert after == rows + [ToRow(created)];
    assert AllCertified(after) <==> AllCertified(rows) by {
      assert forall i :: 0 <= i < |rows| ==> after[i] == rows[i];
    }
    if ToUsers(after).Success? {
      ToUsersCount(after, created);
      assert ToRow(created) !in rows;
    }
  }

  /** After an update of an existing id, that id reads back as the update's
      parameters under the same id. */
  lemma {:induction false} UpdateReadBack(rows: seq<Row>, id: int, user: UserUpdate)
    requires HasId(rows, id)
    ensures Lookup(Overwritten(rows, id, user), id) == Some(user.AsRow(id))
  {
    OverwrittenTail(rows, id, user);
    if rows[0].0 != id {
      assert HasId(rows[1..], id);
      UpdateReadBack(rows[1..], id, user);
    }
  }

  /** An update of one id leaves what every other id reads back as it was. */
  lemma {:induction false} UpdateLeavesOthers(rows: seq<Row>, id: int, user: UserUpdate, k: int)
    requires k != id
    ensures Lookup(Overwritten(rows, id, user), k) == Lookup(rows, k)
  {
    if rows != [] {
      OverwrittenTail(rows, id, user);
      UpdateLeavesOthers(rows[1..], id, user, k);
    }
  }

  /** An update without a certificate that matches a row leaves a NULL in the
      table, after which listing the table and querying the updated
      profession both raise. */
  lemma UncertifiedUpdateBreaksReads(rows: seq<Row>, id: int, user: UserUpdate)
    requires HasId(rows, id) && user.certificadoN.None?
    ensures ToUsers(Overwritten(rows, id, user)).Failure?
    ensures ByProfession(Overwritten(rows, id, user), user.profesion).Failure?
  {
    var after := Overwritten(rows, id, user);
    var i :| 0 <= i < |rows| && rows[i].0 == id;
    assert after[i] == user.AsRow(id);
    ByProfessionFails(after, user.profesion);
  }

  /** Overwriting commutes with dropping the first row. */
  lemma OverwrittenTail(rows: seq<Row>, id: int, user: UserUpdate)
    requires rows != []
    ensures Overwritten(rows, id, user)[1..] == Overwritten(rows[1..], id, user)
  {
  }
}
