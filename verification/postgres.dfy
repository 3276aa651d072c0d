/**
 The PostgreSQL page store: Save, PickRandom, Remove, IsExists and Init, each a
 pure function from the table before the call to the table after it and the
 value the call returns.

 The database is not modelled beyond the `pages` table: whether a statement
 reaches it is the `conn` parameter, and a statement that fails returns the
 error wrapped with the operation's name and leaves the table as it was.
 */
module Postgres {
  import opened Storage
  import opened Table

  /** Whether the database answers the statement of this call. */
  datatype Conn = Up | Down

  /** The table after a call and what the call returned. */
  datatype Step<+T> = Step(rows: Rows, result: Outcome<T>)

  /** The operation names each call wraps a driver error with. */
  const SaveOp := "storage.postgres.Save"
  const PickRandomOp := "storage.postgres.PickRandom"
  const RemoveOp := "storage.postgres.Remove"
  const IsExistsOp := "storage.postgres.IsExists"

  /** Save stores the pair; saving a pair already stored is not an error and
      changes nothing. */
  function Save(rows: Rows, p: Page, conn: Conn): (r: Step<()>)
    ensures conn == Up ==> r.result == Ok(()) && Contents(r.rows) == Contents(rows) + {p}
    ensures conn == Up && p in rows ==> r.rows == rows
    ensures conn == Down ==> r == Step(rows, Err(DbFailure(SaveOp)))
    ensures Unique(rows) ==> Unique(r.rows)
  {
    if conn == Down then Step(rows, Err(DbFailure(SaveOp)))
    else Step(InsertOnConflictDoNothing(rows, p), Ok(()))
  }

  /** PickRandom reads one stored page of `userName`. ORDER BY RANDOM() LIMIT 1
      is the `choice`-th of the user's rows, counted cyclically. */
  function PickRandom(rows: Rows, userName: string, conn: Conn, choice: nat): (r: Step<Page>)
    ensures r.rows == rows
    ensures r.result.Ok? ==> r.result.value in Contents(rows) && r.result.value.userName == userName
    ensures conn == Up ==> (r.result == Err(ErrNoSavedPages) <==> forall q :: q in rows ==> q.userName != userName)
    ensures conn == Up ==> r.result.Ok? || r.result == Err(ErrNoSavedPages)
    ensures conn == Down ==> r.result == Err(DbFailure(PickRandomOp))
  {
    if conn == Down then Step(rows, Err(DbFailure(PickRandomOp)))
    else
      var matching := SelectByUser(rows, userName);
      if |matching| == 0 then
        assert forall q :: q in rows ==> q.userName != userName;
        Step(rows, Err(ErrNoSavedPages))
      else
        assert matching[choice % |matching|] in matching;
        Step(rows, Ok(matching[choice % |matching|]))
  }

  /** Remove deletes the exact pair; when no row was deleted it reports
      ErrURLNotFound. */
  function Remove(rows: Rows, p: Page, conn: Conn): (r: Step<()>)
    ensures conn == Up && p in rows ==> r.result == Ok(()) && Contents(r.rows) == Contents(rows) - {p}
    ensures conn == Up && p in rows && Unique(rows) ==> |r.rows| == |rows| - 1
    ensures conn == Up && p !in rows ==> r == Step(rows, Err(ErrURLNotFound))
    ensures conn == Down ==> r == Step(rows, Err(DbFailure(RemoveOp)))
    ensures Unique(rows) ==> Unique(r.rows)
  {
    if conn == Down then Step(rows, Err(DbFailure(RemoveOp)))
    else
      var rows' := DeleteWhere(rows, p);
      var rowsAffected := |rows| - |rows'|;
      CountZero(rows, p);
      assert Unique(rows) ==> Unique(rows') && rowsAffected <= 1 by {
        if Unique(rows) {
          CountUnique(rows, p);
          DeleteKeepsUnique(rows, p);
        }
      }
      if rowsAffected == 0 then
        DeleteAbsent(rows, p);
        Step(rows', Err(ErrURLNotFound))
      else
        Step(rows', Ok(()))
  }

  /** IsExists tells whether the exact pair is stored, and changes nothing. */
  function IsExists(rows: Rows, p: Page, conn: Conn): (r: Step<bool>)
    ensures r.rows == rows
    ensures conn == Up ==> r.result == Ok(p in Contents(rows))
    ensures conn == Down ==> r.result == Err(DbFailure(IsExistsOp))
  {
    if conn == Down then Step(rows, Err(DbFailure(IsExistsOp)))
    else Step(rows, Ok(ExistsWhere(rows, p)))
  }

  /** Init does nothing: the table is created when the store is opened. */
  function Init(rows: Rows): (r: Step<()>)
    ensures r.rows == rows && r.result == Ok(())
  {
    Step(rows, Ok(()))
  }

  /** Saving twice leaves the same table as saving once. */
  lemma SaveIdempotent(rows: Rows, p: Page)
    ensures Save(Save(rows, p, Up).rows, p, Up) == Save(rows, p, Up)
  {
  }

  /** Remove undoes a Save of a pair that was not stored: the table comes back
      row for row. */
  lemma SaveThenRemove(rows: Rows, p: Page)
    requires p !in rows
    ensures Remove(Save(rows, p, Up).rows, p, Up) == Step(rows, Ok(()))
  {
    DeleteAfterAppend(rows, p);
  }

  /** Save undoes a Remove of a stored pair, up to row order. */
  lemma RemoveThenSave(rows: Rows, p: Page)
    requires p in rows
    ensures Contents(Save(Remove(rows, p, Up).rows, p, Up).rows) == Contents(rows)
  {
  }

  /** After Remove the pair is gone, and every other pair, whatever its URL or
      user, is stored exactly when it was before. */
  lemma RemoveFrame(rows: Rows, p: Page, conn: Conn)
    ensures conn == Up ==> IsExists(Remove(rows, p, conn).rows, p, Up).result == Ok(false)
    ensures forall q :: q != p ==> (q in Remove(rows, p, conn).rows <==> q in rows)
  {
  }

  /** Every page of the user is the answer of PickRandom for some choice: the
      pick never ignores a stored page. */
  lemma PickRandomReachesEveryPage(rows: Rows, q: Page)
    requires q in rows
    ensures exists choice: nat :: PickRandom(rows, q.userName, Up, choice).result == Ok(q)
  {
    var matching := SelectByUser(rows, q.userName);
    assert q in matching;
    var i :| 0 <= i < |matching| && matching[i] == q;
    assert i % |matching| == i;
    assert PickRandom(rows, q.userName, Up, i).result == Ok(q);
  }

  /** Init twice is Init once. */
  lemma InitIdempotent(rows: Rows)
    ensures Init(Init(rows).rows) == Init(rows)
  {
  }
}
