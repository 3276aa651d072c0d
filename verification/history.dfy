/**
 Sequences of store calls. The PostgreSQL store, run on any history of calls,
 holds the same pairs as the set-level store run on the same history, keeps
 the UNIQUE constraint, and holds only pairs some call saved.
 */
module History {
  import opened Storage
  import opened Table
  import Postgres
  import PageSet

  /** One call to the store, with whether the database answered it. */
  datatype Call =
    | SaveCall(page: Page, conn: Postgres.Conn)
    | PickRandomCall(userName: string, conn: Postgres.Conn, choice: nat)
    | RemoveCall(page: Page, conn: Postgres.Conn)
    | IsExistsCall(page: Page, conn: Postgres.Conn)
    | InitCall

  /** The table after one call. */
  function Exec(rows: Rows, c: Call): Rows {
    match c
    case SaveCall(p, conn) => Postgres.Save(rows, p, conn).rows
    case PickRandomCall(u, conn, k) => Postgres.PickRandom(rows, u, conn, k).rows
    case RemoveCall(p, conn) => Postgres.Remove(rows, p, conn).rows
    case IsExistsCall(p, conn) => Postgres.IsExists(rows, p, conn).rows
    case InitCall => Postgres.Init(rows).rows
  }

  /** The table after a history of calls, oldest first. */
  function Run(rows: Rows, calls: seq<Call>): Rows
    decreases |calls|
  {
    if calls == [] then rows else Run(Exec(rows, calls[0]), calls[1..])
  }

  /** The set-level store after one call: a failed statement changes nothing. */
  function ExecSpec(s: PageSet.Store, c: Call): PageSet.Store {
    match c
    case SaveCall(p, conn) => if conn == Postgres.Up then PageSet.Save(s, p) else s
    case RemoveCall(p, conn) => if conn == Postgres.Up then PageSet.Remove(s, p).0 else s
    case _ => s
  }

  /** The set-level store after a history of calls. */
  function RunSpec(s: PageSet.Store, calls: seq<Call>): PageSet.Store
    decreases |calls|
  {
    if calls == [] then s else RunSpec(ExecSpec(s, calls[0]), calls[1..])
  }

  /** The pairs a history asks to save, whether or not the database answered. */
  function SavedBy(calls: seq<Call>): set<Page>
    decreases |calls|
  {
    if calls == [] then {}
    else (if calls[0].SaveCall? then {calls[0].page} else {}) + SavedBy(calls[1..])
  }

  /** One call changes the stored pairs as the set-level store says, and its
      answer is the set-level answer. */
  lemma ExecRefines(rows: Rows, c: Call)
    ensures Contents(Exec(rows, c)) == ExecSpec(Contents(rows), c)
    ensures c.RemoveCall? && c.conn == Postgres.Up ==>
      Postgres.Remove(rows, c.page, Postgres.Up).result == PageSet.Remove(Contents(rows), c.page).1
    ensures c.IsExistsCall? && c.conn == Postgres.Up ==>
      Postgres.IsExists(rows, c.page, Postgres.Up).result == Ok(c.page in Contents(rows))
    ensures c.PickRandomCall? && c.conn == Postgres.Up ==>
      PageSet.PickAllowed(Contents(rows), c.userName, Postgres.PickRandom(rows, c.userName, Postgres.Up, c.choice).result)
  {
    if c.PickRandomCall? && c.conn == Postgres.Up {
      var s := Contents(rows);
      if PageSet.PagesOf(s, c.userName) == {} {
        forall q | q in rows ensures q.userName != c.userName {
          assert q !in PageSet.PagesOf(s, c.userName);
        }
      } else {
        var q :| q in PageSet.PagesOf(s, c.userName);
        assert q in rows && q.userName == c.userName;
      }
    }
  }

  /** Any history refines the set-level store: the PostgreSQL store holds
      exactly the pairs the set-level store holds after the same calls. */
  lemma {:induction false} RunRefines(rows: Rows, calls: seq<Call>)
    ensures Contents(Run(rows, calls)) == RunSpec(Contents(rows), calls)
    decreases |calls|
  {
    if calls != [] {
      ExecRefines(rows, calls[0]);
      RunRefines(Exec(rows, calls[0]), calls[1..]);
    }
  }

  /** No history breaks the UNIQUE constraint: at most one row per pair. */
  lemma {:induction false} RunKeepsUnique(rows: Rows, calls: seq<Call>)
    requires Unique(rows)
    ensures Unique(Run(rows, calls))
    ensures forall p :: Count(Run(rows, calls), p) <= 1
    decreases |calls|
  {
    if calls != [] {
      RunKeepsUnique(Exec(rows, calls[0]), calls[1..]);
    }
    UniqueIffCountAtMostOne(Run(rows, calls));
  }

  /** Every pair stored after a history was stored before it or was asked to
      be saved by one of its calls; from the empty table, only saved pairs. */
  lemma {:induction false} RunStoresOnlySaved(rows: Rows, calls: seq<Call>)
    ensures Contents(Run(rows, calls)) <= Contents(rows) + SavedBy(calls)
    decreases |calls|
  {
    if calls != [] {
      ExecRefines(rows, calls[0]);
      RunStoresOnlySaved(Exec(rows, calls[0]), calls[1..]);
    }
  }
}
