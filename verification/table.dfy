/**
 The `pages` table as a sequence of rows, oldest first, and the meaning of the
 SQL statements the PostgreSQL store issues against it. Only the `url` and
 `user_name` columns are kept: no statement ever reads `id` or `created_at`.
 */
module Table {
  import opened Storage

  /** The rows of the `pages` table, in insertion order. */
  type Rows = seq<Page>

  /** The UNIQUE(url, user_name) constraint: no two rows hold the same pair. */
  predicate Unique(rows: Rows) {
    forall i, j :: 0 <= i < j < |rows| ==> rows[i] != rows[j]
  }

  /** The pages the table stores, forgetting row order. */
  function Contents(rows: Rows): (c: set<Page>)
    ensures forall q :: q in c <==> q in rows
  {
    if rows == [] then {}
    else
      assert rows == [rows[0]] + rows[1..];
      {rows[0]} + Contents(rows[1..])
  }

  /** How many rows hold the pair `p`. */
  function Count(rows: Rows, p: Page): nat {
    if rows == [] then 0
    else (if rows[0] == p then 1 else 0) + Count(rows[1..], p)
  }

  /** A pair occurs in no row exactly when it is not in the table. */
  lemma {:induction false} CountZero(rows: Rows, p: Page)
    ensures Count(rows, p) == 0 <==> p !in rows
  {
    if rows != [] {
      CountZero(rows[1..], p);
      assert rows == [rows[0]] + rows[1..];
    }
  }

  /** Under the UNIQUE constraint every pair occurs in at most one row. */
  lemma {:induction false} CountUnique(rows: Rows, p: Page)
    requires Unique(rows)
    ensures Count(rows, p) == if p in rows then 1 else 0
  {
    if rows != [] {
      var tail := rows[1..];
      assert Unique(tail) by {
        forall i, j | 0 <= i < j < |tail| ensures tail[i] != tail[j] {
          assert tail[i] == rows[i + 1] && tail[j] == rows[j + 1];
        }
      }
      CountUnique(tail, p);
      if rows[0] == p {
        assert p !in tail by {
          forall k | 0 <= k < |tail| ensures tail[k] != p {
            assert tail[k] == rows[k + 1];
          }
        }
      }
      assert rows == [rows[0]] + tail;
    }
  }

  /** Two rows holding the same pair make that pair count at least twice. */
  lemma {:induction false} CountDuplicate(rows: Rows, i: nat, j: nat)
    requires i < j < |rows| && rows[i] == rows[j]
    ensures Count(rows, rows[i]) >= 2
  {
    var p := rows[i];
    var tail := rows[1..];
    if i == 0 {
      assert tail[j - 1] == p;
      CountZero(tail, p);
    } else {
      assert tail[i - 1] == p && tail[j - 1] == p;
      CountDuplicate(tail, i - 1, j - 1);
    }
  }

  /** The UNIQUE constraint holds exactly when every pair occurs in at most one row. */
  lemma UniqueIffCountAtMostOne(rows: Rows)
    ensures Unique(rows) <==> forall p :: Count(rows, p) <= 1
  {
    if Unique(rows) {
      forall p ensures Count(rows, p) <= 1 {
        CountUnique(rows, p);
      }
    } else {
      var i, j :| 0 <= i < j < |rows| && rows[i] == rows[j];
      CountDuplicate(rows, i, j);
    }
  }

  /** INSERT INTO pages (url, user_name) VALUES ($1, $2)
      ON CONFLICT (url, user_name) DO NOTHING:
      a new pair is appended, a pair already present leaves the table as it was. */
  function InsertOnConflictDoNothing(rows: Rows, p: Page): (r: Rows)
    ensures Contents(r) == Contents(rows) + {p}
    ensures p in rows ==> r == rows
    ensures |r| <= |rows| + 1
    ensures Unique(rows) ==> Unique(r)
  {
    if p in rows then rows else rows + [p]
  }

  /** DELETE FROM pages WHERE url = $1 AND user_name = $2: every row holding
      the pair goes, every other row stays, in order. */
  function DeleteWhere(rows: Rows, p: Page): (r: Rows)
    ensures Contents(r) == Contents(rows) - {p}
    ensures |rows| - |r| == Count(rows, p)
  {
    if rows == [] then []
    else if rows[0] == p then DeleteWhere(rows[1..], p)
    else [rows[0]] + DeleteWhere(rows[1..], p)
  }

  /** A table is unique exactly when its first row recurs nowhere after it
      and the rest of the table is unique. */
  lemma UniqueCons(rows: Rows)
    requires rows != []
    ensures Unique(rows) <==> rows[0] !in rows[1..] && Unique(rows[1..])
  {
  }

  /** A delete keeps the UNIQUE constraint. */
  lemma {:induction false} DeleteKeepsUnique(rows: Rows, p: Page)
    requires Unique(rows)
    ensures Unique(DeleteWhere(rows, p))
  {
    if rows != [] {
      UniqueCons(rows);
      DeleteKeepsUnique(rows[1..], p);
      var tail := DeleteWhere(rows[1..], p);
      if rows[0] != p {
        assert rows[0] !in Contents(tail);
        UniqueCons([rows[0]] + tail);
        assert ([rows[0]] + tail)[1..] == tail;
      }
    }
  }

  /** A delete that matches nothing leaves the table exactly as it was. */
  lemma {:induction false} DeleteAbsent(rows: Rows, p: Page)
    requires p !in rows
    ensures DeleteWhere(rows, p) == rows
  {
    if rows != [] {
      assert rows == [rows[0]] + rows[1..];
      DeleteAbsent(rows[1..], p);
    }
  }

  /** Deleting a pair just appended to a table without it gives back that table. */
  lemma {:induction false} DeleteAfterAppend(rows: Rows, p: Page)
    requires p !in rows
    ensures DeleteWhere(rows + [p], p) == rows
  {
    if rows == [] {
      assert DeleteWhere([p], p) == DeleteWhere([], p);
    } else {
      var tail := rows[1..];
      assert (rows + [p])[1..] == tail + [p];
      assert rows == [rows[0]] + tail;
      DeleteAfterAppend(tail, p);
    }
  }

  /** SELECT url, user_name FROM pages WHERE user_name = $1: the rows of one
      user, in table order. */
  function SelectByUser(rows: Rows, userName: string): (r: Rows)
    ensures forall q :: q in r <==> q in rows && q.userName == userName
  {
    if rows == [] then []
    else if rows[0].userName == userName then [rows[0]] + SelectByUser(rows[1..], userName)
    else SelectByUser(rows[1..], userName)
  }

  /** SELECT EXISTS(SELECT 1 FROM pages WHERE url = $1 AND user_name = $2). */
  function ExistsWhere(rows: Rows, p: Page): (b: bool)
    ensures b <==> p in Contents(rows)
  {
    exists i | 0 <= i < |rows| :: rows[i].url == p.url && rows[i].userName == p.userName
  }
}
