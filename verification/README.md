# readbot page store, in Dafny

readbot is a Telegram bot that saves the links a user sends and later hands one
back at random. This project models its page store, the PostgreSQL
implementation of `storage.Storage` in `storage/postgres/postgres.go`, and proves
what its five operations do to the stored pages.

The store keeps rows of the `pages` table, one `(url, user_name)` pair per row,
under a `UNIQUE(url, user_name)` constraint. The model has three layers:

- `Table` (table.dfy) models the table as the sequence of its rows. It gives the
  UNIQUE constraint as the predicate `Unique` and the stored pairs as the set
  `Contents(rows)`. It states the meaning of each SQL statement the store issues:
  `INSERT … ON CONFLICT DO NOTHING`, `DELETE … WHERE`, `SELECT … WHERE user_name`
  and `SELECT EXISTS(…)`.
- `Postgres` (postgres.dfy) holds the operations `Save`, `PickRandom`, `Remove`,
  `IsExists` and `Init`. Each is a pure function from the table before the call
  to a `Step`: the table after the call and the call's `Outcome`. An outcome is
  `Ok(value)` or `Err(error)`. The errors are `ErrNoSavedPages`,
  `ErrURLNotFound` and `DbFailure(op)`, where `op` is the operation name
  (`"storage.postgres.Save"` and so on) that the source wraps a driver error with.
- `PageSet` (pageset.dfy) is the reference model: the store as a plain
  `set<Page>`. `History` (history.dfy) runs any sequence of calls on both models
  and proves that they hold the same pairs. It also proves that every history
  keeps the UNIQUE constraint.

The outside world enters only through parameters:
- `conn: Conn` (`Up` or `Down`) says whether the database answered the call's
  statement.
- `choice: nat` stands for the randomness of `ORDER BY RANDOM() LIMIT 1`.
  PickRandom returns the user's row at position `choice` modulo the number of
  that user's rows.

## Model

| member | source | states |
|---|---|---|
| Table.UniqueIffCountAtMostOne | storage/postgres/postgres.go:35-41 | the UNIQUE(url, user_name) constraint holds exactly when no pair occupies two rows |
| Table.CountUnique | storage/postgres/postgres.go:40 | under the UNIQUE constraint a pair occupies one row if stored and none otherwise |
| Table.CountZero | storage/postgres/postgres.go:109 | a DELETE that matches no row is exactly a DELETE of a pair that is not stored |
| Table.InsertOnConflictDoNothing | storage/postgres/postgres.go:60-64 | the insert adds the pair to the stored pairs, leaves the table untouched on conflict, adds at most one row and keeps the UNIQUE constraint |
| Table.DeleteWhere | storage/postgres/postgres.go:99-102 | the delete removes exactly the given pair from the stored pairs, and the number of rows it removes is the number of rows holding that pair |
| Table.DeleteKeepsUnique | storage/postgres/postgres.go:99-102 | deleting rows never breaks the UNIQUE constraint |
| Table.DeleteAbsent | storage/postgres/postgres.go:99-111 | a delete of a pair that is not stored leaves the table row for row as it was |
| Table.DeleteAfterAppend | storage/postgres/postgres.go:99-102 | deleting a pair just inserted into a table without it restores that table row for row |
| Table.SelectByUser | storage/postgres/postgres.go:77-79 | the query returns exactly the stored pages whose user_name is the requested one |
| Table.ExistsWhere | storage/postgres/postgres.go:119-124 | the EXISTS query is true exactly when the (url, user_name) pair is stored |
| Postgres.Save | storage/postgres/postgres.go:57-72 | with the database up, Save returns nil and the pair is stored afterwards alongside every pair stored before; an already stored pair leaves the table unchanged; a database failure returns the wrapped error and changes nothing; the UNIQUE constraint is kept |
| Postgres.PickRandom | storage/postgres/postgres.go:74-94 | PickRandom never changes the table; a returned page is stored and belongs to the requested user; with the database up it fails with ErrNoSavedPages exactly when the user has no pages and succeeds otherwise |
| Postgres.Remove | storage/postgres/postgres.go:96-114 | removing a stored pair returns nil and takes exactly that pair out, one row under the UNIQUE constraint; removing a pair that is not stored returns ErrURLNotFound and leaves the table unchanged; a database failure changes nothing |
| Postgres.IsExists | storage/postgres/postgres.go:116-133 | IsExists answers whether the exact pair is stored and never changes the table |
| Postgres.Init | storage/postgres/postgres.go:135-143 | Init always returns nil and leaves the table as it was |
| Postgres.SaveIdempotent | storage/postgres/postgres.go:60-64 | saving a pair twice leaves the same table as saving it once |
| Postgres.SaveThenRemove | storage/postgres/postgres.go:96-114 | Remove undoes the Save of a new pair and returns nil, leaving the original table row for row |
| Postgres.RemoveThenSave | storage/postgres/postgres.go:57-72 | Save restores the stored pairs after the Remove of a stored pair |
| Postgres.RemoveFrame | storage/postgres/postgres.go:99-102 | after Remove, IsExists of the removed pair is false, and every other pair, including the same URL under another user, is stored exactly when it was before |
| Postgres.PickRandomReachesEveryPage | storage/postgres/postgres.go:77-82 | every stored page of a user is the answer to PickRandom for some random choice |
| Postgres.InitIdempotent | storage/postgres/postgres.go:135-143 | calling Init twice is the same as calling it once |
| History.ExecRefines | storage/postgres/postgres.go:57-133 | every single call changes the stored pairs as the set-level store does, and Remove, IsExists and PickRandom answer as the set-level store allows |
| History.RunRefines | storage/postgres/postgres.go:57-143 | after any history of calls the table holds exactly the pairs the set-level store holds after the same history |
| History.RunKeepsUnique | storage/postgres/postgres.go:35-41 | no history of calls breaks the UNIQUE constraint, so every pair occupies at most one row |
| History.RunStoresOnlySaved | storage/postgres/postgres.go:57-72 | every pair stored after a history was stored before it or was asked to be saved by one of its calls |

## Left out

- Opening and closing the store (`New`, `Close`, storage/postgres/postgres.go:20-55) is connection handling. This covers the connection pool, `Ping` and the `CREATE TABLE` / `CREATE INDEX` statements. Only the table's UNIQUE constraint is carried into the model, and the model starts from whatever table these produce.
- The columns `id` and `created_at` and the two indexes are never read by any operation, so rows carry only `url` and `user_name`. The `id` column does limit `Save`, though, as the next line says.
- Postgres.Save: the `id SERIAL` sequence (storage/postgres/postgres.go:36) is not modelled. It is a 32-bit counter that stops at 2147483647. Every Save takes one value from it, including a Save whose pair is already stored, because `INSERT … ON CONFLICT DO NOTHING` takes the value before it checks for the conflict. Once the sequence runs out, every Save fails with the wrapped error and stores nothing, even the repeat of a stored pair. The model can express that failure only as `conn == Down`. So the `conn == Up` contract of `Postgres.Save` and `Postgres.SaveIdempotent` set no limit on the number of saves.
- A database failure is the `conn == Down` case. It returns `DbFailure(op)` and leaves the table unchanged. The driver's error value and the message format of `e.Wrap` are not modelled: the `readbot/lib/e` package is not part of this model. Nor is a failure reported after the statement has already taken effect.
- Postgres.IsExists: on a database failure the source returns `false` together with the error; the model returns only the error.
- Postgres.PickRandom: the uniform distribution of `ORDER BY RANDOM()` is a probabilistic property and is not stated. The random choice is the `choice` parameter, and `Postgres.PickRandomReachesEveryPage` shows that no stored page is out of its reach.
- `context.Context` arguments and cancellation are left out: the model has no time and no concurrency.
- The `readbot/storage` package, which defines `Page`, `ErrNoSavedPages` and `ErrURLNotFound`, is not part of this model. Its types are reconstructed only from their use in storage/postgres/postgres.go.
- PostgreSQL text semantics are not modelled. URL and user-name comparison is exact string equality. A `TEXT` value cannot hold a NUL character or bytes that are not valid in the database encoding, and PostgreSQL rejects a statement carrying one. The `conn == Up` contracts of `Postgres.Save`, `Postgres.Remove`, `Postgres.IsExists` and `Postgres.PickRandom` still promise success for such values. For them the caller must pass `conn == Down`, which gives the source's wrapped-error result.
- A page is a value in the model. `Save`, `Remove` and `IsExists` take a `*storage.Page` pointer and read its fields (storage/postgres/postgres.go:66, 104 and 127), so a nil page panics there. That panic is not modelled.
- Strings are sequences of Unicode characters in the model. Go strings are bytes, so a URL or user name that is not valid UTF-8 cannot be written down in the model.
- main.go (flag and environment parsing, wiring, `batchSize = 100`) is process bootstrap. The event consumer, the Telegram event processor and the Telegram client it wires together are not part of this model, so their fetch/process loop, command classification and replies are not modelled.
