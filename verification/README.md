# Item repository model

A Dafny model of the data-access layer of a small item-management web
service (Rust, axum + sqlx over PostgreSQL). The layer is the CRUD
repository over the `items` table (`src/db.rs`) and the three record shapes
it exchanges with its callers (`src/models.rs`).

The `items` table is a finite map from `id` to the rest of the row. Each
repository call (`list_items`, `get_item`, `create_item`, `update_item`,
`delete_item`) is a pure transition. It takes the table and returns a
`Step`: the call's `Result` plus the table afterwards. The rules the Rust
code applies around its SQL are written as pure functions:

- `ResolveCreate` models the creation defaults.
- `Merge` models the field-by-field partial update.

The store operations are built from them.

Files:

- `wrappers.dfy`: `Option` (with Rust's `unwrap_or` and `or`) and `Result`.
- `models.dfy`: `Item`, `CreateItem` and `UpdateItem`. The types carry which
  fields are optional. Every `Item` has an `id`, `name`, `quantity`, `price`
  and `createdAt`, and only `description` is an `Option`. Since `None` and
  `Some("")` are different values, an absent description is not empty text.
  `CreateItem` requires a `name` and nothing else. Every field of
  `UpdateItem` is optional, so the all-`None` update (`NoChanges`) is a
  valid input. Neither input type has an `id` or `createdAt` field, so a
  caller can never set them.
- `ordering.dfy`: strictly ascending id sequences. This is how `ORDER BY id`
  lays out rows keyed by a primary key.
- `db.dfy`: the table (`Store`), the error kinds, the pure rules and the
  five operations.
- `properties.dfy`: lemmas that relate several calls.

Modelling choices:

- The row's columns other than `id` are held as `Row(values, createdAt)`.
  `Values` are the four parameters `$1..$4` that both the INSERT and the
  UPDATE bind.
- `Item` is what a `SELECT`/`RETURNING` of all columns yields (`ItemOf`).
- `id` and `quantity` are 32-bit (`Int32`), as `i32` is in the source.
- The store assigns `id` and `created_at` on insert, so both are parameters
  of `Create`. The model requires the id to be free. The table schema is
  not part of this model, so freshness is an assumption, not a promise of
  the code.
- A store that fails is the `Link` parameter. With `Down(cause)`, the
  call's first query fails, and the call returns `Err(Sqlx(cause))` and
  leaves the table unchanged. That is what `?` does with an sqlx error.

## Model

| member | source | states |
|---|---|---|
| Db.ItemOf | src/db.rs:46 | the record read back for a row carries the key as its id, the row's timestamp and exactly the stored column values |
| Wrappers.Option.GetOr | src/db.rs:58-59 | Rust's `unwrap_or`: a present value is returned, an absent one gives the default |
| Wrappers.Option.Or | src/db.rs:81 | Rust's `or`: a present option wins, an absent one falls back to the other, and the result is present when either is |
| Db.ResolveCreate | src/db.rs:57-59 | an omitted quantity or price becomes 0, a supplied one is kept; name and description are inserted verbatim, so an omitted description stays absent |
| Db.Merge | src/db.rs:80-83 | each of name, description, quantity, price is replaced when the update supplies it and kept otherwise; a present description can never become absent |
| Db.List | src/db.rs:30-41 | on a healthy store returns every row exactly once as a full record in strictly ascending id order (an empty table gives an empty list); the table is unchanged; fails only when the store fails, and then with the store's own error |
| Db.Get | src/db.rs:43-55 | returns None exactly when no row has the id, and otherwise the stored record with that id; not-found is a successful answer; the table is unchanged |
| Db.Create | src/db.rs:57-76 | the returned record carries the assigned id and timestamp and the defaulted values, and it is now stored under that id; no other row changes; on a store failure the table is unchanged |
| Db.Update | src/db.rs:78-105 | a missing id answers None and writes nothing; otherwise the returned record has the merged values with the same id and created_at, it is what is now stored, and every other row is untouched |
| Db.Delete | src/db.rs:107-113 | answers true exactly when the id was present; afterwards that id is gone and every other row is unchanged; a missing id is false, not an error |
| Ordering.Insert | src/db.rs:35 | inserting a new id into an ascending sequence keeps it ascending and adds exactly that id |
| Ordering.SortKeys | src/db.rs:35 | produces every key exactly once, in strictly ascending order |
| Ordering.AscendingUnique | src/db.rs:35 | two ascending id sequences with the same elements are equal, so `ORDER BY id` fixes the order |
| Properties.ListingUnique | src/db.rs:30-40 | a table has exactly one listing, so `List` returns a deterministic answer |
| Properties.ListingAgreesWithGet | src/db.rs:30-54 | a record is in the listing exactly when `Get` of its id returns it |
| Properties.CreateThenGet | src/db.rs:43-75 | round trip: `Get` of a created id returns the record `Create` returned |
| Properties.CreateThenDelete | src/db.rs:57-112 | deleting a just-created id answers true and restores the table exactly |
| Properties.UpdateThenGet | src/db.rs:43-101 | `Get` after an update returns what the update returned |
| Properties.UpdateWithNoChanges | src/db.rs:79-97 | the all-None update returns the existing record and leaves the table as it was |
| Properties.UpdatePriceOnly | src/db.rs:80-96 | an update that supplies only a price returns the existing record with just the price replaced |
| Properties.UpdateKeepsDescription | src/db.rs:81 | no update can turn a present description into an absent one |
| Properties.UpdateTwice | src/db.rs:79-101 | applying the same update twice gives the same result and table as applying it once |
| Properties.UpdateCompose | src/db.rs:80-97 | two successive updates of a row equal one update whose fields come from the later one, falling back to the earlier one |
| Properties.DeleteThenGet | src/db.rs:107-112 | after a delete `Get` finds nothing under the id, and deleting again answers false and changes nothing |
| Properties.FailureChangesNothing | src/db.rs:43-112 | a failing store makes get, create, update and delete answer with the store error and leave the table unchanged |
| Properties.WidgetScenario | src/db.rs:57-112 | create Widget (quantity 5, price 9.99) has no description; raising the price to 12.50 keeps everything else; delete answers true, after which get finds nothing and the table is as before |

## Left out

- `get_db_pool` (src/db.rs:17-27) is left out. It covers loading `.env`, reading `DATABASE_URL` and opening a pool of at most 5 connections, all of which is configuration and foreign library calls. `EnvVar` exists in `DbError` only to mirror the error enum.
- `src/main.rs` is not part of this model. It holds the HTTP routing, template rendering, form parsing and server start-up.
- The SQL text and the sqlx calls are not modelled. `fetch_all`, `fetch_optional`, `fetch_one` and `execute` become map reads and writes.
- The price is an integer number of hundredths, not an `f64`. Only default, replace and keep matter here. The read-side cast `price::double precision` is floating point and is not modelled.
- Db.Create: a supplied price is assumed to be whole hundredths already. In the source a supplied `f64` price is written into a two-decimal column (per the comment at src/models.rs:10), so the stored and returned price is the rounded value, and `Some(9.999)` would come back as `10.0`. That rounding on write is not modelled, and neither is any range limit on the price column.
- Db.Update: for the same reason, a supplied price is stored and returned as given rather than rounded to two decimals.
- Properties.UpdatePriceOnly: for the same reason, it returns the supplied price unchanged rather than its two-decimal rounding.
- `created_at` is an integer instant supplied by the caller of `Create`, not a UTC clock reading.
- Concurrency is left out, including the race between the read and the write inside `update_item` when two updates hit the same id. The model is single-threaded.
- Store failures are reduced to one opaque cause per call: a failing store fails the call's first query. Failures of the second query of `update_item` are not modelled separately. They would also leave the table unchanged and return the error.
