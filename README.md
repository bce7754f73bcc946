# Car collection batch writes, modelled in Dafny

This project models the transactional batch-write core of the web API's entity
collections: the `car` collection's `get`, `add`, `modify` and `remove`
(`src/webapi/collections/car.rs`, postgres build) and the older `get`, `add`,
`update` and `delete` in `src/webapi/collections.rs`, which run the same
statements in the same order. It also models the `ExpHelper` that renders id
lists into `IN (...)` clauses, and the error-name map that `DataProvider::new`
builds at startup.

The database is a class, `Database.CarTable`. It holds the `car` rows
(id → car_name), the `serial` sequence that hands out ids, and one open
transaction, which keeps the rows it started from. Rollback, or a failed
commit, restores those rows. The sequence is not transactional, as in
PostgreSQL, so ids drawn in a rolled-back batch stay used. The caller chooses
which round trips fail through a `Cars.Faults` value: `begin`, a statement by
its position in the transaction, `commit`, `rollback`, and for a failing insert
whether it failed before or after drawing its id. Besides these, the
table fails an insert once the `integer` sequence passes 2147483647, and it
fails any statement text it cannot read. The table reads statements with
`SqlReader`, so the ids the database acts on are the ones `ExpHelper` wrote:
`SqlReader.InStatementRoundTrip` proves that.

An operation ends in one of three ways (`Cars.Completion`):

- `Done(reply)` when it returns `Ok(...)`;
- `Raised` when `?` passes up an `Err` from `begin` or `rollback`;
- `Panicked` for the `.unwrap()` on `rollback` in `add`.

The `CarScenario` module contains a client. Using only the contracts, it adds
two cars. It then has a batch whose second row is rejected leave the rows
unchanged while both ids the batch drew stay used. It renames one car,
has a batch with an unknown id turned away without effect, has a list with a
repeated id refused, and removes both cars.

Where the intended behaviour of the service and its code disagree, the model follows the code:

- The service is meant to turn database failures into error codes, so that failures never reach the caller as raw errors. The
  code propagates a failing `begin`, and a failing `rollback` in
  `modify`/`remove`/`update`/`delete`, with `?`. It panics on a failing
  `rollback` in `add`.
- Callers are expected to pass a non-empty id list. The code also accepts an
  empty one. The `ExpHelper` of `src/webapi/collections.rs:38-62` renders it as
  `... WHERE id IN ()`, which is not valid SQL. So the older `delete([])`
  (`src/webapi/collections.rs:310-343`) replies `ReplyErrorDatabase` (or
  raises, if the rollback fails), and the older `get(Some([]))`
  (`src/webapi/collections.rs:209-215`) raises. `car.rs` builds its statements
  with `connectors::ExpHelper`, which is not part of this model. The model
  assumes it renders lists the same way, so `remove([])` and `get(Some([]))`
  behave the same there.
- An accepted `modify` is meant to have updated every id exactly once. The
  count check only requires every item's id to be present. A batch that names
  one id twice is accepted, and the last name wins (`Cars.RenamedNames`).

## Model

| member | source | states |
|---|---|---|
| `ExpHelper.NatToDecimal` | src/webapi/collections.rs:44 | the rendering of a natural number is a non-empty run of digits with no leading zero |
| `ExpHelper.IntToDecimal` | src/webapi/collections.rs:44 | `to_string` of an id is non-empty, starts with `-` exactly for negative ids, and otherwise holds only digits, so it ends in a digit and has no comma |
| `ExpHelper.GetIdsAsExp` | src/webapi/collections.rs:38-47 | the buffer built by the loop, which puts a comma before all but the first rendering, is the ordered comma-joined list of the renderings |
| `ExpHelper.SelectInExp` | src/webapi/collections.rs:49-55 | the SELECT text is `SELECT * FROM <table> WHERE id IN (<list>)` around the list of `get_ids_as_exp` |
| `ExpHelper.DeleteInExp` | src/webapi/collections.rs:56-62 | the DELETE text is `DELETE FROM <table> WHERE id IN (<list>)` around the same list |
| `ExpHelper.JoinIdsCommas` | src/webapi/collections.rs:40-45 | a list of n ≥ 1 ids renders with exactly n − 1 commas |
| `ExpHelper.JoinIdsEnds` | src/webapi/collections.rs:41-44 | the rendering is empty exactly for no ids; otherwise it starts with a sign or a digit and ends with a digit, never with a comma |
| `SqlReader.ReadIntRoundTrip` | src/webapi/collections.rs:44 | reading back the rendering of any integer gives that integer |
| `SqlReader.ReadIdsRoundTrip` | src/webapi/collections.rs:38-47 | reading back the rendered list of any non-empty id list gives the same ids in the same order |
| `SqlReader.InStatementRoundTrip` | src/webapi/collections.rs:49-62 | the server reads a built statement as exactly the table and ids it was built from; a statement built from no ids is unreadable |
| `Database.Scan` | src/webapi/collections/car.rs:33-35 | a fetch yields every requested row exactly once, in an order the server chooses |
| `Database.CarTable.Begin` | src/webapi/collections/car.rs:65 | `begin` opens a transaction that remembers the current rows, or fails and changes nothing |
| `Database.CarTable.InsertReturningId` | src/webapi/collections.rs:232-239 | an insert draws the next sequence value as a fresh id and adds the row; it fails without adding a row when told to or when the sequence is past the `i32` range; a failure after the `serial` default was evaluated (a rejected row) has used up that sequence value, any other failure has not |
| `Database.CarTable.UpdateName` | src/webapi/collections/car.rs:127-135 | an update by id affects 1 row and renames it if the id is present, affects 0 rows otherwise, or fails without change |
| `Database.CarTable.ExecuteDelete` | src/webapi/collections/car.rs:180-184 | the delete removes the present rows among the ids it reads from the text and reports how many; an unreadable text is an error (a text naming another table is one too, because the model holds only the `car` table) |
| `Database.CarTable.Commit` | src/webapi/collections.rs:250-259 | a commit keeps the transaction's rows, and a commit the server refuses leaves the rows as they were at `begin` |
| `Database.CarTable.Rollback` | src/webapi/collections/car.rs:195-197 | a rollback, whether or not it reports an error, restores the rows as they were at `begin` |
| `Database.CarTable.FetchAll` | src/webapi/collections/car.rs:31-36 | `SELECT id,car_name` lists every committed row once, or fails; it reads through the pool, outside any transaction |
| `Database.CarTable.FetchIn` | src/webapi/collections/car.rs:38-44 | the `IN` select lists once each row whose id is in the text's list, or fails on failure or an unreadable text (or a text naming another table, because the model holds only the `car` table) |
| `ErrorNames.LoadErrorNames` | src/webapi/collections.rs:93-107 | the map holds exactly the loaded ids, each bound to the name of the last row carrying it; a failed load gives the empty map and construction still succeeds |
| `Cars.CopyCars` | src/webapi/collections/car.rs:45-51 | the loop pushes exactly one car per fetched record, in fetch order, with the record's id and name |
| `Cars.ListsAsCars` | src/webapi/collections/car.rs:45-51 | copying fetched records into cars column by column keeps the listing: every selected row once, with its id |
| `Cars.ListsCarsCount` | src/webapi/collections.rs:200-225 | a listing has exactly one entry per selected row, so no row appears twice |
| `Cars.CarCollection.Get` | src/webapi/collections/car.rs:26-54 | `get(None)` lists every committed row and `get(Some(ids))` only the rows whose id is listed, each once, missing ids left out; a failed fetch or an empty list raises |
| `Cars.Inserted` | src/webapi/collections/car.rs:66-81 | the number of inserts that run before the first failing one: every earlier insert succeeds, and the one at that position fails, because it is told to or the sequence has passed the `i32` range; it equals the batch size exactly when every insert succeeds |
| `Cars.Drawn` | src/webapi/collections/car.rs:66-81 | a batch uses up at most one sequence value per item, at least one per row it inserted, and never moves a sequence that was within the `i32` range past its end |
| `Cars.CarCollection.Add` | src/webapi/collections/car.rs:56-116 | success exactly when begin, every insert and commit succeed; it then returns one fresh id per item in input order and the table gains exactly those rows; otherwise the rows are unchanged, with `DatabaseError`, or a panic when the rollback fails, or a raise when begin fails; the sequence stays put when begin fails and otherwise advances by exactly the values the batch used up (`Cars.Drawn`), so the ids a failed batch drew stay used and the items after a failing insert are not tried |
| `Cars.MatchedAllPresent` | src/webapi/collections/car.rs:124-159 | the summed affected-row count never exceeds the item count and equals it exactly when every item's id is present |
| `Cars.MissingIdNeverPresent` | src/webapi/collections/car.rs:130 | an item without an id is updated as id 0, which no `serial` id equals, so its batch is never accepted |
| `Cars.Renamed` | src/webapi/collections/car.rs:127-135 | updates by id never add or remove rows |
| `Cars.RenamedNames` | src/webapi/collections.rs:267-276 | after the in-order updates, each id holds the name of the last item naming it, and unnamed rows keep their names |
| `Cars.CarCollection.Modify` | src/webapi/collections/car.rs:118-172 | `ReplyOk` exactly when no round trip fails and every item's id is present, and then the rows are renamed in order; a missing id gives `NotFoundError`, a failing update or commit gives `DatabaseError`, a failing begin or rollback raises, and in all those cases the rows are unchanged |
| `Cars.IdSetSize` | src/webapi/collections.rs:315 | a list of ids has as many distinct ids as entries exactly when none repeats |
| `Cars.DeleteCountExact` | src/webapi/collections.rs:307-344 | `WHERE id IN (ids)` deletes exactly `len(ids)` rows exactly when the ids are distinct and all present |
| `Cars.CarCollection.Remove` | src/webapi/collections/car.rs:174-206 | `ReplyOk` exactly when no round trip fails, the list is non-empty, distinct and all present, and then exactly the listed rows are gone; a repeated or missing id gives `NotFoundError`, a failing or unreadable delete or a failing commit gives `DatabaseError`, a failing begin or rollback raises, and otherwise the rows are unchanged |

## Left out

- The older `add`, `update` and `delete` in `src/webapi/collections.rs:227-344` are not separate members. They issue the same statements, in the same order and under the same checks, as `add`, `modify` and `remove` in `car.rs`, so `Cars.CarCollection.Add`, `Modify` and `Remove` model both. Those older versions name the codes `ReplyErrorDatabase` and `ReplyErrorNotFound`.
- The `Reply`/`AddReply` records, the `get_ok_reply!`/`get_error_reply!`/`get_error_add_reply!` macros, and resolving a code's display name in the error map are not part of this model. The macro bodies and the numeric values of `errors::ErrorCode` are not part of this model. The model stops at the code and the id list.
- `connectors::ExpHelper` (`get_select_int_exp`, `get_delete_int_exp`), which `car.rs` calls, is not part of this model. The `car.rs` operations are modelled with the `ExpHelper` of `collections.rs`, with the column fixed to `id`.
- `UsrCollection::get` and `ErrorCollection::_get` are not modelled separately. They are `CarCollection::get` with other tables and columns.
- `SubscriptionCollection` is left out: its methods return constants and touch no storage.
- The MySQL build (`feature = "mysql"`, with `LAST_INSERT_ID` in `add`) is left out: it is a second backend variant. Only the postgres path is modelled.
- sqlx, the pool, async execution, logging and serde are replaced by the table class and the fault input. `PgPool::new(...).unwrap()` in `DataProvider::new`, which panics if the database cannot be reached, is process bootstrap and is left out.
- Why a real server fails a statement (constraint violations, lost connections) is not modelled. Failures are an input. The only failures the table produces itself are an exhausted sequence and unreadable statement text.
- The reader in `SqlReader` accepts exactly the statement shapes the builder writes. It is not a SQL parser: whitespace, `+` signs and other forms the server would also take are not modelled.
- `usize::try_from(count).unwrap()` is not modelled as a possible panic. On the 64-bit targets the service runs on it cannot fail, and the count never exceeds the number of items.
- Cars.MissingIdNeverPresent: assumes every row id was drawn from the `serial` sequence, so it lies between 1 and the sequence's next value, as `Database.CarTable.Valid` requires. Rows inserted with explicit ids (0, negative, or above the sequence) are not modelled. With a row of id 0 present, the source would rename that row for an item without an id and could accept the batch. The last `ensures` of `Cars.CarCollection.Modify` rests on the same assumption.
- `Database.CarTable.ExecuteDelete` and `Database.CarTable.FetchIn` refuse a statement that names a table other than the model's one. A server would run it against that table. The model holds one table, and the collections only ever name their own.
- Database.CarTable.Commit: a failed commit stands for one the server refused, so the transaction's work is gone. A commit whose acknowledgement is lost after the server committed is not modelled: the client then sees `Err` while the changes persist. The `ensures` of `Cars.CarCollection.Add`, `Modify` and `Remove` that keep the rows unchanged after a failed commit rest on this.
- Concurrent requests and transaction isolation are not modelled: the table has one transaction at a time.
- The row order of a fetch is left unspecified (`Database.Scan` picks rows in any order), as the server does not guarantee one.
- `EntityFramework::new` and the HTTP handlers that call the collections are left out: they only wire the collections together.
