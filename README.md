# Handbook catalog reconciliation, modelled in Dafny

The `cs_handbook` tool scrapes a university course handbook into a `Handbook`
value. The value holds the majors, each with its list of unit names, plus the
core units and the elective units. The tool then writes the handbook into a
SQLite database with two tables. `majors` has the single column `title`.
`units` has `name` (the only primary key), `type` (`major`, `core` or
`elective`) and a nullable `major_title`.

This project models the database layer, `cs_handbook/src/db.rs`:

- `create_tables_if_not_exists`;
- the three data statements: insert a major if absent, upsert a unit by
  name, delete the stale rows of a scope;
- `update_units`, which upserts a list of units under one
  (major title, type) scope and then prunes that scope;
- `update_handbook`, which runs everything inside one transaction.

Files:

- `wrappers.dfy`: `Option`, which stands for a nullable column.
- `models.dfy`: `Unit`, `Major` and `Handbook`, as in `models.rs`.
- `statements.dfy`: the rows of `units` and each SQL statement as a pure
  transformer of the table it writes. Also the whole effect of one
  `update_units` (`SyncUnits`), with its guard and the SQL NULL comparison
  spelled out.
- `reconcile.dfy`: the committed effect of `update_handbook` as a function
  (`Reconcile`). It also gives an independent, order-free description of the
  final row of every unit name (`FinalRow`) and proves the fold equal to it.
  From that it derives idempotence, survival of listed names and electives,
  the empty-list fail-safe, and a worked two-scrape scenario.
- `store.dfy`: the database as a class `Store`. Its fields are the two tables
  and whether each exists. Its methods mirror the Rust functions loop for
  loop, with `modifies` frames. On success each one is proved to change the
  tables exactly as the functions of `statements.dfy` and `reconcile.dfy`
  say. On failure only `UpdateHandbook`, which owns the transaction, states
  the tables: they are exactly as before.

Storage failures are an input. The `Exec*` methods, one per statement, take
`fails: bool`, which says whether that statement fails. The methods that run
several statements take `fault: Option<nat>`: the position, in execution
order, of the statement that fails, or `None`. A statement on a table that
does not exist also fails. `UpdateHandbook` saves the tables after `BEGIN`
and restores them on every early return. That is the rollback the source gets
from dropping an uncommitted `sqlx` transaction. So every run either commits
the full reconciliation or leaves both tables as they were.

Behaviour the model follows from the code:

- **Key.** `units` is keyed by `name` alone (cs_handbook/src/db.rs:16), so a
  unit has one row whatever its major or type. A name listed under two
  majors, or under a major and the cores, ends with the scope of the last call
  that listed it. Electives are written last and win over cores; cores win
  over majors.
- **Upsert.** On a name conflict the unit statement overwrites `type` and
  `major_title` with the new values (cs_handbook/src/db.rs:25-27). It is not
  insert-if-absent; only the majors statement is (cs_handbook/src/db.rs:22-23).
- **Prune guard.** The DELETE runs only for a non-empty list whose type is not
  `elective` (cs_handbook/src/db.rs:80). An empty list never deletes anything,
  and the elective update never deletes anything.
- **NULL comparison.** The DELETE tests `major_title = ?`
  (cs_handbook/src/db.rs:30). The core update binds NULL there
  (cs_handbook/src/db.rs:52), and under SQL's three-valued logic that test
  never selects a row. So the core update prunes nothing, even for a
  non-empty list (`CorePruneIsNoOp`).
- **Duplicate titles.** When two majors share a title, a later non-empty list
  under that title prunes the names listed only by the earlier one. `FinalRow`
  states this case exactly.

## Model

| member | source | states |
|---|---|---|
| `Statements.InsertMajor` | cs_handbook/src/db.rs:22-23 | Insert-if-absent: the title is present afterwards, every stored title is kept, and no other title appears. |
| `Statements.UpsertUnit` | cs_handbook/src/db.rs:25-27 | The stored names are the old ones plus the upserted name. That name's row is (type, major_title) whatever it held before. Every other row is unchanged. |
| `Statements.DeleteStale` | cs_handbook/src/db.rs:29-30 | Only rows whose `major_title` equals the bound title under SQL `=` (NULL never equal), whose type equals the bound type and whose name is not in the kept list are removed. Kept names and rows outside the scope stay, unchanged. |
| `Statements.UpsertAll` | cs_handbook/src/db.rs:69-75 | After upserting a list, every listed name maps to (type, major_title) whatever row it had before. Every other row is unchanged. No other names appear. |
| `Statements.SyncUnits` | cs_handbook/src/db.rs:60-90 | A successful `update_units`: listed names end with the bound row; an unlisted row disappears exactly when the guard holds (non-empty, not elective) and the row is in the bound scope. An empty list, the elective type or a NULL title deletes nothing. For a pruned scope with a title, the names stored with that scope afterwards are exactly the listed ones. |
| `Statements.CorePruneIsNoOp` | cs_handbook/src/db.rs:80-86 | With the major title bound to NULL (the core call), the update is its upserts alone: the DELETE removes no row even for a non-empty list. |
| `Reconciliation.InsertMajors` | cs_handbook/src/db.rs:43-47 | The inserts of the majors loop keep every stored title and add the title of every major of the handbook. |
| `Reconciliation.InsertMajorsAddsTitles` | cs_handbook/src/db.rs:43-47 | After the majors loop the `majors` table is exactly its old titles plus every title of the handbook. No title is lost. |
| `Reconciliation.MajorsUnits` | cs_handbook/src/db.rs:43-50 | After the unit updates of the majors loop, every stored name was stored before or is listed by some major. An unlisted row whose type is not `major` is kept unchanged, since every prune of the loop is bound to the `major` type. |
| `Reconciliation.MajorsRow` | cs_handbook/src/db.rs:43-50 | Order-free description of a name's row after the majors loop. A listed name, if stored, has a `major` row whose title is one of the handbook's titles. An unlisted name, if stored, keeps its old row, and an unlisted non-major row is always kept. |
| `Reconciliation.MajorsUnitsRow` | cs_handbook/src/db.rs:43-50 | The majors loop, statement by statement, agrees for every name with `MajorsRow`. A listed name carries the title of the last major listing it, unless a later major with the same title and a non-empty list prunes it. An unlisted name keeps its row unless that row is a major unit of a title some non-empty major list prunes. |
| `Reconciliation.ReconcileUnits` | cs_handbook/src/db.rs:43-53 | After all unit updates of a run, every elective name holds ("elective", NULL), every core name is stored, and every stored name was stored before or is listed by the handbook. |
| `Reconciliation.Reconcile` | cs_handbook/src/db.rs:40-58 | The committed effect of a run: the `majors` table becomes its old titles plus the handbook's titles, and `units` becomes `ReconcileUnits` of the old table. |
| `Reconciliation.FinalRow` | cs_handbook/src/db.rs:43-53 | Order-free description of a name's final row: every core and elective name has a row, a row with a NULL title for a name not stored before comes from the core or elective list, and every row comes from the old table or a list of the handbook. |
| `Reconciliation.ReconcileUnitsRow` | cs_handbook/src/db.rs:43-53 | After a whole run, an elective name holds ("elective", NULL), else a core name holds ("core", NULL), else the majors closed form applies: the last call listing a name decides its row. |
| `Reconciliation.RunSucceedsInTurn` | cs_handbook/src/db.rs:40-58 | A run commits exactly when BEGIN succeeds, then all writes succeed, then COMMIT succeeds. |
| `Reconciliation.WritesSucceedInTurn` | cs_handbook/src/db.rs:43-53 | The writes succeed exactly when the majors loop, then the core update, then the elective update succeed, each with the failure plan counted from its own first statement. |
| `Reconciliation.FinalRowIdempotent` | cs_handbook/src/db.rs:43-53 | The final row of every name after a second run over the first run's result equals its final row after the first run. |
| `Reconciliation.ReconcileIdempotent` | cs_handbook/src/db.rs:40-58 | Running `update_handbook` twice with the same handbook leaves both tables as one run does. |
| `Reconciliation.ListedNamesStored` | cs_handbook/src/db.rs:49-53 | Every core and elective name of the handbook is stored afterwards. When the majors' titles are distinct, so is every name listed under a major. |
| `Reconciliation.ElectiveRowsSurvive` | cs_handbook/src/db.rs:80-86 | A stored elective row whose name no major lists is still present after a run, whether or not the new handbook lists it. |
| `Reconciliation.EmptyListsKeepUnits` | cs_handbook/src/db.rs:80 | When every list of the handbook is empty, the `units` table is unchanged: an empty list never triggers a scope-wide delete. |
| `Reconciliation.TwoScrapesScenario` | cs_handbook/src/db.rs:40-58 | Reconciling {CS: [Algo101]}, cores [Math101], electives [Art101] into an empty database gives majors {CS} and the three expected rows. A second run whose core list is empty leaves all of them in place. |
| `Db.Store.CreateTablesIfNotExists` | cs_handbook/src/db.rs:33-38 | It succeeds unless one of its two statements fails; a failure of the first skips the second. A table exists afterwards if it did before or its statement ran. The contents of both tables never change, so repeating the call is harmless. |
| `Db.Store.ExecInsertMajor` | cs_handbook/src/db.rs:22-23 | Fails without a `majors` table or on a storage failure. Otherwise it adds the title, and an existing title is left as it is. |
| `Db.Store.ExecUpsertUnit` | cs_handbook/src/db.rs:25-27 | Fails without a `units` table or on a storage failure. Otherwise the name's row becomes (type, major_title), replacing any earlier row. |
| `Db.Store.ExecDeleteStale` | cs_handbook/src/db.rs:81-86 | Fails without a `units` table or on a storage failure. Otherwise the table becomes `DeleteStale` of the old one, for names free of single quotes. |
| `Db.Store.UpsertUnits` | cs_handbook/src/db.rs:66-78 | The upsert loop succeeds exactly when the table exists (or the list is empty) and none of its upserts fails. It then has collected every name, in order, and the table equals `UpsertAll` of the old one. |
| `Db.Store.UpdateUnits` | cs_handbook/src/db.rs:60-90 | Succeeds exactly when the table exists (or nothing is written) and none of its upserts, nor the guarded DELETE, fails. On success the table equals `SyncUnits` of the old table. |
| `Db.Store.UpdateMajor` | cs_handbook/src/db.rs:44-49 | One pass of the majors loop. It succeeds exactly when the insert and the major's unit update succeed, and then it adds the title and applies `SyncUnits` under that title. |
| `Db.Store.UpdateMajors` | cs_handbook/src/db.rs:43-50 | The majors loop. It succeeds exactly when the tables it needs exist and no statement in it fails; the tables then equal `InsertMajors` and `MajorsUnits` of the old ones. |
| `Db.Store.WriteHandbook` | cs_handbook/src/db.rs:43-53 | The writes between BEGIN and COMMIT. They succeed exactly when every statement finds its table and none fails, and the tables then equal `Reconcile` of the old ones. |
| `Db.Store.Rollback` | cs_handbook/src/db.rs:41-55 | Dropping the uncommitted transaction restores both tables to what they held after `BEGIN`. |
| `Db.Store.UpdateHandbook` | cs_handbook/src/db.rs:40-58 | All or nothing. It commits exactly when every statement finds its table and no statement from `BEGIN` to `COMMIT` fails, and the tables then equal `Reconcile` of the old ones. Otherwise both tables are exactly as before. |

## Left out

- The scraper (`cs_handbook/src/scraper.rs`): HTTP fetching and HTML selection. `Handbook` is an arbitrary input value.
- Process orchestration in `cs_handbook/src/main.rs`, and the whole `server` crate (routing, JSON, HTTP responses, error display). These are I/O and plumbing.
- `get_db_pool` and `get_units_by_major`: they are called but their bodies are not part of this model. So the lookup / filter query builder is not modelled.
- SQL text construction: the NOT IN list is modelled as the list of names. The methods that build a DELETE require that no name in a major or core list holds a single quote. With such a name the source's statement would fail to parse, or would mean something else; that is not modelled.
- Foreign-key checks on `units.major_title` (cs_handbook/src/db.rs:19-20) are not modelled. No modelled statement could violate the reference: each major's title is inserted before any unit names it, core and elective rows hold NULL, and nothing deletes a major. `Store.Valid` also keeps the `units` table from existing without the `majors` table, since `CreateTablesIfNotExists` creates `majors` first.
- Connection pooling, async scheduling and concurrent writers.
- Storage failures are modelled only as "this statement fails". Their causes and error values are not modelled.
- `lazy_static` globals are plain constants.
- Db.Store.UpdateUnits: on failure the contract says nothing about the partially updated table. The only caller rolls the transaction back, and `UpdateHandbook` states the rolled-back state.
- Db.Store.UpsertUnits, Db.Store.UpdateMajor, Db.Store.UpdateMajors, Db.Store.WriteHandbook: on failure the contracts say nothing about the partially updated tables, for the same reason: the failure reaches `UpdateHandbook`, which rolls back and states the result.
