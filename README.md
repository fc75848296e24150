# banana: the table engine, modelled in Dafny

banana keeps what it learns about a git history in an SQLite file: one
table of commits, one of patch identifiers and one of `Fixes:` references.
All three are driven by the same small engine, `BaseTable`. A table is
described by a name, its data columns and its unique columns. The engine
creates the table, tells whether it exists, inserts a row and reads rows back.

An insert goes through these steps:
1. It checks every keyword argument. The key must be a column of the table.
   A key ending in `_id` must hold a commit identifier. In the model that
   is exactly 40 lowercase hexadecimal digits. `RE_ID` as written also
   lets a trailing newline through (see Findings).
2. It refuses a row whose unique columns equal those of a stored row.
3. It stamps a fresh `id`, a `created_at` time and an equal `updated_at` time.
4. It appends the values in declared column order, with `""` for any column
   the caller left out.

`DataBase.init` creates whichever of the three tables are missing.
`Commit.to_dict` turns a commit record into the keyword arguments of an
insert.

The model has five modules:

- `Wrappers` (wrappers.dfy): `Option`, `Result` and `Outcome`.
- `Rows` (rows.dfy): column values and Python's insertion-ordered dictionaries.
  A dictionary is a sequence of (key, value) pairs. `Get` is `dict.get`.
  `Set` is `d[k] = v`, which overwrites the value in place or appends a new
  pair. `RowDict` is `dict(zip(cols, row))`.
- `Ids` (ids.dfy): the identifier pattern `RE_ID`.
- `Commits` (commit.py → commit.dfy): the `Commit` record as a class with the
  same fields. `to_dict` is a method with a loop that builds the dictionary
  one key at a time.
- `Db` (db.dfy): the errors, the three table configurations, the sanity
  check and the duplicate guard as functions, and three classes:
  - `Store`: the database file, a map from table name to a relation holding
    its columns and its positional rows;
  - `Table`: `BaseTable`, with methods that change the store;
  - `DataBase`: the three tables, and `Init`.

Each method is proved against a specification function (`CheckKwargsSane`,
`CheckRowExists`, `NewRow`, `Filter`, `InitTables`). The lemmas prove
properties of those functions: uniqueness is preserved, a repeated insert is
refused, the filter keeps exactly the matching rows and keeps their order,
and `init` is idempotent.

Each Python exception becomes a constructor of `Db.Error`:

| Python exception | `Db.Error` constructor |
|---|---|
| `InvalidColumnError` | `InvalidColumn` |
| `InvalidIdError` | `InvalidId` |
| `TypeError` from matching a non-string `_id` value | `IdNotText` |
| `KeyError` for an absent unique column | `MissingUniqueColumn` |
| the duplicate-row error | `RowExists` |
| SQLite's "no such table" | `NoSuchTable` |
| "table already exists" | `TableExists` |
| the syntax error of an empty `WHERE` | `EmptyFilter` |
| the binding error for a list value, or `OverflowError` for an integer outside 64 bits | `Unbindable` |
| `AttributeError` from `getattr` | `NoSuchAttribute` |

Two behaviours of the code are worth knowing:
- `select()` with no filters fails. The code builds `WHERE ` with nothing
  after it (`EmptyFilter`). `Table.Dump` is the full scan.
- A missing unique column in an insert is not reported as a missing column,
  because that check is commented out at banana/db.py:57-59. Instead it
  surfaces as the `KeyError` of banana/db.py:68 (`MissingUniqueColumn`).

## Model

| member | source | states |
|---|---|---|
| Rows.Get | banana/db.py:47 | `dict.get` finds nothing exactly when the key is absent |
| Rows.Set | banana/commit.py:28 | after `d[k] = v`, `k` maps to `v` and every other key keeps its value |
| Rows.SetKeys | banana/commit.py:26-29 | assigning a present key keeps the key order; assigning a new key appends it at the end |
| Rows.SetExtends | banana/commit.py:27-28 | one loop step of `to_dict` extends a dictionary of the names so far to the next name, without repeated keys, and keeps it in the names' order when the names are distinct |
| Rows.RowDict | banana/db.py:107 | `dict(zip(cols, row))` has exactly the columns as keys, each bound to the value at its position |
| Ids.MatchHex | banana/db.py:16 | `[0-9a-f]{k}` matches a prefix exactly when the first `k` characters are hex digits, and leaves the rest of the string |
| Ids.IsCommitId | banana/db.py:16 | a commit identifier is exactly 40 characters, each in `[0-9a-f]` |
| Ids.RegexIdMatchIsIdWithOptionalNewline | banana/db.py:16 | `RE_ID.match` as written accepts exactly the identifiers and the identifiers followed by one newline |
| Ids.RegexIdMatchAcceptsTrailingNewline | banana/db.py:16 | a 40-digit hash plus `"\n"` passes `RE_ID.match` but is not an identifier |
| Ids.IdColumnsByName | banana/db.py:54 | the `_id` rule applies to `commit_id`, `patch_id` and `fixes_id`, and not to `id`, `fixes`, `created_at` or `updated_at` |
| Commits.Commit.constructor | banana/commit.py:9-22 | the record copies the seven git fields, keeps the given patch id and provenance (None when not given), and starts with empty fixes, CVE and mention lists |
| Commits.Commit.ToDict | banana/commit.py:24-29 | succeeds exactly when every name is an attribute; otherwise fails on the first name that is not; on success every name maps to its attribute, keys are not repeated, and the key order is the order of the names when they are distinct |
| Db.TableConfig.DataColsDistinct | banana/db.py:172 | the data columns of a well-formed table have no repeats |
| Db.CommitTableWellFormed | banana/db.py:158-172 | the commit table's ten columns have no repeats and its unique column is a data column |
| Db.ConfigsWellFormed | banana/db.py:158-197 | the three tables have distinct names and duplicate-free column lists, and their unique columns are data columns |
| Db.CheckKwargsSaneSpec | banana/db.py:49-55 | the sanity check passes exactly when every pair names a column and every `_id` value is an identifier; otherwise it reports the first bad pair, testing the column before the identifier |
| Db.FirstMissing | banana/db.py:68 | `kwargs[c]` for the unique columns fails exactly when one is absent, and then names an absent unique column |
| Db.CheckRowExists | banana/db.py:61-72 | the guard is skipped without unique columns; otherwise it passes only when every unique column is supplied with a bindable value, the table exists and no stored row equals them all; it reports a duplicate only when such a row exists |
| Db.GuardFindsDuplicate | banana/db.py:70-72 | a stored row equal on every supplied unique value makes the guard report a duplicate |
| Db.StampedProjection | banana/db.py:121-128 | stamping `id`, `created_at` and `updated_at` (copied from `created_at`) and projecting onto the columns with default `""` gives `NewRow` |
| Db.NewRowDict | banana/db.py:121-128 | the new row holds the fresh id, equal creation and update times, and for each data column the supplied value or `""` |
| Db.Append | banana/db.py:131 | appending a storable row keeps the table well formed and adds exactly that row at the end |
| Db.NewRowDiffers | banana/db.py:61-72 | a stored row in which the guard found no duplicate differs from the inserted row on some unique column |
| Db.InsertPreservesUniqueRows | banana/db.py:109-132 | an insert that passes the guard keeps no two rows equal on all unique columns |
| Db.NewRowMatchesAgain | banana/db.py:121-131 | the stored row equals, on every unique column, any later arguments with the same unique values, and those values are bindable |
| Db.SecondInsertRejected | banana/db.py:109-132 | after an insert, a second insert with the same text or integer unique values is refused as a duplicate |
| Db.FilterMembership | banana/db.py:134-150 | select keeps exactly the stored rows equal to every filter value |
| Db.FilterConcat | banana/db.py:149-150 | filtering distributes over concatenation, so selected rows keep the stored order |
| Db.FilterNothing | banana/db.py:98-107 | with no conditions every row is kept, which is the scan of `dump` |
| Db.QuotedFilterMismatch | banana/db.py:140-148 | as written, filtering an integer column by its stored value finds nothing, and filtering by None matches the text 'None'; compared as bound values, the first matches and the second does not |
| Db.InitTables | banana/db.py:206-213 | `init` adds exactly the three tables, each created with its declared columns and no rows where missing, and leaves existing tables as they were |
| Db.InitIdempotent | banana/db.py:206-213 | running `init` twice gives the same file as running it once |
| Db.FetchAll | banana/db.py:104-107 | reading back yields each stored row as a dictionary, in stored order |
| Db.Store.constructor | banana/db.py:80 | a new database file holds no tables |
| Db.Table.constructor | banana/db.py:42-43 | a table is bound to its configuration and its database file |
| Db.Table.Exists | banana/db.py:86-96 | true exactly when a table of this name is in the file |
| Db.Table.Create | banana/db.py:74-84 | creates the table with its declared columns and no rows, or fails with nothing changed when it exists |
| Db.Table.Insert | banana/db.py:109-132 | fails with the sanity check's error, then the guard's, then `NoSuchTable` for a missing table, then `Unbindable` for a list or an integer outside 64 bits in the row; succeeds exactly when none applies; on success appends `NewRow` and nothing else changes; on failure nothing changes |
| Db.Table.Select | banana/db.py:134-150 | fails with the sanity check's error, then on an empty filter, then on a missing table; otherwise returns `Filter` of the stored rows |
| Db.Table.Dump | banana/db.py:98-107 | fails on a missing table; otherwise returns every stored row as a dictionary, in order |
| Db.Table.InsertCommit | banana/db.py:152-155 | a data column that is not a commit attribute fails with `NoSuchAttribute` and nothing written; otherwise the outcome is that of `insert` on the dictionary of the attributes named by the data columns, and success appends the row built from it; for the commit table the outcome is, in order: `InvalidId` exactly when the hash is not an identifier, `NoSuchTable`, `RowExists` exactly when a stored row holds the same hash, success when the three times fit in 64 bits, `Unbindable` otherwise |
| Db.ToDictIsAttributeKwargs | banana/commit.py:24-29 | a dictionary that has the distinct names as keys, in order, each bound to its attribute, is the attribute dictionary of those names |
| Db.AttributeRowDict | banana/db.py:152-155 | the row `insert_commit` stores holds each data column's attribute next to the stamped system columns |
| Db.InsertedCommitStored | banana/db.py:131 | after the row of a commit's attributes is appended, the table holds a row whose `commit_id` is that commit's hash |
| Db.CommitIdColumns | banana/db.py:162-170 | of the commit table's columns, only `commit_id` ends in `_id` |
| Db.CommitArgs | banana/commit.py:24-29 | `to_dict` over the commit table's data columns holds every column, in column order, bound to the commit's attribute of that name |
| Db.CommitArgsSane | banana/db.py:49-55 | the commit table's sanity check rejects a commit's arguments exactly when the hash is not an identifier, and then names `commit_id` and the hash |
| Db.DuplicateCommit | banana/db.py:61-72 | on the commit table a stored row duplicates the arguments exactly when it holds the same hash |
| Db.CommitArgsGuard | banana/db.py:61-72 | for a commit's arguments the guard reports a missing table, else a duplicate exactly when a stored row holds the same hash, else passes |
| Db.CommitArgsStorable | banana/db.py:121-131 | a commit's row can be bound exactly when the insert time and the commit and author times fit in 64 bits |
| Db.CommitTableArgs | banana/db.py:109-132 | the outcome of inserting a commit's attributes into the commit table: a bad hash, then a missing table, then a duplicate hash, then success when the times fit in 64 bits, else `Unbindable` |
| Db.InsertCommitTwice | banana/db.py:152-155 | inserting a commit the table does not hold yet succeeds (well-formed hash, 64-bit times) and inserting it again is refused as a duplicate; with a malformed hash both inserts fail with `InvalidId` |
| Db.DataBase.constructor | banana/db.py:201-204 | the database holds the three tables over one file, each with its configuration |
| Db.DataBase.Init | banana/db.py:206-213 | the file after `init` is `InitTables` of the file before |

## Left out

- SQLite itself: connections, cursors, commits and the file on disk. The file
  is an in-memory map from table name to columns and rows. No two operations
  run at once.
- Logging and the `trace` decorator (banana/db.py:24-31) are left out. They
  do not affect results. banana/db.py:12 calls `log.Logger`, which
  banana/log.py does not define, so the module as written would fail on
  import. The model assumes a working logger.
- `uuid.uuid4()` and `time.time()` are parameters of `Insert` (`uuid`,
  `now`). The model does not assume that identifiers are unique.
- The duplicate-row error: banana/db.py:72 raises `error.RowExistsError`,
  which banana/error.py does not define. As written, the attempt raises
  `AttributeError` instead. The model reports `RowExists`, which is what the
  code evidently means.
- `select` and `dump` are Python generators. The model returns the whole row
  sequence at once, so their errors are reported when the method is called
  rather than on the first iteration.
- Quoting in `select`: a filter text that contains a quote changes the SQL
  statement itself, which can lead to syntax errors or injection. This is not
  modelled. `QuotedMatches` assumes values without quotes.
- Db.Table.Select: uses the bound-value comparison (`SqlEq`), not the quoted
  text comparison the code builds. The difference is recorded under
  Findings.
- Value types: only text, integers, None and lists of text. Floats, bytes and
  other objects are left out. SQLite's type affinity is reduced to "NULL
  equals nothing" and "a text never equals an integer". An integer can be
  bound only when it fits in 64 bits (`InInt64`); any other value raises
  `OverflowError` in the driver, which the model reports as `Unbindable`,
  both at the guard's query and at the insert.
- Db.CheckKwargsSaneSpec: the `_id` test uses `IsCommitId` (exactly 40 hex
  digits), the corrected rule, not `RegexIdMatch`, the pattern as written; so
  `Db.Accepted`, `Db.Table.Insert` and `Db.Table.Select` reject a hash
  followed by a newline that the code accepts. The difference is recorded
  under Findings.
- `DataBase(path)` accepts any file. The model assumes that a `_commit`,
  `_patch_id` or `_fixes` table already in the file has the declared columns
  (`Db.Table.Valid`, and the requires of `Db.DataBase.constructor`). A file
  whose table of one of these names has other columns is not modelled.
- The GitPython commit object is reduced to the seven fields `Commit` copies
  from it (`GitCommit`).
- `getattr` on `commit` or on a method name is left out. `to_dict` and
  `insert_commit` see only the twelve data attributes. Any other name is
  missing (`NoSuchAttribute`).
- `DataBase.dump` (banana/db.py:215-228) only prints `Table.dump` for each
  table, so it is left out. `Table.Dump` is modelled.
- `exists` runs a query on `sqlite_master`. It is modelled as name membership
  in the store.

## Findings

| source | as written | input that shows it | evidently intended | confidence | as-written member | corrected member |
|---|---|---|---|---|---|---|
| banana/db.py:16 | `$` in `^[0-9a-f]{40}$` also matches before a final newline, so `RE_ID.match` accepts a hash followed by `"\n"` | `commit_id` = 40 × `a` followed by `"\n"` | only exactly 40 hexadecimal digits are an identifier | not executed | Ids.RegexIdMatch (Ids.RegexIdMatchAcceptsTrailingNewline) | Ids.IsCommitId (Ids.RegexIdMatchIsIdWithOptionalNewline) |
| banana/db.py:141 | `select` writes each filter as `col='str(v)'`, comparing untyped columns with a text literal | `select(committed_at=t)` on a row stored with integer `committed_at` = `t` returns nothing; `select(subject=None)` matches rows whose subject is the text `'None'` | compare with bound parameters, as `insert` does and as the FIXME at banana/db.py:140 asks | not executed | Db.QuotedMatches (Db.QuotedFilterMismatch) | Db.MatchesFilters (Db.FilterMembership) |
