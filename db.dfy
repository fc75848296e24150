/**
 * The generic table engine and the three tables that share it.
 *
 * The database file is an in-memory `Store`: a map from table name to a
 * `Relation` holding the column list given at creation and the rows in
 * insertion order, each row a positional list of values as the storage
 * engine keeps it. Each of the three tables is one `TableConfig` (name,
 * data columns, unique columns) driving the same `Table` engine.
 */
module Db {
  import opened Wrappers
  import opened Rows
  import opened Ids
  import opened Commits

  /** The ways a table operation fails. */
  datatype Error =
    | InvalidColumn(table: string, column: string)        // a supplied key is not a column of the table
    | InvalidId(table: string, column: string, val: string) // an `_id` value is not a commit identifier
    | IdNotText(table: string, column: string)            // an `_id` value is not a string at all
    | MissingUniqueColumn(table: string, column: string)  // a unique column is absent from an insert
    | RowExists(table: string, vals: seq<Value>)          // a stored row has the same unique values
    | NoSuchTable(table: string)                          // the table was never created
    | TableExists(table: string)                          // create on a table that exists
    | EmptyFilter(table: string)                          // select without any filter
    | Unbindable(table: string)                           // a list value cannot be stored
    | NoSuchAttribute(attr: string)                       // a column that is not a commit attribute

  /** The system columns every table starts with. */
  const CommonCols: seq<string> := ["id", "created_at", "updated_at"]

  datatype TableConfig = TableConfig(name: string, dataCols: seq<string>, uniqueCols: seq<string>) {
    /** The declared columns, in order: the system columns, then the data columns. */
    function AllCols(): seq<string> {
      CommonCols + dataCols
    }

    predicate WellFormed() {
      Distinct(AllCols()) && forall c :: c in uniqueCols ==> c in dataCols
    }

    lemma DataColsDistinct()
      requires WellFormed()
      ensures Distinct(dataCols)
    {
      assert forall i :: 0 <= i < |dataCols| ==> dataCols[i] == AllCols()[3 + i];
    }
  }

  const CommitTable := TableConfig(
    "_commit",
    ["commit_id", "subject", "details", "committed_at", "author_name", "author_email", "authored_at"],
    ["commit_id"])

  const PatchIdTable := TableConfig("_patch_id", ["commit_id", "patch_id"], ["commit_id"])

  const FixesTable := TableConfig("_fixes", ["commit_id", "fixes", "fixes_id"], ["commit_id", "fixes"])

  /** The commit table's ten columns have no repeats and its unique column is a data column. */
  lemma CommitTableWellFormed()
    ensures CommitTable.WellFormed()
  {
    var cols := CommitTable.AllCols();
    assert cols == ["id", "created_at", "updated_at", "commit_id", "subject", "details",
                    "committed_at", "author_name", "author_email", "authored_at"];
    assert "commit_id" in CommitTable.dataCols;
  }

  /** The three tables have distinct names and duplicate-free column lists whose unique columns are data columns. */
  lemma ConfigsWellFormed()
    ensures CommitTable.WellFormed() && PatchIdTable.WellFormed() && FixesTable.WellFormed()
    ensures CommitTable.name != PatchIdTable.name && PatchIdTable.name != FixesTable.name && FixesTable.name != CommitTable.name
  {
    CommitTableWellFormed();
    assert PatchIdTable.AllCols() == ["id", "created_at", "updated_at", "commit_id", "patch_id"];
    assert FixesTable.AllCols() == ["id", "created_at", "updated_at", "commit_id", "fixes", "fixes_id"];
  }

  // ---------------------------------------------------------------------------
  // Stored relations

  /** The range of an SQLite INTEGER: a signed 64-bit integer. */
  predicate InInt64(i: int) {
    -0x8000_0000_0000_0000 <= i < 0x8000_0000_0000_0000
  }

  /**
   * Values the storage engine can bind: a list cannot be bound at all, and an
   * integer outside the 64-bit range raises OverflowError when bound.
   */
  predicate Storable(v: Value) {
    && !v.List?
    && (v.Int? ==> InInt64(v.i))
  }

  /** SQL `=` between a stored value and a given one: NULL equals nothing. */
  predicate SqlEq(stored: Value, given: Value) {
    stored == given && (given.Str? || given.Int?)
  }

  datatype Relation = Relation(cols: seq<string>, rows: seq<seq<Value>>) {
    predicate WellFormed() {
      && Distinct(cols)
      && forall i :: 0 <= i < |rows| ==>
           |rows[i]| == |cols| && forall j :: 0 <= j < |rows[i]| ==> Storable(rows[i][j])
    }

    /** The rows as the read path yields them, in stored order. */
    function Dicts(): (ds: seq<RowMap>)
      requires WellFormed()
    {
      seq(|rows|, i requires 0 <= i < |rows| => RowDict(cols, rows[i]))
    }
  }

  function Lookup(tables: map<string, Relation>, name: string): Option<Relation> {
    if name in tables then Some(tables[name]) else None
  }

  // ---------------------------------------------------------------------------
  // Validation of keyword arguments

  /** A supplied (key, value) pair passes the sanity check of `cfg`. */
  predicate Accepted(cfg: TableConfig, item: (string, Value)) {
    && item.0 in cfg.AllCols()
    && (EndsWithId(item.0) ==> item.1.Str? && IsCommitId(item.1.s))
  }

  /** The error raised for a rejected pair: the column test comes before the identifier test. */
  function Rejection(cfg: TableConfig, item: (string, Value)): Error
    requires !Accepted(cfg, item)
  {
    if item.0 !in cfg.AllCols() then InvalidColumn(cfg.name, item.0)
    else if item.1.Str? then InvalidId(cfg.name, item.0, item.1.s)
    else IdNotText(cfg.name, item.0)
  }

  /** The sanity check of keyword arguments, in their order; reports the first rejected pair. */
  function CheckKwargsSane(cfg: TableConfig, kwargs: Kwargs): Option<Error> {
    if kwargs == [] then None
    else if !Accepted(cfg, kwargs[0]) then Some(Rejection(cfg, kwargs[0]))
    else CheckKwargsSane(cfg, kwargs[1..])
  }

  /**
   * The sanity check passes exactly when every pair is accepted; otherwise
   * it reports the rejection of the first pair that is not.
   */
  lemma {:induction false} CheckKwargsSaneSpec(cfg: TableConfig, kwargs: Kwargs)
    ensures var r := CheckKwargsSane(cfg, kwargs);
            && (r.None? <==> forall i :: 0 <= i < |kwargs| ==> Accepted(cfg, kwargs[i]))
            && (r.Some? ==> exists i :: 0 <= i < |kwargs| && !Accepted(cfg, kwargs[i])
                                     && r.value == Rejection(cfg, kwargs[i])
                                     && forall j :: 0 <= j < i ==> Accepted(cfg, kwargs[j]))
  {
    if kwargs != [] && Accepted(cfg, kwargs[0]) {
      var tail := kwargs[1..];
      CheckKwargsSaneSpec(cfg, tail);
      var r := CheckKwargsSane(cfg, tail);
      if r.Some? {
        var i :| 0 <= i < |tail| && !Accepted(cfg, tail[i]) && r.value == Rejection(cfg, tail[i])
                 && forall j :: 0 <= j < i ==> Accepted(cfg, tail[j]);
        assert kwargs[i + 1] == tail[i];
        assert forall j :: 1 <= j < i + 1 ==> kwargs[j] == tail[j - 1];
      } else {
        assert forall i :: 1 <= i < |kwargs| ==> kwargs[i] == tail[i - 1];
      }
    }
  }

  // ---------------------------------------------------------------------------
  // The duplicate-row guard

  /** The first column of `cols` that `kwargs` lacks (`kwargs[c]` raises KeyError there). */
  function FirstMissing(cols: seq<string>, kwargs: Kwargs): (r: Option<string>)
    ensures r.None? <==> forall c :: c in cols ==> c in Keys(kwargs)
    ensures r.Some? ==> r.value in cols && r.value !in Keys(kwargs)
  {
    if cols == [] then None
    else if cols[0] !in Keys(kwargs) then Some(cols[0])
    else FirstMissing(cols[1..], kwargs)
  }

  /** A stored row agrees with the supplied values on every unique column. */
  predicate Duplicates(cfg: TableConfig, row: RowMap, kwargs: Kwargs) {
    forall c :: c in cfg.uniqueCols ==>
      c in row && Get(kwargs, c).Some? && SqlEq(row[c], Get(kwargs, c).value)
  }

  /** The supplied values of the unique columns, in declared order. */
  function UniqueVals(cfg: TableConfig, kwargs: Kwargs): seq<Value>
    requires forall c :: c in cfg.uniqueCols ==> c in Keys(kwargs)
  {
    seq(|cfg.uniqueCols|, i requires 0 <= i < |cfg.uniqueCols| => Get(kwargs, cfg.uniqueCols[i]).value)
  }

  /**
   * The duplicate-row guard run before an insert: skipped for a table without
   * unique columns, otherwise it needs every unique column supplied, the table
   * present and the values bindable, and rejects a row equal on them all.
   */
  function CheckRowExists(cfg: TableConfig, rel: Option<Relation>, kwargs: Kwargs): (r: Option<Error>)
    requires rel.Some? ==> rel.value.WellFormed()
    ensures cfg.uniqueCols == [] ==> r.None?
    ensures cfg.uniqueCols != [] && r.None? ==>
      && (forall c :: c in cfg.uniqueCols ==> c in Keys(kwargs) && Storable(Get(kwargs, c).value))
      && rel.Some?
      && forall k :: 0 <= k < |rel.value.rows| ==> !Duplicates(cfg, rel.value.Dicts()[k], kwargs)
    ensures r.Some? && r.value.RowExists? ==>
      rel.Some? && exists k :: 0 <= k < |rel.value.rows| && Duplicates(cfg, rel.value.Dicts()[k], kwargs)
    ensures r.Some? && r.value.MissingUniqueColumn? ==>
      r.value.column in cfg.uniqueCols && r.value.column !in Keys(kwargs)
  {
    if cfg.uniqueCols == [] then None
    else match FirstMissing(cfg.uniqueCols, kwargs)
      case Some(c) => Some(MissingUniqueColumn(cfg.name, c))
      case None =>
        var vals := UniqueVals(cfg, kwargs);
        match rel
        case None => Some(NoSuchTable(cfg.name))
        case Some(rel) =>
          if exists i :: 0 <= i < |vals| && !Storable(vals[i]) then
            Some(Unbindable(cfg.name))
          else if exists k :: 0 <= k < |rel.rows| && Duplicates(cfg, rel.Dicts()[k], kwargs) then
            Some(RowExists(cfg.name, vals))
          else
            assert forall c :: c in cfg.uniqueCols ==> Storable(Get(kwargs, c).value) by {
              forall c | c in cfg.uniqueCols ensures Storable(Get(kwargs, c).value) {
                var i :| 0 <= i < |cfg.uniqueCols| && cfg.uniqueCols[i] == c;
                assert vals[i] == Get(kwargs, c).value;
              }
            }
            None
  }

  // ---------------------------------------------------------------------------
  // The row an insert writes

  /** `[kwargs.get(c, "") for c in cols]`: the supplied values projected onto `cols`. */
  function KwargsToVals(cols: seq<string>, kwargs: Kwargs): seq<Value> {
    seq(|cols|, i requires 0 <= i < |cols| => Get(kwargs, cols[i]).GetOr(Str("")))
  }

  /** The value an insert stores in column `col`: system columns are stamped, the rest come from the caller or are empty. */
  function StampedValue(col: string, kwargs: Kwargs, uuid: string, now: int): Value {
    if col == "id" then Str(uuid)
    else if col == "created_at" || col == "updated_at" then Int(now)
    else Get(kwargs, col).GetOr(Str(""))
  }

  /** The row an insert with these arguments, fresh identifier and clock reading appends. */
  function NewRow(cfg: TableConfig, kwargs: Kwargs, uuid: string, now: int): seq<Value> {
    var cols := cfg.AllCols();
    seq(|cols|, i requires 0 <= i < |cols| => StampedValue(cols[i], kwargs, uuid, now))
  }

  /**
   * Stamping the keyword dictionary (`id`, then `created_at`, then
   * `updated_at` copied from `created_at`) and projecting it onto the
   * declared columns gives exactly `NewRow`.
   */
  lemma StampedProjection(cfg: TableConfig, kwargs: Kwargs, uuid: string, now: int)
    ensures var k1 := Set(kwargs, "id", Str(uuid));
            var k2 := Set(k1, "created_at", Int(now));
            Get(k2, "created_at") == Some(Int(now))
            && KwargsToVals(cfg.AllCols(), Set(k2, "updated_at", Int(now))) == NewRow(cfg, kwargs, uuid, now)
  {
    var k1 := Set(kwargs, "id", Str(uuid));
    var k2 := Set(k1, "created_at", Int(now));
    var k3 := Set(k2, "updated_at", Int(now));
    var cols := cfg.AllCols();
    forall i | 0 <= i < |cols|
      ensures Get(k3, cols[i]).GetOr(Str("")) == StampedValue(cols[i], kwargs, uuid, now)
    {
      var c := cols[i];
      if c != "id" && c != "created_at" && c != "updated_at" {
        assert Get(k3, c) == Get(k2, c) == Get(k1, c) == Get(kwargs, c);
      }
    }
  }

  /**
   * Read back as a dictionary, the new row holds the fresh identifier, equal
   * creation and update stamps, and for every data column the supplied value
   * or the empty string.
   */
  lemma NewRowDict(cfg: TableConfig, kwargs: Kwargs, uuid: string, now: int)
    requires cfg.WellFormed()
    ensures var d := RowDict(cfg.AllCols(), NewRow(cfg, kwargs, uuid, now));
            && d.Keys == set c | c in cfg.AllCols()
            && d["id"] == Str(uuid)
            && d["created_at"] == d["updated_at"] == Int(now)
            && forall c :: c in cfg.dataCols ==> d[c] == Get(kwargs, c).GetOr(Str(""))
  {
    var cols := cfg.AllCols();
    var d := RowDict(cols, NewRow(cfg, kwargs, uuid, now));
    assert cols[0] == "id" && cols[1] == "created_at" && cols[2] == "updated_at";
    forall c | c in cfg.dataCols ensures d[c] == Get(kwargs, c).GetOr(Str("")) {
      var j :| 0 <= j < |cfg.dataCols| && cfg.dataCols[j] == c;
      assert cols[3 + j] == c;
      assert c != cols[0] && c != cols[1] && c != cols[2];
    }
  }

  /**
   * The outcome of an insert: the sanity check's error, then the guard's,
   * then a missing table, then a value that cannot be bound; otherwise success.
   */
  function InsertOutcome(cfg: TableConfig, tables: map<string, Relation>, kwargs: Kwargs, uuid: string, now: int): Outcome<Error>
    requires cfg.name in tables ==> tables[cfg.name].WellFormed()
  {
    match CheckKwargsSane(cfg, kwargs)
    case Some(e) => Fail(e)
    case None =>
      match CheckRowExists(cfg, Lookup(tables, cfg.name), kwargs)
      case Some(e) => Fail(e)
      case None =>
        if cfg.name !in tables then Fail(NoSuchTable(cfg.name))
        else if forall j :: 0 <= j < |cfg.AllCols()| ==> Storable(NewRow(cfg, kwargs, uuid, now)[j]) then Pass
        else Fail(Unbindable(cfg.name))
  }

  // ---------------------------------------------------------------------------
  // The uniqueness constraint

  /** Two rows agree on every unique column (SQL equality). */
  predicate Agree(cfg: TableConfig, a: RowMap, b: RowMap) {
    forall c :: c in cfg.uniqueCols ==> c in a && c in b && SqlEq(a[c], b[c])
  }

  /** No two stored rows agree on all unique columns. */
  predicate UniqueRows(cfg: TableConfig, rel: Relation)
    requires rel.WellFormed()
  {
    forall i, j :: 0 <= i < j < |rel.rows| ==> !Agree(cfg, rel.Dicts()[i], rel.Dicts()[j])
  }

  function Append(rel: Relation, row: seq<Value>): (r: Relation)
    requires rel.WellFormed() && |row| == |rel.cols| && forall j :: 0 <= j < |row| ==> Storable(row[j])
    ensures r.WellFormed() && r.Dicts() == rel.Dicts() + [RowDict(rel.cols, row)]
  {
    rel.(rows := rel.rows + [row])
  }

  /** A stored row that the guard found no duplicate in does not agree with the row the insert adds. */
  lemma NewRowDiffers(cfg: TableConfig, stored: RowMap, kwargs: Kwargs, uuid: string, now: int)
    requires cfg.WellFormed() && !Duplicates(cfg, stored, kwargs)
    requires forall c :: c in cfg.uniqueCols ==> Get(kwargs, c).Some?
    ensures !Agree(cfg, stored, RowDict(cfg.AllCols(), NewRow(cfg, kwargs, uuid, now)))
  {
    NewRowDict(cfg, kwargs, uuid, now);
    var d := RowDict(cfg.AllCols(), NewRow(cfg, kwargs, uuid, now));
    var c :| c in cfg.uniqueCols && !(c in stored && Get(kwargs, c).Some? && SqlEq(stored[c], Get(kwargs, c).value));
    assert d[c] == Get(kwargs, c).value;
  }

  /**
   * An insert that passes the duplicate-row guard keeps the table free of
   * rows that agree on all unique columns.
   */
  lemma InsertPreservesUniqueRows(cfg: TableConfig, rel: Relation, kwargs: Kwargs, uuid: string, now: int)
    requires cfg.WellFormed() && cfg.uniqueCols != []
    requires rel.WellFormed() && rel.cols == cfg.AllCols() && UniqueRows(cfg, rel)
    requires forall j :: 0 <= j < |rel.cols| ==> Storable(NewRow(cfg, kwargs, uuid, now)[j])
    requires CheckRowExists(cfg, Some(rel), kwargs).None?
    ensures UniqueRows(cfg, Append(rel, NewRow(cfg, kwargs, uuid, now)))
  {
    var row := NewRow(cfg, kwargs, uuid, now);
    var rel' := Append(rel, row);
    var before := rel.Dicts();
    var after := rel'.Dicts();
    var d := RowDict(cfg.AllCols(), row);
    assert after == before + [d];
    forall i, j | 0 <= i < j < |after| ensures !Agree(cfg, after[i], after[j]) {
      assert after[i] == before[i];
      if j == |before| {
        assert !Agree(cfg, before[i], d) by {
          assert forall c :: c in cfg.uniqueCols ==> Get(kwargs, c).Some?;
          assert !Duplicates(cfg, before[i], kwargs);
          NewRowDiffers(cfg, before[i], kwargs, uuid, now);
        }
      } else {
        assert after[j] == before[j];
      }
    }
  }

  /** The guard reports a duplicate whenever a stored row matches bindable values of every unique column. */
  lemma GuardFindsDuplicate(cfg: TableConfig, rel: Relation, kwargs: Kwargs, k: nat)
    requires cfg.uniqueCols != [] && rel.WellFormed() && k < |rel.rows|
    requires forall c :: c in cfg.uniqueCols ==> Get(kwargs, c).Some? && Storable(Get(kwargs, c).value)
    requires Duplicates(cfg, rel.Dicts()[k], kwargs)
    ensures CheckRowExists(cfg, Some(rel), kwargs) == Some(RowExists(cfg.name, UniqueVals(cfg, kwargs)))
  {
    assert FirstMissing(cfg.uniqueCols, kwargs).None?;
    var vals := UniqueVals(cfg, kwargs);
    assert forall i :: 0 <= i < |vals| ==> Storable(vals[i]) by {
      forall i | 0 <= i < |vals| ensures Storable(vals[i]) {
        assert cfg.uniqueCols[i] in cfg.uniqueCols;
      }
    }
  }

  /** The row an insert stores equals, on every unique column, a second set of arguments with the same unique values. */
  lemma NewRowMatchesAgain(cfg: TableConfig, kwargs: Kwargs, again: Kwargs, uuid: string, now: int)
    requires cfg.WellFormed()
    requires forall j :: 0 <= j < |cfg.AllCols()| ==> Storable(NewRow(cfg, kwargs, uuid, now)[j])
    requires forall c :: c in cfg.uniqueCols ==> Get(kwargs, c).Some? && !Get(kwargs, c).value.Null?
    requires forall c :: c in cfg.uniqueCols ==> Get(again, c) == Get(kwargs, c)
    ensures Duplicates(cfg, RowDict(cfg.AllCols(), NewRow(cfg, kwargs, uuid, now)), again)
    ensures forall c :: c in cfg.uniqueCols ==> Get(again, c).Some? && Storable(Get(again, c).value)
  {
    var row := NewRow(cfg, kwargs, uuid, now);
    NewRowDict(cfg, kwargs, uuid, now);
    var d := RowDict(cfg.AllCols(), row);
    forall c | c in cfg.uniqueCols ensures Get(again, c).Some? && Storable(Get(again, c).value) {
      assert c in cfg.dataCols && c in cfg.AllCols();
      var j :| 0 <= j < |cfg.AllCols()| && cfg.AllCols()[j] == c;
      assert d[c] == row[j] && Storable(row[j]);
      assert d[c] == Get(kwargs, c).GetOr(Str(""));
      assert Get(kwargs, c).GetOr(Str("")) == Get(kwargs, c).value == Get(again, c).value;
    }
  }

  /**
   * After a row is inserted, a second insert whose unique values are the
   * same (and are text or integers, which SQL equality can match) is
   * rejected as a duplicate.
   */
  lemma SecondInsertRejected(cfg: TableConfig, rel: Relation, kwargs: Kwargs, again: Kwargs, uuid: string, now: int)
    requires cfg.WellFormed() && cfg.uniqueCols != []
    requires rel.WellFormed() && rel.cols == cfg.AllCols()
    requires forall j :: 0 <= j < |rel.cols| ==> Storable(NewRow(cfg, kwargs, uuid, now)[j])
    requires forall c :: c in cfg.uniqueCols ==> Get(kwargs, c).Some? && !Get(kwargs, c).value.Null?
    requires forall c :: c in cfg.uniqueCols ==> Get(again, c) == Get(kwargs, c)
    ensures var r := CheckRowExists(cfg, Some(Append(rel, NewRow(cfg, kwargs, uuid, now))), again);
            r.Some? && r.value.RowExists?
  {
    var row := NewRow(cfg, kwargs, uuid, now);
    var rel' := Append(rel, row);
    NewRowMatchesAgain(cfg, kwargs, again, uuid, now);
    assert rel'.Dicts()[|rel.rows|] == RowDict(cfg.AllCols(), row);
    GuardFindsDuplicate(cfg, rel', again, |rel.rows|);
  }

  // ---------------------------------------------------------------------------
  // The read path

  /** A row satisfies every equality filter. */
  predicate MatchesFilters(row: RowMap, filters: Kwargs) {
    forall i :: 0 <= i < |filters| ==> filters[i].0 in row && SqlEq(row[filters[i].0], filters[i].1)
  }

  /** The rows that satisfy the filters, in their order. */
  function Filter(rows: seq<RowMap>, filters: Kwargs): (r: seq<RowMap>)
    ensures |r| <= |rows|
  {
    if rows == [] then []
    else
      var last := rows[|rows| - 1];
      var r := Filter(rows[..|rows| - 1], filters);
      assert rows == rows[..|rows| - 1] + [last];
      if MatchesFilters(last, filters) then r + [last] else r
  }

  /** Exactly the rows that satisfy every filter are kept. */
  lemma {:induction false} FilterMembership(rows: seq<RowMap>, filters: Kwargs)
    ensures forall row :: row in Filter(rows, filters) <==> row in rows && MatchesFilters(row, filters)
  {
    if rows != [] {
      var init := rows[..|rows| - 1];
      FilterMembership(init, filters);
      assert rows == init + [rows[|rows| - 1]];
    }
  }

  /** Filtering distributes over concatenation, so filtered rows keep their stored order. */
  lemma {:induction false} FilterConcat(a: seq<RowMap>, b: seq<RowMap>, filters: Kwargs)
    ensures Filter(a + b, filters) == Filter(a, filters) + Filter(b, filters)
    decreases |b|
  {
    if b == [] {
      assert a + b == a;
    } else {
      var b' := b[..|b| - 1];
      assert (a + b)[..|a + b| - 1] == a + b';
      assert (a + b)[|a + b| - 1] == b[|b| - 1];
      FilterConcat(a, b', filters);
    }
  }

  /** With no filters every row is kept: the full scan of `dump`. */
  lemma {:induction false} FilterNothing(rows: seq<RowMap>)
    ensures Filter(rows, []) == rows
  {
    if rows != [] {
      FilterNothing(rows[..|rows| - 1]);
    }
  }

  /** The decimal digits of `n`, as `str` writes a non-negative integer. */
  function Digits(n: nat): string
    decreases n
  {
    var d := ["0123456789"[n % 10]];
    if n < 10 then d else Digits(n / 10) + d
  }

  /** `', '.join(repr(x) for x in items)` for items without quotes. */
  function ReprItems(items: seq<string>): string {
    if items == [] then ""
    else if |items| == 1 then "'" + items[0] + "'"
    else "'" + items[0] + "', " + ReprItems(items[1..])
  }

  /** `str(v)`, the text `select` writes between quotes for a filter value. */
  function PyText(v: Value): string {
    match v
    case Str(s) => s
    case Int(i) => if i < 0 then "-" + Digits(-i) else Digits(i)
    case Null => "None"
    case List(items) => "[" + ReprItems(items) + "]"
  }

  /**
   * The predicate `select` builds as written: each column compared with the
   * quoted text of the filter value, a text literal that an untyped column
   * only equals when it holds that very text.
   */
  predicate QuotedMatches(row: RowMap, filters: Kwargs) {
    forall i :: 0 <= i < |filters| ==> filters[i].0 in row && row[filters[i].0] == Str(PyText(filters[i].1))
  }

  /**
   * As written, filtering on an integer column by the value stored there
   * finds nothing, and filtering by None finds the text 'None' rather than
   * NULL; compared as bound values, the first row is found and the second is not.
   */
  lemma QuotedFilterMismatch(col: string, t: int)
    ensures var row := map[col := Int(t)];
            MatchesFilters(row, [(col, Int(t))]) && !QuotedMatches(row, [(col, Int(t))])
    ensures var row := map[col := Str("None")];
            QuotedMatches(row, [(col, Null)]) && !MatchesFilters(row, [(col, Null)])
  {
    var filters := [(col, Int(t))];
    assert filters[0].0 == col;
    var nulls: Kwargs := [(col, Null)];
    assert !SqlEq(Str("None"), nulls[0].1);
  }

  // ---------------------------------------------------------------------------
  // Schema set-up

  function CreateIfMissing(tables: map<string, Relation>, cfg: TableConfig): map<string, Relation> {
    if cfg.name in tables then tables else tables[cfg.name := Relation(cfg.AllCols(), [])]
  }

  /** The store after `DataBase.init`: each of the three tables created unless it exists. */
  function InitTables(tables: map<string, Relation>): (r: map<string, Relation>)
    ensures r.Keys == tables.Keys + {CommitTable.name, PatchIdTable.name, FixesTable.name}
    ensures forall n :: n in tables ==> r[n] == tables[n]
    ensures forall cfg :: cfg in [CommitTable, PatchIdTable, FixesTable] && cfg.name !in tables ==>
              r[cfg.name] == Relation(cfg.AllCols(), [])
  {
    CreateIfMissing(CreateIfMissing(CreateIfMissing(tables, CommitTable), PatchIdTable), FixesTable)
  }

  /** Initialising twice is the same as initialising once. */
  lemma InitIdempotent(tables: map<string, Relation>)
    ensures InitTables(InitTables(tables)) == InitTables(tables)
  {
    var once := InitTables(tables);
    assert InitTables(once).Keys == once.Keys;
  }

  /** Reads every stored row back as a dictionary, in stored order. */
  method FetchAll(rel: Relation) returns (rows: seq<RowMap>)
    requires rel.WellFormed()
    ensures |rows| == |rel.rows|
    ensures forall i :: 0 <= i < |rel.rows| ==> rows[i] == RowDict(rel.cols, rel.rows[i])
  {
    rows := [];
    var i := 0;
    while i < |rel.rows|
      invariant 0 <= i <= |rel.rows|
      invariant |rows| == i && forall k :: 0 <= k < i ==> rows[k] == RowDict(rel.cols, rel.rows[k])
    {
      rows := rows + [RowDict(rel.cols, rel.rows[i])];
      i := i + 1;
    }
  }

  // ---------------------------------------------------------------------------
  // The database file and the tables over it

  /** The database file: every table in it, by name. */
  class Store {
    var tables: map<string, Relation>

    /** A file that holds no tables yet. */
    constructor ()
      ensures tables == map[]
    {
      tables := map[];
    }

    ghost predicate Valid()
      reads this
    {
      forall n :: n in tables ==> tables[n].WellFormed()
    }
  }

  /** One table of the database file, driven by its configuration. */
  class Table {
    const config: TableConfig
    const db: Store

    constructor (config: TableConfig, db: Store)
      requires config.WellFormed()
      ensures this.config == config && this.db == db
    {
      this.config := config;
      this.db := db;
    }

    /** The file is well formed and a table of this name, if any, has this table's columns. */
    ghost predicate Valid()
      reads db
    {
      && config.WellFormed()
      && db.Valid()
      && (config.name in db.tables ==> db.tables[config.name].cols == config.AllCols())
    }

    method Exists() returns (b: bool)
      ensures b <==> config.name in db.tables
    {
      b := config.name in db.tables;
    }

    /** Creates the table with the declared columns and no rows; fails if it exists. */
    method Create() returns (r: Outcome<Error>)
      requires Valid()
      modifies db
      ensures Valid()
      ensures old(config.name in db.tables) ==> r == Fail(TableExists(config.name)) && db.tables == old(db.tables)
      ensures old(config.name !in db.tables) ==>
                r == Pass && db.tables == old(db.tables)[config.name := Relation(config.AllCols(), [])]
    {
      if config.name in db.tables {
        return Fail(TableExists(config.name));
      }
      db.tables := db.tables[config.name := Relation(config.AllCols(), [])];
      return Pass;
    }

    /**
     * Validates the arguments, runs the duplicate-row guard, stamps the
     * system columns and appends one row; on any failure nothing is written.
     */
    method Insert(kwargs: Kwargs, uuid: string, now: int) returns (r: Outcome<Error>)
      requires Valid()
      modifies db
      ensures Valid()
      ensures CheckKwargsSane(config, kwargs).Some? ==> r == Fail(CheckKwargsSane(config, kwargs).value)
      ensures CheckKwargsSane(config, kwargs).None? ==>
                var guard := CheckRowExists(config, Lookup(old(db.tables), config.name), kwargs);
                guard.Some? ==> r == Fail(guard.value)
      ensures r.Pass? <==>
                && CheckKwargsSane(config, kwargs).None?
                && CheckRowExists(config, Lookup(old(db.tables), config.name), kwargs).None?
                && config.name in old(db.tables)
                && forall j :: 0 <= j < |config.AllCols()| ==> Storable(NewRow(config, kwargs, uuid, now)[j])
      ensures CheckKwargsSane(config, kwargs).None? && CheckRowExists(config, Lookup(old(db.tables), config.name), kwargs).None?
              && r.Fail? ==>
                r.error == if config.name !in old(db.tables) then NoSuchTable(config.name) else Unbindable(config.name)
      ensures r == InsertOutcome(config, old(db.tables), kwargs, uuid, now)
      ensures r.Fail? ==> db.tables == old(db.tables)
      ensures r.Pass? ==>
                var rel := old(db.tables)[config.name];
                db.tables == old(db.tables)[config.name := rel.(rows := rel.rows + [NewRow(config, kwargs, uuid, now)])]
    {
      var e := CheckKwargsSane(config, kwargs);
      if e.Some? {
        return Fail(e.value);
      }
      var rel := Lookup(db.tables, config.name);
      e := CheckRowExists(config, rel, kwargs);
      if e.Some? {
        return Fail(e.value);
      }
      if rel.None? {
        return Fail(NoSuchTable(config.name));
      }
      var stamped := Set(kwargs, "id", Str(uuid));
      stamped := Set(stamped, "created_at", Int(now));
      StampedProjection(config, kwargs, uuid, now);
      stamped := Set(stamped, "updated_at", Get(stamped, "created_at").value);
      var vals := KwargsToVals(config.AllCols(), stamped);
      if exists j :: 0 <= j < |vals| && !Storable(vals[j]) {
        return Fail(Unbindable(config.name));
      }
      ghost var tables := db.tables;
      var rel' := Append(rel.value, vals);
      db.tables := db.tables[config.name := rel'];
      assert forall n :: n in db.tables ==> db.tables[n] == rel' || db.tables[n] == tables[n];
      return Pass;
    }

    /** The stored rows equal to every filter value, in stored order. */
    method Select(filters: Kwargs) returns (r: Result<seq<RowMap>, Error>)
      requires Valid()
      ensures CheckKwargsSane(config, filters).Some? ==> r == Failure(CheckKwargsSane(config, filters).value)
      ensures CheckKwargsSane(config, filters).None? && filters == [] ==> r == Failure(EmptyFilter(config.name))
      ensures CheckKwargsSane(config, filters).None? && filters != [] && config.name !in db.tables ==>
                r == Failure(NoSuchTable(config.name))
      ensures CheckKwargsSane(config, filters).None? && filters != [] && config.name in db.tables ==>
                r == Success(Filter(db.tables[config.name].Dicts(), filters))
    {
      var e := CheckKwargsSane(config, filters);
      if e.Some? {
        return Failure(e.value);
      }
      if filters == [] {
        return Failure(EmptyFilter(config.name));
      }
      if config.name !in db.tables {
        return Failure(NoSuchTable(config.name));
      }
      var rel := db.tables[config.name];
      var rows := FetchAll(rel);
      assert rows == rel.Dicts();
      return Success(Filter(rows, filters));
    }

    /** Every stored row, in stored order. */
    method Dump() returns (r: Result<seq<RowMap>, Error>)
      requires Valid()
      ensures config.name !in db.tables ==> r == Failure(NoSuchTable(config.name))
      ensures config.name in db.tables ==>
                var rel := db.tables[config.name];
                && r.Success? && |r.value| == |rel.rows|
                && forall i :: 0 <= i < |rel.rows| ==> r.value[i] == RowDict(rel.cols, rel.rows[i])
    {
      if config.name !in db.tables {
        return Failure(NoSuchTable(config.name));
      }
      var rows := FetchAll(db.tables[config.name]);
      return Success(rows);
    }

    /**
     * Inserts the commit's attributes named by the data columns: `to_dict`
     * followed by `insert` of the dictionary it builds.
     */
    method InsertCommit(c: Commit, uuid: string, now: int) returns (r: Outcome<Error>)
      requires Valid()
      modifies db
      ensures Valid()
      ensures r.Fail? ==> db.tables == old(db.tables)
      ensures (exists j :: 0 <= j < |config.dataCols| && config.dataCols[j] !in c.Attributes()) ==>
                r.Fail? && r.error.NoSuchAttribute?
      ensures (forall a :: a in config.dataCols ==> a in c.Attributes()) ==>
                r == InsertOutcome(config, old(db.tables), AttributeKwargs(config.dataCols, c.Attributes()), uuid, now)
      ensures r.Pass? ==>
                && (forall a :: a in config.dataCols ==> a in c.Attributes())
                && config.name in old(db.tables)
                && var rel := old(db.tables)[config.name];
                   var row := NewRow(config, AttributeKwargs(config.dataCols, c.Attributes()), uuid, now);
                   db.tables == old(db.tables)[config.name := rel.(rows := rel.rows + [row])]
      ensures config == CommitTable ==>
                r == if !IsCommitId(c.commitId) then Fail(InvalidId(config.name, "commit_id", c.commitId))
                     else if config.name !in old(db.tables) then Fail(NoSuchTable(config.name))
                     else if StoredCommit(old(db.tables)[config.name], c.commitId) then Fail(RowExists(config.name, [Str(c.commitId)]))
                     else if InInt64(now) && InInt64(c.committedAt) && InInt64(c.authoredAt) then Pass
                     else Fail(Unbindable(config.name))
    {
      var d := c.ToDict(config.dataCols);
      if d.Failure? {
        return Fail(NoSuchAttribute(d.error));
      }
      ghost var attributes := c.Attributes();
      assert d.value == AttributeKwargs(config.dataCols, attributes) by {
        config.DataColsDistinct();
        ToDictIsAttributeKwargs(d.value, config.dataCols, attributes);
      }
      ghost var tables := db.tables;
      r := Insert(d.value, uuid, now);
      if config == CommitTable {
        CommitTableArgs(c, tables, uuid, now);
      }
    }
  }

  /** The dictionary `to_dict` builds over distinct names that are all attributes. */
  function AttributeKwargs(names: seq<string>, attributes: map<string, Value>): Kwargs
    requires forall a :: a in names ==> a in attributes
  {
    seq(|names|, i requires 0 <= i < |names| => (names[i], attributes[names[i]]))
  }

  /** A dictionary over distinct names, each bound to its attribute, is the one `AttributeKwargs` describes. */
  lemma ToDictIsAttributeKwargs(d: Kwargs, names: seq<string>, attributes: map<string, Value>)
    requires Distinct(names) && Keys(d) == names
    requires forall a :: a in names ==> a in attributes && Get(d, a) == Some(attributes[a])
    ensures d == AttributeKwargs(names, attributes)
  {
    forall i | 0 <= i < |d| ensures d[i] == (names[i], attributes[names[i]]) {
      GetDistinct(d, i);
      assert Keys(d)[i] == d[i].0;
      assert names[i] in names;
    }
  }

  /**
   * The row `insert_commit` stores holds, under each data column, the
   * commit's attribute of that name, next to the stamped system columns.
   */
  lemma AttributeRowDict(cfg: TableConfig, attributes: map<string, Value>, uuid: string, now: int)
    requires cfg.WellFormed() && forall a :: a in cfg.dataCols ==> a in attributes
    ensures var d := RowDict(cfg.AllCols(), NewRow(cfg, AttributeKwargs(cfg.dataCols, attributes), uuid, now));
            && d["id"] == Str(uuid) && d["created_at"] == d["updated_at"] == Int(now)
            && forall a :: a in cfg.dataCols ==> d[a] == attributes[a]
  {
    var kw := AttributeKwargs(cfg.dataCols, attributes);
    NewRowDict(cfg, kw, uuid, now);
    assert Keys(kw) == cfg.dataCols;
    cfg.DataColsDistinct();
    forall a | a in cfg.dataCols ensures Get(kw, a) == Some(attributes[a]) {
      var i :| 0 <= i < |cfg.dataCols| && cfg.dataCols[i] == a;
      GetDistinct(kw, i);
    }
  }

  /** A stored row holds `id` under `commit_id`. */
  predicate HoldsCommit(row: RowMap, id: string) {
    "commit_id" in row && row["commit_id"] == Str(id)
  }

  /** Some stored row of the relation holds commit `id`. */
  predicate StoredCommit(rel: Relation, id: string)
    requires rel.WellFormed()
  {
    exists k :: 0 <= k < |rel.rows| && HoldsCommit(rel.Dicts()[k], id)
  }

  /** After `insert_commit` appends its row, the commit is stored. */
  lemma InsertedCommitStored(cfg: TableConfig, rel: Relation, attributes: map<string, Value>, id: string, uuid: string, now: int)
    requires cfg.WellFormed() && "commit_id" in cfg.dataCols
    requires forall a :: a in cfg.dataCols ==> a in attributes
    requires attributes["commit_id"] == Str(id)
    requires rel.WellFormed() && rel.cols == cfg.AllCols()
    requires forall j :: 0 <= j < |rel.cols| ==> Storable(NewRow(cfg, AttributeKwargs(cfg.dataCols, attributes), uuid, now)[j])
    ensures StoredCommit(rel.(rows := rel.rows + [NewRow(cfg, AttributeKwargs(cfg.dataCols, attributes), uuid, now)]), id)
  {
    var row := NewRow(cfg, AttributeKwargs(cfg.dataCols, attributes), uuid, now);
    var rel' := Append(rel, row);
    AttributeRowDict(cfg, attributes, uuid, now);
    assert rel'.Dicts()[|rel.rows|] == RowDict(cfg.AllCols(), row);
    assert HoldsCommit(rel'.Dicts()[|rel.rows|], id);
  }

  /** The only `_id` column of the commit table is `commit_id`. */
  lemma CommitIdColumns()
    ensures forall c :: c in CommitTable.dataCols && EndsWithId(c) ==> c == "commit_id"
  {
    assert "subject"[4..] != "_id" && "details"[4..] != "_id";
    assert "committed_at"[9..] != "_id" && "authored_at"[8..] != "_id";
    assert "author_name"[8..] != "_id" && "author_email"[9..] != "_id";
  }

  /** The keyword arguments `insert_commit` passes to the commit table, in column order. */
  function CommitArgsOf(id: string, subject: string, details: string, committedAt: int,
                        authorName: string, authorEmail: string, authoredAt: int): Kwargs
  {
    [("commit_id", Str(id)), ("subject", Str(subject)), ("details", Str(details)),
     ("committed_at", Int(committedAt)), ("author_name", Str(authorName)),
     ("author_email", Str(authorEmail)), ("authored_at", Int(authoredAt))]
  }

  /** `to_dict` over the commit table's data columns gives the commit's seven fields in column order. */
  lemma CommitArgs(c: Commit)
    ensures forall a :: a in CommitTable.dataCols ==> a in c.Attributes()
    ensures AttributeKwargs(CommitTable.dataCols, c.Attributes())
            == CommitArgsOf(c.commitId, c.subject, c.details, c.committedAt, c.authorName, c.authorEmail, c.authoredAt)
  {
    var attributes := c.Attributes();
    assert attributes["commit_id"] == Str(c.commitId) && attributes["subject"] == Str(c.subject);
    assert attributes["details"] == Str(c.details) && attributes["committed_at"] == Int(c.committedAt);
    assert attributes["author_name"] == Str(c.authorName) && attributes["author_email"] == Str(c.authorEmail);
    assert attributes["authored_at"] == Int(c.authoredAt);
    var kw := AttributeKwargs(CommitTable.dataCols, attributes);
    var expected := CommitArgsOf(c.commitId, c.subject, c.details, c.committedAt, c.authorName, c.authorEmail, c.authoredAt);
    assert |kw| == |expected| == 7;
    forall i | 0 <= i < 7 ensures kw[i] == expected[i] {
    }
  }

  /**
   * What the commit table's checks make of a commit's arguments: the sanity
   * check rejects only a malformed hash, the guard reports a missing table or
   * a stored row with the same hash, and the row binds exactly when the clock
   * reading and the dates fit in 64 bits.
   */
  lemma CommitTableArgs(c: Commit, tables: map<string, Relation>, uuid: string, now: int)
    requires CommitTable.name in tables ==> tables[CommitTable.name].WellFormed()
    ensures forall a :: a in CommitTable.dataCols ==> a in c.Attributes()
    ensures InsertOutcome(CommitTable, tables, AttributeKwargs(CommitTable.dataCols, c.Attributes()), uuid, now)
            == if !IsCommitId(c.commitId) then Fail(InvalidId(CommitTable.name, "commit_id", c.commitId))
               else if CommitTable.name !in tables then Fail(NoSuchTable(CommitTable.name))
               else if StoredCommit(tables[CommitTable.name], c.commitId) then Fail(RowExists(CommitTable.name, [Str(c.commitId)]))
               else if InInt64(now) && InInt64(c.committedAt) && InInt64(c.authoredAt) then Pass
               else Fail(Unbindable(CommitTable.name))
  {
    CommitArgs(c);
    CommitArgsSane(c.commitId, c.subject, c.details, c.committedAt, c.authorName, c.authorEmail, c.authoredAt);
    CommitArgsGuard(c.commitId, c.subject, c.details, c.committedAt, c.authorName, c.authorEmail, c.authoredAt,
                    Lookup(tables, CommitTable.name));
    CommitArgsStorable(c.commitId, c.subject, c.details, c.committedAt, c.authorName, c.authorEmail, c.authoredAt, uuid, now);
  }

  /**
   * The commit table's sanity check of a commit's arguments fails exactly
   * when the hash is not a commit identifier, and then names it.
   */
  lemma CommitArgsSane(id: string, subject: string, details: string, committedAt: int,
                       authorName: string, authorEmail: string, authoredAt: int)
    ensures CheckKwargsSane(CommitTable, CommitArgsOf(id, subject, details, committedAt, authorName, authorEmail, authoredAt))
            == if IsCommitId(id) then None else Some(InvalidId(CommitTable.name, "commit_id", id))
  {
    var kw := CommitArgsOf(id, subject, details, committedAt, authorName, authorEmail, authoredAt);
    CommitIdColumns();
    var cols := CommitTable.dataCols;
    assert forall i :: 0 <= i < |kw| ==> kw[i].0 == cols[i];
    forall i | 1 <= i < |kw| ensures Accepted(CommitTable, kw[i]) {
      assert cols[i] in cols && cols[i] in CommitTable.AllCols() && cols[i] != "commit_id";
    }
    var tail := kw[1..];
    CheckKwargsSaneSpec(CommitTable, tail);
    assert forall i :: 0 <= i < |tail| ==> tail[i] == kw[i + 1];
    assert CheckKwargsSane(CommitTable, tail) == None;
    assert "commit_id" in CommitTable.AllCols() && "commit_id"[6..] == "_id";
  }

  /**
   * The duplicate guard on a commit's arguments reports a missing table,
   * reports a duplicate exactly when a stored row holds the same hash, and
   * otherwise passes.
   */
  lemma CommitArgsGuard(id: string, subject: string, details: string, committedAt: int,
                        authorName: string, authorEmail: string, authoredAt: int, rel: Option<Relation>)
    requires rel.Some? ==> rel.value.WellFormed()
    ensures CheckRowExists(CommitTable, rel, CommitArgsOf(id, subject, details, committedAt, authorName, authorEmail, authoredAt))
            == if rel.None? then Some(NoSuchTable(CommitTable.name))
               else if StoredCommit(rel.value, id) then Some(RowExists(CommitTable.name, [Str(id)]))
               else None
  {
    var kw := CommitArgsOf(id, subject, details, committedAt, authorName, authorEmail, authoredAt);
    assert Keys(kw)[0] == "commit_id";
    assert Get(kw, "commit_id") == Some(Str(id));
    assert FirstMissing(CommitTable.uniqueCols, kw).None?;
    var vals := UniqueVals(CommitTable, kw);
    assert vals == [Str(id)];
    if rel.Some? {
      var ds := rel.value.Dicts();
      forall k | 0 <= k < |rel.value.rows| ensures Duplicates(CommitTable, ds[k], kw) <==> HoldsCommit(ds[k], id) {
        DuplicateCommit(ds[k], kw, id);
      }
    }
  }

  /** On the commit table, a row duplicates arguments exactly when it holds their hash. */
  lemma DuplicateCommit(row: RowMap, kw: Kwargs, id: string)
    requires Get(kw, "commit_id") == Some(Str(id))
    ensures Duplicates(CommitTable, row, kw) <==> HoldsCommit(row, id)
  {
    assert CommitTable.uniqueCols == ["commit_id"];
    assert "commit_id" in CommitTable.uniqueCols;
  }

  /**
   * A commit's row can be bound exactly when the clock reading and the two
   * dates fit in a 64-bit integer.
   */
  lemma CommitArgsStorable(id: string, subject: string, details: string, committedAt: int,
                           authorName: string, authorEmail: string, authoredAt: int, uuid: string, now: int)
    ensures var row := NewRow(CommitTable, CommitArgsOf(id, subject, details, committedAt, authorName, authorEmail, authoredAt), uuid, now);
            (forall j :: 0 <= j < |CommitTable.AllCols()| ==> Storable(row[j]))
            <==> InInt64(now) && InInt64(committedAt) && InInt64(authoredAt)
  {
    var kw := CommitArgsOf(id, subject, details, committedAt, authorName, authorEmail, authoredAt);
    var row := NewRow(CommitTable, kw, uuid, now);
    var cols := CommitTable.AllCols();
    CommitTableWellFormed();
    CommitTable.DataColsDistinct();
    assert Keys(kw) == CommitTable.dataCols;
    forall j | 3 <= j < |cols| ensures row[j] == kw[j - 3].1 {
      assert cols[j] == kw[j - 3].0;
      assert cols[j] != "id" && cols[j] != "created_at" && cols[j] != "updated_at";
      GetDistinct(kw, j - 3);
    }
    assert row == [Str(uuid), Int(now), Int(now), Str(id), Str(subject), Str(details),
                   Int(committedAt), Str(authorName), Str(authorEmail), Int(authoredAt)];
    if forall j :: 0 <= j < |cols| ==> Storable(row[j]) {
      assert Storable(row[1]) && Storable(row[6]) && Storable(row[9]);
    }
  }

  /** The three tables of one database file. */
  class DataBase {
    const store: Store
    const commit: Table
    const patchId: Table
    const fixes: Table

    /** Opens the file; any of the three tables it already holds must have that table's columns. */
    constructor (store: Store)
      requires store.Valid()
      requires forall cfg :: cfg in [CommitTable, PatchIdTable, FixesTable] && cfg.name in store.tables ==>
                 store.tables[cfg.name].cols == cfg.AllCols()
      ensures Valid() && this.store == store
    {
      ConfigsWellFormed();
      this.store := store;
      commit := new Table(CommitTable, store);
      patchId := new Table(PatchIdTable, store);
      fixes := new Table(FixesTable, store);
    }

    ghost predicate Valid()
      reads store
    {
      && commit.db == store && patchId.db == store && fixes.db == store
      && commit.config == CommitTable && patchId.config == PatchIdTable && fixes.config == FixesTable
      && commit.Valid() && patchId.Valid() && fixes.Valid()
    }

    /** Creates each table that does not exist yet; never fails. */
    method Init()
      requires Valid()
      modifies store
      ensures Valid()
      ensures store.tables == InitTables(old(store.tables))
    {
      ConfigsWellFormed();
      var present := commit.Exists();
      if !present {
        var r := commit.Create();
        assert r == Pass;
      }
      present := patchId.Exists();
      if !present {
        var r := patchId.Create();
        assert r == Pass;
      }
      present := fixes.Exists();
      if !present {
        var r := fixes.Create();
        assert r == Pass;
      }
    }
  }

  /**
   * `insert_commit` of a commit that the commit table does not hold yet, with
   * a well-formed hash and 64-bit dates, succeeds, and inserting the same
   * commit again is refused as a duplicate; a malformed hash is refused both
   * times.
   */
  method InsertCommitTwice(t: Table, c: Commit, uuid1: string, uuid2: string, now1: int, now2: int)
    returns (r1: Outcome<Error>, r2: Outcome<Error>)
    requires t.Valid() && t.config == CommitTable
    requires CommitTable.name in t.db.tables && !StoredCommit(t.db.tables[CommitTable.name], c.commitId)
    requires InInt64(now1) && InInt64(c.committedAt) && InInt64(c.authoredAt)
    modifies t.db
    ensures IsCommitId(c.commitId) ==> r1 == Pass && r2 == Fail(RowExists(CommitTable.name, [Str(c.commitId)]))
    ensures !IsCommitId(c.commitId) ==> r1 == r2 == Fail(InvalidId(CommitTable.name, "commit_id", c.commitId))
  {
    ghost var rel := t.db.tables[CommitTable.name];
    r1 := t.InsertCommit(c, uuid1, now1);
    if r1.Pass? {
      assert StoredCommit(t.db.tables[CommitTable.name], c.commitId) by {
        InsertedCommitStored(CommitTable, rel, c.Attributes(), c.commitId, uuid1, now1);
      }
    }
    r2 := t.InsertCommit(c, uuid2, now2);
  }
}
