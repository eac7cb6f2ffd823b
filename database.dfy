/** The schema catalog and vault-table management of src/database.rs, over an abstract
    in-memory store standing in for MySQL.

    The store keeps the two catalog relations (`table_index` with auto-increment ids and
    `column_index`), the physical vault tables by name, and the log of every write
    statement issued to it. SQL text is not interpreted: each store method is told what
    its statement does. A failing statement is injected through a `Fault`, which names
    the position (in issue order, from 0) of the statement that fails and the error it
    fails with. */
module Database {
  import opened Wrappers
  import opened Text
  import opened Data

  const VaultTablePrefix: string := "vault_"
  const ExtraColumnPrefix: string := "extra_"

  /** The two kinds of `sqlx::Error` the callers tell apart: an error reported by the
      database server (with its message), and every other driver error. */
  datatype DbError = Database(message: string) | Driver

  /** Which statement of a multi-statement operation fails, if any. */
  datatype Fault = NoFault | FailAt(step: nat, error: DbError)

  /** The error the statement at position `step` fails with. */
  function FaultAt(fault: Fault, step: nat): (r: Option<DbError>)
    ensures r.Some? <==> fault.FailAt? && fault.step == step
    ensures r.Some? ==> r.value == fault.error
  {
    if fault.FailAt? && fault.step == step then Some(fault.error) else None
  }

  /** Some statement among the first `total` fails. */
  predicate FailsWithin(fault: Fault, total: nat) {
    fault.FailAt? && fault.step < total
  }

  /** A write statement as the store received it. */
  datatype Statement =
    | InsertTableIndex(uiName: string)
    | InsertColumnIndex(tableName: string, columnName: string, uiName: string, required: bool, encrypted: bool)
    | CreateTable(tableName: string, sql: string)
    | InsertVaultData(tableId: nat, values: map<string, string>)

  /** A row of a physical vault table: the `id` column, then the varchar columns. */
  datatype StoredRow = StoredRow(id: nat, varchars: seq<string>)

  // ---------------------------------------------------------------------------
  // Names

  /** `gen_vault_table_name`: `vault_` followed by the decimal digits of the id. */
  function VaultTableName(id: nat): (name: string)
    ensures |name| > |VaultTablePrefix| && name[..|VaultTablePrefix|] == VaultTablePrefix
    ensures forall i :: |VaultTablePrefix| <= i < |name| ==> IsDigit(name[i])
  {
    VaultTablePrefix + DecimalDigits(id)
  }

  /** Recovers the id from a physical vault table name. */
  function ParseVaultTableName(name: string): Option<nat> {
    if |name| > |VaultTablePrefix| && name[..|VaultTablePrefix|] == VaultTablePrefix
    then ParseDecimal(name[|VaultTablePrefix|..])
    else None
  }

  /** The name of a vault table determines its id. */
  lemma VaultTableNameRoundTrip(id: nat)
    ensures ParseVaultTableName(VaultTableName(id)) == Some(id)
  {
    var name := VaultTableName(id);
    assert name[|VaultTablePrefix|..] == DecimalDigits(id);
    ParseDecimalDigits(id);
  }

  /** No two ids share a physical table name. */
  lemma VaultTableNameInjective(a: nat, b: nat)
    ensures VaultTableName(a) == VaultTableName(b) <==> a == b
  {
    VaultTableNameRoundTrip(a);
    VaultTableNameRoundTrip(b);
  }

  /** The physical name of the `i`-th extra column: `extra_` followed by the digits of `i`. */
  function ExtraColumnName(i: nat): (name: string)
    ensures |name| > |ExtraColumnPrefix| && name[..|ExtraColumnPrefix|] == ExtraColumnPrefix
    ensures forall k :: |ExtraColumnPrefix| <= k < |name| ==> IsDigit(name[k])
  {
    ExtraColumnPrefix + DecimalDigits(i)
  }

  /** The names `extra_0 .. extra_{n-1}` built for `n` extra columns. */
  function ExtraColumnNames(n: nat): (names: seq<string>)
    ensures |names| == n
    ensures forall i :: 0 <= i < n ==> names[i] == ExtraColumnName(i)
  {
    seq(n, i requires 0 <= i < n => ExtraColumnName(i))
  }

  /** The extra column names are pairwise distinct and differ from the two fixed columns. */
  lemma ExtraColumnNamesDistinct(n: nat)
    ensures forall i, j :: 0 <= i < j < n ==> ExtraColumnNames(n)[i] != ExtraColumnNames(n)[j]
    ensures forall i :: 0 <= i < n ==> ExtraColumnNames(n)[i] != "key_" && ExtraColumnNames(n)[i] != "password"
  {
    var names := ExtraColumnNames(n);
    forall i, j | 0 <= i < j < n ensures names[i] != names[j] {
      assert names[i][|ExtraColumnPrefix|..] == DecimalDigits(i);
      assert names[j][|ExtraColumnPrefix|..] == DecimalDigits(j);
      DecimalDigitsInjective(i, j);
    }
    forall i | 0 <= i < n ensures names[i] != "key_" && names[i] != "password" {
      assert names[i][..|ExtraColumnPrefix|] == ExtraColumnPrefix;
    }
  }

  // ---------------------------------------------------------------------------
  // The CREATE TABLE statement

  /** One column definition as the statement writes it: `, <name> varchar(256)`. */
  function ColumnDefinition(name: string): string {
    ", " + name + " varchar(256)"
  }

  /** The `fold` over the extra column names: appends the definition of each name. */
  function FoldExtraColumns(acc: string, names: seq<string>): string
    decreases |names|
  {
    if |names| == 0 then acc
    else FoldExtraColumns(acc + ColumnDefinition(names[0]), names[1..])
  }

  /** The column definitions of `names`, in order. */
  function ColumnDefinitions(names: seq<string>): string {
    Concat(seq(|names|, i requires 0 <= i < |names| => ColumnDefinition(names[i])))
  }

  lemma ColumnDefinitionsCons(name: string, names: seq<string>)
    ensures ColumnDefinitions([name] + names) == ColumnDefinition(name) + ColumnDefinitions(names)
  {
    var defs := seq(|names|, i requires 0 <= i < |names| => ColumnDefinition(names[i]));
    var all := [name] + names;
    assert seq(|all|, i requires 0 <= i < |all| => ColumnDefinition(all[i])) == [ColumnDefinition(name)] + defs;
    ConcatAppend([ColumnDefinition(name)], defs);
  }

  /** The left fold yields exactly the accumulator followed by one definition per name. */
  lemma {:induction false} FoldExtraColumnsIsDefinitions(acc: string, names: seq<string>)
    ensures FoldExtraColumns(acc, names) == acc + ColumnDefinitions(names)
    decreases |names|
  {
    if |names| == 0 {
      assert ColumnDefinitions(names) == [];
    } else {
      FoldExtraColumnsIsDefinitions(acc + ColumnDefinition(names[0]), names[1..]);
      ColumnDefinitionsCons(names[0], names[1..]);
      assert [names[0]] + names[1..] == names;
    }
  }

  const CreateTableHead: string := "CREATE TABLE IF NOT EXISTS "
  const IdColumn: string := " (id int UNSIGNED PRIMARY KEY AUTO_INCREMENT"

  /** The statement text that creates the physical table `tableName`. */
  function CreateTableStatement(tableName: string, extraColumnNames: seq<string>): string {
    CreateTableHead + tableName + IdColumn + ColumnDefinition(KeyColumn) + ColumnDefinition(PasswordColumn)
      + FoldExtraColumns("", extraColumnNames) + ")"
  }

  // ---------------------------------------------------------------------------
  // The catalog entries written by create_vault_table

  const KeyColumn: string := "key_"
  const PasswordColumn: string := "password"

  /** The column-index entries of a new vault table, in insertion order: `key_` (required,
      shown in clear), `password` (required, encrypted), then `extra_i` for `extra[i]`
      (neither), with the ids the auto-increment counter hands out from `firstId` on. */
  function PlannedColumns(firstId: nat, tableName: string, keyUiName: string, passwordUiName: string,
                          extra: seq<string>): (cols: seq<ColumnIndexEntry>)
    ensures |cols| == 2 + |extra|
    ensures forall k :: 0 <= k < |cols| ==> cols[k].tableName == tableName && cols[k].id == firstId + k
    ensures cols[0].columnName == KeyColumn && cols[0].uiName == keyUiName
    ensures cols[0].required && !cols[0].encrypted
    ensures cols[1].columnName == PasswordColumn && cols[1].uiName == passwordUiName
    ensures cols[1].required && cols[1].encrypted
    ensures forall k :: 2 <= k < |cols| ==>
      cols[k].columnName == ExtraColumnName(k - 2) && cols[k].uiName == extra[k - 2] &&
      !cols[k].required && !cols[k].encrypted
    ensures forall i, j :: 0 <= i < j < |cols| ==> cols[i].columnName != cols[j].columnName
  {
    var names := ExtraColumnNames(|extra|);
    ExtraColumnNamesDistinct(|extra|);
    seq(2 + |extra|, k requires 0 <= k < 2 + |extra| =>
      if k == 0 then ColumnIndexEntry(firstId, tableName, KeyColumn, keyUiName, true, false)
      else if k == 1 then ColumnIndexEntry(firstId + 1, tableName, PasswordColumn, passwordUiName, true, true)
      else ColumnIndexEntry(firstId + k, tableName, names[k - 2], extra[k - 2], false, false))
  }

  /** The physical column names of a catalog, in order. */
  function ColumnNames(cols: seq<ColumnIndexEntry>): (names: seq<string>)
    ensures |names| == |cols|
    ensures forall k :: 0 <= k < |cols| ==> names[k] == cols[k].columnName
  {
    seq(|cols|, k requires 0 <= k < |cols| => cols[k].columnName)
  }

  /** The planned catalog describes the physical table the statement creates: after the
      `id` column come exactly the catalog's column names, in catalog order. */
  lemma CreateStatementFollowsCatalog(firstId: nat, tableName: string, keyUiName: string,
                                      passwordUiName: string, extra: seq<string>)
    ensures CreateTableStatement(tableName, ExtraColumnNames(|extra|))
      == CreateTableHead + tableName + IdColumn
         + ColumnDefinitions(ColumnNames(PlannedColumns(firstId, tableName, keyUiName, passwordUiName, extra)))
         + ")"
  {
    var names := ColumnNames(PlannedColumns(firstId, tableName, keyUiName, passwordUiName, extra));
    var extras := ExtraColumnNames(|extra|);
    var rest := ColumnDefinitions(extras);
    var prefix := CreateTableHead + tableName + IdColumn;
    assert names == [KeyColumn] + ([PasswordColumn] + extras);
    ColumnDefinitionsCons(KeyColumn, [PasswordColumn] + extras);
    ColumnDefinitionsCons(PasswordColumn, extras);
    FoldExtraColumnsIsDefinitions("", extras);
    assert FoldExtraColumns("", extras) == rest;
    calc {
      CreateTableStatement(tableName, extras);
      prefix + ColumnDefinition(KeyColumn) + ColumnDefinition(PasswordColumn) + rest + ")";
      prefix + (ColumnDefinition(KeyColumn) + (ColumnDefinition(PasswordColumn) + rest)) + ")";
      prefix + ColumnDefinitions(names) + ")";
    }
  }

  /** The insert statement that writes a column-index entry. */
  function ColumnStatement(c: ColumnIndexEntry): Statement {
    InsertColumnIndex(c.tableName, c.columnName, c.uiName, c.required, c.encrypted)
  }

  /** The statements `create_vault_table` issues when none fails, in order: the table-index
      insert, the column-index inserts in catalog order, then the `CREATE TABLE`. */
  function CreatePlan(id: nat, firstColumnId: nat, uiName: string, keyUiName: string,
                      passwordUiName: string, extra: seq<string>): (plan: seq<Statement>)
    ensures |plan| == 4 + |extra|
  {
    var name := VaultTableName(id);
    var planned := PlannedColumns(firstColumnId, name, keyUiName, passwordUiName, extra);
    var create := CreateTable(name, CreateTableStatement(name, ExtraColumnNames(|extra|)));
    seq(4 + |extra|, k requires 0 <= k < 4 + |extra| =>
      if k == 0 then InsertTableIndex(uiName)
      else if k <= 2 + |extra| then ColumnStatement(planned[k - 1])
      else create)
  }

  /** The plan statement by statement, as `create_vault_table` issues them. */
  lemma CreatePlanSteps(id: nat, firstColumnId: nat, uiName: string, keyUiName: string,
                        passwordUiName: string, extra: seq<string>)
    ensures var plan := CreatePlan(id, firstColumnId, uiName, keyUiName, passwordUiName, extra);
      var name := VaultTableName(id);
      && plan[0] == InsertTableIndex(uiName)
      && plan[1] == InsertColumnIndex(name, KeyColumn, keyUiName, true, false)
      && plan[2] == InsertColumnIndex(name, PasswordColumn, passwordUiName, true, true)
      && (forall i :: 0 <= i < |extra| ==> plan[3 + i] == InsertColumnIndex(name, ExtraColumnName(i), extra[i], false, false))
      && plan[3 + |extra|] == CreateTable(name, CreateTableStatement(name, ExtraColumnNames(|extra|)))
      && forall k :: 0 <= k < 2 + |extra| ==>
           plan[1 + k] == ColumnStatement(PlannedColumns(firstColumnId, name, keyUiName, passwordUiName, extra)[k])
  {
    var plan := CreatePlan(id, firstColumnId, uiName, keyUiName, passwordUiName, extra);
    var name := VaultTableName(id);
    var planned := PlannedColumns(firstColumnId, name, keyUiName, passwordUiName, extra);
    assert plan[1] == ColumnStatement(planned[0]);
    assert plan[2] == ColumnStatement(planned[1]);
    forall i | 0 <= i < |extra|
      ensures plan[3 + i] == InsertColumnIndex(name, ExtraColumnName(i), extra[i], false, false)
    {
      assert plan[3 + i] == ColumnStatement(planned[2 + i]);
      assert planned[2 + i] == ColumnIndexEntry(firstColumnId + 2 + i, name, ExtraColumnNames(|extra|)[i], extra[i], false, false);
    }
  }

  /** How many of `total` statements are issued: all of them, or up to and including the failing one. */
  function IssuedCount(fault: Fault, total: nat): (n: nat)
    ensures n <= total
  {
    if FailsWithin(fault, total) then fault.step + 1 else total
  }

  /** How many column-index inserts of a `create_vault_table` with `n` extras take effect. */
  function ColumnsWritten(fault: Fault, n: nat): (c: nat)
    ensures c <= 2 + n
  {
    if !FailsWithin(fault, 4 + n) then 2 + n
    else if fault.step == 0 then 0
    else fault.step - 1
  }

  // ---------------------------------------------------------------------------
  // Catalog queries

  /** `SELECT * FROM table_index WHERE id = ?`, fetched as an optional row. */
  function FindTableIndexEntry(entries: seq<TableIndexEntry>, id: nat): (r: Option<TableIndexEntry>)
    ensures r.None? <==> forall i :: 0 <= i < |entries| ==> entries[i].id != id
    ensures r.Some? ==> r.value in entries && r.value.id == id
  {
    if |entries| == 0 then None
    else if entries[0].id == id then Some(entries[0])
    else FindTableIndexEntry(entries[1..], id)
  }

  /** `SELECT * FROM column_index WHERE table_name = ?`, in index order. */
  function ColumnsOf(entries: seq<ColumnIndexEntry>, tableName: string): (r: seq<ColumnIndexEntry>)
    ensures forall e :: e in r <==> e in entries && e.tableName == tableName
    ensures |r| <= |entries|
    ensures (forall k :: 0 <= k < |entries| ==> entries[k].tableName != tableName) ==> r == []
  {
    if |entries| == 0 then []
    else if entries[|entries| - 1].tableName == tableName
    then ColumnsOf(entries[..|entries| - 1], tableName) + [entries[|entries| - 1]]
    else ColumnsOf(entries[..|entries| - 1], tableName)
  }

  lemma {:induction false} ColumnsOfAppend(entries: seq<ColumnIndexEntry>, more: seq<ColumnIndexEntry>, tableName: string)
    ensures ColumnsOf(entries + more, tableName) == ColumnsOf(entries, tableName) + ColumnsOf(more, tableName)
    decreases |more|
  {
    if |more| == 0 {
      assert entries + more == entries;
    } else {
      assert (entries + more)[..|entries + more| - 1] == entries + more[..|more| - 1];
      ColumnsOfAppend(entries, more[..|more| - 1], tableName);
    }
  }

  lemma {:induction false} ColumnsOfAll(entries: seq<ColumnIndexEntry>, tableName: string)
    requires forall k :: 0 <= k < |entries| ==> entries[k].tableName == tableName
    ensures ColumnsOf(entries, tableName) == entries
    decreases |entries|
  {
    if |entries| > 0 {
      ColumnsOfAll(entries[..|entries| - 1], tableName);
    }
  }

  /** The name is that of a vault table whose id the table index has already handed out. */
  predicate NameOfIssuedId(name: string, nextId: nat) {
    var id := ParseVaultTableName(name);
    id.Some? && id.value < nextId
  }

  /** The table of an id not yet handed out is not named by any issued name. */
  lemma UnissuedNameIsFresh(name: string, nextId: nat)
    requires NameOfIssuedId(name, nextId)
    ensures name != VaultTableName(nextId)
  {
    VaultTableNameRoundTrip(nextId);
  }

  /** No catalog entry can name the table of an id not yet handed out. */
  lemma ColumnsOfUnissued(entries: seq<ColumnIndexEntry>, nextId: nat)
    requires forall k :: 0 <= k < |entries| ==> NameOfIssuedId(entries[k].tableName, nextId)
    ensures ColumnsOf(entries, VaultTableName(nextId)) == []
  {
    forall k | 0 <= k < |entries| ensures entries[k].tableName != VaultTableName(nextId) {
      UnissuedNameIsFresh(entries[k].tableName, nextId);
    }
  }

  /** `log_and_return`: logs a failure (logging is not modelled) and returns its argument. */
  function LogAndReturn<T>(result: Result<T, DbError>): (r: Result<T, DbError>)
    ensures r == result
  {
    result
  }

  /** `From<TableIndexEntry> for VaultTable`: an empty table carrying the entry's id and name. */
  function FromEntry(entry: TableIndexEntry): (t: VaultTable)
    ensures t.id == entry.id && t.name == entry.uiName
    ensures t.columns == [] && t.rows == []
  {
    VaultTable(entry.id, entry.uiName, [], [])
  }

  /** A stored row as `fetch_table` reads it: the `id` column is skipped. */
  function ProjectRows(rows: seq<StoredRow>): (r: seq<TableRow>)
    ensures |r| == |rows|
    ensures forall i :: 0 <= i < |rows| ==> r[i] == TableRow(rows[i].id, rows[i].varchars)
  {
    seq(|rows|, i requires 0 <= i < |rows| => TableRow(rows[i].id, rows[i].varchars))
  }


  // ---------------------------------------------------------------------------
  // The database state and what statements do to it

  /** The contents of the database the model needs. */
  datatype Catalog = Catalog(
    tableIndex: seq<TableIndexEntry>,
    columnIndex: seq<ColumnIndexEntry>,
    /** The physical vault tables, by name. */
    tables: map<string, seq<StoredRow>>,
    /** The next id `table_index`'s auto-increment counter hands out. */
    nextTableId: nat,
    /** The next id `column_index`'s auto-increment counter hands out. */
    nextColumnId: nat,
    /** Every write statement issued so far, failed ones included. */
    issued: seq<Statement>)

  /** Ids below the counters and increasing in insertion order; every catalog column and
      every physical table belongs to a table id already handed out. */
  ghost predicate ValidCatalog(db: Catalog) {
    && 1 <= db.nextTableId
    && (forall i :: 0 <= i < |db.tableIndex| ==> db.tableIndex[i].id < db.nextTableId)
    && (forall i, j :: 0 <= i < j < |db.tableIndex| ==> db.tableIndex[i].id < db.tableIndex[j].id)
    && (forall i :: 0 <= i < |db.columnIndex| ==> db.columnIndex[i].id < db.nextColumnId)
    && (forall i, j :: 0 <= i < j < |db.columnIndex| ==> db.columnIndex[i].id < db.columnIndex[j].id)
    && (forall i :: 0 <= i < |db.columnIndex| ==> NameOfIssuedId(db.columnIndex[i].tableName, db.nextTableId))
    && (forall name :: name in db.tables ==> NameOfIssuedId(name, db.nextTableId))
  }

  /** The effect of a statement that succeeds: it is recorded and does what its SQL says;
      an insert takes the next id of its table's counter, and `CREATE TABLE IF NOT EXISTS`
      keeps a table that already exists. */
  function Apply(db: Catalog, s: Statement): Catalog {
    var logged := db.(issued := db.issued + [s]);
    match s
    case InsertTableIndex(uiName) =>
      logged.(tableIndex := db.tableIndex + [TableIndexEntry(db.nextTableId, uiName)],
              nextTableId := db.nextTableId + 1)
    case InsertColumnIndex(tableName, columnName, uiName, required, encrypted) =>
      logged.(columnIndex := db.columnIndex
                + [ColumnIndexEntry(db.nextColumnId, tableName, columnName, uiName, required, encrypted)],
              nextColumnId := db.nextColumnId + 1)
    case CreateTable(tableName, _) =>
      logged.(tables := if tableName in db.tables then db.tables else db.tables[tableName := []])
    case InsertVaultData(_, _) => logged
  }

  /** The effect of a statement that fails: it is recorded and nothing else changes. */
  function Reject(db: Catalog, s: Statement): Catalog {
    db.(issued := db.issued + [s])
  }

  /** The state after a statement and the error it failed with, if any. */
  datatype Outcome = Outcome(db: Catalog, error: Option<DbError>)

  /** One statement, failing with `failure` when that is present. */
  function Run(db: Catalog, s: Statement, failure: Option<DbError>): (out: Outcome)
    ensures out.error == failure
    ensures out.db.issued == db.issued + [s]
  {
    if failure.Some? then Outcome(Reject(db, s), failure) else Outcome(Apply(db, s), None)
  }

  /** Issues `plan` in order, statement `k` failing as `fault` says; the first failure ends
      the run and nothing before it is undone (no transaction). */
  function Execute(db: Catalog, plan: seq<Statement>, fault: Fault): Outcome
    decreases |plan|
  {
    if |plan| == 0 then Outcome(db, None)
    else
      var before := Execute(db, plan[..|plan| - 1], fault);
      if before.error.Some? then before
      else Run(before.db, plan[|plan| - 1], FaultAt(fault, |plan| - 1))
  }

  /** Every statement of `plan` succeeding, in order. */
  function ApplyAll(db: Catalog, plan: seq<Statement>): Catalog
    decreases |plan|
  {
    if |plan| == 0 then db else Apply(ApplyAll(db, plan[..|plan| - 1]), plan[|plan| - 1])
  }

  /** Whatever succeeds, every statement is recorded once, in order. */
  lemma {:induction false} ApplyAllRecordsPlan(db: Catalog, plan: seq<Statement>)
    ensures ApplyAll(db, plan).issued == db.issued + plan
    decreases |plan|
  {
    if |plan| > 0 {
      ApplyAllRecordsPlan(db, plan[..|plan| - 1]);
      assert plan[..|plan| - 1] + [plan[|plan| - 1]] == plan;
    }
  }

  /** With no failing statement, the run applies the whole plan and reports no error. */
  lemma {:induction false} ExecuteWithoutFault(db: Catalog, plan: seq<Statement>, fault: Fault)
    requires !FailsWithin(fault, |plan|)
    ensures Execute(db, plan, fault) == Outcome(ApplyAll(db, plan), None)
    decreases |plan|
  {
    if |plan| > 0 {
      ExecuteWithoutFault(db, plan[..|plan| - 1], fault);
    }
  }

  /** With a failing statement, the run applies everything before it, records the failing
      one, issues nothing after it, and reports its error. */
  lemma {:induction false} ExecuteWithFault(db: Catalog, plan: seq<Statement>, fault: Fault)
    requires FailsWithin(fault, |plan|)
    ensures Execute(db, plan, fault)
      == Outcome(Reject(ApplyAll(db, plan[..fault.step]), plan[fault.step]), Some(fault.error))
    decreases |plan|
  {
    var last := |plan| - 1;
    var init := plan[..last];
    if fault.step == last {
      ExecuteWithoutFault(db, init, fault);
    } else {
      ExecuteWithFault(db, init, fault);
      assert init[..fault.step] == plan[..fault.step];
    }
  }

  /** Applying the first `m` statements is applying the first `m - 1`, then statement `m - 1`. */
  lemma ApplyAllSnoc(db: Catalog, plan: seq<Statement>, m: nat)
    requires 0 < m <= |plan|
    ensures ApplyAll(db, plan[..m]) == Apply(ApplyAll(db, plan[..m - 1]), plan[m - 1])
  {
    assert plan[..m][..m - 1] == plan[..m - 1];
  }

  /** Issuing statement `k` after the first `k` succeeded: a failure there is the outcome
      of the whole run, a success extends the applied prefix by one statement. */
  lemma StepOutcome(db0: Catalog, plan: seq<Statement>, fault: Fault, k: nat, after: Catalog)
    requires k < |plan| && !FailsWithin(fault, k)
    requires after == Run(ApplyAll(db0, plan[..k]), plan[k], FaultAt(fault, k)).db
    ensures FaultAt(fault, k).Some? ==> Execute(db0, plan, fault) == Outcome(after, FaultAt(fault, k))
    ensures FaultAt(fault, k).None? ==> after == ApplyAll(db0, plan[..k + 1]) && !FailsWithin(fault, k + 1)
  {
    if FaultAt(fault, k).Some? {
      ExecuteWithFault(db0, plan, fault);
    } else {
      ApplyAllSnoc(db0, plan, k + 1);
    }
  }

  /** After the first `m` statements of a plan that opens with a table-index insert and has
      no other, the table index holds the new entry exactly when `m > 0`. */
  lemma {:induction false} TableIndexAfterPrefix(db: Catalog, plan: seq<Statement>, uiName: string, m: nat)
    requires m <= |plan| && 0 < |plan| && plan[0] == InsertTableIndex(uiName)
    requires forall k :: 0 < k < |plan| ==> !plan[k].InsertTableIndex?
    ensures var after := ApplyAll(db, plan[..m]);
      && after.tableIndex == (if m == 0 then db.tableIndex else db.tableIndex + [TableIndexEntry(db.nextTableId, uiName)])
      && after.nextTableId == (if m == 0 then db.nextTableId else db.nextTableId + 1)
    decreases m
  {
    if m > 0 {
      TableIndexAfterPrefix(db, plan, uiName, m - 1);
      ApplyAllSnoc(db, plan, m);
    }
  }

  /** After the first `m` statements of a plan whose statements `1 .. 2 + n` insert the
      `planned` column entries (with the ids the counter hands out) and whose others insert
      none, the column index holds the planned entries of the inserts among them. */
  lemma {:induction false} ColumnsAfterPrefix(db: Catalog, plan: seq<Statement>, planned: seq<ColumnIndexEntry>,
                                              n: nat, m: nat)
    requires |plan| == 4 + n && |planned| == 2 + n && m <= |plan|
    requires plan[0].InsertTableIndex? && plan[3 + n].CreateTable?
    requires forall k :: 0 <= k < 2 + n ==>
      plan[1 + k] == ColumnStatement(planned[k]) && planned[k].id == db.nextColumnId + k
    ensures var after := ApplyAll(db, plan[..m]);
      var columns := if m == 0 then 0 else if m <= 3 + n then m - 1 else 2 + n;
      && after.columnIndex == db.columnIndex + planned[..columns]
      && after.nextColumnId == db.nextColumnId + columns
    decreases m
  {
    if m == 0 {
      assert planned[..0] == [];
    } else {
      ColumnsAfterPrefix(db, plan, planned, n, m - 1);
      ApplyAllSnoc(db, plan, m);
      if 2 <= m <= 3 + n {
        assert planned[..m - 1] == planned[..m - 2] + [planned[m - 2]];
      }
    }
  }

  /** After the first `m` statements of a plan whose only `CREATE TABLE` is its last
      statement, the physical table exists exactly when that statement is among them. */
  lemma {:induction false} TablesAfterPrefix(db: Catalog, plan: seq<Statement>, name: string, m: nat)
    requires m <= |plan| && 0 < |plan| && plan[|plan| - 1].CreateTable? && plan[|plan| - 1].tableName == name
    requires forall k :: 0 <= k < |plan| - 1 ==> !plan[k].CreateTable?
    ensures ApplyAll(db, plan[..m]).tables
      == (if m < |plan| || name in db.tables then db.tables else db.tables[name := []])
    decreases m
  {
    if m > 0 {
      TablesAfterPrefix(db, plan, name, m - 1);
      ApplyAllSnoc(db, plan, m);
    }
  }

  /** How many statements of a plan of `total` take effect: all, or those before the failing one. */
  function Applied(fault: Fault, total: nat): (n: nat)
    ensures n <= total
    ensures n < total ==> FaultAt(fault, n).Some?
  {
    if FailsWithin(fault, total) then fault.step else total
  }

  /** A run leaves the state of its successful prefix, with every issued statement in the
      log; it fails exactly when a statement of the plan fails, with that error. */
  lemma ExecuteApplies(db: Catalog, plan: seq<Statement>, fault: Fault)
    ensures var out := Execute(db, plan, fault);
      && out.db == ApplyAll(db, plan[..Applied(fault, |plan|)]).(issued := db.issued + plan[..IssuedCount(fault, |plan|)])
      && (out.error.None? <==> !FailsWithin(fault, |plan|))
      && (out.error.Some? ==> out.error.value == fault.error)
  {
    if FailsWithin(fault, |plan|) {
      ExecuteWithFault(db, plan, fault);
      ApplyAllRecordsPlan(db, plan[..fault.step]);
      assert plan[..fault.step] + [plan[fault.step]] == plan[..fault.step + 1];
    } else {
      ExecuteWithoutFault(db, plan, fault);
      ApplyAllRecordsPlan(db, plan);
      assert plan[..|plan|] == plan;
    }
  }

  /** What `create_vault_table` leaves behind: the statements issued up to the first
      failure, the table-index entry unless that insert failed, the column-index entries
      of the inserts that succeeded with the counter moved past them, and the new physical
      table only when every statement succeeded. The operation succeeds exactly when no
      statement fails. */
  lemma CreateVaultTableEffect(db: Catalog, uiName: string, keyUiName: string, passwordUiName: string,
                               extra: seq<string>, fault: Fault)
    requires ValidCatalog(db)
    ensures var plan := CreatePlan(db.nextTableId, db.nextColumnId, uiName, keyUiName, passwordUiName, extra);
      var planned := PlannedColumns(db.nextColumnId, VaultTableName(db.nextTableId), keyUiName, passwordUiName, extra);
      var out := Execute(db, plan, fault);
      && (out.error.None? <==> !FailsWithin(fault, 4 + |extra|))
      && (out.error.Some? ==> out.error.value == fault.error)
      && out.db.issued == db.issued + plan[..IssuedCount(fault, 4 + |extra|)]
      && out.db.tableIndex == (if FaultAt(fault, 0).Some? then db.tableIndex
                               else db.tableIndex + [TableIndexEntry(db.nextTableId, uiName)])
      && out.db.nextTableId == (if FaultAt(fault, 0).Some? then db.nextTableId else db.nextTableId + 1)
      && out.db.columnIndex == db.columnIndex + planned[..ColumnsWritten(fault, |extra|)]
      && out.db.nextColumnId == db.nextColumnId + ColumnsWritten(fault, |extra|)
      && out.db.tables == (if out.error.None? then db.tables[VaultTableName(db.nextTableId) := []] else db.tables)
  {
    var plan := CreatePlan(db.nextTableId, db.nextColumnId, uiName, keyUiName, passwordUiName, extra);
    var planned := PlannedColumns(db.nextColumnId, VaultTableName(db.nextTableId), keyUiName, passwordUiName, extra);
    CreatePlanSteps(db.nextTableId, db.nextColumnId, uiName, keyUiName, passwordUiName, extra);
    PlanEffect(db, plan, fault, uiName, planned, |extra|);
  }

  /** The effect of executing any plan shaped like that of `create_vault_table`: a
      table-index insert, the planned column inserts and the `CREATE TABLE` of the new name.
      The proof is direct; automatic induction on the plan is switched off because its
      hypothesis only slows the proof down. */
  lemma {:induction false} PlanEffect(db: Catalog, plan: seq<Statement>, fault: Fault, uiName: string,
                                      planned: seq<ColumnIndexEntry>, n: nat)
    requires ValidCatalog(db)
    requires |plan| == 4 + n && |planned| == 2 + n
    requires plan[0] == InsertTableIndex(uiName)
    requires forall k :: 0 <= k < 2 + n ==>
      plan[1 + k] == ColumnStatement(planned[k]) && planned[k].id == db.nextColumnId + k
    requires plan[3 + n].CreateTable? && plan[3 + n].tableName == VaultTableName(db.nextTableId)
    ensures var out := Execute(db, plan, fault);
      && (out.error.None? <==> !FailsWithin(fault, 4 + n))
      && (out.error.Some? ==> out.error.value == fault.error)
      && out.db.issued == db.issued + plan[..IssuedCount(fault, 4 + n)]
      && out.db.tableIndex == (if FaultAt(fault, 0).Some? then db.tableIndex
                               else db.tableIndex + [TableIndexEntry(db.nextTableId, uiName)])
      && out.db.nextTableId == (if FaultAt(fault, 0).Some? then db.nextTableId else db.nextTableId + 1)
      && out.db.columnIndex == db.columnIndex + planned[..ColumnsWritten(fault, n)]
      && out.db.nextColumnId == db.nextColumnId + ColumnsWritten(fault, n)
      && out.db.tables == (if out.error.None? then db.tables[VaultTableName(db.nextTableId) := []] else db.tables)
  {
    var name := VaultTableName(db.nextTableId);
    if name in db.tables {
      UnissuedNameIsFresh(name, db.nextTableId);
    }
    forall k | 0 < k < 3 + n ensures plan[k].InsertColumnIndex? {
      assert plan[1 + (k - 1)] == ColumnStatement(planned[k - 1]);
    }
    var m := Applied(fault, |plan|);
    ExecuteApplies(db, plan, fault);
    TableIndexAfterPrefix(db, plan, uiName, m);
    ColumnsAfterPrefix(db, plan, planned, n, m);
    TablesAfterPrefix(db, plan, name, m);
  }

  /** A new table-index entry, a prefix of its planned columns and possibly its physical
      table keep the catalog consistent. */
  lemma GrowthKeepsValid(db: Catalog, out: Catalog, uiName: string, planned: seq<ColumnIndexEntry>,
                         written: nat, inserted: bool, created: bool)
    requires ValidCatalog(db)
    requires written <= |planned|
    requires forall k :: 0 <= k < |planned| ==>
      planned[k].id == db.nextColumnId + k && planned[k].tableName == VaultTableName(db.nextTableId)
    requires (written > 0 || created) ==> inserted
    requires out.tableIndex == (if inserted then db.tableIndex + [TableIndexEntry(db.nextTableId, uiName)] else db.tableIndex)
    requires out.nextTableId == (if inserted then db.nextTableId + 1 else db.nextTableId)
    requires out.columnIndex == db.columnIndex + planned[..written]
    requires out.nextColumnId == db.nextColumnId + written
    requires out.tables == (if created then db.tables[VaultTableName(db.nextTableId) := []] else db.tables)
    ensures ValidCatalog(out)
  {
    VaultTableNameRoundTrip(db.nextTableId);
    forall i | 0 <= i < |out.columnIndex|
      ensures out.columnIndex[i].id < out.nextColumnId
      ensures NameOfIssuedId(out.columnIndex[i].tableName, out.nextTableId)
    {
      if i >= |db.columnIndex| {
        assert out.columnIndex[i] == planned[i - |db.columnIndex|];
      }
    }
    forall i, j | 0 <= i < j < |out.columnIndex|
      ensures out.columnIndex[i].id < out.columnIndex[j].id
    {
      if j >= |db.columnIndex| {
        assert out.columnIndex[j] == planned[j - |db.columnIndex|];
        if i >= |db.columnIndex| {
          assert out.columnIndex[i] == planned[i - |db.columnIndex|];
        }
      }
    }
  }

  /** `create_vault_table` keeps the catalog consistent whichever statement fails: ids stay
      below their counters and increasing, and every new column and table belongs to the
      table id just handed out. */
  lemma CreateVaultTableKeepsValid(db: Catalog, uiName: string, keyUiName: string, passwordUiName: string,
                                   extra: seq<string>, fault: Fault)
    requires ValidCatalog(db)
    ensures ValidCatalog(Execute(db, CreatePlan(db.nextTableId, db.nextColumnId, uiName, keyUiName, passwordUiName, extra), fault).db)
  {
    var out := Execute(db, CreatePlan(db.nextTableId, db.nextColumnId, uiName, keyUiName, passwordUiName, extra), fault);
    var planned := PlannedColumns(db.nextColumnId, VaultTableName(db.nextTableId), keyUiName, passwordUiName, extra);
    CreateVaultTableEffect(db, uiName, keyUiName, passwordUiName, extra, fault);
    GrowthKeepsValid(db, out.db, uiName, planned, ColumnsWritten(fault, |extra|),
                     FaultAt(fault, 0).None?, out.error.None?);
  }

  // ---------------------------------------------------------------------------
  // Reads

  /** `fetch_table` (without a search term): `None` when no table-index entry has the id;
      otherwise the entry's name, the catalog columns of `vault_<id>` in index order, and
      every stored row without its id column. The three reads are steps 0, 1 and 2 of `fault`. */
  function FetchTable(db: Catalog, id: nat, fault: Fault): (r: Result<Option<VaultTable>, DbError>)
    ensures FaultAt(fault, 0).Some? ==> r == Err(fault.error)
    ensures r == Ok(None) <==>
      FaultAt(fault, 0).None? && forall i :: 0 <= i < |db.tableIndex| ==> db.tableIndex[i].id != id
    ensures r.Ok? && r.value.Some? ==>
      var t := r.value.value;
      && t.id == id
      && TableIndexEntry(id, t.name) in db.tableIndex
      && t.columns == ColumnsOf(db.columnIndex, VaultTableName(id))
      && VaultTableName(id) in db.tables
      && t.rows == ProjectRows(db.tables[VaultTableName(id)])
    ensures (&& FaultAt(fault, 0).None? && FindTableIndexEntry(db.tableIndex, id).Some?
             && (FaultAt(fault, 1).Some? || FaultAt(fault, 2).Some?))
            ==> r == Err(fault.error)
    ensures (&& FaultAt(fault, 0).None? && FaultAt(fault, 1).None? && FaultAt(fault, 2).None?
             && FindTableIndexEntry(db.tableIndex, id).Some? && VaultTableName(id) !in db.tables)
            ==> r.Err?
  {
    if FaultAt(fault, 0).Some? then Err(fault.error)
    else match FindTableIndexEntry(db.tableIndex, id)
      case None => Ok(None)
      case Some(entry) =>
        var tableName := VaultTableName(entry.id);
        if FaultAt(fault, 1).Some? then Err(fault.error)
        else
          var columns := ColumnsOf(db.columnIndex, tableName);
          if FaultAt(fault, 2).Some? then Err(fault.error)
          else if tableName !in db.tables then Err(Database("Table '" + tableName + "' doesn't exist"))
          else Ok(Some(VaultTable(id, entry.uiName, columns, ProjectRows(db.tables[tableName]))))
  }

  /** The column index of the vault table with this id (`fetch_column_index_by_id`). */
  function FetchColumnIndexById(db: Catalog, id: nat, fault: Option<DbError>): (r: Result<seq<ColumnIndexEntry>, DbError>)
    ensures fault.Some? ==> r == Err(fault.value)
    ensures fault.None? ==> r.Ok? && forall e :: e in r.value <==> e in db.columnIndex && e.tableName == VaultTableName(id)
  {
    if fault.Some? then Err(fault.value) else Ok(ColumnsOf(db.columnIndex, VaultTableName(id)))
  }

  /** A vault table created without failure reads back under the id handed out, with the
      ui name given, exactly its planned columns in order, and no rows. */
  lemma CreatedTableReadsBack(db: Catalog, uiName: string, keyUiName: string, passwordUiName: string,
                              extra: seq<string>)
    requires ValidCatalog(db)
    ensures var plan := CreatePlan(db.nextTableId, db.nextColumnId, uiName, keyUiName, passwordUiName, extra);
      var id := db.nextTableId;
      FetchTable(Execute(db, plan, NoFault).db, id, NoFault)
        == Ok(Some(VaultTable(id, uiName,
             PlannedColumns(db.nextColumnId, VaultTableName(id), keyUiName, passwordUiName, extra), [])))
  {
    var id := db.nextTableId;
    var planned := PlannedColumns(db.nextColumnId, VaultTableName(id), keyUiName, passwordUiName, extra);
    CreateVaultTableEffect(db, uiName, keyUiName, passwordUiName, extra, NoFault);
    assert planned[..2 + |extra|] == planned;
    FetchAfterCreate(db, Execute(db, CreatePlan(id, db.nextColumnId, uiName, keyUiName, passwordUiName, extra), NoFault).db,
                     uiName, planned);
  }

  /** A catalog grown by a table-index entry for the next id, columns of that table only,
      and an empty physical table reads back as exactly that table. */
  lemma FetchAfterCreate(db: Catalog, after: Catalog, uiName: string, planned: seq<ColumnIndexEntry>)
    requires ValidCatalog(db)
    requires after.tableIndex == db.tableIndex + [TableIndexEntry(db.nextTableId, uiName)]
    requires after.columnIndex == db.columnIndex + planned
    requires forall k :: 0 <= k < |planned| ==> planned[k].tableName == VaultTableName(db.nextTableId)
    requires after.tables == db.tables[VaultTableName(db.nextTableId) := []]
    ensures FetchTable(after, db.nextTableId, NoFault) == Ok(Some(VaultTable(db.nextTableId, uiName, planned, [])))
  {
    var id := db.nextTableId;
    var name := VaultTableName(id);
    ColumnsOfUnissued(db.columnIndex, id);
    ColumnsOfAppend(db.columnIndex, planned, name);
    ColumnsOfAll(planned, name);
    assert ColumnsOf(after.columnIndex, name) == planned;
    FindLast(db.tableIndex, TableIndexEntry(id, uiName));
    assert FindTableIndexEntry(after.tableIndex, id) == Some(TableIndexEntry(id, uiName));
    assert name in after.tables && ProjectRows(after.tables[name]) == [];
    FetchFound(after, id, TableIndexEntry(id, uiName));
  }

  /** Without failures, a table whose index entry is found and whose storage exists is read
      back with that entry's ui name, its catalogued columns and its rows. */
  lemma FetchFound(db: Catalog, id: nat, entry: TableIndexEntry)
    requires FindTableIndexEntry(db.tableIndex, id) == Some(entry) && entry.id == id
    requires VaultTableName(id) in db.tables
    ensures FetchTable(db, id, NoFault)
      == Ok(Some(VaultTable(id, entry.uiName, ColumnsOf(db.columnIndex, VaultTableName(id)),
                            ProjectRows(db.tables[VaultTableName(id)]))))
  {
  }

  /** An entry appended after entries with other ids is the one found for its id. */
  lemma {:induction false} FindLast(entries: seq<TableIndexEntry>, last: TableIndexEntry)
    requires forall i :: 0 <= i < |entries| ==> entries[i].id != last.id
    ensures FindTableIndexEntry(entries + [last], last.id) == Some(last)
    decreases |entries|
  {
    if |entries| > 0 {
      FindLast(entries[1..], last);
      assert (entries + [last])[1..] == entries[1..] + [last];
    }
  }

  // ---------------------------------------------------------------------------
  // The store

  /** The database as the application sees it through its connection pool. */
  class VaultStore {
    var db: Catalog

    /** An empty database: both catalogs empty, both counters at 1. */
    constructor ()
      ensures ValidCatalog(db)
      ensures db == Catalog([], [], map[], 1, 1, [])
    {
      db := Catalog([], [], map[], 1, 1, []);
    }

    /** `insert_table_index_entry`; on success the result is the id handed out (`last_insert_id`). */
    method InsertTableIndexEntry(uiName: string, fault: Option<DbError>) returns (r: Result<nat, DbError>)
      modifies this
      ensures db == Run(old(db), InsertTableIndex(uiName), fault).db
      ensures r == if fault.Some? then Err(fault.value) else Ok(old(db.nextTableId))
    {
      var id := db.nextTableId;
      db := Run(db, InsertTableIndex(uiName), fault).db;
      if fault.Some? {
        return LogAndReturn(Err(fault.value));
      }
      return LogAndReturn(Ok(id));
    }

    /** `insert_column_index_entry` for a table whose id has been handed out. */
    method InsertColumnIndexEntry(tableName: string, columnName: string, uiName: string,
                                  required: bool, encrypted: bool, fault: Option<DbError>)
      returns (r: Result<(), DbError>)
      modifies this
      ensures db == Run(old(db), InsertColumnIndex(tableName, columnName, uiName, required, encrypted), fault).db
      ensures r == if fault.Some? then Err(fault.value) else Ok(())
    {
      db := Run(db, InsertColumnIndex(tableName, columnName, uiName, required, encrypted), fault).db;
      r := LogAndReturn(if fault.Some? then Err(fault.value) else Ok(()));
    }

    /** Executes a `CREATE TABLE IF NOT EXISTS` for `tableName`. */
    method CreatePhysicalTable(tableName: string, sql: string, fault: Option<DbError>) returns (r: Result<(), DbError>)
      modifies this
      ensures db == Run(old(db), CreateTable(tableName, sql), fault).db
      ensures r == if fault.Some? then Err(fault.value) else Ok(())
    {
      db := Run(db, CreateTable(tableName, sql), fault).db;
      r := LogAndReturn(if fault.Some? then Err(fault.value) else Ok(()));
    }

    /** `insert_vault_data`, whose body is not part of this model: the store only records
        the statement and reports the injected outcome. */
    method InsertVaultDataRow(tableId: nat, values: map<string, string>, fault: Option<DbError>)
      returns (r: Result<(), DbError>)
      modifies this
      ensures db == Run(old(db), InsertVaultData(tableId, values), fault).db
      ensures r == if fault.Some? then Err(fault.value) else Ok(())
    {
      db := Run(db, InsertVaultData(tableId, values), fault).db;
      r := if fault.Some? then Err(fault.value) else Ok(());
    }

    /** The loop of `create_vault_table` over the extra columns: statement `3 + i` of
        `plan` inserts the catalog entry of `extra[i]`; the first failing insert ends the
        run of the plan. */
    method InsertExtraColumns(tableName: string, extraColumnNames: seq<string>, extra: seq<string>,
                              fault: Fault, ghost db0: Catalog, ghost plan: seq<Statement>)
      returns (r: Result<(), DbError>)
      requires |extraColumnNames| == |extra| && |plan| == 4 + |extra|
      requires forall i :: 0 <= i < |extra| ==>
        plan[3 + i] == InsertColumnIndex(tableName, extraColumnNames[i], extra[i], false, false)
      requires db == ApplyAll(db0, plan[..3]) && !FailsWithin(fault, 3)
      modifies this
      ensures r.Err? ==> Execute(db0, plan, fault) == Outcome(db, Some(r.error))
      ensures r.Ok? ==> db == ApplyAll(db0, plan[..3 + |extra|]) && !FailsWithin(fault, 3 + |extra|)
    {
      for i := 0 to |extra|
        invariant db == ApplyAll(db0, plan[..3 + i])
        invariant !FailsWithin(fault, 3 + i)
      {
        var extraInsert := InsertColumnIndexEntry(tableName, extraColumnNames[i], extra[i], false, false, FaultAt(fault, 3 + i));
        StepOutcome(db0, plan, fault, 3 + i, db);
        if extraInsert.Err? {
          return Err(extraInsert.error);
        }
      }
      return Ok(());
    }

    /** `create_vault_table`: a table-index insert, `2 + |extra|` column-index inserts
        (`key_`, `password`, then `extra_i` for `extra[i]`) and one `CREATE TABLE`, issued
        in that order with no transaction; the outcome is that of `Execute` on the plan,
        whose consequences `CreateVaultTableEffect` spells out. */
    method CreateVaultTable(uiName: string, keyUiName: string, passwordUiName: string,
                            extra: seq<string>, fault: Fault) returns (r: Result<nat, DbError>)
      modifies this
      ensures var out := Execute(old(db), CreatePlan(old(db.nextTableId), old(db.nextColumnId),
                                                     uiName, keyUiName, passwordUiName, extra), fault);
        && db == out.db
        && r == if out.error.Some? then Err(out.error.value) else Ok(old(db.nextTableId))
    {
      ghost var plan := CreatePlan(db.nextTableId, db.nextColumnId, uiName, keyUiName, passwordUiName, extra);
      CreatePlanSteps(db.nextTableId, db.nextColumnId, uiName, keyUiName, passwordUiName, extra);
      r := IssueCreatePlan(uiName, keyUiName, passwordUiName, extra, fault, plan);
    }

    /** The statements of `create_vault_table` issued one by one against any plan that
        lists them in the order the source issues them. */
    method IssueCreatePlan(uiName: string, keyUiName: string, passwordUiName: string,
                           extra: seq<string>, fault: Fault, ghost plan: seq<Statement>)
      returns (r: Result<nat, DbError>)
      requires |plan| == 4 + |extra|
      requires plan[0] == InsertTableIndex(uiName)
      requires plan[1] == InsertColumnIndex(VaultTableName(db.nextTableId), KeyColumn, keyUiName, true, false)
      requires plan[2] == InsertColumnIndex(VaultTableName(db.nextTableId), PasswordColumn, passwordUiName, true, true)
      requires forall i :: 0 <= i < |extra| ==>
        plan[3 + i] == InsertColumnIndex(VaultTableName(db.nextTableId), ExtraColumnName(i), extra[i], false, false)
      requires plan[3 + |extra|] == CreateTable(VaultTableName(db.nextTableId),
        CreateTableStatement(VaultTableName(db.nextTableId), ExtraColumnNames(|extra|)))
      modifies this
      ensures var out := Execute(old(db), plan, fault);
        && db == out.db
        && r == if out.error.Some? then Err(out.error.value) else Ok(old(db.nextTableId))
    {
      ghost var db0 := db;
      var tableInsert := InsertTableIndexEntry(uiName, FaultAt(fault, 0));
      assert plan[..0] == [];
      StepOutcome(db0, plan, fault, 0, db);
      if tableInsert.Err? {
        return Err(tableInsert.error);
      }
      var id := tableInsert.value;
      var tableName := VaultTableName(id);

      var keyInsert := InsertColumnIndexEntry(tableName, KeyColumn, keyUiName, true, false, FaultAt(fault, 1));
      StepOutcome(db0, plan, fault, 1, db);
      if keyInsert.Err? {
        return Err(keyInsert.error);
      }
      var passwordInsert := InsertColumnIndexEntry(tableName, PasswordColumn, passwordUiName, true, true, FaultAt(fault, 2));
      StepOutcome(db0, plan, fault, 2, db);
      if passwordInsert.Err? {
        return Err(passwordInsert.error);
      }

      var extraColumnNames := ExtraColumnNames(|extra|);
      var extraInserts := InsertExtraColumns(tableName, extraColumnNames, extra, fault, db0, plan);
      if extraInserts.Err? {
        return Err(extraInserts.error);
      }

      var statement := CreateTableStatement(tableName, extraColumnNames);
      var created := CreatePhysicalTable(tableName, statement, FaultAt(fault, 3 + |extra|));
      StepOutcome(db0, plan, fault, 3 + |extra|, db);
      if created.Err? {
        return Err(created.error);
      }
      assert plan[..4 + |extra|] == plan;
      ExecuteWithoutFault(db0, plan, fault);
      return Ok(id);
    }
  }
}
