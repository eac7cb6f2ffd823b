/** CSV import of src/routes/xport.rs: `import` and the responses `import_submit` and
    `response_from_csv_err` give.

    The CSV reader is seen through what it yields: either an error opening the file, or
    the sequence of records in file order, each parsed or failed. The statements the
    import issues share one `Fault`: positions 0 to 2 are the queries of `fetch_table`,
    position `3 + i` is the insert of the `i`-th record. */
module Xport {
  import opened Wrappers
  import Data
  import opened Database
  import opened Crypt
  import opened Cells
  import opened Responses

  /** `csv::ErrorKind`. */
  datatype CsvErrorKind = Io | Utf8 | UnequalLengths | Seek | Serialize | Deserialize

  /** `csv::Error`. */
  datatype CsvError = CsvError(kind: CsvErrorKind)

  /** `ImportError`; `Csv` is the source's `CsvError` variant. */
  datatype ImportError = Csv(error: CsvError) | ColumnMismatch | DatabaseError | TableNotFound

  /** The reader's view of the uploaded file: an error opening it, or its records after
      the header line in file order, each read or failed. */
  type CsvRecords = Result<seq<Result<seq<string>, CsvError>>, CsvError>

  // ---------------------------------------------------------------------------
  // Reading and checking the records

  /** A record that stops the import: unreadable, or of the wrong width. */
  predicate BadRecord(record: Result<seq<string>, CsvError>, width: nat) {
    record.Err? || |record.value| != width
  }

  /** The position of the first record that stops the import. */
  function FirstBadRecord(records: seq<Result<seq<string>, CsvError>>, width: nat): (r: Option<nat>)
    ensures r.Some? ==> r.value < |records| && BadRecord(records[r.value], width)
    ensures r.Some? ==> forall j :: 0 <= j < r.value ==> !BadRecord(records[j], width)
    ensures r.None? <==> forall j :: 0 <= j < |records| ==> !BadRecord(records[j], width)
    decreases |records|
  {
    if |records| == 0 then None
    else if BadRecord(records[0], width) then Some(0)
    else
      var rest := FirstBadRecord(records[1..], width);
      assert forall j :: 1 <= j < |records| ==> records[j] == records[1..][j - 1];
      if rest.Some? then Some(rest.value + 1) else None
  }

  /** The error a bad record stops the import with. */
  function RecordError(record: Result<seq<string>, CsvError>): ImportError {
    if record.Err? then Csv(record.error) else ColumnMismatch
  }

  /** The first loop of `import`: every record is read and its width checked before any
      insert; the first bad record ends it with its error. */
  method ReadRecords(records: seq<Result<seq<string>, CsvError>>, width: nat)
    returns (r: Result<seq<seq<string>>, ImportError>)
    ensures r.Ok? <==> FirstBadRecord(records, width).None?
    ensures r.Ok? ==> |r.value| == |records|
    ensures r.Ok? ==> forall i :: 0 <= i < |records| ==> records[i] == Ok(r.value[i]) && |r.value[i]| == width
    ensures r.Err? ==> r.error == RecordError(records[FirstBadRecord(records, width).value])
  {
    var checked: seq<seq<string>> := [];
    for i := 0 to |records|
      invariant |checked| == i
      invariant forall j :: 0 <= j < i ==> records[j] == Ok(checked[j]) && |checked[j]| == width
    {
      var record := records[i];
      if record.Err? {
        return Err(Csv(record.error));
      }
      if |record.value| != width {
        return Err(ColumnMismatch);
      }
      checked := checked + [record.value];
    }
    return Ok(checked);
  }

  // ---------------------------------------------------------------------------
  // The inserts

  /** Field `i` of a record as the pair kept for column `i`: under the column's name,
      encrypted with randomness `rngs(i)` when the column is encrypted; nothing when the
      record is too short or encryption fails. */
  function RecordCell(columns: seq<Data.ColumnIndexEntry>, record: seq<string>, kp: KeyPair,
                      rngs: nat -> Randomness, i: nat): Option<(string, string)>
    requires i < |columns|
  {
    if i < |record| then
      match EncodeCell(columns[i], record[i], kp, rngs(i))
      case None => None
      case Some(value) => Some((columns[i].columnName, value))
    else None
  }

  /** The pairs of one record, in column order. */
  function RecordPairs(columns: seq<Data.ColumnIndexEntry>, record: seq<string>, kp: KeyPair,
                       rngs: nat -> Randomness): seq<(string, string)>
  {
    Somes(seq(|columns|, i requires 0 <= i < |columns| => RecordCell(columns, record, kp, rngs, i)))
  }

  /** The values inserted for one record. */
  function RecordValues(columns: seq<Data.ColumnIndexEntry>, record: seq<string>, kp: KeyPair,
                        rngs: nat -> Randomness): map<string, string>
  {
    CollectMap(RecordPairs(columns, record, kp, rngs))
  }

  /** The insert statements of an import, one per record in file order; record `i` is
      encrypted with randomness `rngs(i)`. */
  function ImportPlan(tableId: nat, columns: seq<Data.ColumnIndexEntry>, rows: seq<seq<string>>, kp: KeyPair,
                      rngs: nat -> nat -> Randomness): (plan: seq<Statement>)
    ensures |plan| == |rows|
    ensures forall i :: 0 <= i < |rows| ==>
      plan[i] == InsertVaultData(tableId, RecordValues(columns, rows[i], kp, rngs(i)))
  {
    seq(|rows|, i requires 0 <= i < |rows| => InsertVaultData(tableId, RecordValues(columns, rows[i], kp, rngs(i))))
  }

  /** The fault as the statements after the first `n` see it. */
  function After(fault: Fault, n: nat): (r: Fault)
    ensures forall k: nat :: FaultAt(r, k) == FaultAt(fault, n + k)
    ensures r.FailAt? <==> fault.FailAt? && fault.step >= n
    ensures r.FailAt? ==> r.step + n == fault.step && r.error == fault.error
  {
    if fault.FailAt? && fault.step >= n then FailAt(fault.step - n, fault.error) else NoFault
  }

  /** A field of a record of the table's width is kept exactly when it can be encoded
      for its column, under that column's name, and reads back as the field. */
  lemma RecordCellMeaning(columns: seq<Data.ColumnIndexEntry>, record: seq<string>, kp: KeyPair,
                          rngs: nat -> Randomness, i: nat)
    requires Matching(kp)
    requires i < |columns| == |record|
    ensures var cell := RecordCell(columns, record, kp, rngs, i);
      && (cell.Some? <==> EncodeCell(columns[i], record[i], kp, rngs(i)).Some?)
      && (cell.Some? ==> cell.value.0 == columns[i].columnName && ReadsBack(columns[i], cell.value.1, record[i], kp))
  {
    EncodeCellRecoverable(columns[i], record[i], kp, rngs(i));
  }

  /** Under a matching key pair, with distinct column names and a record of the table's
      width: only the table's columns are filled, each field is stored under its column's
      name and reads back as the field, and it is missing exactly when it cannot be encoded
      (an encrypted column and a value too long to encrypt). */
  lemma RecordValuesMeaning(columns: seq<Data.ColumnIndexEntry>, record: seq<string>, kp: KeyPair,
                            rngs: nat -> Randomness)
    requires Matching(kp)
    requires |record| == |columns|
    requires forall i, j :: 0 <= i < j < |columns| ==> columns[i].columnName != columns[j].columnName
    ensures var values := RecordValues(columns, record, kp, rngs);
      && (forall column :: column in values ==> exists i :: 0 <= i < |columns| && columns[i].columnName == column)
      && forall i :: 0 <= i < |columns| ==>
           && (columns[i].columnName in values <==> EncodeCell(columns[i], record[i], kp, rngs(i)).Some?)
           && (columns[i].columnName in values ==> ReadsBack(columns[i], values[columns[i].columnName], record[i], kp))
  {
    var cells := seq(|columns|, i requires 0 <= i < |columns| => RecordCell(columns, record, kp, rngs, i));
    var pairs := Somes(cells);
    var values := CollectMap(pairs);
    forall column | column in values
      ensures exists i :: 0 <= i < |columns| && columns[i].columnName == column
    {
      assert (column, values[column]) in pairs;
      assert Some((column, values[column])) in cells;
      var i :| 0 <= i < |cells| && cells[i] == Some((column, values[column]));
      RecordCellMeaning(columns, record, kp, rngs, i);
    }
    forall i | 0 <= i < |columns|
      ensures columns[i].columnName in values <==> EncodeCell(columns[i], record[i], kp, rngs(i)).Some?
      ensures columns[i].columnName in values ==> ReadsBack(columns[i], values[columns[i].columnName], record[i], kp)
    {
      RecordCellMeaning(columns, record, kp, rngs, i);
      var name := columns[i].columnName;
      if cells[i].Some? {
        assert cells[i].value in pairs;
      }
      if name in values {
        assert (name, values[name]) in pairs;
        assert Some((name, values[name])) in cells;
        var j :| 0 <= j < |cells| && cells[j] == Some((name, values[name]));
        RecordCellMeaning(columns, record, kp, rngs, j);
        assert j == i;
      }
    }
  }

  // ---------------------------------------------------------------------------
  // import

  /** What `import` leaves in the store and returns. */
  datatype ImportOutcome = ImportOutcome(db: Catalog, result: Result<(), ImportError>)

  /** The specification of `import`: open the file, fetch the table, check every record,
      then insert the records in order until one insert fails. Errors are reported in the
      order the checks run, and every error found before the inserts leaves the store as
      it was: no record is inserted unless all are readable and of the table's width. */
  function Import(db: Catalog, csv: CsvRecords, tableId: nat, kp: KeyPair, rngs: nat -> nat -> Randomness,
                  fault: Fault): (out: ImportOutcome)
    ensures csv.Err? ==> out.result == Err(Csv(csv.error))
    ensures csv.Ok? && FetchTable(db, tableId, fault).Err? ==> out == ImportOutcome(db, Err(DatabaseError))
    ensures csv.Ok? && FetchTable(db, tableId, fault) == Ok(None) ==> out.result == Err(TableNotFound)
    ensures out.result.Err? && !out.result.error.DatabaseError? ==> out.db == db
    ensures csv.Ok? && FetchTable(db, tableId, fault).Ok? && FetchTable(db, tableId, fault).value.Some? ==>
      var width := |FetchTable(db, tableId, fault).value.value.columns|;
      FirstBadRecord(csv.value, width).Some? ==>
        out.db == db && out.result == Err(RecordError(csv.value[FirstBadRecord(csv.value, width).value]))
  {
    match csv
    case Err(e) => ImportOutcome(db, Err(Csv(e)))
    case Ok(records) =>
      match FetchTable(db, tableId, fault)
      case Err(_) => ImportOutcome(db, Err(DatabaseError))
      case Ok(None) => ImportOutcome(db, Err(TableNotFound))
      case Ok(Some(table)) =>
        match FirstBadRecord(records, |table.columns|)
        case Some(i) => ImportOutcome(db, Err(RecordError(records[i])))
        case None =>
          InsertRecords(db, tableId, table.columns, seq(|records|, i requires 0 <= i < |records| => records[i].value),
                        kp, rngs, fault)
  }

  /** The second loop of `import`: one insert per checked record, in file order, until
      one fails; an insert failure is reported as `DatabaseError`. */
  function InsertRecords(db: Catalog, tableId: nat, columns: seq<Data.ColumnIndexEntry>, rows: seq<seq<string>>,
                         kp: KeyPair, rngs: nat -> nat -> Randomness, fault: Fault): ImportOutcome
  {
    var out := Execute(db, ImportPlan(tableId, columns, rows, kp, rngs), After(fault, 3));
    ImportOutcome(out.db, if out.error.Some? then Err(DatabaseError) else Ok(()))
  }

  /** Once the records are checked, the inserts are issued in file order; the first that
      fails ends the import with `DatabaseError` and the ones before it stay. */
  lemma ImportInsertsInOrder(db: Catalog, tableId: nat, columns: seq<Data.ColumnIndexEntry>, rows: seq<seq<string>>,
                             kp: KeyPair, rngs: nat -> nat -> Randomness, fault: Fault)
    ensures var plan := ImportPlan(tableId, columns, rows, kp, rngs);
      var out := InsertRecords(db, tableId, columns, rows, kp, rngs, fault);
      var later := After(fault, 3);
      && out.db == ApplyAll(db, plan[..Applied(later, |rows|)]).(issued := db.issued + plan[..IssuedCount(later, |rows|)])
      && (out.result.Ok? <==> !FailsWithin(later, |rows|))
      && (out.result.Err? ==> out.result.error == DatabaseError)
      && (out.result.Err? ==> fault.FailAt? && 3 <= fault.step < 3 + |rows|)
  {
    ExecuteApplies(db, ImportPlan(tableId, columns, rows, kp, rngs), After(fault, 3));
  }

  /** Once the file, the table and every record have passed their checks, `import`
      inserts the records in file order: it succeeds exactly when no insert fails, and the
      store holds the inserts before the first failure. */
  lemma ImportAppliesInserts(db: Catalog, records: seq<Result<seq<string>, CsvError>>, table: Data.VaultTable,
                             tableId: nat, kp: KeyPair, rngs: nat -> nat -> Randomness, fault: Fault)
    requires FetchTable(db, tableId, fault) == Ok(Some(table))
    requires FirstBadRecord(records, |table.columns|).None?
    ensures forall i :: 0 <= i < |records| ==> records[i].Ok?
    ensures var rows := seq(|records|, i requires 0 <= i < |records| && records[i].Ok? => records[i].value);
      var plan := ImportPlan(tableId, table.columns, rows, kp, rngs);
      var later := After(fault, 3);
      var out := Import(db, Ok(records), tableId, kp, rngs, fault);
      && out.db == ApplyAll(db, plan[..Applied(later, |rows|)]).(issued := db.issued + plan[..IssuedCount(later, |rows|)])
      && (out.result.Ok? <==> !FailsWithin(later, |rows|))
      && (out.result.Err? ==> out.result.error == DatabaseError)
  {
    var rows := seq(|records|, i requires 0 <= i < |records| && records[i].Ok? => records[i].value);
    assert rows == seq(|records|, i requires 0 <= i < |records| => records[i].value);
    ImportInsertsInOrder(db, tableId, table.columns, rows, kp, rngs, fault);
  }

  /** `import`. */
  method ImportCsv(store: VaultStore, csv: CsvRecords, tableId: nat, kp: KeyPair,
                   rngs: nat -> nat -> Randomness, fault: Fault) returns (r: Result<(), ImportError>)
    modifies store
    ensures ImportOutcome(store.db, r) == Import(old(store.db), csv, tableId, kp, rngs, fault)
  {
    if csv.Err? {
      return Err(Csv(csv.error));
    }
    var fetched := FetchTable(store.db, tableId, fault);
    if fetched.Err? {
      return Err(DatabaseError);
    }
    if fetched.value.None? {
      return Err(TableNotFound);
    }
    var table := fetched.value.value;
    var checked := ReadRecords(csv.value, |table.columns|);
    if checked.Err? {
      return Err(checked.error);
    }
    var rows := checked.value;
    assert rows == seq(|csv.value|, i requires 0 <= i < |csv.value| => csv.value[i].value);
    ghost var db0 := store.db;
    ghost var plan := ImportPlan(tableId, table.columns, rows, kp, rngs);
    ghost var later := After(fault, 3);
    assert plan[..0] == [];
    for i := 0 to |rows|
      invariant store.db == ApplyAll(db0, plan[..i])
      invariant !FailsWithin(later, i)
    {
      var values := RecordValues(table.columns, rows[i], kp, rngs(i));
      var inserted := store.InsertVaultDataRow(tableId, values, FaultAt(fault, 3 + i));
      StepOutcome(db0, plan, later, i, store.db);
      if inserted.Err? {
        return Err(DatabaseError);
      }
    }
    assert plan[..|rows|] == plan;
    ExecuteWithoutFault(db0, plan, later);
    return Ok(());
  }

  // ---------------------------------------------------------------------------
  // Responses

  const InvalidCsvMessage: string := "The selected file does not contain valid csv data"
  const ColumnMismatchMessage: string := "The selected file does not contain the same columns as the selected table"
  const ImportedMessage: string := "The selected file was imported"

  /** `response_from_csv_err`: malformed data is reported on the table's edit page, any
      other reader error is a server error. */
  function ResponseFromCsvErr(kind: CsvErrorKind, tableId: nat): (resp: VaultResponse<()>)
    ensures resp.FlashRedirect? <==> kind == Utf8 || kind == UnequalLengths || kind == Deserialize
    ensures resp.FlashRedirect? ==> resp == FlashRedirect(EditTablePage(tableId), FlashError, InvalidCsvMessage)
    ensures !resp.FlashRedirect? ==> resp == Status(InternalServerError)
  {
    match kind
    case Utf8 => FlashRedirect(EditTablePage(tableId), FlashError, InvalidCsvMessage)
    case UnequalLengths => FlashRedirect(EditTablePage(tableId), FlashError, InvalidCsvMessage)
    case Deserialize => FlashRedirect(EditTablePage(tableId), FlashError, InvalidCsvMessage)
    case _ => Status(InternalServerError)
  }

  /** `import_submit`'s answer: a failure to keep the upload is a server error; then the
      import's result decides. */
  function ImportSubmitResponse(persisted: bool, result: Result<(), ImportError>, tableId: nat)
    : (resp: VaultResponse<()>)
    ensures !persisted ==> resp == Status(InternalServerError)
    ensures persisted && result.Ok? ==> resp == FlashRedirect(EditTablePage(tableId), FlashSuccess, ImportedMessage)
    ensures persisted && result.Err? ==>
      match result.error
      case Csv(e) => resp == ResponseFromCsvErr(e.kind, tableId)
      case ColumnMismatch => resp == FlashRedirect(EditTablePage(tableId), FlashError, ColumnMismatchMessage)
      case DatabaseError => resp == Status(InternalServerError)
      case TableNotFound => resp == Status(NotFound)
  {
    if !persisted then Status(InternalServerError)
    else match result
      case Ok(_) => FlashRedirect(EditTablePage(tableId), FlashSuccess, ImportedMessage)
      case Err(Csv(e)) => ResponseFromCsvErr(e.kind, tableId)
      case Err(ColumnMismatch) => FlashRedirect(EditTablePage(tableId), FlashError, ColumnMismatchMessage)
      case Err(DatabaseError) => Status(InternalServerError)
      case Err(TableNotFound) => Status(NotFound)
  }

  /** Only a missing table is a 404, and a success is never reported with an error flash. */
  lemma ImportResponseClasses(persisted: bool, result: Result<(), ImportError>, tableId: nat)
    ensures var resp := ImportSubmitResponse(persisted, result, tableId);
      && (resp == Status(NotFound) <==> persisted && result == Err(TableNotFound))
      && (resp.FlashRedirect? && resp.kind == FlashSuccess <==> persisted && result.Ok?)
  {
  }
}
