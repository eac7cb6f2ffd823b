/** The table-creating and row-adding routes of src/routes/table_cud.rs, stripped of the
    HTTP layer: `add_submit` (default column names, then `create_vault_table`) and
    `add_data_submit` (form fields mapped by UI name onto columns, encrypted where the
    column says so, then one `insert_vault_data`). The session guard in front of both
    routes is `Sessions.Authenticate`. */
module TableCud {
  import opened Wrappers
  import opened Data
  import opened Database
  import opened Crypt
  import opened Cells
  import opened Responses

  const DefaultKeyUiName: string := "Key"
  const DefaultPasswordUiName: string := "Password"

  /** The UI names of the key and password columns: an empty name submitted is replaced
      by its default, any other is kept. */
  function KeyAndPasswordUiNames(keyColumnName: string, passwordColumnName: string): (names: (string, string))
    ensures names.0 != [] && names.1 != []
    ensures keyColumnName != [] ==> names.0 == keyColumnName
    ensures passwordColumnName != [] ==> names.1 == passwordColumnName
    ensures keyColumnName == [] ==> names.0 == DefaultKeyUiName
    ensures passwordColumnName == [] ==> names.1 == DefaultPasswordUiName
  {
    (if keyColumnName == [] then DefaultKeyUiName else keyColumnName,
     if passwordColumnName == [] then DefaultPasswordUiName else passwordColumnName)
  }

  /** The response of `add_submit` to the result of `create_vault_table`. */
  function AddSubmitResponse(created: Result<nat, DbError>): (resp: VaultResponse<()>)
    ensures created.Ok? <==> resp.Redirect?
    ensures created.Ok? ==> resp.page == TablePage(created.value)
    ensures created.Err? && created.error.Database? ==>
      resp == FlashRedirect(AddTablePage, FlashError, created.error.message)
    ensures created.Err? && created.error.Driver? ==> resp == Status(InternalServerError)
  {
    match created
    case Ok(id) => Redirect(TablePage(id))
    case Err(Database(message)) => FlashRedirect(AddTablePage, FlashError, message)
    case Err(Driver) => Status(InternalServerError)
  }

  /** `add_submit`: creates the table with the defaulted column names and answers with
      the new table's page, the server's message, or a server error. */
  method AddSubmit(store: VaultStore, name: string, keyColumnName: string, passwordColumnName: string,
                   extra: seq<string>, fault: Fault) returns (resp: VaultResponse<()>)
    modifies store
    ensures var names := KeyAndPasswordUiNames(keyColumnName, passwordColumnName);
      var out := Execute(old(store.db), CreatePlan(old(store.db.nextTableId), old(store.db.nextColumnId),
                                                   name, names.0, names.1, extra), fault);
      && store.db == out.db
      && resp == AddSubmitResponse(if out.error.Some? then Err(out.error.value) else Ok(old(store.db.nextTableId)))
  {
    var names := KeyAndPasswordUiNames(keyColumnName, passwordColumnName);
    var created := store.CreateVaultTable(name, names.0, names.1, extra, fault);
    resp := AddSubmitResponse(created);
  }

  // ---------------------------------------------------------------------------
  // add_data_submit

  /** `index.iter().find(|e| e.ui_name == ui_name)`: the first column with that UI name. */
  function FindByUiName(index: seq<ColumnIndexEntry>, uiName: string): (r: Option<ColumnIndexEntry>)
    ensures r.Some? ==> r.value in index && r.value.uiName == uiName
    ensures r.None? ==> forall i :: 0 <= i < |index| ==> index[i].uiName != uiName
    ensures r.Some? ==>
      exists i :: 0 <= i < |index| && index[i] == r.value && forall j :: 0 <= j < i ==> index[j].uiName != uiName
    decreases |index|
  {
    if |index| == 0 then None
    else if index[0].uiName == uiName then Some(index[0])
    else
      var r := FindByUiName(index[1..], uiName);
      assert forall j :: 1 <= j < |index| ==> index[j] == index[1..][j - 1];
      r
  }

  /** The closure of the `filter_map`: the column a form field names and the value to
      store, or nothing when no column has that UI name or encryption fails. */
  function FormField(index: seq<ColumnIndexEntry>, field: (string, string), kp: KeyPair, rng: Randomness)
    : Option<(string, string)>
  {
    match FindByUiName(index, field.0)
    case None => None
    case Some(entry) =>
      match EncodeCell(entry, field.1, kp, rng)
      case None => None
      case Some(value) => Some((entry.columnName, value))
  }

  /** The map handed to `insert_vault_data`. The form's fields come in the order the
      form map is iterated; field `i` is encrypted with randomness `rngs(i)`. */
  function FormData(form: seq<(string, string)>, index: seq<ColumnIndexEntry>, kp: KeyPair,
                    rngs: nat -> Randomness): map<string, string>
  {
    CollectMap(Somes(seq(|form|, i requires 0 <= i < |form| => FormField(index, form[i], kp, rngs(i)))))
  }

  /** The form field names a column called `column`, and `stored` reads back as its value. */
  predicate Supplies(index: seq<ColumnIndexEntry>, field: (string, string), column: string, stored: string,
                     kp: KeyPair) {
    && FindByUiName(index, field.0).Some?
    && FindByUiName(index, field.0).value.columnName == column
    && ReadsBack(FindByUiName(index, field.0).value, stored, field.1, kp)
  }

  /** The form field names a column and its value can be stored there. */
  predicate Storable(index: seq<ColumnIndexEntry>, field: (string, string), kp: KeyPair, rng: Randomness) {
    FindByUiName(index, field.0).Some? && EncodeCell(FindByUiName(index, field.0).value, field.1, kp, rng).Some?
  }

  /** A field is kept exactly when it is storable, under its column's name, with a value
      that reads back as the one submitted. */
  lemma FormFieldMeaning(index: seq<ColumnIndexEntry>, field: (string, string), kp: KeyPair, rng: Randomness)
    requires Matching(kp)
    ensures FormField(index, field, kp, rng).Some? <==> Storable(index, field, kp, rng)
    ensures FormField(index, field, kp, rng).Some? ==>
      var (column, stored) := FormField(index, field, kp, rng).value;
      Supplies(index, field, column, stored, kp)
  {
    if FindByUiName(index, field.0).Some? {
      EncodeCellRecoverable(FindByUiName(index, field.0).value, field.1, kp, rng);
    }
  }

  /** Every entry of the inserted map comes from a form field whose UI name matches a
      column with that column name (so unknown names are dropped) and reads back as that
      field's value; every storable field is present under its column's name. */
  lemma FormDataMeaning(form: seq<(string, string)>, index: seq<ColumnIndexEntry>, kp: KeyPair,
                        rngs: nat -> Randomness)
    requires Matching(kp)
    ensures var data := FormData(form, index, kp, rngs);
      && (forall column :: column in data ==>
            exists i :: 0 <= i < |form| && Supplies(index, form[i], column, data[column], kp))
      && (forall i :: 0 <= i < |form| && Storable(index, form[i], kp, rngs(i)) ==>
            FindByUiName(index, form[i].0).value.columnName in data)
  {
    var fields := seq(|form|, i requires 0 <= i < |form| => FormField(index, form[i], kp, rngs(i)));
    var pairs := Somes(fields);
    var data := CollectMap(pairs);
    forall column | column in data
      ensures exists i :: 0 <= i < |form| && Supplies(index, form[i], column, data[column], kp)
    {
      assert (column, data[column]) in pairs;
      assert Some((column, data[column])) in fields;
      var i :| 0 <= i < |fields| && fields[i] == Some((column, data[column]));
      FormFieldMeaning(index, form[i], kp, rngs(i));
    }
    forall i | 0 <= i < |form| && Storable(index, form[i], kp, rngs(i))
      ensures FindByUiName(index, form[i].0).value.columnName in data
    {
      FormFieldMeaning(index, form[i], kp, rngs(i));
      assert fields[i].value in pairs;
    }
  }

  /** `add_data_submit`: a failed column-index query is a server error, a table without
      columns is a bad request, and otherwise the mapped fields are inserted as one row
      and the table's page is shown, or a server error when the insert fails. Nothing is
      written unless the insert is reached. */
  method AddDataSubmit(store: VaultStore, tableId: nat, form: seq<(string, string)>, kp: KeyPair,
                       rngs: nat -> Randomness, fetchFault: Option<DbError>, insertFault: Option<DbError>)
    returns (resp: VaultResponse<()>)
    modifies store
    ensures var index := FetchColumnIndexById(old(store.db), tableId, fetchFault);
      && (index.Err? ==> resp == Status(InternalServerError) && store.db == old(store.db))
      && (index.Ok? && |index.value| == 0 ==> resp == Status(BadRequest) && store.db == old(store.db))
      && (index.Ok? && |index.value| > 0 ==>
            && store.db == Run(old(store.db), InsertVaultData(tableId, FormData(form, index.value, kp, rngs)),
                               insertFault).db
            && resp == if insertFault.None? then Redirect(TablePage(tableId)) else Status(InternalServerError))
  {
    var index := FetchColumnIndexById(store.db, tableId, fetchFault);
    if index.Err? {
      return Status(InternalServerError);
    }
    if |index.value| == 0 {
      return Status(BadRequest);
    }
    var data := FormData(form, index.value, kp, rngs);
    var inserted := store.InsertVaultDataRow(tableId, data, insertFault);
    if inserted.Ok? {
      resp := Redirect(TablePage(tableId));
    } else {
      resp := Status(InternalServerError);
    }
  }
}
