# simple-password-vault: a verified model of the vault core

simple-password-vault is a small web password vault. Users create "vault tables" whose
rows hold keys, passwords and extra fields. The cells of encrypted columns are stored as
hex-encoded RSA ciphertext in MySQL. A table can be exported to CSV and filled from a
CSV upload. Requests are authenticated by session tokens kept in memory.

This project models the layer between the web routes and MySQL/RSA, and proves what
that layer promises:

- `Database` (src/database.rs): the schema catalog over an abstract in-memory store.
  - The store holds `table_index`, `column_index`, the physical tables by name and a
    log of every write statement.
  - Each statement's effect is an `Apply` step. A `Fault` names the statement that fails.
  - `vault_<id>` and `extra_<i>` naming.
  - `create_vault_table` as a class method issuing its statements one by one, proved
    against `Execute` of its statement plan.
  - `fetch_table`, `log_and_return` and `From<TableIndexEntry>`.
- `Data` (src/database/data.rs): the entity shapes and `export_csv`.
  - `export_csv` is a loop over a `CsvWriter` buffer class.
  - Field quoting follows section 2 of RFC 4180.
- `Crypt`, `Hex`, `Utf8` (src/crypt.rs): the cell codec.
  - EME-PKCS1-v1_5 padding (section 7.2 of RFC 8017) is modelled concretely.
  - RSA primitives are function values with a `Matching` hypothesis.
  - Hex follows section 8 of RFC 4648, as the `hex` crate reads and writes it.
  - UTF-8 validation follows table 3-7 of the Unicode standard.
  - The `DecryptionError` order.
- `Cells`, `TableCud` (src/routes/table_cud.rs): default column names in `add_submit`,
  and the form-field to column mapping of `add_data_submit` with selective encryption.
- `Xport` (src/routes/xport.rs): `import` as a method with its two loops, and the
  responses of `import_submit` and `response_from_csv_err`.
- `Sessions` (src/sessions.rs): the `SessionManager` class, the request guard's decision
  order, the error-to-status table and the `Authorization` header token.
- `Responses`: the shared `VaultResponse` shape. `Wrappers`: `Option` and `Result`.

The database layer and the routes disagree in places at this revision of the program,
and the model uses one shape for both:

- src/database.rs:22-28 declares `ColumnIndexEntry` with four fields and
  src/database/data.rs:16-23 adds `required`; neither has `encrypted`, which
  src/routes/table_cud.rs:103 and src/routes/xport.rs:111 read. The model's entry has
  `id`, `tableName`, `columnName`, `uiName`, `required` and `encrypted`.
- `insert_column_index_entry` in src/database.rs:126-142 inserts three column fields. The
  model also records the flags: `key_` is required and clear, `password` is required and
  encrypted, and extras are neither.
- src/database.rs:211 declares `fetch_table` with the id alone, while
  src/routes/xport.rs:87 passes a second search argument `&None`. The model takes the
  id alone.

Wall-clock instants, random streams and the failing statement are parameters.

## Model

| member | source | states |
|---|---|---|
| Text.DecimalDigits | src/database.rs:268-270 | the `{}` rendering of an id: non-empty, all digits, no leading zero |
| Text.ParseDecimalDigits | src/database.rs:268-270 | the decimal rendering reads back as the number |
| Text.DecimalDigitsInjective | src/database.rs:268-270 | distinct numbers render differently |
| Text.FindFrom | src/sessions.rs:150-152 | the first occurrence of the separator at or after a position, or none at all |
| Data.EscapeQuotesKeepsCharacters | src/database/data.rs:44-46 | escaping adds no new character, and a field without a double quote is unchanged |
| Data.QuoteFieldRoundTrip | src/database/data.rs:44-46 | a field quoted as the writer quotes it reads back as itself |
| Data.HeaderRecord | src/database/data.rs:44 | the header record is the columns' UI names in column order |
| Data.RowRecords | src/database/data.rs:45-47 | one record per row, in row order, each the row's data verbatim |
| Data.FirstMisfit | src/database/data.rs:45-47 | the first row whose width differs from the header's, with all earlier rows fitting |
| Data.ExportIgnoresRowIds | src/database/data.rs:34-37 | tables differing only in row ids export to the same text |
| Data.CsvWriter.constructor | src/database/data.rs:41-43 | a writer without headers starts with an empty buffer and no fixed width |
| Data.CsvWriter.WriteRecord | src/database/data.rs:44-46 | the first record fixes the width; a record of another width fails with `UnequalLengths`; a written record is appended with its terminator |
| Data.WriteRows | src/database/data.rs:45-47 | once the header is out, the rows are written in order until the first misfit, whose `UnequalLengths` is returned |
| Data.ExportCsv | src/database/data.rs:40-49 | Ok exactly when every row has the column count, and then the text is the header then every row in order; otherwise the error of the first misfit row |
| Database.VaultTableName | src/database.rs:268-270 | `vault_` followed only by digits |
| Database.VaultTableNameRoundTrip | src/database.rs:268-270 | the id is recovered from the table name |
| Database.VaultTableNameInjective | src/database.rs:268-270 | distinct ids give distinct table names, and conversely |
| Database.ExtraColumnName | src/database.rs:163-166 | `extra_` followed only by digits |
| Database.ExtraColumnNames | src/database.rs:163-166 | exactly `extra_0` to `extra_{n-1}`, in order |
| Database.ExtraColumnNamesDistinct | src/database.rs:163-166 | the extra names are pairwise distinct and never `key_` or `password` |
| Database.ColumnDefinitionsCons | src/database.rs:172-174 | the column list of a cons is that column's definition, then the rest |
| Database.FoldExtraColumnsIsDefinitions | src/database.rs:172-174 | the fold appends `, <name> varchar(256)` for each extra in order |
| Database.PlannedColumns | src/database.rs:156-170 | 2+n entries of table `vault_<id>` with consecutive ids: `key_` (required, clear) for the key's UI name, `password` (required, encrypted) for the password's, then `extra_i` for `extra[i]`; the column names are pairwise distinct |
| Database.CreateStatementFollowsCatalog | src/database.rs:172-175 | after the id column, the `CREATE TABLE` text lists exactly the catalog's column names in catalog order |
| Database.CreatePlan | src/database.rs:152-176 | the statement plan has 4+n statements |
| Database.CreatePlanSteps | src/database.rs:152-176 | table-index insert, `key_`, `password`, each `extra_i`, then the `CREATE TABLE`, in that order |
| Database.FindTableIndexEntry | src/database.rs:180-187 | the entry with the id, or None exactly when no entry has it |
| Database.ColumnsOf | src/database.rs:189-201 | exactly the column entries whose table name matches (their index order is stated by Database.ColumnsOfAppend) |
| Database.ColumnsOfAppend | src/database.rs:189-201 | the matching entries of a concatenation are those of each part, in order, so the index order is kept |
| Database.LogAndReturn | src/database.rs:272-277 | returns its argument unchanged |
| Database.FromEntry | src/database.rs:38-46 | copies id and UI name; no columns and no rows |
| Database.ProjectRows | src/database.rs:215-227 | every stored row, in order, without its id column |
| Database.Run | src/database.rs:117-124 | one statement reports its injected error and is logged whether or not it succeeds |
| Database.ApplyAllRecordsPlan | src/database.rs:151-176 | every statement applied is logged once, in order |
| Database.ExecuteWithoutFault | src/database.rs:151-176 | with no failing statement the whole plan applies and no error is reported |
| Database.ExecuteWithFault | src/database.rs:151-176 | the failing statement's error is returned, everything before it stays applied (no transaction), and nothing after it is issued |
| Database.StepOutcome | src/database.rs:152-170 | issuing the next statement either ends the run with its error or extends the applied prefix |
| Database.ExecuteApplies | src/database.rs:151-176 | a run leaves its successful prefix applied, logs exactly the statements up to the first failure, and fails exactly when a statement fails |
| Database.PlanEffect | src/database.rs:152-176 | the table-index, column-index, counter, table and log contents after any plan shaped like that of `create_vault_table` |
| Database.CreateVaultTableEffect | src/database.rs:144-178 | the table-index entry unless the first insert failed; the column entries of the inserts that succeeded; the new physical table only on full success; success exactly when no statement fails |
| Database.CreateVaultTableKeepsValid | src/database.rs:144-178 | whichever statement fails, catalog ids stay below their counters and increasing, and every column and table belongs to an issued id |
| Database.FetchTable | src/database.rs:211-236 | None exactly when no table-index entry has the id; otherwise that entry's UI name, the columns of `vault_<id>` and the rows without their id column; a failure of any of the three queries returns its error, and a missing `vault_<id>` table is an error |
| Database.FetchColumnIndexById | src/routes/table_cud.rs:94 | the column entries of `vault_<id>`, or the query's error |
| Database.CreatedTableReadsBack | src/database.rs:211-236 | a table created without failure reads back with its UI name, exactly its planned columns and no rows |
| Database.FetchAfterCreate | src/database.rs:211-236 | a catalog grown by one entry, its columns and an empty table reads back as exactly that table |
| Database.VaultStore.constructor | src/database.rs:80-91 | an empty, consistent database with both counters at 1 |
| Database.VaultStore.InsertTableIndexEntry | src/database.rs:117-124 | the insert's new state, and the id handed out (`last_insert_id`) or the error |
| Database.VaultStore.InsertColumnIndexEntry | src/database.rs:126-142 | the insert's new state and its result |
| Database.VaultStore.CreatePhysicalTable | src/database.rs:175-176 | the `CREATE TABLE` statement's new state and its result |
| Database.VaultStore.InsertVaultDataRow | src/routes/table_cud.rs:111-117 | the insert is logged with exactly the map given, and its result |
| Database.VaultStore.InsertExtraColumns | src/database.rs:167-170 | the loop inserts `extra_i` in order, and its first failure is the outcome of the whole plan |
| Database.VaultStore.CreateVaultTable | src/database.rs:144-178 | the new store is that of `Execute` on the plan; the result is the new id, or the first failing statement's error |
| Database.VaultStore.IssueCreatePlan | src/database.rs:152-177 | issuing the statements one by one with early return equals executing the plan |
| Utf8.EncodeChar | src/crypt.rs:45 | one to four bytes per scalar value |
| Utf8.Decode | src/crypt.rs:51 | an error position lies inside the input |
| Utf8.DecodeFirstEncodeChar | src/crypt.rs:51 | the decoder reads back each encoded scalar value, whatever follows it |
| Utf8.EncodeCharDecodeFirst | src/crypt.rs:51 | the bytes the decoder accepts are the encoding of what it returns |
| Utf8.DecodeEncode | src/crypt.rs:45-59 | the UTF-8 bytes of a string decode back to it |
| Utf8.EncodeDecode | src/crypt.rs:51-59 | bytes that decode are the encoding of the decoded string |
| Utf8.ValidUpToDecodes | src/crypt.rs:51-59 | the bytes before the reported error position are valid |
| Hex.EncodeHex | src/crypt.rs:47 | two ASCII hex digits per byte |
| Hex.EncodeHexLowerCase | src/crypt.rs:47 | every digit written is `0-9` or `a-f` |
| Hex.DecodePairs | src/crypt.rs:55 | one byte per pair of digits |
| Hex.DecodeEncodeHex | src/crypt.rs:47-55 | hex decoding inverts hex encoding |
| Hex.DecodePairsFirstInvalid | src/crypt.rs:55 | decoding fails exactly when a byte is not a hex digit, and reports the first such byte |
| Hex.DecodePairsValues | src/crypt.rs:55 | every decoded byte is 16 times its high digit plus its low digit |
| Hex.DecodeHexErrors | src/crypt.rs:55 | odd length is reported first, otherwise the first non-hex character and its index; Ok otherwise |
| Crypt.PaddingString | src/crypt.rs:40-46 | the padding string has the requested length and no zero byte |
| Crypt.EmeEncode | src/crypt.rs:41-46 | a block of the modulus length: `0x00 0x02`, the non-zero padding string, a zero separator, then the message |
| Crypt.EmeDecode | src/crypt.rs:52-57 | an accepted block has the `0x00 0x02` prefix and at least 8 non-zero padding bytes, and the message is what follows the first zero separator |
| Crypt.EmeRoundTrip | src/crypt.rs:44-54 | unpadding inverts padding for every random stream |
| Crypt.DecryptEncrypt | src/crypt.rs:39-60 | under a matching key pair, encryption succeeds exactly when the message fits, and decryption returns it |
| Crypt.EncryptStringToHex | src/crypt.rs:39-48 | the lower-case hex (`hex::encode`) of the RSA ciphertext of the string's UTF-8 bytes, which decodes back to the ciphertext; RSA errors propagate |
| Crypt.DecryptionErrorOrder | src/crypt.rs:50-60 | invalid hex yields `ParseHex` whatever the key; then an RSA failure yields `Rsa`; then invalid UTF-8 yields `ParseString` |
| Crypt.CodecRoundTrip | src/crypt.rs:39-60 | under a matching key pair, a string whose bytes fit encrypts to 2k hex digits, and decrypting them returns it |
| Sessions.AlphanumericChar | src/sessions.rs:65-71 | every index maps to a character of `A-Z`, `a-z` or `0-9` |
| Sessions.RandomToken | src/sessions.rs:65-71 | exactly `len` alphanumeric characters |
| Sessions.SessionManager.constructor | src/sessions.rs:33-35 | no sessions |
| Sessions.SessionManager.GenerateSession | src/sessions.rs:37-49 | the returned pair is stored under the token with expiry `now + validity`; every other entry is kept |
| Sessions.SessionManager.GetSession | src/sessions.rs:51-53 | None exactly for an unknown key; otherwise the key itself with its metadata |
| Sessions.SessionManager.IsAdminSession | src/sessions.rs:55-57 | None for an unknown key, otherwise the stored admin flag |
| Sessions.SessionManager.IsSessionValid | src/sessions.rs:59-62 | None for an unknown key, otherwise whether `now` is strictly before the expiry |
| Sessions.GeneratedSessionLookups | src/sessions.rs:37-62 | a new session is found, valid before its expiry and not at or after it, carries its admin flag, and other tokens read as before |
| Sessions.FailureStatus | src/sessions.rs:91-101 | 400 exactly for `NoTokenSpecified`, 401 exactly for `NoSuchToken` and `ExpiredToken`, 500 exactly for `NoSessionManager` |
| Sessions.Authenticate | src/sessions.rs:107-125 | success exactly for a registered manager, a token, a stored session and an unexpired one; otherwise the first failing check's error, in that order, with its status |
| Sessions.HeaderTokenAsWritten | src/sessions.rs:145-154 | None exactly without a header; otherwise the text before the first `Basic ` of the value, or the whole value when it has none |
| Sessions.HeaderTokenAsWrittenDropsCredentials | src/sessions.rs:145-154 | `Basic <credentials>` yields the empty token |
| Sessions.HeaderToken | src/sessions.rs:145-154 | None exactly without a header; the whole value exactly when it has no `Basic `; otherwise the text after its first `Basic ` |
| Sessions.HeaderTokenRoundTrip | src/sessions.rs:145-154 | `Basic <credentials>` yields the credentials; a value without the scheme word is returned whole |
| Cells.EncodeCell | src/routes/table_cud.rs:103-107 | a value for a clear column is kept verbatim |
| Cells.EncodeCellRecoverable | src/routes/table_cud.rs:103-107 | under a matching key pair, a value is dropped exactly when its column is encrypted and it does not fit; a kept encrypted value decrypts back to the value |
| Cells.Somes | src/routes/table_cud.rs:98-110 | `filter_map` keeps a value exactly when some element holds it, and no more values than it is given |
| Cells.SomesAppend | src/routes/table_cud.rs:98-110 | the kept values of a concatenation are those of each part, in order |
| Cells.CollectMap | src/routes/table_cud.rs:98-110 | the keys are exactly the pairs' keys; every value comes from a pair; with distinct keys every pair is present |
| Cells.CollectMapLastWins | src/routes/table_cud.rs:98-110 | a key's value is that of its last pair: a later pair replaces an earlier one |
| TableCud.KeyAndPasswordUiNames | src/routes/table_cud.rs:55-64 | empty names become `Key` and `Password`; non-empty names pass unchanged |
| TableCud.AddSubmitResponse | src/routes/table_cud.rs:66-78 | the new table's page on success, the server's message for a database error, 500 otherwise |
| TableCud.AddSubmit | src/routes/table_cud.rs:50-79 | the table is created with the defaulted names, and the response follows the outcome |
| TableCud.FindByUiName | src/routes/table_cud.rs:102 | the first column with that UI name, or None when no column has it |
| TableCud.FormFieldMeaning | src/routes/table_cud.rs:101-109 | a field is kept exactly when its name matches a column and its value can be encoded, under that column's name, reading back as the value |
| TableCud.FormDataMeaning | src/routes/table_cud.rs:98-110 | every inserted entry comes from a field naming that column and reads back as its value; every storable field's column is present |
| TableCud.AddDataSubmit | src/routes/table_cud.rs:88-130 | a failed index query is a 500 and an empty index a 400, both without insert; otherwise one insert of the mapped fields, then the table page or a 500 |
| Xport.FirstBadRecord | src/routes/xport.rs:92-100 | the first unreadable or wrong-width record, all earlier ones being good, or None when every record is good |
| Xport.ReadRecords | src/routes/xport.rs:92-100 | Ok exactly when every record is readable and of the table's width, holding them all in order; otherwise the first bad record's error |
| Xport.ImportPlan | src/routes/xport.rs:102-125 | one insert per record, in file order, of that record's values |
| Xport.RecordCellMeaning | src/routes/xport.rs:107-117 | field i is kept exactly when it can be encoded for column i, under that column's name, reading back as the field |
| Xport.RecordValuesMeaning | src/routes/xport.rs:102-119 | only the table's columns are filled; each field is present exactly when it can be encoded and reads back as the field |
| Xport.Import | src/routes/xport.rs:77-127 | errors in check order (csv, lookup, missing table, first bad record), each before the inserts leaving the store unchanged; a failed lookup is `DatabaseError` |
| Xport.ImportAppliesInserts | src/routes/xport.rs:77-127 | once the file, the table and every record pass their checks, `import` succeeds exactly when no insert fails, and the store holds the inserts before the first failure |
| Xport.ImportInsertsInOrder | src/routes/xport.rs:120-126 | the inserts up to the first failure are issued in order and those before it stay; the import fails with `DatabaseError` exactly when an insert fails |
| Xport.ImportCsv | src/routes/xport.rs:77-127 | the store and the result are those of the import's specification |
| Xport.ResponseFromCsvErr | src/routes/xport.rs:129-138 | the "not valid csv" flash exactly for `Utf8`, `UnequalLengths` and `Deserialize`; 500 for every other kind |
| Xport.ImportSubmitResponse | src/routes/xport.rs:45-67 | 500 when the upload is not kept; then success flash, csv response, mismatch flash, 500 or 404 by the import's result |
| Xport.ImportResponseClasses | src/routes/xport.rs:54-62 | 404 exactly for a missing table; a success flash exactly for a successful import |

Specification functions without a row of their own are stated by the members above:
`Crypt.Encrypt` and `Crypt.Decrypt` (src/crypt.rs:39-60) by Crypt.DecryptEncrypt;
`Crypt.DecryptStringFromHex` (src/crypt.rs:50-60) by Crypt.DecryptionErrorOrder and
Crypt.CodecRoundTrip; `Hex.DecodeHex` (src/crypt.rs:55) by Hex.DecodeHexErrors and
Hex.DecodeEncodeHex; `Database.CreateTableStatement` (src/database.rs:172-175) by
Database.CreateStatementFollowsCatalog; `Database.Apply`, `Database.ApplyAll` and
`Database.Execute` (src/database.rs:117-176) by Database.Run, Database.ApplyAllRecordsPlan,
Database.ExecuteWithoutFault, Database.ExecuteWithFault and Database.ExecuteApplies;
`TableCud.FormData` (src/routes/table_cud.rs:98-110) by TableCud.FormDataMeaning;
`Xport.RecordCell` and `Xport.RecordValues` (src/routes/xport.rs:102-119) by
Xport.RecordCellMeaning and Xport.RecordValuesMeaning; `Xport.InsertRecords`
(src/routes/xport.rs:120-126) by Xport.ImportInsertsInOrder; `Data.QuoteField` by
Data.QuoteFieldRoundTrip; `Data.JoinFields`, `Data.RenderRecords` and `Data.Records`
(src/database/data.rs:40-49) by Data.CsvWriter.WriteRecord and Data.ExportCsv.

## Left out

- SQL execution, the connection pool and MySQL itself: each statement's effect is stated directly on the in-memory catalog. The `UNIQUE` constraint on `table_index.ui_name` is a failure injected through `Fault`, not derived from the contents.
- The auth table and password operations of src/database.rs:239-265: hashing happens inside SQL.
- RSA arithmetic and PEM key loading: the primitives are function values, and `Matching` is the round-trip hypothesis the codec needs.
- The distribution of the operating system's and the thread-local random generators: randomness is a stream passed in.
- `Instant::now()`: the instant is a natural-number parameter. The `u64`, `usize` and `Instant` widths are unbounded here.
- The tokio mutex around the session map: each method runs alone.
- Logging in `log_and_return` and in the fairings: output only.
- CSV reader internals: header-row handling and unequal-length detection are taken as given. The uploaded file is the reader's sequence of records after the header.
- The writer's line terminator: a line feed is used.
- Data.ExportCsv: a record made of one empty field is written by the `csv` writer as `""`, and the model writes an empty line. A vault table's header always holds `key_` and `password`, so an export that succeeds never has such a record.
- Temp-file persistence in `import_submit`: whether the upload was kept is a boolean parameter.
- The `WithCookie` token source, whose value is a parameter of `Authenticate`; the cookie jar is not modelled.
- `insert_vault_data`, `fetch_column_index_by_id`, `VaultTable::decrypt`, `delete_vault_row` and `delete_vault_table` are called by the routes but not defined in src/database.rs at this revision. The insert is a logged statement whose effect on the rows is not modelled. The index query returns the catalog columns of `vault_<id>`.
- The `download`, `add`, `edit`, `delete_data_submit` and `delete_submit` routes: rendering and redirects around operations modelled elsewhere.
- Crypt.Encrypt: for a key shorter than 11 bytes, where `k - 11` underflows in `usize`, the model reports `MessageTooLong`.
- NULL cells: `fetch_table` reads every cell with `Row::get` into a `String`, which panics on NULL, and the physical columns are nullable. Rows here hold strings only, so that panic is not modelled.
- Iteration order of the form's and the records' `HashMap`s: the pairs are taken in the order of the input sequence, and a later pair with the same column wins.
- Xport.ImportCsv: the lazy per-record mapping in the source encrypts each record just before its insert. The model computes the same values, but does not expose the interleaving.

## Findings

| source | as written | input that shows it | evidently intended | confidence | as-written member | corrected member |
|---|---|---|---|---|---|---|
| src/sessions.rs:145-154 | `WithHeader::retrieve_token` returns the first piece of the header value split on `Basic `, i.e. the text before the scheme word | the header `Basic abc` yields the token `""`, not `abc` | the credentials after `Basic ` | not executed | Sessions.HeaderTokenAsWritten, Sessions.HeaderTokenAsWrittenDropsCredentials | Sessions.HeaderToken, Sessions.HeaderTokenRoundTrip |
