/** The in-memory shapes of the vault catalog (src/database/data.rs) and the CSV export
    of a fetched table (`VaultTable::export_csv`).

    The CSV text is modelled as the csv writer produces it for an in-memory buffer:
    fields are separated by `,`, a field is enclosed in double quotes when it holds a
    comma, a double quote, CR or LF (section 2 of RFC 4180), an embedded double quote
    is doubled, and every record ends with a line feed. The writer is built with
    `has_headers(false)` and is not flexible: the first record written fixes the number
    of fields, and a later record of another width is refused with `UnequalLengths`.
    One case differs: the writer renders a record made of a single empty field as `""`,
    the model as an empty line; a vault table's header always has two fields or more. */
module Data {
  import opened Wrappers

  /** One row of `table_index`: a vault table and its human-readable name. */
  datatype TableIndexEntry = TableIndexEntry(id: nat, uiName: string)

  /** One row of `column_index`: a column of the physical table `tableName`. */
  datatype ColumnIndexEntry = ColumnIndexEntry(
    id: nat,
    tableName: string,
    columnName: string,
    uiName: string,
    required: bool,
    encrypted: bool)

  /** One stored row of a vault table: its id and the cells after the id column. */
  datatype TableRow = TableRow(id: nat, data: seq<string>)

  /** A vault table as read back from the store. */
  datatype VaultTable = VaultTable(id: nat, name: string, columns: seq<ColumnIndexEntry>, rows: seq<TableRow>)

  /** The csv writer's refusal of a record whose width differs from the first record's. */
  datatype WriteError = UnequalLengths(expectedLen: nat, len: nat)

  // ---------------------------------------------------------------------------
  // Field quoting (section 2 of RFC 4180)

  predicate IsSpecial(c: char) {
    c == ',' || c == '"' || c == '\r' || c == '\n'
  }

  predicate NeedsQuotes(f: string) {
    exists i :: 0 <= i < |f| && IsSpecial(f[i])
  }

  /** Doubles every double quote of `f`. */
  function EscapeQuotes(f: string): string {
    if |f| == 0 then []
    else (if f[0] == '"' then "\"\"" else [f[0]]) + EscapeQuotes(f[1..])
  }

  /** Escaping adds no character that was not there, and leaves a field without a
      double quote as it is. */
  lemma {:induction false} EscapeQuotesKeepsCharacters(f: string)
    ensures forall c :: c in EscapeQuotes(f) <==> c in f
    ensures '"' !in f ==> EscapeQuotes(f) == f
    decreases |f|
  {
    if |f| > 0 {
      EscapeQuotesKeepsCharacters(f[1..]);
      assert f == [f[0]] + f[1..];
    }
  }

  /** A field as it appears in the output. */
  function QuoteField(f: string): string {
    if NeedsQuotes(f) then "\"" + EscapeQuotes(f) + "\"" else f
  }

  /** Reverses `EscapeQuotes`: a doubled quote becomes one quote; a lone quote is malformed. */
  function UnescapeQuotes(q: string): Option<string> {
    if |q| == 0 then Some([])
    else if q[0] != '"' then
      match UnescapeQuotes(q[1..])
      case None => None
      case Some(rest) => Some([q[0]] + rest)
    else if |q| >= 2 && q[1] == '"' then
      match UnescapeQuotes(q[2..])
      case None => None
      case Some(rest) => Some("\"" + rest)
    else None
  }

  /** Reads one field as written by `QuoteField`. */
  function UnquoteField(q: string): Option<string> {
    if |q| >= 2 && q[0] == '"' && q[|q| - 1] == '"' then UnescapeQuotes(q[1..|q| - 1])
    else if NeedsQuotes(q) then None
    else Some(q)
  }

  lemma {:induction false} UnescapeEscape(f: string)
    ensures UnescapeQuotes(EscapeQuotes(f)) == Some(f)
    decreases |f|
  {
    if |f| > 0 {
      UnescapeEscape(f[1..]);
      var e := EscapeQuotes(f);
      if f[0] == '"' {
        assert e[2..] == EscapeQuotes(f[1..]);
        assert f == "\"" + f[1..];
      } else {
        assert e[1..] == EscapeQuotes(f[1..]);
        assert f == [f[0]] + f[1..];
      }
    }
  }

  /** Quoting is lossless: every field reads back as itself. */
  lemma QuoteFieldRoundTrip(f: string)
    ensures UnquoteField(QuoteField(f)) == Some(f)
  {
    if NeedsQuotes(f) {
      UnescapeEscape(f);
      var q := QuoteField(f);
      assert q[1..|q| - 1] == EscapeQuotes(f);
    } else if |f| >= 2 && f[0] == '"' {
      assert IsSpecial(f[0]);
    }
  }

  // ---------------------------------------------------------------------------
  // Records and their rendering

  /** The fields of a record joined by commas, each quoted as needed. */
  function JoinFields(fields: seq<string>): string {
    if |fields| == 0 then []
    else if |fields| == 1 then QuoteField(fields[0])
    else JoinFields(fields[..|fields| - 1]) + "," + QuoteField(fields[|fields| - 1])
  }

  function RenderRecord(fields: seq<string>): string {
    JoinFields(fields) + "\n"
  }

  /** The text of a sequence of records, in order. */
  function RenderRecords(records: seq<seq<string>>): string {
    if |records| == 0 then []
    else RenderRecords(records[..|records| - 1]) + RenderRecord(records[|records| - 1])
  }

  /** The header record: the columns' UI names, in column order. */
  function HeaderRecord(columns: seq<ColumnIndexEntry>): (r: seq<string>)
    ensures |r| == |columns|
    ensures forall j :: 0 <= j < |columns| ==> r[j] == columns[j].uiName
  {
    seq(|columns|, j requires 0 <= j < |columns| => columns[j].uiName)
  }

  /** The cells of each row, in row order; row ids are not part of any record. */
  function RowRecords(rows: seq<TableRow>): (r: seq<seq<string>>)
    ensures |r| == |rows|
    ensures forall i :: 0 <= i < |rows| ==> r[i] == rows[i].data
  {
    seq(|rows|, i requires 0 <= i < |rows| => rows[i].data)
  }

  /** Every record `export_csv` writes: the header, then one record per row. */
  function Records(t: VaultTable): seq<seq<string>> {
    [HeaderRecord(t.columns)] + RowRecords(t.rows)
  }

  lemma RenderRecordsSnoc(records: seq<seq<string>>, last: seq<string>)
    ensures RenderRecords(records + [last]) == RenderRecords(records) + RenderRecord(last)
  {
    assert (records + [last])[..|records|] == records;
  }

  /** The index of the first row whose width differs from `width`, if any. */
  function FirstMisfit(rows: seq<TableRow>, width: nat): (r: Option<nat>)
    ensures r.Some? ==> r.value < |rows| && |rows[r.value].data| != width
    ensures r.Some? ==> forall i :: 0 <= i < r.value ==> |rows[i].data| == width
    ensures r.None? <==> forall i :: 0 <= i < |rows| ==> |rows[i].data| == width
  {
    if |rows| == 0 then None
    else match FirstMisfit(rows[..|rows| - 1], width)
      case Some(i) => Some(i)
      case None => if |rows[|rows| - 1].data| != width then Some(|rows| - 1) else None
  }

  lemma FirstMisfitAt(rows: seq<TableRow>, width: nat, i: nat)
    requires i < |rows| && |rows[i].data| != width
    requires forall j :: 0 <= j < i ==> |rows[j].data| == width
    ensures FirstMisfit(rows, width) == Some(i)
  {
  }

  /** Row ids never reach the output: tables that differ only in their row ids render alike. */
  lemma ExportIgnoresRowIds(t: VaultTable, u: VaultTable)
    requires t.columns == u.columns && |t.rows| == |u.rows|
    requires forall i :: 0 <= i < |t.rows| ==> t.rows[i].data == u.rows[i].data
    ensures RenderRecords(Records(t)) == RenderRecords(Records(u))
  {
    assert Records(t) == Records(u);
  }

  /** The output buffer of a csv writer over a `Vec<u8>`. */
  class CsvWriter {
    var buffer: string
    /** The width fixed by the first record written (the writer is not flexible). */
    var fieldCount: Option<nat>

    constructor ()
      ensures buffer == [] && fieldCount == None
    {
      buffer := [];
      fieldCount := None;
    }

    /** Writes the fields, then checks the width before writing the terminator. */
    method WriteRecord(fields: seq<string>) returns (r: Result<(), WriteError>)
      modifies this
      ensures old(fieldCount).None? ==> r.Ok? && fieldCount == Some(|fields|)
      ensures old(fieldCount).Some? ==> fieldCount == old(fieldCount)
      ensures old(fieldCount).Some? && old(fieldCount).value != |fields| ==>
                r == Err(UnequalLengths(old(fieldCount).value, |fields|))
                && buffer == old(buffer) + JoinFields(fields)
      ensures r.Ok? <==> (old(fieldCount).None? || old(fieldCount).value == |fields|)
      ensures r.Ok? ==> buffer == old(buffer) + RenderRecord(fields)
    {
      buffer := buffer + JoinFields(fields);
      if fieldCount.None? {
        fieldCount := Some(|fields|);
      } else if fieldCount.value != |fields| {
        return Err(UnequalLengths(fieldCount.value, |fields|));
      }
      buffer := buffer + "\n";
      return Ok(());
    }
  }

  /** The text written once the header and the first `i` rows are out. */
  function Written(t: VaultTable, i: nat): string
    requires i <= |t.rows|
  {
    RenderRecords([HeaderRecord(t.columns)] + RowRecords(t.rows[..i]))
  }

  lemma WrittenHeader(t: VaultTable)
    ensures Written(t, 0) == RenderRecord(HeaderRecord(t.columns))
  {
    assert [HeaderRecord(t.columns)] + RowRecords(t.rows[..0]) == [HeaderRecord(t.columns)];
    assert [HeaderRecord(t.columns)][..0] == [];
    assert RenderRecords([HeaderRecord(t.columns)]) == RenderRecords([]) + RenderRecord(HeaderRecord(t.columns));
  }

  lemma WrittenSnoc(t: VaultTable, i: nat)
    requires i < |t.rows|
    ensures Written(t, i + 1) == Written(t, i) + RenderRecord(t.rows[i].data)
  {
    var done := [HeaderRecord(t.columns)] + RowRecords(t.rows[..i]);
    assert [HeaderRecord(t.columns)] + RowRecords(t.rows[..i + 1]) == done + [t.rows[i].data];
    RenderRecordsSnoc(done, t.rows[i].data);
  }

  lemma WrittenAll(t: VaultTable)
    ensures Written(t, |t.rows|) == RenderRecords(Records(t))
  {
    assert t.rows[..|t.rows|] == t.rows;
  }

  /** `VaultTable::export_csv`: the header record of UI names, then one record per row.
      The in-memory buffer cannot fail to flush and holds valid text, so the only
      error is a row whose width differs from the number of columns. */
  method ExportCsv(t: VaultTable) returns (r: Result<string, WriteError>)
    ensures r.Ok? <==> FirstMisfit(t.rows, |t.columns|).None?
    ensures r.Ok? ==> r.value == RenderRecords(Records(t))
    ensures r.Err? ==> r.error == UnequalLengths(|t.columns|, |t.rows[FirstMisfit(t.rows, |t.columns|).value].data|)
  {
    var wtr := new CsvWriter();
    var header := wtr.WriteRecord(HeaderRecord(t.columns));
    assert header.Ok?;
    WrittenHeader(t);
    var rows := WriteRows(wtr, t);
    if rows.Err? {
      return Err(rows.error);
    }
    WrittenAll(t);
    return Ok(wtr.buffer);
  }

  /** The loop of `export_csv` over the rows, once the header is written. */
  method WriteRows(wtr: CsvWriter, t: VaultTable) returns (r: Result<(), WriteError>)
    requires wtr.fieldCount == Some(|t.columns|) && wtr.buffer == Written(t, 0)
    modifies wtr
    ensures r.Ok? <==> FirstMisfit(t.rows, |t.columns|).None?
    ensures r.Ok? ==> wtr.buffer == Written(t, |t.rows|)
    ensures r.Err? ==> r.error == UnequalLengths(|t.columns|, |t.rows[FirstMisfit(t.rows, |t.columns|).value].data|)
  {
    var i := 0;
    while i < |t.rows|
      invariant 0 <= i <= |t.rows|
      invariant wtr.fieldCount == Some(|t.columns|)
      invariant forall j :: 0 <= j < i ==> |t.rows[j].data| == |t.columns|
      invariant wtr.buffer == Written(t, i)
    {
      var written := wtr.WriteRecord(t.rows[i].data);
      if written.Err? {
        FirstMisfitAt(t.rows, |t.columns|, i);
        return Err(written.error);
      }
      WrittenSnoc(t, i);
      i := i + 1;
    }
    return Ok(());
  }
}
