/**
 * The CSV validation pipe: an uploaded file is checked (present, `.csv`
 * name, parsable, not empty, every configured column present), then every
 * parsed record is projected onto the configured columns, transformed and
 * validated; the call either returns one typed row per record or fails with
 * every row's errors.
 *
 * The CSV parser and the Joi schemas are parameters: a parser maps the file
 * text to its records (or fails), a schema maps a value to the messages it
 * reports (none when the value is valid).
 */
module CsvValidation {
  import opened Wrappers
  import opened Js
  import opened OrderedMap

  /** One parsed CSV record: header name to (trimmed) cell text. */
  type Record = map<string, string>

  /** One projected, transformed row. */
  type Row = map<string, Value>

  /** A Joi schema: the error messages it reports for a value. */
  type Schema = Value -> seq<string>

  /** The CSV parser: the records of a text, or None when it cannot parse it. */
  type CsvParser = string -> Option<seq<Record>>

  datatype CsvColumnConfig = CsvColumnConfig(name: string, schema: Schema, transform: Option<string -> Value>)

  /** The parts of an uploaded file the pipe reads: its name and its text. */
  datatype UploadedFile = UploadedFile(originalname: string, buffer: string)

  datatype PipeError =
    | FileRequired
    | NotCsvFile
    | InvalidCsvFormat
    | EmptyCsvFile
    | MissingRequiredColumns(names: seq<string>)
    | ValidationErrors(rowErrors: seq<string>)
  {
    /** The message of the `BadRequestException` raised. */
    function Message(): string
    {
      match this
      case FileRequired => "File is required"
      case NotCsvFile => "File must be a CSV file"
      case InvalidCsvFormat => "Invalid CSV format"
      case EmptyCsvFile => "CSV file is empty"
      case MissingRequiredColumns(names) => "Missing required columns: " + Join(names, ", ")
      case ValidationErrors(lines) => "Validation errors:\n" + Join(lines, "\n")
    }
  }

  /** The validation report is its header followed by the row lines, one
      per line: splitting what follows the header at line breaks gives the
      lines back. */
  lemma ValidationReportLines(lines: seq<string>)
    requires |lines| >= 1
    requires forall i :: 0 <= i < |lines| ==> '\n' !in lines[i]
    ensures |ValidationErrors(lines).Message()| >= 19
    ensures ValidationErrors(lines).Message()[..19] == "Validation errors:\n"
    ensures Split(ValidationErrors(lines).Message()[19..], '\n') == lines
  {
    var m := ValidationErrors(lines).Message();
    var header := "Validation errors:\n";
    var body := Join(lines, "\n");
    assert m == header + body;
    assert m[19..] == body;
    SplitJoin(lines, '\n');
  }

  const ColumnsRequiredMessage: string := "Columns configuration is required"

  function ColumnNames(cols: seq<CsvColumnConfig>): (names: seq<string>)
    ensures |names| == |cols|
    ensures forall i :: 0 <= i < |cols| ==> names[i] == cols[i].name
  {
    seq(|cols|, i requires 0 <= i < |cols| => cols[i].name)
  }

  predicate DistinctNames(cols: seq<CsvColumnConfig>)
  {
    forall i, j :: 0 <= i < j < |cols| ==> cols[i].name != cols[j].name
  }

  // ---------------------------------------------------------------------------
  // The file-name check

  /** `originalname.split('.').pop()?.toLowerCase()`. */
  function FileExtension(name: string): string
  {
    ToLower(LastSegment(name, '.'))
  }

  /** The extension check accepts exactly the names whose last three
      characters spell `csv` in any case and are the whole name or follow a
      dot. */
  lemma CsvExtensionAccepted(name: string)
    ensures FileExtension(name) == "csv" <==>
      |name| >= 3 && ToLower(name[|name| - 3..]) == "csv" && (|name| == 3 || name[|name| - 4] == '.')
  {
    var e := LastSegment(name, '.');
    var n := |name|;
    LastSegmentIsMaximalSuffix(name, '.');
    if FileExtension(name) == "csv" {
      assert |e| == 3 && name[n - 3..] == e;
    }
    if n >= 3 && ToLower(name[n - 3..]) == "csv" && (n == 3 || name[n - 4] == '.') {
      var t := name[n - 3..];
      assert LowerChar(t[0]) == 'c' && LowerChar(t[1]) == 's' && LowerChar(t[2]) == 'v';
      assert forall i :: n - 3 <= i < n ==> name[i] != '.' by {
        forall i | n - 3 <= i < n ensures name[i] != '.' {
          assert name[i] == t[i - (n - 3)];
        }
      }
      assert e == t;
    }
  }

  /** A `.csv` ending in any case is accepted, and so is the bare name `csv`. */
  lemma AcceptedNames()
    ensures FileExtension("movies1.csv") == "csv"
    ensures FileExtension("DATA.CSV") == "csv"
    ensures FileExtension("csv") == "csv"
  {
    CsvExtensionAccepted("movies1.csv");
    CsvExtensionAccepted("DATA.CSV");
    CsvExtensionAccepted("csv");
  }

  /** `test.txt` is refused, and so is a name where `.csv` is not last. */
  lemma RefusedNames()
    ensures FileExtension("test.txt") != "csv"
    ensures FileExtension("movies.csv.bak") != "csv"
  {
    CsvExtensionAccepted("test.txt");
    CsvExtensionAccepted("movies.csv.bak");
  }

  // ---------------------------------------------------------------------------
  // The required-columns check

  ghost predicate IsSubsequence(a: seq<string>, b: seq<string>)
  {
    if a == [] then true
    else if b == [] then false
    else if a[0] == b[0] then IsSubsequence(a[1..], b[1..])
    else IsSubsequence(a, b[1..])
  }

  /** `requiredColumns.filter((col) => !csvColumns.includes(col))`: the
      configured names absent from the first record, in configuration order. */
  function Missing(required: seq<string>, first: Record): (missing: seq<string>)
    ensures forall c :: c in missing <==> c in required && c !in first
    ensures IsSubsequence(missing, required)
  {
    if required == [] then []
    else
      var rest := Missing(required[1..], first);
      if required[0] in first then rest else [required[0]] + rest
  }

  /** Nothing is missing when every configured name is a header. */
  lemma {:induction false} MissingNone(required: seq<string>, first: Record)
    requires forall c :: c in required ==> c in first
    ensures Missing(required, first) == []
  {
    if required != [] {
      MissingNone(required[1..], first);
    }
  }

  // ---------------------------------------------------------------------------
  // Projecting a record onto the columns

  /** `record[col.name] || ''`: an absent (or empty) cell reads as `''`. */
  function Cell(record: Record, name: string): string
  {
    if name in record then record[name] else ""
  }

  /** `col.transform ? col.transform(value) : value`. */
  function ApplyColumn(col: CsvColumnConfig, raw: string): Value
  {
    match col.transform
    case Some(t) => t(raw)
    case None => Str(raw)
  }

  /** The row after the first `n` columns have been set, in turn. */
  function RowPrefix(cols: seq<CsvColumnConfig>, record: Record, n: nat): Row
    requires n <= |cols|
  {
    if n == 0 then map[]
    else
      var c := cols[n - 1];
      RowPrefix(cols, record, n - 1)[c.name := ApplyColumn(c, Cell(record, c.name))]
  }

  /** The row built from a record by setting every column in turn. */
  function BuildRow(cols: seq<CsvColumnConfig>, record: Record): Row
  {
    RowPrefix(cols, record, |cols|)
  }

  /** The position of the last of the first `n` columns configured under a name. */
  function LastIndexOf(cols: seq<CsvColumnConfig>, name: string, n: nat): (i: nat)
    requires n <= |cols| && exists k :: 0 <= k < n && cols[k].name == name
    ensures i < n && cols[i].name == name
    ensures forall j :: i < j < n ==> cols[j].name != name
  {
    if cols[n - 1].name == name then n - 1 else LastIndexOf(cols, name, n - 1)
  }

  /** The last column configured under a name. */
  function LastColumn(cols: seq<CsvColumnConfig>, name: string): CsvColumnConfig
    requires exists k :: 0 <= k < |cols| && cols[k].name == name
  {
    cols[LastIndexOf(cols, name, |cols|)]
  }

  lemma LastColumnOfDistinct(cols: seq<CsvColumnConfig>, i: nat)
    requires DistinctNames(cols) && i < |cols|
    ensures LastColumn(cols, cols[i].name) == cols[i]
  {
  }

  lemma {:induction false} RowPrefixKeys(cols: seq<CsvColumnConfig>, record: Record, n: nat)
    requires n <= |cols|
    ensures RowPrefix(cols, record, n).Keys == set i | 0 <= i < n :: cols[i].name
  {
    if n > 0 {
      RowPrefixKeys(cols, record, n - 1);
      assert (set i | 0 <= i < n :: cols[i].name) == (set i | 0 <= i < n - 1 :: cols[i].name) + {cols[n - 1].name};
    }
  }

  lemma {:induction false} RowPrefixValue(cols: seq<CsvColumnConfig>, record: Record, n: nat, i: nat)
    requires i < n <= |cols|
    ensures cols[i].name in RowPrefix(cols, record, n)
    ensures RowPrefix(cols, record, n)[cols[i].name]
      == ApplyColumn(cols[LastIndexOf(cols, cols[i].name, n)], Cell(record, cols[i].name))
  {
    if cols[n - 1].name != cols[i].name {
      RowPrefixValue(cols, record, n - 1, i);
    }
  }

  /** Each row has exactly the configured columns (extra CSV columns never
      appear), and each column holds the transform of its cell (`''` when the
      cell is absent) by the last column configured under that name. */
  lemma RowShape(cols: seq<CsvColumnConfig>, record: Record)
    ensures BuildRow(cols, record).Keys == set i | 0 <= i < |cols| :: cols[i].name
    ensures forall i :: 0 <= i < |cols| ==>
      BuildRow(cols, record)[cols[i].name] == ApplyColumn(LastColumn(cols, cols[i].name), Cell(record, cols[i].name))
  {
    RowPrefixKeys(cols, record, |cols|);
    forall i | 0 <= i < |cols|
      ensures BuildRow(cols, record)[cols[i].name] == ApplyColumn(LastColumn(cols, cols[i].name), Cell(record, cols[i].name))
    {
      RowPrefixValue(cols, record, |cols|, i);
    }
  }

  /** With distinct names, each column holds its own transform of its cell. */
  lemma RowShapeDistinct(cols: seq<CsvColumnConfig>, record: Record, i: nat)
    requires DistinctNames(cols) && i < |cols|
    ensures cols[i].name in BuildRow(cols, record)
    ensures BuildRow(cols, record)[cols[i].name] == ApplyColumn(cols[i], Cell(record, cols[i].name))
  {
    RowShape(cols, record);
    LastColumnOfDistinct(cols, i);
  }

  // ---------------------------------------------------------------------------
  // The Joi object schema and row validation

  function SchemaPairs(cols: seq<CsvColumnConfig>): seq<(string, Schema)>
  {
    seq(|cols|, i requires 0 <= i < |cols| => (cols[i].name, cols[i].schema))
  }

  /** `schemaObject`: each column's schema set under its name, in turn. */
  function BuildSchema(cols: seq<CsvColumnConfig>): OMap<string, Schema>
  {
    FromPairs(SchemaPairs(cols))
  }

  /** The schema holds every configured name, in the order of first
      configuration, with the schema of the last column of that name. */
  lemma SchemaShape(cols: seq<CsvColumnConfig>)
    ensures forall k :: k in BuildSchema(cols).vals <==> k in ColumnNames(cols)
    ensures forall i :: 0 <= i < |cols| ==>
      cols[i].name in BuildSchema(cols).vals &&
      BuildSchema(cols).vals[cols[i].name] == LastColumn(cols, cols[i].name).schema
    ensures DistinctNames(cols) ==> BuildSchema(cols).keys == ColumnNames(cols)
  {
    var ps := SchemaPairs(cols);
    var n := |cols|;
    var m := BuildSchema(cols);
    forall k ensures k in m.vals <==> k in ColumnNames(cols) {
      SetAllLookup(ps, n, k);
      var l := LastIndex(ps, n, k);
      if l < n {
        assert ColumnNames(cols)[l] == k;
      }
      if k in ColumnNames(cols) {
        var i :| 0 <= i < n && ColumnNames(cols)[i] == k;
        assert ps[i].0 == k;
      }
    }
    forall i | 0 <= i < n
      ensures cols[i].name in m.vals
      ensures m.vals[cols[i].name] == LastColumn(cols, cols[i].name).schema
    {
      var k := cols[i].name;
      SetAllLookup(ps, n, k);
      assert ps[i].0 == k;
      var a, b := LastIndex(ps, n, k), LastIndexOf(cols, k, n);
      assert ps[b].0 == k && cols[a].name == k;
      assert !(a < b) && !(b < a);
    }
    if DistinctNames(cols) {
      SetAllDistinct(ps, n);
    }
  }

  /** Joi's `object.validate(row, { abortEarly: false })`: the messages of
      every key's schema, in key order; an absent key is `undefined`. */
  function ValidateKeys(keys: seq<string>, schemas: map<string, Schema>, row: Row): seq<string>
  {
    if keys == [] then []
    else
      var k := keys[0];
      var messages := if k in schemas then schemas[k](if k in row then row[k] else Undefined) else [];
      messages + ValidateKeys(keys[1..], schemas, row)
  }

  function Validate(schema: OMap<string, Schema>, row: Row): seq<string>
  {
    ValidateKeys(schema.keys, schema.vals, row)
  }

  /** The messages a record's row draws from the configured schema. */
  function RowMessages(cols: seq<CsvColumnConfig>, record: Record): seq<string>
  {
    Validate(BuildSchema(cols), BuildRow(cols, record))
  }

  /** Each column's schema judging that column's transformed cell, in column order. */
  function ColumnMessages(cols: seq<CsvColumnConfig>, record: Record): seq<string>
  {
    if cols == [] then []
    else cols[0].schema(ApplyColumn(cols[0], Cell(record, cols[0].name))) + ColumnMessages(cols[1..], record)
  }

  lemma {:induction false} ValidateKeysPerColumn(cols: seq<CsvColumnConfig>, k: nat, schemas: map<string, Schema>,
                                                 row: Row, record: Record)
    requires k <= |cols|
    requires forall i :: k <= i < |cols| ==> cols[i].name in schemas && schemas[cols[i].name] == cols[i].schema
    requires forall i :: k <= i < |cols| ==>
      cols[i].name in row && row[cols[i].name] == ApplyColumn(cols[i], Cell(record, cols[i].name))
    ensures ValidateKeys(ColumnNames(cols)[k..], schemas, row) == ColumnMessages(cols[k..], record)
    decreases |cols| - k
  {
    var names := ColumnNames(cols);
    if k < |cols| {
      ValidateKeysPerColumn(cols, k + 1, schemas, row, record);
      assert names[k..][1..] == names[k + 1..];
      assert cols[k..][1..] == cols[k + 1..];
    }
  }

  /** The transform runs before validation: with distinct column names, a
      row's messages are each column's schema applied to that column's
      transformed cell, in column order. */
  lemma ValidateTransformedRow(cols: seq<CsvColumnConfig>, record: Record)
    requires DistinctNames(cols)
    ensures RowMessages(cols, record) == ColumnMessages(cols, record)
  {
    SchemaShape(cols);
    forall i | 0 <= i < |cols|
      ensures cols[i].name in BuildSchema(cols).vals && BuildSchema(cols).vals[cols[i].name] == cols[i].schema
      ensures cols[i].name in BuildRow(cols, record)
      ensures BuildRow(cols, record)[cols[i].name] == ApplyColumn(cols[i], Cell(record, cols[i].name))
    {
      LastColumnOfDistinct(cols, i);
      RowShapeDistinct(cols, record, i);
    }
    ValidateKeysPerColumn(cols, 0, BuildSchema(cols).vals, BuildRow(cols, record), record);
    assert ColumnNames(cols)[0..] == ColumnNames(cols);
    assert cols[0..] == cols;
  }

  // ---------------------------------------------------------------------------
  // The row loop

  /** `Row <index + 2>: <messages joined by ', '>`. */
  function RowLine(index: nat, messages: seq<string>): string
  {
    "Row " + NatToString(index + 2) + ": " + Join(messages, ", ")
  }

  /** The messages each record draws, in input order. */
  function AllMessages(cols: seq<CsvColumnConfig>, records: seq<Record>): (msgs: seq<seq<string>>)
    ensures |msgs| == |records|
    ensures forall i :: 0 <= i < |records| ==> msgs[i] == RowMessages(cols, records[i])
  {
    seq(|records|, i requires 0 <= i < |records| => RowMessages(cols, records[i]))
  }

  /** The row each record builds, in input order. */
  function AllRows(cols: seq<CsvColumnConfig>, records: seq<Record>): (rows: seq<Row>)
    ensures |rows| == |records|
    ensures forall i :: 0 <= i < |records| ==> rows[i] == BuildRow(cols, records[i])
  {
    seq(|records|, i requires 0 <= i < |records| => BuildRow(cols, records[i]))
  }

  /** The `errors` array after the loop has visited the first `n` records,
      given the messages of each record. */
  function RowErrors(msgs: seq<seq<string>>, n: nat): seq<string>
    requires n <= |msgs|
  {
    if n == 0 then []
    else RowErrors(msgs, n - 1) + (if msgs[n - 1] != [] then [RowLine(n - 1, msgs[n - 1])] else [])
  }

  /** The `validatedData` array after the loop has visited the first `n`
      records, given the messages and the row of each record. */
  function ValidRows(msgs: seq<seq<string>>, rows: seq<Row>, n: nat): seq<Row>
    requires n <= |msgs| && n <= |rows|
  {
    if n == 0 then []
    else ValidRows(msgs, rows, n - 1) + (if msgs[n - 1] == [] then [rows[n - 1]] else [])
  }

  /** The positions among the first `n` records that draw messages, in
      increasing order. */
  ghost function FailingRows(msgs: seq<seq<string>>, n: nat): (f: seq<nat>)
    requires n <= |msgs|
    ensures forall a, b :: 0 <= a < b < |f| ==> f[a] < f[b]
    ensures forall k :: 0 <= k < |f| ==> f[k] < n
    ensures forall i :: 0 <= i < n ==> (i in f <==> msgs[i] != [])
  {
    if n == 0 then []
    else FailingRows(msgs, n - 1) + (if msgs[n - 1] != [] then [n - 1] else [])
  }

  /** Validation does not stop at the first failing row: there is one line
      per failing record, in input order, numbered by its position plus 2 and
      listing that record's messages. */
  lemma {:induction false} RowErrorsReportFailingRows(msgs: seq<seq<string>>, n: nat)
    requires n <= |msgs|
    ensures |RowErrors(msgs, n)| == |FailingRows(msgs, n)|
    ensures forall k :: 0 <= k < |FailingRows(msgs, n)| ==>
      RowErrors(msgs, n)[k] == RowLine(FailingRows(msgs, n)[k], msgs[FailingRows(msgs, n)[k]])
  {
    if n > 0 {
      RowErrorsReportFailingRows(msgs, n - 1);
      var f0, e0 := FailingRows(msgs, n - 1), RowErrors(msgs, n - 1);
      if msgs[n - 1] != [] {
        assert FailingRows(msgs, n) == f0 + [n - 1];
        assert RowErrors(msgs, n) == e0 + [RowLine(n - 1, msgs[n - 1])];
      } else {
        assert FailingRows(msgs, n) == f0;
        assert RowErrors(msgs, n) == e0;
      }
    }
  }

  /** No row line at all exactly when every record validates, and then the
      output has one row per record, in input order. */
  lemma {:induction false} AllRowsValid(msgs: seq<seq<string>>, rows: seq<Row>, n: nat)
    requires n <= |msgs| && n <= |rows|
    ensures RowErrors(msgs, n) == [] <==> forall i :: 0 <= i < n ==> msgs[i] == []
    ensures RowErrors(msgs, n) == [] ==> ValidRows(msgs, rows, n) == rows[..n]
  {
    if n > 0 {
      AllRowsValid(msgs, rows, n - 1);
      if RowErrors(msgs, n) == [] {
        assert RowErrors(msgs, n - 1) == [];
        assert rows[..n] == rows[..n - 1] + [rows[n - 1]];
      }
    }
  }

  // ---------------------------------------------------------------------------
  // The whole transform

  /** What `transform` returns for a file, or the error it raises. */
  function Ingest(cols: seq<CsvColumnConfig>, file: Option<UploadedFile>, parse: CsvParser): Result<seq<Row>, PipeError>
  {
    if file.None? then Failure(FileRequired)
    else if FileExtension(file.value.originalname) != "csv" then Failure(NotCsvFile)
    else match parse(file.value.buffer)
      case None => Failure(InvalidCsvFormat)
      case Some(records) =>
        if |records| == 0 then Failure(EmptyCsvFile)
        else
          var missing := Missing(ColumnNames(cols), records[0]);
          if |missing| > 0 then Failure(MissingRequiredColumns(missing))
          else CheckRows(cols, records)
  }

  /** The row loop and its verdict: every row's errors, or every row. */
  function CheckRows(cols: seq<CsvColumnConfig>, records: seq<Record>): Result<seq<Row>, PipeError>
  {
    var msgs := AllMessages(cols, records);
    var errors := RowErrors(msgs, |records|);
    if |errors| > 0 then Failure(ValidationErrors(errors))
    else Success(ValidRows(msgs, AllRows(cols, records), |records|))
  }

  /** The row loop succeeds exactly when every record validates. */
  lemma CheckRowsSucceeds(cols: seq<CsvColumnConfig>, records: seq<Record>)
    ensures CheckRows(cols, records).Success? <==>
      forall i :: 0 <= i < |records| ==> RowMessages(cols, records[i]) == []
  {
    var msgs := AllMessages(cols, records);
    AllRowsValid(msgs, AllRows(cols, records), |records|);
  }

  /** On success there is one row per record, in input order, each with
      exactly the configured columns. */
  lemma CheckRowsReturnsEveryRow(cols: seq<CsvColumnConfig>, records: seq<Record>)
    requires CheckRows(cols, records).Success?
    ensures var rows := CheckRows(cols, records).value;
      && |rows| == |records|
      && forall i :: 0 <= i < |records| ==>
           rows[i] == BuildRow(cols, records[i]) && rows[i].Keys == set j | 0 <= j < |cols| :: cols[j].name
  {
    var msgs := AllMessages(cols, records);
    var rows := AllRows(cols, records);
    AllRowsValid(msgs, rows, |records|);
    assert rows[..|records|] == rows;
    forall i | 0 <= i < |records| ensures BuildRow(cols, records[i]).Keys == set j | 0 <= j < |cols| :: cols[j].name {
      RowShape(cols, records[i]);
    }
  }

  /** On failure there is one line per failing record, in input order. */
  lemma CheckRowsReportsEveryFailure(cols: seq<CsvColumnConfig>, records: seq<Record>)
    requires CheckRows(cols, records).Failure?
    ensures var f := FailingRows(AllMessages(cols, records), |records|);
      var e := CheckRows(cols, records).error;
      && |f| > 0 && e.ValidationErrors? && |e.rowErrors| == |f|
      && forall k :: 0 <= k < |f| ==> e.rowErrors[k] == RowLine(f[k], RowMessages(cols, records[f[k]]))
  {
    RowErrorsReportFailingRows(AllMessages(cols, records), |records|);
  }

  /** The checks run in a fixed order and the first that fails decides the error. */
  lemma IngestFailsFast(cols: seq<CsvColumnConfig>, file: Option<UploadedFile>, parse: CsvParser)
    ensures Ingest(cols, file, parse) == Failure(FileRequired) <==> file.None?
    ensures Ingest(cols, file, parse) == Failure(NotCsvFile) <==>
      file.Some? && FileExtension(file.value.originalname) != "csv"
    ensures Ingest(cols, file, parse) == Failure(InvalidCsvFormat) <==>
      file.Some? && FileExtension(file.value.originalname) == "csv" && parse(file.value.buffer).None?
    ensures Ingest(cols, file, parse) == Failure(EmptyCsvFile) <==>
      file.Some? && FileExtension(file.value.originalname) == "csv" && parse(file.value.buffer) == Some([])
    ensures Ingest(cols, file, parse).Failure? && Ingest(cols, file, parse).error.MissingRequiredColumns? <==>
      && file.Some? && FileExtension(file.value.originalname) == "csv"
      && parse(file.value.buffer).Some? && |parse(file.value.buffer).value| > 0
      && exists c :: c in ColumnNames(cols) && c !in parse(file.value.buffer).value[0]
  {
    if file.Some? && FileExtension(file.value.originalname) == "csv" && parse(file.value.buffer).Some? {
      var records := parse(file.value.buffer).value;
      if |records| > 0 {
        var missing := Missing(ColumnNames(cols), records[0]);
        if |missing| > 0 {
          assert missing[0] in missing;
        }
      }
    }
  }

  /** Once the file passes the structural checks, the outcome is the row
      loop's. */
  lemma IngestReachesRows(cols: seq<CsvColumnConfig>, name: string, text: string, parse: CsvParser)
    requires FileExtension(name) == "csv"
    requires parse(text).Some? && |parse(text).value| > 0
    requires forall c :: c in ColumnNames(cols) ==> c in parse(text).value[0]
    ensures Ingest(cols, Some(UploadedFile(name, text)), parse) == CheckRows(cols, parse(text).value)
  {
    MissingNone(ColumnNames(cols), parse(text).value[0]);
  }

  // ---------------------------------------------------------------------------
  // The pipe object

  class CsvValidationPipe {
    const columns: seq<CsvColumnConfig>
    const joiSchema: OMap<string, Schema>

    /** The Joi object schema is the one built from the columns. */
    ghost predicate Valid()
    {
      joiSchema == BuildSchema(columns)
    }

    /** The part of `new CsvValidationPipe(columns)` after the emptiness check. */
    constructor (columns: seq<CsvColumnConfig>)
      requires |columns| > 0
      ensures Valid() && this.columns == columns
    {
      this.columns := columns;
      var pairs := SchemaPairs(columns);
      var schemaObject: OMap<string, Schema> := OMap([], map[]);
      var i := 0;
      while i < |columns|
        invariant 0 <= i <= |columns|
        invariant schemaObject == SetAll(pairs, i)
      {
        schemaObject := schemaObject.Set(columns[i].name, columns[i].schema);
        i := i + 1;
      }
      this.joiSchema := schemaObject;
    }

    /** `new CsvValidationPipe(columns)`: a null or empty configuration throws. */
    static method Create(columns: Option<seq<CsvColumnConfig>>) returns (r: Result<CsvValidationPipe, string>)
      ensures r.Failure? <==> columns.None? || |columns.value| == 0
      ensures r.Failure? ==> r.error == ColumnsRequiredMessage
      ensures r.Success? ==> fresh(r.value) && r.value.Valid() && r.value.columns == columns.value
    {
      if columns.None? || |columns.value| == 0 {
        return Failure(ColumnsRequiredMessage);
      }
      var pipe := new CsvValidationPipe(columns.value);
      return Success(pipe);
    }

    /** One pass of the row loop: the record's row, built column by column,
        and the messages the Joi object schema reports for it. */
    method ValidateRecord(record: Record) returns (row: Row, messages: seq<string>)
      requires Valid()
      ensures row == BuildRow(columns, record)
      ensures messages == RowMessages(columns, record)
    {
      row := map[];
      var j := 0;
      while j < |columns|
        invariant 0 <= j <= |columns|
        invariant row == RowPrefix(columns, record, j)
      {
        var col := columns[j];
        row := row[col.name := ApplyColumn(col, Cell(record, col.name))];
        j := j + 1;
      }
      messages := Validate(joiSchema, row);
    }

    /** `transform(file)`: the ordered checks, then the row loop. */
    method Transform(file: Option<UploadedFile>, parse: CsvParser) returns (r: Result<seq<Row>, PipeError>)
      requires Valid()
      ensures r == Ingest(columns, file, parse)
    {
      if file.None? {
        return Failure(FileRequired);
      }
      var fileExtension := FileExtension(file.value.originalname);
      if fileExtension != "csv" {
        return Failure(NotCsvFile);
      }
      var parsed := parse(file.value.buffer);
      if parsed.None? {
        return Failure(InvalidCsvFormat);
      }
      var records := parsed.value;
      if |records| == 0 {
        return Failure(EmptyCsvFile);
      }
      var missingColumns := Missing(ColumnNames(columns), records[0]);
      if |missingColumns| > 0 {
        return Failure(MissingRequiredColumns(missingColumns));
      }
      r := ValidateRecords(records);
    }

    /** The row loop and its verdict: every record is validated, its row kept
        when it draws no message and a numbered line recorded when it does. */
    method ValidateRecords(records: seq<Record>) returns (r: Result<seq<Row>, PipeError>)
      requires Valid()
      ensures r == CheckRows(columns, records)
    {
      ghost var msgs := AllMessages(columns, records);
      ghost var rows := AllRows(columns, records);
      var validatedData: seq<Row> := [];
      var errors: seq<string> := [];
      var index := 0;
      while index < |records|
        invariant 0 <= index <= |records|
        invariant validatedData == ValidRows(msgs, rows, index)
        invariant errors == RowErrors(msgs, index)
      {
        var row, messages := ValidateRecord(records[index]);
        assert messages == msgs[index] && row == rows[index];
        if |messages| > 0 {
          errors := errors + [RowLine(index, messages)];
        } else {
          validatedData := validatedData + [row];
        }
        index := index + 1;
      }
      assert CheckRows(columns, records) == if |errors| > 0 then Failure(ValidationErrors(errors)) else Success(validatedData);
      if |errors| > 0 {
        return Failure(ValidationErrors(errors));
      }
      return Success(validatedData);
    }
  }
}
