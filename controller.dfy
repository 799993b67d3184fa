/**
 * The `populate` endpoint: the five columns a movie CSV must have, how each
 * cell is converted and judged, and the response the endpoint returns after
 * handing the validated rows to the repository.
 *
 * Joi's `number()`, `string()` and `boolean()` schemas (each `required()`)
 * are written out as the messages they report for the values the column
 * transforms can produce, `number()` with its default refusal of infinities
 * and of numbers beyond the safe integers.
 */
module Controller {
  import opened Wrappers
  import opened Js
  import opened CsvValidation
  import opened Repository

  /** A Joi label: the key in double quotes. */
  function Quoted(name: string): string
  {
    "\"" + name + "\""
  }

  /** `Joi.number().required()`: an infinity is refused, then anything
      else that is not a number, then a number beyond the safe integers. */
  function NumberMessages(name: string, v: Value): seq<string>
  {
    match v
    case Num(n) => if -(MaxSafeInteger as int) <= n <= MaxSafeInteger then [] else [Quoted(name) + " must be a safe number"]
    case Infinity(_) => [Quoted(name) + " cannot be infinity"]
    case Undefined => [Quoted(name) + " is required"]
    case _ => [Quoted(name) + " must be a number"]
  }

  /** `Joi.string().required()`: the empty string is refused. */
  function StringMessages(name: string, v: Value): seq<string>
  {
    match v
    case Str(s) => if s == "" then [Quoted(name) + " is not allowed to be empty"] else []
    case Undefined => [Quoted(name) + " is required"]
    case _ => [Quoted(name) + " must be a string"]
  }

  /** `Joi.boolean().required()`. */
  function BooleanMessages(name: string, v: Value): seq<string>
  {
    match v
    case Bool(_) => []
    case Undefined => [Quoted(name) + " is required"]
    case _ => [Quoted(name) + " must be a boolean"]
  }

  /** The `year` transform, `Number(value)`. */
  function YearTransform(s: string): Value
  {
    Number(s)
  }

  /** The `winner` transform, `value === 'yes'`. */
  function WinnerTransform(s: string): Value
  {
    Bool(s == "yes")
  }

  /** The schemas of the five columns, each labelled with its key. */
  function YearSchema(v: Value): seq<string> { NumberMessages("year", v) }
  function TitleSchema(v: Value): seq<string> { StringMessages("title", v) }
  function StudiosSchema(v: Value): seq<string> { StringMessages("studios", v) }
  function ProducersSchema(v: Value): seq<string> { StringMessages("producers", v) }
  function WinnerSchema(v: Value): seq<string> { BooleanMessages("winner", v) }

  /** `populateColumns`. */
  const PopulateColumns: seq<CsvColumnConfig> := [
    CsvColumnConfig("year", YearSchema, Some(YearTransform)),
    CsvColumnConfig("title", TitleSchema, None),
    CsvColumnConfig("studios", StudiosSchema, None),
    CsvColumnConfig("producers", ProducersSchema, None),
    CsvColumnConfig("winner", WinnerSchema, Some(WinnerTransform))
  ]

  /** Exactly five columns, in this order, none named twice. */
  lemma PopulateColumnsShape()
    ensures ColumnNames(PopulateColumns) == ["year", "title", "studios", "producers", "winner"]
    ensures DistinctNames(PopulateColumns)
  {
  }

  /** `winner` is true exactly for the text `yes`, and its check never fails. */
  lemma WinnerIsYes(s: string)
    ensures ApplyColumn(PopulateColumns[4], s) == Bool(s == "yes")
    ensures ApplyColumn(PopulateColumns[4], s) == Bool(true) <==> s == "yes"
    ensures PopulateColumns[4].schema(ApplyColumn(PopulateColumns[4], s)) == []
  {
  }

  /** A record's messages: the number check of its converted year, then the
      three text checks; `winner` adds none. */
  lemma {:induction false} PopulateRowMessages(record: Record)
    ensures RowMessages(PopulateColumns, record)
      == NumberMessages("year", Number(Cell(record, "year")))
       + (StringMessages("title", Str(Cell(record, "title")))
       + (StringMessages("studios", Str(Cell(record, "studios")))
       + StringMessages("producers", Str(Cell(record, "producers")))))
  {
    PopulateColumnsShape();
    ValidateTransformedRow(PopulateColumns, record);
    PopulateColumnMessages(record);
  }

  /** Each populate column's check of its transformed cell, in column order. */
  lemma {:induction false} PopulateColumnMessages(record: Record)
    ensures ColumnMessages(PopulateColumns, record)
      == NumberMessages("year", Number(Cell(record, "year")))
       + (StringMessages("title", Str(Cell(record, "title")))
       + (StringMessages("studios", Str(Cell(record, "studios")))
       + StringMessages("producers", Str(Cell(record, "producers")))))
  {
    var cols := PopulateColumns;
    assert cols == [cols[0], cols[1], cols[2], cols[3], cols[4]];
    ColumnMessagesOfFive(cols[0], cols[1], cols[2], cols[3], cols[4], record);
    assert Check(cols[0], record) == NumberMessages("year", Number(Cell(record, "year")));
    assert Check(cols[1], record) == StringMessages("title", Str(Cell(record, "title")));
    assert Check(cols[2], record) == StringMessages("studios", Str(Cell(record, "studios")));
    assert Check(cols[3], record) == StringMessages("producers", Str(Cell(record, "producers")));
    assert Check(cols[4], record) + [] == [];
  }

  /** The column checks of five columns, one after the other. */
  lemma {:induction false} ColumnMessagesOfFive(c0: CsvColumnConfig, c1: CsvColumnConfig, c2: CsvColumnConfig,
                                                c3: CsvColumnConfig, c4: CsvColumnConfig, record: Record)
    ensures ColumnMessages([c0, c1, c2, c3, c4], record)
      == Check(c0, record) + (Check(c1, record) + (Check(c2, record) + (Check(c3, record) + (Check(c4, record) + []))))
  {
    var cols := [c0, c1, c2, c3, c4];
    ColumnMessagesStep(cols, 0, record);
    ColumnMessagesStep(cols, 1, record);
    ColumnMessagesStep(cols, 2, record);
    ColumnMessagesStep(cols, 3, record);
    ColumnMessagesStep(cols, 4, record);
    assert cols[5..] == [];
    assert cols[0..] == cols;
  }

  /** One column's check of its transformed cell. */
  function Check(c: CsvColumnConfig, record: Record): seq<string>
  {
    c.schema(ApplyColumn(c, Cell(record, c.name)))
  }

  /** The column checks from column `k` on: column `k`'s, then the rest. */
  lemma {:induction false} ColumnMessagesStep(cols: seq<CsvColumnConfig>, k: nat, record: Record)
    requires k < |cols|
    ensures ColumnMessages(cols[k..], record) == Check(cols[k], record) + ColumnMessages(cols[k + 1..], record)
  {
    assert cols[k..][1..] == cols[k + 1..];
  }

  /** A record validates exactly when its year converts to a safe integer
      and its title, studios and producers are not empty. */
  lemma {:induction false} PopulateRowValid(record: Record)
    ensures RowMessages(PopulateColumns, record) == [] <==>
      && IsSafeInteger(Number(Cell(record, "year")))
      && Cell(record, "title") != ""
      && Cell(record, "studios") != ""
      && Cell(record, "producers") != ""
  {
    PopulateRowMessages(record);
  }

  /** `Number('invalid')` is not a number. */
  lemma InvalidIsNaN()
    ensures Number("invalid") == NaN
  {
    assert !IsDigit("invalid"[0]);
  }

  /** `Number('Infinity')` is Infinity. */
  lemma InfinityIsInfinity()
    ensures Number("Infinity") == Infinity(false)
  {
  }

  /** A year that does not convert to a number is a row error. */
  lemma {:induction false} InvalidYearFails(record: Record)
    requires Cell(record, "year") == "invalid"
    ensures RowMessages(PopulateColumns, record) != []
  {
    InvalidIsNaN();
    PopulateRowValid(record);
  }

  /** An empty (or absent) title is a row error. */
  lemma {:induction false} EmptyTitleFails(record: Record)
    requires Cell(record, "title") == ""
    ensures RowMessages(PopulateColumns, record) != []
  {
    PopulateRowValid(record);
  }

  /** A row of the five typed fields. */
  predicate IsMovieRow(row: Row)
  {
    && "year" in row && row["year"].Num?
    && "title" in row && row["title"].Str?
    && "studios" in row && row["studios"].Str?
    && "producers" in row && row["producers"].Str?
    && "winner" in row && row["winner"].Bool?
  }

  /** The movie a typed row describes. */
  function MovieOfRow(row: Row): ProcessMovie
    requires IsMovieRow(row)
  {
    ProcessMovie(row["year"].n, row["title"].s, row["studios"].s, row["producers"].s, row["winner"].b)
  }

  /** The movies of typed rows, in order. */
  function Movies(data: seq<Row>): (movies: seq<ProcessMovie>)
    requires forall i :: 0 <= i < |data| ==> IsMovieRow(data[i])
    ensures |movies| == |data|
    ensures forall i :: 0 <= i < |data| ==> movies[i] == MovieOfRow(data[i])
  {
    seq(|data|, i requires 0 <= i < |data| => MovieOfRow(data[i]))
  }

  /** The movies `populate` receives from the pipe: one per record, in
      order, each holding its record's safe integer year, its three texts
      and whether its winner cell says `yes`. */
  lemma {:induction false} PopulatedMovies(records: seq<Record>)
    requires CheckRows(PopulateColumns, records).Success?
    ensures forall i :: 0 <= i < |CheckRows(PopulateColumns, records).value| ==> IsMovieRow(CheckRows(PopulateColumns, records).value[i])
    ensures |Movies(CheckRows(PopulateColumns, records).value)| == |records|
    ensures forall i :: 0 <= i < |records| ==>
      && IsSafeInteger(Number(Cell(records[i], "year")))
      && Movies(CheckRows(PopulateColumns, records).value)[i]
         == ProcessMovie(Number(Cell(records[i], "year")).n, Cell(records[i], "title"), Cell(records[i], "studios"),
                         Cell(records[i], "producers"), Cell(records[i], "winner") == "yes")
  {
    ValidatedRowsAreMovies(records);
    CheckRowsSucceeds(PopulateColumns, records);
    CheckRowsReturnsEveryRow(PopulateColumns, records);
    forall i | 0 <= i < |records|
      ensures IsSafeInteger(Number(Cell(records[i], "year")))
      ensures MovieOfRow(BuildRow(PopulateColumns, records[i]))
        == ProcessMovie(Number(Cell(records[i], "year")).n, Cell(records[i], "title"), Cell(records[i], "studios"),
                        Cell(records[i], "producers"), Cell(records[i], "winner") == "yes")
    {
      ValidatedRecordIsMovie(records[i]);
    }
  }

  /** The row of one record under the populate columns. */
  lemma {:induction false} PopulateRowFields(record: Record)
    ensures var row := BuildRow(PopulateColumns, record);
      && "year" in row && row["year"] == Number(Cell(record, "year"))
      && "title" in row && row["title"] == Str(Cell(record, "title"))
      && "studios" in row && row["studios"] == Str(Cell(record, "studios"))
      && "producers" in row && row["producers"] == Str(Cell(record, "producers"))
      && "winner" in row && row["winner"] == Bool(Cell(record, "winner") == "yes")
  {
    PopulateColumnsShape();
    RowShapeDistinct(PopulateColumns, record, 0);
    RowShapeDistinct(PopulateColumns, record, 1);
    RowShapeDistinct(PopulateColumns, record, 2);
    RowShapeDistinct(PopulateColumns, record, 3);
    RowShapeDistinct(PopulateColumns, record, 4);
  }

  /** A validated record is a movie: its year is the number its text reads
      as, its texts are kept, and it is a winner exactly when its cell says
      `yes`. */
  lemma {:induction false} ValidatedRecordIsMovie(record: Record)
    requires RowMessages(PopulateColumns, record) == []
    ensures IsMovieRow(BuildRow(PopulateColumns, record))
    ensures IsSafeInteger(Number(Cell(record, "year")))
    ensures MovieOfRow(BuildRow(PopulateColumns, record))
      == ProcessMovie(Number(Cell(record, "year")).n, Cell(record, "title"), Cell(record, "studios"),
                      Cell(record, "producers"), Cell(record, "winner") == "yes")
  {
    PopulateRowValid(record);
    PopulateRowFields(record);
  }

  /** Every row the pipe hands to `populate` is a movie row. */
  lemma {:induction false} ValidatedRowsAreMovies(records: seq<Record>)
    requires CheckRows(PopulateColumns, records).Success?
    ensures forall i :: 0 <= i < |CheckRows(PopulateColumns, records).value| ==> IsMovieRow(CheckRows(PopulateColumns, records).value[i])
  {
    CheckRowsSucceeds(PopulateColumns, records);
    CheckRowsReturnsEveryRow(PopulateColumns, records);
    forall i | 0 <= i < |records| ensures IsMovieRow(BuildRow(PopulateColumns, records[i])) {
      ValidatedRecordIsMovie(records[i]);
    }
  }

  /** The message of a year that is not a number. */
  lemma YearNaNMessage()
    ensures NumberMessages("year", NaN) == ["\"year\" must be a number"]
  {
    assert Quoted("year") == "\"year\"";
    assert "\"year\"" + " must be a number" == "\"year\" must be a number";
  }

  /** The message of a year beyond the safe integers. */
  lemma YearUnsafeMessage(n: int)
    requires !(-(MaxSafeInteger as int) <= n <= MaxSafeInteger)
    ensures NumberMessages("year", Num(n)) == ["\"year\" must be a safe number"]
  {
    assert Quoted("year") == "\"year\"";
    assert "\"year\"" + " must be a safe number" == "\"year\" must be a safe number";
  }

  /** The message of an infinite year. */
  lemma YearInfinityMessage(negative: bool)
    ensures NumberMessages("year", Infinity(negative)) == ["\"year\" cannot be infinity"]
  {
    assert Quoted("year") == "\"year\"";
    assert "\"year\"" + " cannot be infinity" == "\"year\" cannot be infinity";
  }

  /** The message of an empty title. */
  lemma EmptyTitleMessage()
    ensures StringMessages("title", Str("")) == ["\"title\" is not allowed to be empty"]
  {
    assert Quoted("title") == "\"title\"";
    assert "\"title\"" + " is not allowed to be empty" == "\"title\" is not allowed to be empty";
  }

  /** A record with a non-numeric year and non-empty texts draws the year
      message alone, whatever its winner cell says. */
  lemma {:induction false} InvalidYearMessages(r: Record)
    requires Cell(r, "year") == "invalid"
    requires Cell(r, "title") != "" && Cell(r, "studios") != "" && Cell(r, "producers") != ""
    ensures RowMessages(PopulateColumns, r) == ["\"year\" must be a number"]
  {
    PopulateRowMessages(r);
    InvalidIsNaN();
    YearNaNMessage();
    assert StringMessages("title", Str(Cell(r, "title"))) == [];
    assert StringMessages("studios", Str(Cell(r, "studios"))) == [];
    assert StringMessages("producers", Str(Cell(r, "producers"))) == [];
  }

  /** A record with an integer year beyond the safe integers (as any
      numeral of 16 or more digits is, past 9007199254740991) and non-empty
      texts draws the safe-number message alone. */
  lemma {:induction false} UnsafeYearMessages(r: Record, x: int)
    requires Cell(r, "year") == NumberToString(x)
    requires MaxSafeInteger < x < DoubleOverflow
    requires Cell(r, "title") != "" && Cell(r, "studios") != "" && Cell(r, "producers") != ""
    ensures RowMessages(PopulateColumns, r) == ["\"year\" must be a safe number"]
  {
    PopulateRowMessages(r);
    NumberOfNumberToString(x);
    YearUnsafeMessage(x);
    assert StringMessages("title", Str(Cell(r, "title"))) == [];
    assert StringMessages("studios", Str(Cell(r, "studios"))) == [];
    assert StringMessages("producers", Str(Cell(r, "producers"))) == [];
  }

  /** A record whose year is `Infinity` and whose texts are not empty draws
      the infinity message alone. */
  lemma {:induction false} InfiniteYearMessages(r: Record)
    requires Cell(r, "year") == "Infinity"
    requires Cell(r, "title") != "" && Cell(r, "studios") != "" && Cell(r, "producers") != ""
    ensures RowMessages(PopulateColumns, r) == ["\"year\" cannot be infinity"]
  {
    PopulateRowMessages(r);
    InfinityIsInfinity();
    YearInfinityMessage(false);
    assert StringMessages("title", Str(Cell(r, "title"))) == [];
    assert StringMessages("studios", Str(Cell(r, "studios"))) == [];
    assert StringMessages("producers", Str(Cell(r, "producers"))) == [];
  }

  /** A record with a safe integer year, an empty title and non-empty studios and
      producers draws the title message alone. */
  lemma {:induction false} EmptyTitleMessages(r: Record)
    requires IsSafeInteger(Number(Cell(r, "year")))
    requires Cell(r, "title") == "" && Cell(r, "studios") != "" && Cell(r, "producers") != ""
    ensures RowMessages(PopulateColumns, r) == ["\"title\" is not allowed to be empty"]
  {
    PopulateRowMessages(r);
    assert NumberMessages("year", Number(Cell(r, "year"))) == [];
    EmptyTitleMessage();
    assert StringMessages("studios", Str(Cell(r, "studios"))) == [];
    assert StringMessages("producers", Str(Cell(r, "producers"))) == [];
  }

  /** Both failing records of a file are reported, as rows 2 and 3: the
      first with a non-numeric year (and a winner cell that is not `yes`),
      the second with an empty title. */
  lemma {:induction false} CollectsMultipleErrors(r1: Record, r2: Record)
    requires Cell(r1, "year") == "invalid"
    requires Cell(r1, "title") != "" && Cell(r1, "studios") != "" && Cell(r1, "producers") != ""
    requires IsSafeInteger(Number(Cell(r2, "year")))
    requires Cell(r2, "title") == "" && Cell(r2, "studios") != "" && Cell(r2, "producers") != ""
    ensures CheckRows(PopulateColumns, [r1, r2])
      == Failure(ValidationErrors(["Row 2: " + "\"year\" must be a number", "Row 3: " + "\"title\" is not allowed to be empty"]))
  {
    InvalidYearMessages(r1);
    EmptyTitleMessages(r2);
    var msgs := AllMessages(PopulateColumns, [r1, r2]);
    assert msgs == [["\"year\" must be a number"], ["\"title\" is not allowed to be empty"]];
    SecondRowLine(msgs[0][0]);
    ThirdRowLine(msgs[1][0]);
    assert RowErrors(msgs, 1) == [RowLine(0, msgs[0])];
    assert RowErrors(msgs, 2) == [RowLine(0, msgs[0]), RowLine(1, msgs[1])];
  }

  /** A first record's line with one message: `Row 2: ` and the message. */
  lemma SecondRowLine(m: string)
    ensures RowLine(0, [m]) == "Row 2: " + m
  {
    assert NatToString(2) == "2";
    assert "Row " + "2" + ": " == "Row 2: ";
  }

  /** A second record's line with one message: `Row 3: ` and the message. */
  lemma ThirdRowLine(m: string)
    ensures RowLine(1, [m]) == "Row 3: " + m
  {
    assert NatToString(3) == "3";
    assert "Row " + "3" + ": " == "Row 3: ";
  }

  /** The body of `populate`'s response. */
  datatype PopulateResponse = PopulateResponse(message: string, count: nat)

  /** `populate`: the validated rows go to the repository in one batch, and
      the response counts the rows handed in. */
  method Populate(repository: AppRepository, data: seq<Row>, now: Timestamp) returns (response: PopulateResponse)
    requires repository.Valid()
    requires forall i :: 0 <= i < |data| ==> IsMovieRow(data[i])
    modifies repository, repository.collection
    ensures repository.Valid()
    ensures repository.nextUuid == old(repository.nextUuid) + |UniqueDocuments(Movies(data))|
    ensures repository.collection.documents
      == UpsertManyResult(old(repository.collection.documents), Movies(data), now, old(repository.nextUuid))
    ensures response == PopulateResponse("Data processed successfully", |data|)
  {
    repository.UpsertMany(Movies(data), now);
    response := PopulateResponse("Data processed successfully", |data|);
  }

  /** The count is of rows, not of writes: two rows with one key are counted
      twice but stored once. */
  lemma CountIsNotWrites()
    ensures |UpsertManyResult([], [ProcessMovie(1984, "Oz", "MGM", "Carr", true), ProcessMovie(1984, " oZ", "EMI", "Carr", false)], 10, 1)| == 1
  {
    var oz, oz2 := ProcessMovie(1984, "Oz", "MGM", "Carr", true), ProcessMovie(1984, " oZ", "EMI", "Carr", false);
    SameKeyExample();
    UpsertManyCollapses([], oz, oz2, 10, 1);
    UniqueSingleton(oz2);
    UpsertSingleInsert([], oz2, 10, 1);
  }
}
