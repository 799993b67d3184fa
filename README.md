# Golden Raspberry Awards: CSV ingestion and batch upsert, in Dafny

This project models the write path of the Golden Raspberry Awards movie
service.

- **The CSV validation pipe** (`CsvValidationPipe`). It checks an uploaded
  file in a fixed order: present, `.csv` name, parsable, not empty, every
  configured column present. It then projects each parsed record onto the
  configured columns, applies each column's transform and validates the row
  with the Joi object schema built from the columns. The call either returns
  one typed row per record, or fails with one `Row <n>: …` line for every
  failing record.
- **The repository's batch upsert** (`AppRepository.upsertMany`). The batch
  is first collapsed by its normalized key, the lower-cased trimmed title and
  the year: under each key the last record wins, at the position of the key's
  first occurrence. Each survivor then becomes one exact-match `(title, year)`
  upsert in a single ordered `bulkWrite`, all with the call's timestamp. An
  empty batch writes nothing.
- **The `populate` endpoint's columns** (`populateColumns`) and its response.
  The column list instantiates the generic pipe: `year` goes through
  `Number`, `winner` is `value === 'yes'`, and the three text columns must be
  non-empty. The `count` returned is the number of rows handed in.

Files:

- `wrappers.dfy`: `Option` and `Result`.
- `js.dfy`: the JavaScript runtime facts the code relies on. These are
  values, ASCII case folding and trimming, `split`/`join`, and decimal
  integer text with `Number`.
- `ordered_map.dfy`: an insertion-ordered map. It plays the part of a
  JavaScript `Map` and of a string-keyed object.
- `csv_validation.dfy`: the pipe.
  - A class with `columns` and `joiSchema`, whose constructor runs the
    schema-building loop.
  - `Transform`, `ValidateRecords` and `ValidateRecord`, with their loops.
  - The specification functions `Ingest` and `CheckRows`, and lemmas about
    them.
- `repository.dfy`: the `movies` collection and the repository.
  - `MovieCollection.BulkWrite` applies the upserts in turn.
  - `AppRepository.UpsertMany` runs the dedup loop over a `Map`, then the
    identifier draws, then the write.
  - The specification function `UpsertManyResult`, a closed form of a batch
    of independent upserts, and the lemmas built on it.
- `controller.dfy`: the five `populate` columns, the messages their schemas
  report, and the `Populate` method.

The CSV parser and the Joi schemas are parameters. A parser maps the file
text to its records, or to `None` when it throws. A schema maps a value to
the messages it reports. For the five `populate` columns, the `number()`,
`string()` and `boolean()` schemas are written out as the messages Joi
reports for the values the column transforms can produce. `number()` keeps
its defaults: an infinity is refused with `cannot be infinity`, and a number
beyond ±(2^53 − 1) with `must be a safe number`.

Stored records are matched by exact `title` and `year`
(`src/app.repository.ts:34`). Titles that differ only in case or surrounding
spaces, written in separate calls, are stored as two records
(`Repository.SeparateCallsExample`). The same title and year written in
separate calls are stored once (`Repository.SeparateCallsSameMovie`).

## Model

| member | source | states |
|---|---|---|
| CsvValidation.CsvValidationPipe.Create | src/pipes/csv-validation.pipe.ts:15-28 | a missing or empty column list fails with "Columns configuration is required", and only then; otherwise the pipe holds the columns and the schema built from them |
| CsvValidation.CsvValidationPipe.constructor | src/pipes/csv-validation.pipe.ts:20-28 | the `forEach` that fills `schemaObject` leaves the Joi schema equal to the one built from the columns |
| CsvValidation.SchemaShape | src/pipes/csv-validation.pipe.ts:22-28 | the schema has a key exactly for each column name; each name holds the schema of the last column with that name; with distinct names the keys are the names in order |
| CsvValidation.CsvValidationPipe.Transform | src/pipes/csv-validation.pipe.ts:31-83 | `transform` returns exactly what the ingestion specification `Ingest` gives for the file and parser |
| CsvValidation.IngestFailsFast | src/pipes/csv-validation.pipe.ts:36-59 | each structural error occurs exactly when every earlier check passed and its own check fails: no file; extension not `csv`; parse failure; zero records; some configured column absent from the first record |
| CsvValidation.IngestReachesRows | src/pipes/csv-validation.pipe.ts:52-61 | once a csv file parses to records whose first holds every column, the outcome is the row loop's |
| CsvValidation.CsvExtensionAccepted | src/pipes/csv-validation.pipe.ts:38-39 | the extension check accepts exactly when the name's last three characters spell `csv` in any case and either are the whole name or follow a dot |
| CsvValidation.AcceptedNames | src/pipes/csv-validation.pipe.ts:38-39 | `movies1.csv`, `DATA.CSV` and the bare name `csv` pass the extension check |
| CsvValidation.RefusedNames | src/pipes/csv-validation.pipe.ts:38-39 | `test.txt` and `movies.csv.bak` fail the extension check |
| Js.LastSegmentIsMaximalSuffix | src/pipes/csv-validation.pipe.ts:38 | `split('.').pop()` is the longest dot-free suffix of the name: it holds no dot, ends the name, and is the whole name or follows a dot |
| Js.JoinSplit | src/pipes/csv-validation.pipe.ts:38 | joining the pieces of a split with the separator gives the string back |
| Js.SplitPiecesFree | src/pipes/csv-validation.pipe.ts:38 | no piece of a split contains the separator |
| CsvValidation.Missing | src/pipes/csv-validation.pipe.ts:54-56 | the missing columns are exactly the configured names absent from the first record, in configuration order |
| CsvValidation.MissingNone | src/pipes/csv-validation.pipe.ts:56-58 | nothing is missing when every configured name is a header of the first record |
| CsvValidation.RowShape | src/pipes/csv-validation.pipe.ts:62-67 | a row's keys are exactly the configured names, so extra CSV columns never appear; each holds the last such column's transform of the cell, an absent cell read as `''` |
| CsvValidation.RowShapeDistinct | src/pipes/csv-validation.pipe.ts:62-67 | with distinct names, column `i`'s key holds its own transform of its cell |
| CsvValidation.RowPrefixKeys | src/pipes/csv-validation.pipe.ts:64-67 | after `n` columns of the inner loop the row's keys are the first `n` names |
| CsvValidation.RowPrefixValue | src/pipes/csv-validation.pipe.ts:64-67 | after `n` columns, a name holds the value set by the last of those columns with that name |
| CsvValidation.ValidateTransformedRow | src/pipes/csv-validation.pipe.ts:66-69 | with distinct names, the object schema's messages are each column's schema applied to its transformed cell, in column order; the schema judges the transformed value, not the raw text |
| CsvValidation.ValidateKeysPerColumn | src/pipes/csv-validation.pipe.ts:69 | validating the row key by key gives the column checks from column `k` on |
| CsvValidation.CsvValidationPipe.ValidateRecord | src/pipes/csv-validation.pipe.ts:62-69 | one pass of the row loop builds the record's row and draws the messages of the row specification |
| CsvValidation.CsvValidationPipe.ValidateRecords | src/pipes/csv-validation.pipe.ts:61-82 | the row loop's accumulators and verdict equal the specification `CheckRows` |
| CsvValidation.RowErrorsReportFailingRows | src/pipes/csv-validation.pipe.ts:61-76 | there is one error line per failing record, in input order, numbered by its position plus 2 and listing that record's messages |
| CsvValidation.AllRowsValid | src/pipes/csv-validation.pipe.ts:71-82 | there are no error lines exactly when every record validates, and then the kept rows are all the rows in order |
| CsvValidation.CheckRowsSucceeds | src/pipes/csv-validation.pipe.ts:78-82 | the row loop succeeds exactly when every record draws no message |
| CsvValidation.CheckRowsReturnsEveryRow | src/pipes/csv-validation.pipe.ts:61-82 | on success there is one row per record, in input order, each keyed by exactly the configured names |
| CsvValidation.CheckRowsReportsEveryFailure | src/pipes/csv-validation.pipe.ts:71-80 | on failure the error lists every failing record's line and nothing else |
| CsvValidation.ValidationReportLines | src/pipes/csv-validation.pipe.ts:79 | the report starts with `Validation errors:` and a line break, and splitting the rest at line breaks gives the row lines back |
| Js.SplitJoin | src/pipes/csv-validation.pipe.ts:79 | splitting a join of separator-free pieces gives the pieces back |
| Repository.DedupKeyInjective | src/app.repository.ts:22-23 | two records share a key exactly when their normalized titles and years coincide, even for titles containing `\|` |
| Js.NumberToStringInjective | src/app.repository.ts:23 | distinct years print differently, and the year text holds no `\|` |
| Js.NumeralOfNumberToString | src/app.repository.ts:23 | the decimal text of every integer is a numeral denoting that integer |
| Js.NumberOfNumberToString | src/app.controller.ts:11 | `Number` reads back the decimal text of every integer a double holds without overflowing to Infinity |
| Repository.SameKeyExample | src/app.repository.ts:22-23 | `Oz` and ` oZ` of one year share a key |
| OrderedMap.SetAllLookup | src/app.repository.ts:21-26 | after the `set` loop a key is present exactly when some record carries it, and it holds the last such record |
| OrderedMap.SetAllFirstOccurrenceOrder | src/app.repository.ts:21-28 | the map's keys come in the order of their first occurrence |
| OrderedMap.SetAllDistinct | src/app.repository.ts:21-28 | without repeated keys the map lists every record, in order |
| Repository.AppRepository.BuildUniqueMap | src/app.repository.ts:19-26 | the `forEach` leaves the map obtained by setting every record under its key in turn |
| Repository.AppRepository.CollapseBatch | src/app.repository.ts:19-28 | `Array.from(uniqueMap.values())` is the collapse specification `UniqueDocuments` |
| Repository.UniqueDocumentsLastWins | src/app.repository.ts:19-28 | each survivor is the last record of the batch with its key, and no later record has that key |
| Repository.UniqueDocumentsCover | src/app.repository.ts:21-28 | every record's key has a survivor |
| Repository.UniqueDocumentsDistinct | src/app.repository.ts:19-28 | no two survivors share normalized title and year |
| Repository.UniqueDocumentsOrder | src/app.repository.ts:21-28 | survivors come in the order of the first occurrence of their keys |
| Repository.CollapseTwo | src/app.repository.ts:19-28 | two records with one key collapse into the later one |
| Repository.CollapseExample | src/app.repository.ts:19-28 | within one call, `Oz` then ` oZ` of the same year leave only ` oZ` |
| Repository.UniqueDocumentsExactDistinct | src/app.repository.ts:28-34 | no two survivors share an exact `(title, year)` filter |
| Repository.OperationsDistinct | src/app.repository.ts:30-41 | for records with distinct exact `(title, year)` and distinct drawn identifiers, each upsert writes the record its filter names, and no filter and no `_id` set on insert is used twice |
| Repository.AppRepository.DrawOperations | src/app.repository.ts:30-41 | the `map` builds the batch's operations, drawing one identifier per survivor in turn, all stamped `now` |
| Repository.AppRepository.Uuid | src/app.repository.ts:37 | `uuidv7()` returns the next identifier and advances the generator |
| Repository.FirstMatch | src/app.repository.ts:34 | the filter finds the first stored movie with exactly that title and year, or none |
| Repository.MovieCollection.BulkWrite | src/app.repository.ts:44 | an ordered `bulkWrite` applies each upsert in turn to the collection the previous ones left |
| Repository.ApplyOpsClosedForm | src/app.repository.ts:30-45 | independent upserts applied in turn refresh each stored movie their filter names first, and append the unmatched ones' new documents in operation order |
| Repository.UpsertClosedForm | src/app.repository.ts:30-45 | the writes for distinct survivors in that closed form |
| Repository.UpsertManyEmpty | src/app.repository.ts:43-45 | an empty batch leaves the collection unchanged |
| Repository.UpsertKeepsStored | src/app.repository.ts:34-37 | stored movies stay in place with their `_id`, `createdAt`, title and year; any that changed carries `updatedAt = now` |
| Repository.UpsertUpdatesMatch | src/app.repository.ts:34-37 | a survivor matching a stored movie replaces its data fields and sets `updatedAt = now`, keeping `_id` and `createdAt` |
| Repository.UpsertInsertsUnmatched | src/app.repository.ts:36-37 | a survivor matching nothing is added with its drawn identifier and `createdAt = updatedAt = now` |
| Repository.UpsertAppendsOnlyInserts | src/app.repository.ts:36-37 | everything after the stored movies is such a new movie for an unmatched survivor, with identifiers increasing |
| Repository.BatchInsertions | src/app.repository.ts:30-41 | the insertions of a batch are new movies for unmatched survivors, in identifier order |
| Repository.UpsertLeavesOthers | src/app.repository.ts:30-45 | a stored movie whose exact `(title, year)` no survivor carries is untouched |
| Repository.UpsertFreshIds | src/app.repository.ts:37 | identifiers stay distinct and below the generator's next value after the call |
| Repository.UpsertIdempotent | src/app.repository.ts:30-45 | writing the same survivors again, with the same timestamp, changes nothing |
| Repository.UpsertManyIdempotent | src/app.repository.ts:17-46 | a second `upsertMany` of the same batch at the same time changes nothing |
| Repository.UpsertManyCollapses | src/app.repository.ts:19-28 | a batch of two records with one key writes as the later record alone |
| Repository.UniqueSingleton | src/app.repository.ts:19-28 | a one-record batch collapses to itself |
| Repository.UpsertSingleInsert | src/app.repository.ts:30-45 | one unmatched record appends one new movie stamped `now` |
| Repository.SeparateCallsExample | src/app.repository.ts:34 | `Oz` and ` oZ`, written in two calls, match different stored records, so both are stored |
| Repository.SeparateCallsSameMovie | src/app.repository.spec.ts:89-157 | two separate calls with the same exact title and year leave one movie, with the first call's `_id` and `createdAt` and the second call's `updatedAt` and data |
| Repository.AppRepository.UpsertMany | src/app.repository.ts:17-46 | the collection after the call is `UpsertManyResult` of the old collection, the batch, the call's timestamp and the generator's state; the generator advances once per survivor; identifiers stay fresh |
| Controller.PopulateColumnsShape | src/app.controller.ts:10-20 | exactly five columns, named year, title, studios, producers, winner in that order, none twice |
| Controller.WinnerIsYes | src/app.controller.ts:15-18 | `winner` is true exactly for the text `yes`, and its boolean check never reports |
| Controller.PopulateRowMessages | src/app.controller.ts:10-20 | a record's messages are the number check of `Number(year)`, then the three text checks; `winner` adds none |
| Controller.PopulateRowValid | src/app.controller.ts:11-14 | a record validates exactly when its year converts to a safe integer and title, studios and producers are non-empty |
| Controller.InvalidIsNaN | src/app.controller.ts:11 | `Number('invalid')` is NaN |
| Controller.InfinityIsInfinity | src/app.controller.ts:11 | `Number('Infinity')` is Infinity |
| Controller.UnsafeYearMessages | src/app.controller.ts:11 | a record whose year is an integer above 2^53 − 1 that a double holds, with non-empty texts, draws only `"year" must be a safe number` |
| Controller.InfiniteYearMessages | src/app.controller.ts:11 | a record with year `Infinity` and non-empty texts draws only `"year" cannot be infinity` |
| Controller.InvalidYearFails | src/app.controller.ts:11 | a year cell `invalid` is a row error |
| Controller.EmptyTitleFails | src/app.controller.ts:12 | an empty or absent title is a row error |
| Controller.InvalidYearMessages | src/app.controller.ts:11 | a record with year `invalid` and non-empty texts draws only `"year" must be a number` |
| Controller.EmptyTitleMessages | src/app.controller.ts:12 | a record with a safe integer year, an empty title and non-empty studios and producers draws only `"title" is not allowed to be empty`; the year must be a safe integer to draw nothing of its own |
| Controller.CollectsMultipleErrors | src/pipes/csv-validation.pipe.spec.ts:184-203 | the test's two bad records are both reported, as `Row 2:` with the year message and `Row 3:` with the title message |
| Controller.ValidatedRecordIsMovie | src/app.controller.ts:10-20 | a validated record's row is a movie: the safe integer its year text reads as, its texts kept, winner exactly when the cell says `yes` |
| Controller.ValidatedRowsAreMovies | src/app.controller.ts:69-70 | every row the pipe hands to `populate` is a typed movie row |
| Controller.PopulatedMovies | src/app.controller.ts:69-72 | the movies `populate` receives from a successful validation are one per record, in order, each the record's safe integer year, its three texts and whether its winner cell says `yes` |
| Controller.Populate | src/app.controller.ts:69-74 | the rows go to `upsertMany` as one batch, the generator advances once per distinct key, and the response is `Data processed successfully` with `count` the number of rows handed in |
| Controller.CountIsNotWrites | src/app.controller.ts:73 | two rows with one key are counted as two but stored as one movie |

## Left out

- The producer-interval analysis behind `listProducerWinners` is not part of this model. Its service method is not in the source.
- The CSV parser is a parameter. Delimiters, quoting, `trim`, `skip_empty_lines` and the column-count errors that make it throw belong to `csv-parse`. Record keys are modelled as a map, so the pipe's `Object.keys(records[0] || {})` is membership in that map.
- Joi is not modelled. A column's schema is a function from a value to its messages, and `Joi.object` validates the configured keys in schema order with `abortEarly: false`.
- The message texts of the five `populate` schemas follow Joi's templates for the values their transforms can produce. Joi's conversion of numeric strings is not modelled, because the `year` transform hands over a number.
- JavaScript numbers are integers plus NaN and the two infinities. `Number` reads the empty string as 0, an optionally signed `Infinity` as that infinity, and an optionally signed decimal numeral as its value, or as an infinity from 2^1024 − 2^970 on. Decimals, exponents, hexadecimal and surrounding white space read as NaN, where JavaScript would convert them.
- `Js.Number` keeps a numeral's exact integer where a double would round it beyond 2^53. Such a year is refused as unsafe either way, so no accepted year is affected. `-0` reads as 0, which Joi also makes of it.
- `Js.NumberToString` prints every integer in full, where JavaScript switches to exponent form from 10^21. Years from `populate` are safe integers, far below that.
- `toLowerCase` and `trim` are modelled on ASCII only.
- `doc.title?.` is not modelled: every `ProcessMovie` has a title. Input records have the five data fields only, so the `$set`/`$setOnInsert` conflict when a record already carries `_id` or `createdAt` does not arise.
- MongoDB is a sequence of documents in natural order. `bulkWrite` batching, atomicity, write concerns and concurrent writers are not modelled.
- `uuidv7()` is a counter above every stored identifier, not a time-ordered random value. The call's `new Date()` is the parameter `now`.
- `Repository.AppRepository.BuildUniqueMap` takes the key function as a parameter, and `CollapseBatch` passes `DedupKey`.
- `Map` and object key order is insertion order. JavaScript's ordering of integer-like keys in plain objects is not modelled. It can only matter for the Joi object schema, whose keys are column names.
- `Controller.Populate` requires typed movie rows; `Controller.ValidatedRowsAreMovies` proves the pipe produces only such rows.
- `app.service.ts`'s `processData` is folded into `Controller.Populate`.
- Async execution, dependency injection, HTTP routing, Swagger decorators, the multer file object beyond its name and text, the seeder and the database connection are not modelled.
