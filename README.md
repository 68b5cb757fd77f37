# Library catalogue core, modelled in Dafny

This project models the logic of a small catalogue manager for books, authors, publishers and genres. The model covers:

- the validating constructors of the four entities;
- the CSV and JSON import readers for books and genres;
- the four SQLite-backed repositories;
- the joiner that shows book rows joined with one other table;
- the `Library` facade that routes the menu's entity codes to all of these.

The SQLite engine, the file system, the clock and the console are not modelled. Each table is a sequence of rows in rowid order plus an AUTOINCREMENT counter. A file is the text or parsed document a reader receives. The current time is a parameter.

The Dafny modules follow the source files one to one:

- `AuthorModel`, `BookModel`, `PublisherModel` and `GenreModel`: the headers under `models/`.
- `AuthorRepo`, `BookRepo`, `PublisherRepo` and `GenreRepo`: the repositories. Each defines a class whose `rows` and `nextId` fields the methods update.
- `BookCsvReader`, `GenreCsvReader` and `GenreJsonReader`: the readers.
- `Joiner`.
- `Library`.

Seven shared modules state shared pieces once:

- `Wrappers`: `Option` and `Result`, the stand-ins for an absent value and for a thrown exception.
- `Clock`: the wall clock and the date parser the validators consult, passed in as inputs.
- `Json`: the parsed JSON document a reader receives and an export produces.
- `Csv`: `trim`, `splitCSVLine`, line splitting and the BOM.
- `Numbers`: `std::stoi` and `std::to_string`.
- `Table`: `WHERE`, `ORDER BY`, and rebuilding rows through a constructor.
- `Imports`: the reader loop as a function, and a run of `save` calls over the candidates it yields.

Strings are sequences of `char` holding one byte each, as a C++ `std::string` does. The three-character BOM and the joiner's column widths are counted in these bytes.

A reader's loop is proved against a specification function `Loaded`. The lemmas about `Loaded` state what an import can and cannot produce.

Behaviour of the code that the model keeps deliberately:

- **Case of the book year and pages keys.** The book CSV reader requires the headers "Year" and "Pages" but reads the values under "year" and "pages". As a result, a file with only the required headers imports no book. The model keeps this behaviour, and `BookCsvReader.NoLowercaseHeaderLoadsNothing` proves the consequence.
- **Partial JSON import.** An item without the required keys does not abort a genre JSON import as a whole. Genres saved before that item stay saved and are returned; the loop just stops there. `GenreJsonReader.ItemsAfterStopIgnored` states this.
- **Author save.** `save` does not write the new id back into the caller's author, because it takes its parameter by const reference.
- **Exports cannot be imported back.** The CSV and JSON exports use headers and keys ("ID", "title") that the importers do not accept. `ExportedCsvLoadsNothing` and `ExportedJsonLoadsNothing` prove that an export imports nothing.

## Model

| member | source | states |
|---|---|---|
| AuthorModel.NewAuthor | models/author.h:15-69 | accepted iff the name is non-empty, every non-empty date parses and is not in the future, and birth is not after death; an accepted author stores the arguments; an empty name is the first error |
| AuthorModel.EmptyDatesAreNotParsed | models/author.h:46-63 | with both dates empty the outcome does not depend on the date parser |
| AuthorModel.BirthEqualDeathAccepted | models/author.h:66-68 | equal, past, parseable birth and death dates are accepted |
| AuthorModel.BirthAfterDeathRefused | models/author.h:66-68 | a birth strictly after the death (both in the past) is refused with the ordering error |
| BookModel.NewBook | models/book.h:17-46 | accepted iff the title is non-empty and the year is at most the current year; the author check never fails; an accepted book stores every argument |
| PublisherModel.MailMatchesIff | models/publisher.h:23-26 | the mail pattern holds iff there is no white space, an '@' at some i >= 1 and a '.' at some j with i + 2 <= j <= length - 2 |
| PublisherModel.EmptyMailRefused | models/publisher.h:23-26 | an empty mail is always refused |
| PublisherModel.NewPublisher | models/publisher.h:13-27 | accepted iff the name is non-empty and the mail matches; address and phone are free; an accepted publisher stores the arguments |
| GenreModel.NewGenre | models/genre.h:10-20 | accepted iff the title is non-empty (white space counts); an accepted genre stores the arguments |
| Numbers.StoiIntToString | import/book_csv_parser.cpp:121-130 | `stoi` reads back the decimal text of every 32-bit int |
| Numbers.Stoi | import/book_csv_parser.cpp:121-130 | a value is returned only when it fits a 32-bit int and the text holds a digit; anything else is the `invalid_argument` or `out_of_range` throw |
| Numbers.SignedValue | import/book_csv_parser.cpp:121-130 | the digits' value, negated for a minus sign, is returned iff it lies in the 32-bit range; otherwise `out_of_range` |
| Numbers.StoiValue | import/book_csv_parser.cpp:121-130 | on white space, an optional sign, digits and anything not starting with a digit, `stoi` gives the signed value of exactly those digits, or `out_of_range` |
| Numbers.StoiSkipsSpaces | import/book_csv_parser.cpp:121-130 | leading white space does not change what `stoi` reads |
| Numbers.StoiNoDigit | import/book_csv_parser.cpp:121-130 | white space and an optional sign not followed by a digit give the `invalid_argument` throw |
| Numbers.ParseIntegerIntToString | databases/book_repository.cpp:245-250 | an INTEGER column compared with the decimal text of its value matches |
| Csv.Trim | import/book_csv_parser.cpp:15-20 | the result is the input without leading and trailing space, tab, CR and LF; empty iff the input is all such characters |
| Csv.TrimIdempotent | import/book_csv_parser.cpp:15-20 | trimming twice is trimming once |
| Csv.SplitCsvLine | import/book_csv_parser.cpp:23-42 | the loop over the characters yields the fields `SplitFields` defines |
| Csv.FieldCount | import/book_csv_parser.cpp:23-42 | the number of fields is the number of commas outside quotes plus one |
| Csv.FieldsHaveNoQuotes | import/book_csv_parser.cpp:29-31 | no field contains a double quote |
| Csv.FieldsAreTrimmed | import/book_csv_parser.cpp:33-40 | every field is already trimmed |
| Csv.RawFieldsRebuildLine | import/book_csv_parser.cpp:29-38 | joining the untrimmed fields with commas gives the line without its quotes, so commas inside quotes stay in their field |
| Csv.EscapeReadsBack | databases/book_repository.cpp:302-308 | a value escaped by the export `escape` is read back by `splitCSVLine` as one field, the value trimmed |
| Csv.SplitEscaped | databases/author_repository.cpp:276-287 | a row of escaped values is read back as those values, trimmed, one field each |
| Csv.SkipBom | import/book_csv_parser.cpp:60-65 | the first three bytes are dropped exactly when they are EF BB BF |
| Csv.LinesUnlines | import/book_csv_parser.cpp:104 | reading lines back from text written line by line gives the lines |
| Csv.WrittenFileLines | import/book_csv_parser.cpp:60-73 | a file written as BOM plus lines is read as those lines |
| Csv.PlainHeaderReadsBack | import/book_csv_parser.cpp:76 | a header line of plain names splits into those names |
| Csv.RowMapLookup | import/book_csv_parser.cpp:115-118 | a key is in the row map iff it is a header, and then it holds the field under its last occurrence |
| Csv.MapRow | import/book_csv_parser.cpp:115-118 | the loop filling the row map yields `RowMap` of the headers and fields |
| Csv.HeaderAndRowReadBack | import/book_csv_parser.cpp:60-118 | a file of a plain header line and one plain row reads back as those two lines, and each splits into its names and cells |
| Csv.RowMapLast | import/book_csv_parser.cpp:115-118 | a header repeated in the header line takes the field under its last occurrence |
| Csv.RowOf | import/book_csv_parser.cpp:105-118 | a line gives a row map iff it is non-empty and has at least as many fields as there are headers |
| Csv.ReadRow | import/book_csv_parser.cpp:105-118 | the per-line code yields the row `RowOf` defines |
| Table.Where | databases/book_repository.cpp:184-199 | selection keeps exactly the rows satisfying the condition, each taken from the table |
| Table.WhereCount | databases/book_repository.cpp:251-265 | the number of selected rows is the number of matching positions |
| Table.WhereEmpty | databases/book_repository.cpp:190-199 | nothing is selected iff no row satisfies the condition |
| Table.WhereKeepsOrder | databases/book_repository.cpp:194-197 | deleting rows keeps the remaining ids increasing |
| Table.SortByCorrect | databases/book_repository.cpp:210-215 | ORDER BY returns the same rows (a permutation), sorted ascending or descending |
| Table.Rebuild | databases/book_repository.cpp:251-262 | rebuilding rows through the constructor succeeds iff every row passes it, and then gives the rows unchanged |
| Table.IntKeyMatchesItsText | databases/book_repository.cpp:245-250 | an INTEGER column matches the decimal text of its own value |
| BookRepo.CsvExportIgnoresDescription | databases/book_repository.cpp:299-331 | the description is in neither export, so two books differing only in it export alike |
| BookRepo.BookCsvLineReadsBack | databases/book_repository.cpp:309-315 | an exported row is read back by `splitCSVLine` as its seven values, the title trimmed |
| BookRepo.AssignBook | databases/book_repository.cpp:170-174 | setting a column changes that column only and keeps the id; a non-column or non-number text into an INTEGER column is refused |
| BookRepo.BookRepository.constructor | databases/book_repository.cpp:11-37 | a new table is empty with the counter at 1 |
| BookRepo.BookRepository.Save | databases/book_repository.cpp:39-83 | -1 and no change when a row agrees on title, author, year, genre, pages and publisher; otherwise one row is appended under the next id, which is returned and written into the book |
| BookRepo.BookRepository.Update | databases/book_repository.cpp:161-182 | false and no change for an unknown id or unassignable column; otherwise exactly the rows with that id change, in that column |
| BookRepo.BookRepository.Del | databases/book_repository.cpp:184-205 | true iff some row matches; the table becomes the non-matching rows in order |
| BookRepo.BookRepository.Find | databases/book_repository.cpp:245-271 | the number of matching rows; fails (throws) iff a matching row no longer passes the constructor |
| BookRepo.BookRepository.Filter | databases/book_repository.cpp:207-243 | rows shown only for "up" or "down", a known column and rows that all rebuild; then the table sorted by the column, a sorted permutation |
| BookRepo.BookRepository.ExportData | databases/book_repository.cpp:273-349 | written only for "csv" or "json" when every row rebuilds; then the BOM-prefixed CSV text or the JSON array of the rows |
| AuthorRepo.AssignAuthor | databases/author_repository.cpp:142-157 | setting a text column changes it only and keeps the id; "id" and non-columns are refused |
| AuthorRepo.AuthorCsvLineReadsBack | databases/author_repository.cpp:276-287 | an exported row is read back as its five values, texts trimmed |
| AuthorRepo.AuthorRepository.constructor | databases/author_repository.cpp:11-31 | a new table is empty with the counter at 1 |
| AuthorRepo.AuthorRepository.Save | databases/author_repository.cpp:33-67 | -1 and no change when the full name exists; otherwise one row appended under the next id, which is returned |
| AuthorRepo.AuthorRepository.Update | databases/author_repository.cpp:142-163 | false and no change for an unknown id or column; otherwise exactly the rows with that id change, in that column |
| AuthorRepo.AuthorRepository.Del | databases/author_repository.cpp:165-186 | true iff some row matches; the table becomes the non-matching rows in order |
| AuthorRepo.AuthorRepository.Find | databases/author_repository.cpp:223-246 | the number of matching rows; fails iff a matching row no longer passes the constructor |
| AuthorRepo.AuthorRepository.Filter | databases/author_repository.cpp:188-221 | rows shown only for "up"/"down", a known column and rebuildable rows; then a sorted permutation of the table |
| AuthorRepo.AuthorRepository.ExportData | databases/author_repository.cpp:248-319 | written only for "csv"/"json" when every row rebuilds; then the CSV text or JSON array of the rows |
| PublisherRepo.AssignPublisher | databases/publisher_repository.cpp:137-157 | setting a text column changes it only and keeps the id; "id" and non-columns are refused |
| PublisherRepo.PublisherCsvLineReadsBack | databases/publisher_repository.cpp:267-281 | an exported row is read back as its five values, texts trimmed |
| PublisherRepo.PublisherRepository.constructor | databases/publisher_repository.cpp:10-30 | a new table is empty with the counter at 1 |
| PublisherRepo.PublisherRepository.Save | databases/publisher_repository.cpp:32-67 | -1 and no change when the name exists; otherwise one row appended under the next id, returned and written into the publisher |
| PublisherRepo.PublisherRepository.Update | databases/publisher_repository.cpp:137-158 | false and no change for an unknown id or column; otherwise exactly the rows with that id change, in that column |
| PublisherRepo.PublisherRepository.Del | databases/publisher_repository.cpp:160-181 | true iff some row matches; the table becomes the non-matching rows in order |
| PublisherRepo.PublisherRepository.Find | databases/publisher_repository.cpp:218-241 | the number of matching rows; fails iff a matching row no longer passes the constructor |
| PublisherRepo.PublisherRepository.Filter | databases/publisher_repository.cpp:183-216 | rows shown only for "up"/"down", a known column and rebuildable rows; then a sorted permutation of the table |
| PublisherRepo.PublisherRepository.ExportData | databases/publisher_repository.cpp:243-313 | written only for "csv"/"json" when every row rebuilds; the name is labelled "title" in both formats |
| GenreRepo.AssignGenre | databases/genre_repository.cpp:128-149 | setting a text column changes it only and keeps the id; "id" and non-columns are refused |
| GenreRepo.GenreCsvLineReadsBack | databases/genre_repository.cpp:251-263 | an exported row is read back as its three values, texts trimmed |
| GenreRepo.SaveOne | databases/genre_repository.cpp:45-64 | saving one candidate adds it under the next id unless its title is taken |
| GenreRepo.GenreRepository.constructor | databases/genre_repository.cpp:11-29 | a new table is empty with the counter at 1 |
| GenreRepo.GenreRepository.Save | databases/genre_repository.cpp:31-64 | -1 and no change when the title exists; otherwise one row appended under the next id, returned and written into the genre |
| GenreRepo.GenreRepository.Update | databases/genre_repository.cpp:128-149 | false and no change for an unknown id or column; otherwise exactly the rows with that id change, in that column |
| GenreRepo.GenreRepository.Del | databases/genre_repository.cpp:151-172 | true iff some row matches; the table becomes the non-matching rows in order |
| GenreRepo.GenreRepository.Find | databases/genre_repository.cpp:207-228 | the number of matching rows; fails iff a matching row has an empty title |
| GenreRepo.GenreRepository.Filter | databases/genre_repository.cpp:174-205 | rows shown only for "up"/"down", a known column and rebuildable rows; then a sorted permutation of the table |
| GenreRepo.GenreRepository.ExportData | databases/genre_repository.cpp:230-293 | written only for "csv"/"json" when every row rebuilds; then the CSV text or JSON array of the rows |
| Imports.CollectFrom | import/genre_json_parser.cpp:38-78 | every value a reader loop keeps comes from one of the entries read |
| Imports.SaveManyStep | import/book_csv_parser.cpp:133-135 | one more `save` at the end of a run extends the run by that candidate alone |
| Imports.SaveManyFacts | import/book_csv_parser.cpp:133-135 | a run of saves keeps candidate order (strictly increasing candidate positions), stores the k-th saved candidate under `nextId + k`, saves every candidate not already in the table as it stood at its turn, and refuses exactly the others |
| BookRepo.SaveAndKeep | import/book_csv_parser.cpp:133-135 | `if (save(b) != -1) push_back(b)` extends the run of saves by `b`, and the table holds exactly the old rows plus the books kept |
| GenreRepo.SaveAndKeep | import/genre_csv_parser.cpp:121-123 | `if (save(g) != -1) push_back(g)` extends the run of saves by `g`, and the table holds exactly the old rows plus the genres kept |
| BookCsvReader.BookOfRow | import/book_csv_parser.cpp:113-132 | a row yields a book iff the five numbers parse (year and pages under lower-case keys) and the constructor accepts; the book holds the trimmed values |
| BookCsvReader.LoadFromCsv | import/book_csv_parser.cpp:50-150 | the books returned are `Loaded` of the old table and the file; they are exactly the rows appended, and nothing else changes |
| BookCsvReader.SaveLines | import/book_csv_parser.cpp:103-140 | the data-line loop returns the candidates `save` accepts, in order, and appends exactly them |
| BookCsvReader.SaveLine | import/book_csv_parser.cpp:105-139 | one data line: the book it yields, if any, is offered to `save`, extending the run by exactly that line's candidate |
| BookCsvReader.LoadedFacts | import/book_csv_parser.cpp:133-135 | fewer books than file lines |
| BookCsvReader.LoadedInOrder | import/book_csv_parser.cpp:103-140 | with the required headers, the import keeps line order and saves, under consecutive ids, every candidate that duplicates neither the table nor an earlier saved book, refusing exactly the others |
| BookCsvReader.NoLowercaseKeyNoBook | import/book_csv_parser.cpp:121-122 | a row without a "year" or "pages" key yields no book |
| BookCsvReader.NoLowercaseHeaderNoCandidates | import/book_csv_parser.cpp:104-139 | unless the header also names "year" and "pages", no data line yields a book |
| BookCsvReader.NoLowercaseHeaderLoadsNothing | import/book_csv_parser.cpp:76-139 | such a file imports nothing, whatever its rows |
| BookCsvReader.ExportedCsvLoadsNothing | databases/book_repository.cpp:297-315 | the book CSV export imports nothing: its header lacks "Title" |
| GenreCsvReader.GenreOfRow | import/genre_csv_parser.cpp:117-120 | a row yields a genre iff its trimmed "Name" is non-empty; the genre holds the trimmed name and description |
| GenreCsvReader.LoadFromCsv | import/genre_csv_parser.cpp:50-138 | the genres returned are `Loaded` of the old table and the file; they are exactly the rows appended |
| GenreCsvReader.SaveLines | import/genre_csv_parser.cpp:100-128 | the data-line loop returns the candidates `save` accepts, in order, and appends exactly them |
| GenreCsvReader.SaveLine | import/genre_csv_parser.cpp:102-127 | one data line: the genre it yields, if any, is offered to `save`, extending the run by exactly that line's candidate |
| GenreCsvReader.LoadedFacts | import/genre_csv_parser.cpp:121-123 | fewer genres than file lines |
| GenreCsvReader.LoadedInOrder | import/genre_csv_parser.cpp:100-128 | with "Name" and "Description" in the header, the import keeps line order and saves, under consecutive ids, every candidate whose title is neither in the table nor saved earlier, refusing exactly the others |
| GenreCsvReader.FieldsByHeaderName | import/genre_csv_parser.cpp:112-120 | columns may come in any order: name and description come from the fields under the last "Name" and "Description" headers |
| GenreCsvReader.OneRowFileLoads | import/genre_csv_parser.cpp:50-138 | a "Name,Description" file with one plain row imports that genre under the next id unless its title is taken |
| GenreCsvReader.ExportedCsvLoadsNothing | databases/genre_repository.cpp:249-263 | the genre CSV export imports nothing: its header lacks "Name" |
| GenreJsonReader.OutcomeOf | import/genre_json_parser.cpp:41-76 | an item stops the loop iff it is not an object with both keys; it yields a genre iff both values are strings and the name is non-empty |
| GenreJsonReader.StopIndex | import/genre_json_parser.cpp:38-61 | the first stopping item, or the number of items: no stop before it |
| GenreJsonReader.LoadFromJson | import/genre_json_parser.cpp:15-87 | the genres returned are `Loaded` of the old table and the document; they are exactly the rows appended |
| GenreJsonReader.SaveItems | import/genre_json_parser.cpp:38-78 | the item loop ends at the first stopping item and saves every candidate before it |
| GenreJsonReader.LoadedFacts | import/genre_json_parser.cpp:38-78 | at most one genre per item; item order kept; every candidate before the stop whose title is neither in the table nor saved earlier is saved under the next consecutive id, and exactly the others are refused |
| GenreJsonReader.ItemsAfterStopIgnored | import/genre_json_parser.cpp:53-61 | items after a stopping item never count, whatever they hold |
| GenreJsonReader.NoStopReadsAll | import/genre_json_parser.cpp:63-76 | when every item has both keys, every item is read; type errors only skip their item |
| GenreJsonReader.ExportedJsonLoadsNothing | databases/genre_repository.cpp:266-283 | the genre JSON export imports nothing: its objects lack "Name" |
| Joiner.CalculateColumnWidths | joiner.cpp:11-23 | one width per header, each the maximum of the header length and the lengths of that column's cells; header lengths when there are no rows |
| Joiner.ColumnWidthUnique | joiner.cpp:14-21 | that width is determined uniquely |
| Joiner.KindOf | joiner.cpp:78-101 | "author" and "publisher" select their joins, every other title the genre join |
| Joiner.HeadersMatchColumns | joiner.cpp:79-100 | each statement has one header per selected column: 8, 9 and 7 |
| Joiner.Join | joiner.cpp:70-124 | a failing statement is rethrown unchanged; otherwise the row count, the statement's headers and every cell as text, NULL as "" |
| Joiner.ShownRowsFitHeaders | joiner.cpp:103-112 | rows of the statement's width fit the header list, so the widths are defined for them |
| Library.EntityOf | library.cpp:140-160 | "1".."4" select books, authors, publishers, genres; nothing else selects |
| Library.JoinTitle | library.cpp:311-326 | "1", "2", "3" select the author, publisher and genre joins; every other code is invalid |
| Library.JoinNumberingDiffers | library.cpp:314-326 | the join codes do not follow the entity codes: "4" is a genre elsewhere but invalid for join |
| Library.Initialized | library.cpp:24-25 | the initialize calls made are a prefix of the order, stopping at the first failure; all are made when all succeed |
| Library.AllInitializeOrder | library.cpp:24-25 | all four repositories initialise iff every entity of the constructor's order does |
| Library.Library.Open | library.cpp:21-30 | construction succeeds iff all four initialize calls succeed; they run authors, genres, publishers, books, stopping at the first failure |
| Library.Library.constructor | library.cpp:21-23 | the library owns four fresh, empty repositories |
| Library.FormatOf | library.cpp:43-96 | ".json" anywhere in the path selects the JSON readers, else ".csv" anywhere the CSV readers |
| Library.DataPathDecidesFormat | library.cpp:33-43 | the test sees the data directory too: a directory name holding ".json" sends every file to the JSON readers |
| Library.JsonWinsOverCsv | library.cpp:43-68 | a name carrying both extensions is read as JSON |
| Library.Library.Load | library.cpp:32-112 | false and no table changed without the file, a known format or a valid code; for the modelled readers, true iff the reader imported something, with its table changed as that reader's `Loaded` says and the other three unchanged; for the other readers, only the selected table may change |
| Library.CountOrZero | library.cpp:161-171 | a thrown `find` reads as 0 results, otherwise the count found |
| Library.Library.Search | library.cpp:140-172 | the selected repository's count; 0 for an invalid code and when `find` throws |
| Library.BookOfRecord | library.cpp:178-186 | a record yields a book iff all seven keys are present, the five numbers parse and the constructor accepts; values are untrimmed |
| Library.AuthorOfRecord | library.cpp:192-197 | a record yields an author iff the four keys are present and the constructor accepts |
| Library.PublisherOfRecord | library.cpp:203-208 | a record yields a publisher iff the four keys are present, the name is non-empty and the mail matches |
| Library.GenreOfRecord | library.cpp:214-217 | a record yields a genre iff "title" and "description" are present and the title is non-empty |
| Library.MissingKeyRefused | library.cpp:225-228 | a record missing any key its entity needs is refused |
| Library.GenreAddedTwiceRefused | databases/genre_repository.cpp:31-49 | after a genre is added, adding it again finds its title taken |
| Library.BookAddedTwiceRefused | databases/book_repository.cpp:39-63 | after a book is added, adding it again finds it present |
| Library.Library.AddRecord | library.cpp:174-229 | the new id, or -1 for an invalid code, a record the entity cannot be built from, or a duplicate; only the selected table changes |
| Library.Library.UpdateRecord | library.cpp:231-257 | the selected repository's `update` result and effect; false and no change for an invalid code |
| Library.Library.DeleteRecord | library.cpp:259-283 | the selected repository's `del` result and effect; false and no change for an invalid code |
| Library.Library.Join | library.cpp:311-332 | rows shown iff the code is valid and the statement succeeds; then that statement's headers and one row per result row |

## Left out

- SQLite itself is not modelled: SQL text, storage exceptions, and what an existing database file already holds. Each table is a sequence of rows plus an AUTOINCREMENT counter, and a library opens over empty tables.
- BookRepo.BookRepository.Update: updating an INTEGER column with text that is not a decimal integer is refused in the model. SQLite would store the text under type affinity.
- BookRepo.BookRepository.Update: updating the `id` column is not modelled. The same holds for the other three repositories.
- Console output is not modelled: every `printTable`, `showAll`, the joiner's grid and all logging. `Filter` and `Find` return what would be shown.
- File I/O is not modelled: opening files, `file_exist`, and the hard-coded export paths.
  - A reader receives the file text, or `None` when the file cannot be opened.
  - An export returns the text or document it would write.
- JSON text is not modelled: parsing and `dump(4)`. A JSON reader receives the parsed document, or `None` when parsing fails.
- The clock and the date parser are parameters, not modelled: `system_clock::now`, `localtime_s`, `get_time` and `mktime`.
- The readers for book JSON, author CSV and JSON, and publisher CSV and JSON are not part of this model, because their implementations are absent.
- Library.Library.Load: for the readers that are not part of this model (book JSON, author and publisher CSV and JSON), the imported count is a parameter and the contract leaves the selected table's new contents unspecified; it promises only that the other three tables are unchanged.
- BookRepo.AssignBook: an INTEGER column takes any decimal integer text at full width. SQLite keeps 64 bits and the repository reads the column back with a 32-bit `getInt`, so `update("pages", id, "99999999999")` would later read as 1215752191. The model does not capture this truncation.
- Table.KeyMatches: a text compared with an INTEGER column matches only when it is an optional sign and digits with the same value. SQLite's numeric affinity would also convert texts such as " 7" or "7.0" and match them to 7; the model refuses them.
- Table.SortBy: rows with equal keys keep their table order. SQL `ORDER BY` leaves the order of ties unspecified, so the `Filter` contracts fix one of the orders SQLite may return.
- BookRepo.BookRepository.Filter: ties in the sort column are shown in table order, one of the orders SQLite may choose. The same holds for AuthorRepo.AuthorRepository.Filter, PublisherRepo.PublisherRepository.Filter and GenreRepo.GenreRepository.Filter.
- Joiner.CalculateColumnWidths: requires every row to be no longer than the header list. With a longer row the source indexes past its widths vector, which is undefined behaviour.
- Joiner.Join: the rows a statement returns are a parameter, not computed from the tables.
- Library.Library.Join: the database a join reads is a parameter, independent of the repositories' tables.
- Library.Library.Open: an `initialize` failure is an input. The table creation it performs is not modelled.
- The `Library` operations `filter`, `displayAll` and `exportData` only dispatch to console-printing repository methods and return nothing, so they are not modelled. The repository methods themselves are modelled.
- The interactive menus and the program entry point are not modelled.
