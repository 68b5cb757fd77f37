/**
 * `CSVBookReader::loadFromCSV` (import/book_csv_parser.cpp): reads a CSV
 * file of books line by line and saves every acceptable row into the book
 * table, returning the books saved.
 */
module BookCsvReader {
  import opened Wrappers
  import opened Numbers
  import opened Csv
  import opened Imports
  import opened BookModel
  import opened BookRepo

  /** The header names the reader insists on before it reads any row. */
  const RequiredHeaders: set<string> := {"Title", "Author", "Genre", "Year", "Pages", "Description", "Publisher"}

  /**
   * The book a `row` map describes, or `None` when one of the `stoi` calls
   * or the constructor throws. Year and pages are looked up under the
   * lower-case keys "year" and "pages", the other fields under their
   * capitalised header names.
   */
  function BookOfRow(row: map<string, string>, currentYear: int): (r: Option<Book>)
    ensures r.Some? <==>
      && Stoi(Trim(Lookup(row, "year"))).Some? && Stoi(Trim(Lookup(row, "pages"))).Some?
      && Stoi(Trim(Lookup(row, "Author"))).Some? && Stoi(Trim(Lookup(row, "Genre"))).Some?
      && Stoi(Trim(Lookup(row, "Publisher"))).Some?
      && Trim(Lookup(row, "Title")) != "" && Stoi(Trim(Lookup(row, "year"))).value <= currentYear
    ensures r.Some? ==> r.value == Book(-1, Trim(Lookup(row, "Title")), Stoi(Trim(Lookup(row, "Author"))).value,
                                       Trim(Lookup(row, "Description")), Stoi(Trim(Lookup(row, "year"))).value,
                                       Stoi(Trim(Lookup(row, "Genre"))).value, Stoi(Trim(Lookup(row, "Publisher"))).value,
                                       Stoi(Trim(Lookup(row, "pages"))).value)
  {
    var year := Stoi(Trim(Lookup(row, "year")));
    var pages := Stoi(Trim(Lookup(row, "pages")));
    var author := Stoi(Trim(Lookup(row, "Author")));
    var genre := Stoi(Trim(Lookup(row, "Genre")));
    var publisher := Stoi(Trim(Lookup(row, "Publisher")));
    if year.None? || pages.None? || author.None? || genre.None? || publisher.None? then None
    else
      NewBook(Trim(Lookup(row, "Title")), author.value, Trim(Lookup(row, "Description")), year.value,
              genre.value, publisher.value, pages.value, currentYear).ToOption()
  }

  /** The book a data line yields, if it is neither skipped nor refused. */
  function BookOfLine(headers: seq<string>, line: string, currentYear: int): Option<Book> {
    match RowOf(headers, line)
    case None => None
    case Some(row) => BookOfRow(row, currentYear)
  }

  /** `BookOfLine` as the line reader of `Collect`. */
  function LineReader(headers: seq<string>, currentYear: int): string -> Option<Book> {
    (line: string) => BookOfLine(headers, line, currentYear)
  }

  /** The books the data lines yield, in file order, before any is saved. */
  function Candidates(headers: seq<string>, lines: seq<string>, currentYear: int): seq<Book> {
    Collect(lines, LineReader(headers, currentYear))
  }

  /**
   * The books `loadFromCSV` returns for a file (`None`: it cannot be
   * opened) and a table with `rows` and counter `nextId`: nothing without a
   * header line or with a required header missing; otherwise the
   * candidates that `save` accepts, one after the other.
   */
  function Loaded(rows: seq<Book>, nextId: int, content: Option<string>, currentYear: int): seq<Book> {
    if content.None? then []
    else
      var lines := FileLines(content.value);
      if lines == [] then []
      else
        var headers := SplitFields(lines[0]);
        if !(RequiredHeaders <= HeaderSet(headers)) then []
        else SaveMany(rows, nextId, Candidates(headers, lines[1..], currentYear), BookExists, WithBookId)
  }

  /**
   * The reader's loop. Every returned book is also appended to the table,
   * and the table changes in no other way.
   */
  method LoadFromCsv(content: Option<string>, repo: BookRepository, currentYear: int) returns (books: seq<Book>)
    requires repo.Valid()
    modifies repo
    ensures repo.Valid()
    ensures books == Loaded(old(repo.rows), old(repo.nextId), content, currentYear)
    ensures repo.rows == old(repo.rows) + books && repo.nextId == old(repo.nextId) + |books|
  {
    books := [];
    if content.None? {
      return;
    }
    var lines := FileLines(content.value);
    if lines == [] {
      return;
    }
    var headers := SplitCsvLine(lines[0]);
    if !(RequiredHeaders <= HeaderSet(headers)) {
      return;
    }
    books := SaveLines(headers, lines[1..], LineReader(headers, currentYear), repo, currentYear);
  }

  /** `reader` yields for each line the book `BookOfLine` gives it. */
  ghost predicate ReadsBooks(reader: string -> Option<Book>, headers: seq<string>, currentYear: int) {
    forall line {:trigger BookOfLine(headers, line, currentYear)} :: reader(line) == BookOfLine(headers, line, currentYear)
  }

  /** One data line through `splitCSVLine`, the row map and the `Book` constructor. */
  method ReadBook(headers: seq<string>, line: string, ghost reader: string -> Option<Book>, currentYear: int)
    returns (book: Option<Book>)
    requires ReadsBooks(reader, headers, currentYear)
    ensures book == reader(line)
  {
    var row := ReadRow(headers, line);
    book := None;
    if row.Some? {
      book := BookOfRow(row.value, currentYear);
    }
    assert book == BookOfLine(headers, line, currentYear);
  }

  /** The loop over the data lines: each book a line yields is offered to `save`, and kept when saved. */
  method SaveLines(headers: seq<string>, data: seq<string>, ghost reader: string -> Option<Book>, repo: BookRepository, currentYear: int)
    returns (books: seq<Book>)
    requires ReadsBooks(reader, headers, currentYear)
    requires repo.Valid()
    modifies repo
    ensures repo.Valid()
    ensures books == SaveMany(old(repo.rows), old(repo.nextId), Collect(data, reader), BookExists, WithBookId)
    ensures repo.rows == old(repo.rows) + books && repo.nextId == old(repo.nextId) + |books|
  {
    books := [];
    ghost var rows0, next0 := repo.rows, repo.nextId;
    var i := 0;
    while i < |data|
      invariant 0 <= i <= |data|
      invariant repo.Valid()
      invariant books == SaveMany(rows0, next0, Collect(data[..i], reader), BookExists, WithBookId)
      invariant repo.rows == rows0 + books && repo.nextId == next0 + |books|
    {
      books := SaveLine(headers, data, i, reader, repo, books, rows0, next0, currentYear);
      i := i + 1;
    }
    assert data[..i] == data;
  }

  /** Line `i` of the loop: the book it yields, if any, is offered to `save` and kept when saved. */
  method SaveLine(headers: seq<string>, data: seq<string>, i: nat, ghost reader: string -> Option<Book>,
                  repo: BookRepository, books: seq<Book>, ghost rows0: seq<Book>, ghost next0: int, currentYear: int)
    returns (books': seq<Book>)
    requires i < |data|
    requires ReadsBooks(reader, headers, currentYear)
    requires repo.Valid()
    requires books == SaveMany(rows0, next0, Collect(data[..i], reader), BookExists, WithBookId)
    requires repo.rows == rows0 + books && repo.nextId == next0 + |books|
    modifies repo
    ensures repo.Valid()
    ensures books' == SaveMany(rows0, next0, Collect(data[..i + 1], reader), BookExists, WithBookId)
    ensures repo.rows == rows0 + books' && repo.nextId == next0 + |books'|
  {
    var book := ReadBook(headers, data[i], reader, currentYear);
    ghost var cands := Collect(data[..i], reader);
    CollectStep(data, i, reader);
    books' := books;
    if book.Some? {
      books' := SaveAndKeep(book.value, repo, books, rows0, next0, cands);
      assert Collect(data[..i + 1], reader) == cands + [book.value];
    } else {
      assert Collect(data[..i + 1], reader) == cands + [];
      assert cands + [] == cands;
    }
  }

  /** The result is at most one book per data line. */
  lemma LoadedFacts(rows: seq<Book>, nextId: int, content: Option<string>, currentYear: int)
    ensures var books := Loaded(rows, nextId, content, currentYear);
      books != [] ==> content.Some? && |books| < |FileLines(content.value)|
  {
  }

  /**
   * Under a header line with the required names, the result follows line
   * order: every candidate that duplicates no book already in the table or
   * saved before it is saved, under the next free id, and every other one
   * is refused.
   */
  lemma LoadedInOrder(rows: seq<Book>, nextId: int, content: Option<string>, currentYear: int)
    ensures content.Some? && FileLines(content.value) != []
            && RequiredHeaders <= HeaderSet(SplitFields(FileLines(content.value)[0])) ==>
      var lines := FileLines(content.value);
      var cands := Candidates(SplitFields(lines[0]), lines[1..], currentYear);
      SavedInOrder(rows, nextId, cands, Loaded(rows, nextId, content, currentYear), BookExists, WithBookId,
                   SavedIndices(rows, nextId, cands, BookExists, WithBookId))
  {
    if content.Some? && FileLines(content.value) != [] {
      var lines := FileLines(content.value);
      SaveManyFacts(rows, nextId, Candidates(SplitFields(lines[0]), lines[1..], currentYear), BookExists, WithBookId);
    }
  }

  /** A row without the lower-case key "year" or "pages" never yields a book: `stoi("")` throws. */
  lemma NoLowercaseKeyNoBook(row: map<string, string>, currentYear: int)
    requires "year" !in row || "pages" !in row
    ensures BookOfRow(row, currentYear) == None
  {
    assert Trim("") == "";
  }

  /**
   * The lower-case lookup defect: unless the header line also names columns
   * "year" and "pages" (besides the required "Year" and "Pages"), no line yields a book.
   */
  lemma {:induction false} NoLowercaseHeaderNoCandidates(headers: seq<string>, lines: seq<string>, currentYear: int)
    requires "year" !in headers || "pages" !in headers
    ensures Candidates(headers, lines, currentYear) == []
    decreases |lines|
  {
    if lines != [] {
      NoLowercaseHeaderNoCandidates(headers, lines[..|lines| - 1], currentYear);
      var line := lines[|lines| - 1];
      var row := RowOf(headers, line);
      if row.Some? {
        RowMapLookup(headers, SplitFields(line), "year");
        RowMapLookup(headers, SplitFields(line), "pages");
        NoLowercaseKeyNoBook(row.value, currentYear);
      }
    }
  }

  /** A file whose header names only the required columns imports nothing, whatever its rows. */
  lemma NoLowercaseHeaderLoadsNothing(rows: seq<Book>, nextId: int, content: string, currentYear: int)
    requires FileLines(content) != []
    requires "year" !in SplitFields(FileLines(content)[0]) || "pages" !in SplitFields(FileLines(content)[0])
    ensures Loaded(rows, nextId, Some(content), currentYear) == []
  {
    var lines := FileLines(content);
    NoLowercaseHeaderNoCandidates(SplitFields(lines[0]), lines[1..], currentYear);
  }

  /**
   * A file written by the book CSV export cannot be read back: its header
   * line "ID,title,author_id,year,genre_id,pages,publisher_id" lacks "Title".
   */
  lemma ExportedCsvLoadsNothing(rows: seq<Book>, nextId: int, exported: seq<Book>, currentYear: int)
    ensures Loaded(rows, nextId, Some(BookCsvText(exported)), currentYear) == []
  {
    var text := BookCsvText(exported);
    var body := seq(|exported|, i requires 0 <= i < |exported| => BookCsvLine(exported[i]));
    assert text == BOM + Unlines([BookCsvHeader] + body);
    assert text[..3] == BOM;
    assert SkipBom(text) == Unlines([BookCsvHeader] + body);
    HeaderFields();
    LinesCons(BookCsvHeader, Unlines(body));
    assert FileLines(text)[0] == BookCsvHeader;
  }

  lemma HeaderFields()
    ensures '\n' !in BookCsvHeader && "Title" !in SplitFields(BookCsvHeader)
  {
    ExportedNames(BookCsvNames);
    PlainHeaderLacks(BookCsvNames, "Title");
  }

  lemma ExportedNames(names: seq<string>)
    requires names == BookCsvNames
    ensures forall k :: 0 <= k < |names| ==> PlainName(names[k]) && names[k] != "Title"
  {
    FirstNamesPlain(names[..4]);
    LastNamesPlain(names[4..]);
    assert forall k :: 0 <= k < |names| ==> PlainName(names[k]) by {
      assert forall k :: 0 <= k < 4 ==> names[k] == names[..4][k];
      assert forall k :: 4 <= k < |names| ==> names[k] == names[4..][k - 4];
    }
    forall k | 0 <= k < |names| ensures names[k] != "Title" {
      assert names[k][0] != "Title"[0];
    }
  }

  lemma FirstNamesPlain(names: seq<string>)
    requires names == ["ID", "title", "author_id", "year"]
    ensures forall k :: 0 <= k < |names| ==> PlainName(names[k])
  {
    assert PlainName(names[0]) && PlainName(names[1]);
    assert PlainName(names[2]) && PlainName(names[3]);
  }

  lemma LastNamesPlain(names: seq<string>)
    requires names == ["genre_id", "pages", "publisher_id"]
    ensures forall k :: 0 <= k < |names| ==> PlainName(names[k])
  {
    assert PlainName(names[0]) && PlainName(names[1]) && PlainName(names[2]);
  }
}
