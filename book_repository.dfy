/**
 * `BookRepository` (databases/book_repository.cpp): the `book` table as a
 * sequence of rows in rowid order plus the AUTOINCREMENT counter.
 */
module BookRepo {
  import opened Wrappers
  import opened Imports
  import opened Numbers
  import opened Table
  import opened Csv
  import opened Json
  import opened BookModel

  /** The columns of `CREATE TABLE book`. */
  const BookColumns: set<string> :=
    {"id", "title", "author_id", "year", "genre_id", "pages", "description", "publisher_id"}

  /** The value of column `field` in a row; `None` for a name that is not a column (SQLite refuses the statement). */
  function BookColumn(b: Book, field: string): (k: Option<Key>)
    ensures k.Some? <==> field in BookColumns
    ensures k.Some? && field in {"title", "description"} ==> k.value.TextKey?
  {
    if field == "id" then Some(IntKey(b.id))
    else if field == "title" then Some(TextKey(b.title))
    else if field == "author_id" then Some(IntKey(b.authorId))
    else if field == "year" then Some(IntKey(b.year))
    else if field == "genre_id" then Some(IntKey(b.genreId))
    else if field == "pages" then Some(IntKey(b.pages))
    else if field == "description" then Some(TextKey(b.description))
    else if field == "publisher_id" then Some(IntKey(b.publisherId))
    else None
  }

  /** `WHERE field = ?` with `value` bound as text. */
  predicate BookMatches(b: Book, field: string, value: string) {
    BookColumn(b, field).Some? && KeyMatches(BookColumn(b, field).value, value)
  }

  function BookId(b: Book): int {
    b.id
  }

  function Matching(field: string, value: string): Book -> bool {
    (b: Book) => BookMatches(b, field, value)
  }

  function Keeping(field: string, value: string): Book -> bool {
    (b: Book) => !BookMatches(b, field, value)
  }

  function Rebuilder(currentYear: int): Book -> bool {
    (b: Book) => BookRebuilds(b, currentYear)
  }

  function OrderKey(field: string): Book -> Key {
    (b: Book) => BookColumn(b, field).GetOr(IntKey(0))
  }

  /** The duplicate test of `bookExists`: every column but id and description. */
  predicate SameBook(a: Book, b: Book) {
    && a.title == b.title && a.authorId == b.authorId && a.year == b.year
    && a.genreId == b.genreId && a.pages == b.pages && a.publisherId == b.publisherId
  }

  predicate BookExists(rows: seq<Book>, b: Book) {
    exists i :: 0 <= i < |rows| && SameBook(rows[i], b)
  }

  predicate HasId(rows: seq<Book>, id: int) {
    exists i :: 0 <= i < |rows| && rows[i].id == id
  }

  /** The columns `UPDATE book SET field = ?` can take the text `newVal` into. */
  predicate Assignable(field: string, newVal: string) {
    || field == "title" || field == "description"
    || (field in {"author_id", "year", "genre_id", "pages", "publisher_id"} && ParseInteger(newVal).Some?)
  }

  /** The row after `SET field = newVal`: the named column takes the value and no other column changes. */
  function AssignBook(b: Book, field: string, newVal: string): (r: Option<Book>)
    ensures r.Some? <==> Assignable(field, newVal)
    ensures r.Some? ==> r.value.id == b.id && BookMatches(r.value, field, newVal)
    ensures r.Some? ==> forall f :: f != field ==> BookColumn(r.value, f) == BookColumn(b, f)
  {
    var n := ParseInteger(newVal);
    if field == "title" then Some(b.(title := newVal))
    else if field == "description" then Some(b.(description := newVal))
    else if n.None? then None
    else if field == "author_id" then Some(b.(authorId := n.value))
    else if field == "year" then Some(b.(year := n.value))
    else if field == "genre_id" then Some(b.(genreId := n.value))
    else if field == "pages" then Some(b.(pages := n.value))
    else if field == "publisher_id" then Some(b.(publisherId := n.value))
    else None
  }

  /** The header line of the CSV export; description is not exported. */
  const BookCsvNames: seq<string> := ["ID", "title", "author_id", "year", "genre_id", "pages", "publisher_id"]
  const BookCsvHeader: string := JoinComma(BookCsvNames)

  /** The cells of one exported row; only the title goes through `escape`. */
  function BookCsvCells(b: Book): seq<string> {
    [IntToString(b.id), Escape(b.title), IntToString(b.authorId), IntToString(b.year),
     IntToString(b.genreId), IntToString(b.pages), IntToString(b.publisherId)]
  }

  function BookCsvLine(b: Book): string {
    JoinComma(BookCsvCells(b))
  }

  function BookJson(b: Book): Json {
    JObject(map["ID" := JNumber(b.id), "title" := JString(b.title), "author_id" := JNumber(b.authorId),
                "year" := JNumber(b.year), "genre_id" := JNumber(b.genreId), "pages" := JNumber(b.pages),
                "publisher_id" := JNumber(b.publisherId)])
  }

  function BookCsvText(rows: seq<Book>): string {
    BOM + Unlines([BookCsvHeader] + seq(|rows|, i requires 0 <= i < |rows| => BookCsvLine(rows[i])))
  }

  function BookJsonDoc(rows: seq<Book>): Json {
    JArray(seq(|rows|, i requires 0 <= i < |rows| => BookJson(rows[i])))
  }

  /** An exported row is read back by `splitCSVLine` as its seven values (the title trimmed). */
  lemma BookCsvLineReadsBack(b: Book)
    requires '"' !in b.title
    ensures var f := SplitFields(BookCsvLine(b));
      && |f| == 7
      && f[0] == IntToString(b.id) && f[1] == Trim(b.title) && f[2] == IntToString(b.authorId)
      && f[3] == IntToString(b.year) && f[4] == IntToString(b.genreId) && f[5] == IntToString(b.pages)
      && f[6] == IntToString(b.publisherId)
  {
    BookCellsEscaped(b);
    var values := BookCsvValues(b);
    SplitEscaped(values);
    var f := SplitFields(BookCsvLine(b));
    assert f[0] == Trim(values[0]) && f[1] == Trim(values[1]) && f[2] == Trim(values[2]);
    assert f[3] == Trim(values[3]) && f[4] == Trim(values[4]);
    assert f[5] == Trim(values[5]) && f[6] == Trim(values[6]);
    IntCell(b.id);
    IntCell(b.authorId);
    IntCell(b.year);
    IntCell(b.genreId);
    IntCell(b.pages);
    IntCell(b.publisherId);
  }

  /** The values of an exported row before `escape`. */
  function BookCsvValues(b: Book): seq<string> {
    [IntToString(b.id), b.title, IntToString(b.authorId), IntToString(b.year),
     IntToString(b.genreId), IntToString(b.pages), IntToString(b.publisherId)]
  }

  lemma BookCellsEscaped(b: Book)
    requires '"' !in b.title
    ensures BookCsvCells(b) == EscapeAll(BookCsvValues(b))
    ensures forall k :: 0 <= k < |BookCsvValues(b)| ==> '"' !in BookCsvValues(b)[k]
  {
    IntCell(b.id);
    IntCell(b.authorId);
    IntCell(b.year);
    IntCell(b.genreId);
    IntCell(b.pages);
    IntCell(b.publisherId);
  }

  /** Two books that differ only in their description export the same CSV row. */
  lemma CsvExportIgnoresDescription(b: Book, description: string)
    ensures BookCsvLine(b.(description := description)) == BookCsvLine(b)
    ensures BookJson(b.(description := description)) == BookJson(b)
  {
  }

  /** `b` stored under `id`; a run of saves (`Imports.SaveMany`) refuses with `BookExists`. */
  function WithBookId(b: Book, id: int): Book {
    b.(id := id)
  }

  /** `if (repo.save(book) != -1) books.push_back(book)`: one more save of a run of imports. */
  method SaveAndKeep(book: Book, repo: BookRepository, books: seq<Book>, ghost rows0: seq<Book>, ghost next0: int, ghost cands: seq<Book>)
    returns (books': seq<Book>)
    requires repo.Valid()
    requires books == SaveMany(rows0, next0, cands, BookExists, WithBookId)
    requires repo.rows == rows0 + books && repo.nextId == next0 + |books|
    modifies repo
    ensures repo.Valid()
    ensures books' == SaveMany(rows0, next0, cands + [book], BookExists, WithBookId)
    ensures repo.rows == rows0 + books' && repo.nextId == next0 + |books'|
  {
    SaveManyStep(rows0, next0, cands, book, BookExists, WithBookId);
    var id, saved := repo.Save(book);
    books' := books;
    if id != -1 {
      books' := books + [saved];
    }
  }

  class BookRepository {
    /** The rows of `book` in rowid order. */
    var rows: seq<Book>
    /** The id the next INSERT receives (AUTOINCREMENT never reuses an id). */
    var nextId: int

    predicate Valid()
      reads this
    {
      && nextId >= 1
      && IdsIncreasing(rows, BookId)
      && forall i :: 0 <= i < |rows| ==> 1 <= rows[i].id < nextId
    }

    /** A new, empty table. */
    constructor()
      ensures Valid() && rows == [] && nextId == 1
    {
      rows := [];
      nextId := 1;
    }

    /**
     * `save(Book&)`: -1 and no change when `bookExists`; otherwise one row is
     * appended under a fresh id, which is returned and written into the
     * caller's book (`saved`).
     */
    method Save(book: Book) returns (id: int, saved: Book)
      requires Valid()
      modifies this
      ensures Valid()
      ensures BookExists(old(rows), book) ==>
        id == -1 && saved == book && rows == old(rows) && nextId == old(nextId)
      ensures !BookExists(old(rows), book) ==>
        && id == old(nextId) && saved == book.(id := id)
        && rows == old(rows) + [saved] && nextId == old(nextId) + 1
    {
      if BookExists(rows, book) {
        return -1, book;
      }
      id := nextId;
      saved := book.(id := id);
      rows := rows + [saved];
      nextId := nextId + 1;
    }

    /**
     * `update(field, id, new_val)`: false and no change when no row has `id`
     * or the column cannot take the value; otherwise that one row gets the
     * new column value and everything else stays.
     */
    method Update(field: string, id: int, newVal: string) returns (ok: bool)
      requires Valid()
      modifies this
      ensures Valid()
      ensures nextId == old(nextId)
      ensures ok <==> HasId(old(rows), id) && Assignable(field, newVal)
      ensures !ok ==> rows == old(rows)
      ensures ok ==>
        && |rows| == |old(rows)|
        && forall i :: 0 <= i < |rows| ==>
             rows[i] == (if old(rows)[i].id == id then AssignBook(old(rows)[i], field, newVal).value else old(rows)[i])
    {
      if !HasId(rows, id) || !Assignable(field, newVal) {
        return false;
      }
      var before := rows;
      rows := seq(|before|, i requires 0 <= i < |before| =>
        if before[i].id == id then AssignBook(before[i], field, newVal).value else before[i]);
      assert forall i :: 0 <= i < |rows| ==> rows[i].id == before[i].id;
      ok := true;
    }

    /** `del(field, value)`: false when nothing matches; otherwise every matching row goes and the rest stay in order. */
    method Del(field: string, value: string) returns (ok: bool)
      requires Valid()
      modifies this
      ensures Valid()
      ensures nextId == old(nextId)
      ensures ok <==> exists i :: 0 <= i < |old(rows)| && BookMatches(old(rows)[i], field, value)
      ensures rows == Where(old(rows), Keeping(field, value))
    {
      if !exists i :: 0 <= i < |rows| && BookMatches(rows[i], field, value) {
        WhereAll(rows, Keeping(field, value));
        return false;
      }
      WhereKeepsOrder(rows, Keeping(field, value), BookId);
      rows := Where(rows, Keeping(field, value));
      ok := true;
    }

    /**
     * `find(field, value)`: the number of rows with `field = value`. A
     * matching row the constructor refuses throws out of `find` (`None`).
     */
    method Find(field: string, value: string, currentYear: int) returns (r: Option<int>)
      requires Valid()
      ensures r.None? <==>
        exists i :: 0 <= i < |rows| && BookMatches(rows[i], field, value) && !BookRebuilds(rows[i], currentYear)
      ensures r.Some? ==> r.value == |Positions(rows, Matching(field, value))|
    {
      var found := Where(rows, Matching(field, value));
      var books := Rebuild(found, Rebuilder(currentYear));
      if books.None? {
        return None;
      }
      WhereCount(rows, Matching(field, value));
      return Some(|books.value|);
    }

    /**
     * `filter(field, direction)`: the rows shown, ordered by the column,
     * ascending for "up" and descending for "down". Any other direction, an
     * unknown column or a row the constructor refuses shows nothing (`None`).
     */
    method Filter(field: string, direction: string, currentYear: int) returns (r: Option<seq<Book>>)
      requires Valid()
      ensures r.Some? <==>
        && (direction == "up" || direction == "down") && field in BookColumns
        && forall i :: 0 <= i < |rows| ==> BookRebuilds(rows[i], currentYear)
      ensures r.Some? ==> r.value == SortBy(rows, OrderKey(field), direction == "down")
      ensures r.Some? ==> SortedBy(r.value, OrderKey(field), direction == "down") && multiset(r.value) == multiset(rows)
    {
      if direction != "up" && direction != "down" {
        return None;
      }
      if field !in BookColumns {
        return None;
      }
      var sorted := SortBy(rows, OrderKey(field), direction == "down");
      SortByCorrect(rows, OrderKey(field), direction == "down");
      AllOfPermutation(rows, sorted, Rebuilder(currentYear));
      assert forall i :: 0 <= i < |rows| ==> Rebuilder(currentYear)(rows[i]) == BookRebuilds(rows[i], currentYear);
      r := Rebuild(sorted, Rebuilder(currentYear));
    }

    /**
     * `exportData(format)`: the CSV text or JSON document written; nothing
     * (`None`) for another format or when a row fails to rebuild.
     */
    method ExportData(format: string, currentYear: int) returns (r: Option<Exported>)
      requires Valid()
      ensures r.Some? <==>
        (format == "csv" || format == "json") && forall i :: 0 <= i < |rows| ==> BookRebuilds(rows[i], currentYear)
      ensures r.Some? && format == "csv" ==> r.value == CsvFile(BookCsvText(rows))
      ensures r.Some? && format == "json" ==> r.value == JsonFile(BookJsonDoc(rows))
    {
      var books := Rebuild(rows, Rebuilder(currentYear));
      if books.None? {
        var i :| 0 <= i < |rows| && !Rebuilder(currentYear)(rows[i]);
        assert !BookRebuilds(rows[i], currentYear);
        return None;
      }
      assert forall i :: 0 <= i < |rows| ==> Rebuilder(currentYear)(rows[i]);
      var all := books.value;
      if format == "csv" {
        var lines := [BookCsvHeader];
        var i := 0;
        while i < |all|
          invariant 0 <= i <= |all|
          invariant lines == [BookCsvHeader] + seq(i, k requires 0 <= k < i => BookCsvLine(all[k]))
        {
          lines := lines + [BookCsvLine(all[i])];
          i := i + 1;
        }
        return Some(CsvFile(BOM + Unlines(lines)));
      } else if format == "json" {
        var items: seq<Json> := [];
        var i := 0;
        while i < |all|
          invariant 0 <= i <= |all|
          invariant items == seq(i, k requires 0 <= k < i => BookJson(all[k]))
        {
          items := items + [BookJson(all[i])];
          i := i + 1;
        }
        return Some(JsonFile(JArray(items)));
      }
      return None;
    }
  }
}
