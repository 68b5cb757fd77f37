/**
 * `Library` (library.cpp): the facade the menus talk to. It owns the four
 * repositories, routes the entity codes "1" (books), "2" (authors), "3"
 * (publishers) and "4" (genres) to them, and turns invalid codes and caught
 * exceptions into the sentinels `false`, `0` and `-1`.
 *
 * The file system, the clock and the database's own failures are inputs:
 * whether a file exists, the text or parsed document a reader gets, the
 * result of each repository's `initialize`, and the rows a join statement
 * returns.
 */
module Library {
  import opened Wrappers
  import opened Numbers
  import opened Clock
  import opened Json
  import opened Table
  import opened BookModel
  import opened AuthorModel
  import opened PublisherModel
  import opened GenreModel
  import BookRepo
  import AuthorRepo
  import PublisherRepo
  import GenreRepo
  import BookCsvReader
  import GenreCsvReader
  import GenreJsonReader
  import Joiner

  // ---------------------------------------------------------------------------
  // Entity codes

  datatype Entity = Books | Authors | Publishers | Genres

  /** The entity an input code selects in `load`, `search`, `addRecord`, `updateRecord` and `deleteRecord`. */
  function EntityOf(choice: string): (e: Option<Entity>)
    ensures e == Some(Books) <==> choice == "1"
    ensures e == Some(Authors) <==> choice == "2"
    ensures e == Some(Publishers) <==> choice == "3"
    ensures e == Some(Genres) <==> choice == "4"
  {
    if choice == "1" then Some(Books)
    else if choice == "2" then Some(Authors)
    else if choice == "3" then Some(Publishers)
    else if choice == "4" then Some(Genres)
    else None
  }

  /** `join` numbers differently: "1" author, "2" publisher, "3" genre; every other code is invalid. */
  function JoinTitle(choice: string): (t: Option<string>)
    ensures t.Some? <==> choice == "1" || choice == "2" || choice == "3"
    ensures choice == "1" ==> t == Some("author")
    ensures choice == "2" ==> t == Some("publisher")
    ensures choice == "3" ==> t == Some("genre")
  {
    if choice == "1" then Some("author")
    else if choice == "2" then Some("publisher")
    else if choice == "3" then Some("genre")
    else None
  }

  /**
   * The two numberings part ways: the code that selects genres everywhere
   * else is refused by `join`, and the join codes "2" and "3" select the
   * publisher and genre statements, not authors and publishers.
   */
  lemma JoinNumberingDiffers()
    ensures EntityOf("4") == Some(Genres) && JoinTitle("4") == None
    ensures EntityOf("2") == Some(Authors) && Joiner.KindOf(JoinTitle("2").value) == Joiner.PublisherJoin
    ensures EntityOf("3") == Some(Publishers) && Joiner.KindOf(JoinTitle("3").value) == Joiner.GenreJoin
  {
    assert "4" != "1" && "4" != "2" && "4" != "3";
  }

  // ---------------------------------------------------------------------------
  // Construction

  /** The order in which the constructor initialises the repositories. */
  const InitOrder: seq<Entity> := [Authors, Genres, Publishers, Books]

  /**
   * The `initialize` calls a chain of `||` makes, given which of them
   * succeed: one per entity in `order`, up to and including the first that
   * fails.
   */
  function Initialized(order: seq<Entity>, initializes: Entity -> bool): (tried: seq<Entity>)
    ensures |tried| <= |order| && tried == order[..|tried|]
    ensures forall k :: 0 <= k < |tried| - 1 ==> initializes(tried[k])
    ensures |tried| < |order| ==> tried != [] && !initializes(tried[|tried| - 1])
    ensures (forall k :: 0 <= k < |order| ==> initializes(order[k])) ==> tried == order
  {
    if order == [] then []
    else if !initializes(order[0]) then [order[0]]
    else [order[0]] + Initialized(order[1..], initializes)
  }

  /** The entities of `InitOrder` initialise, one by one. */
  predicate AllInitialize(initializes: Entity -> bool) {
    initializes(Authors) && initializes(Genres) && initializes(Publishers) && initializes(Books)
  }

  lemma AllInitializeOrder(initializes: Entity -> bool)
    ensures AllInitialize(initializes) <==> forall k :: 0 <= k < |InitOrder| ==> initializes(InitOrder[k])
  {
    if AllInitialize(initializes) {
      forall k | 0 <= k < |InitOrder| ensures initializes(InitOrder[k]) {
        assert k == 0 || k == 1 || k == 2 || k == 3;
      }
    } else {
      assert !initializes(InitOrder[0]) || !initializes(InitOrder[1]) || !initializes(InitOrder[2]) || !initializes(InitOrder[3]);
    }
  }

  /** A search hit count as `search` reports it: a thrown exception (`None`) reads as 0. */
  function CountOrZero(found: Option<int>): (n: int)
    ensures found.None? ==> n == 0
    ensures found.Some? ==> n == found.value
  {
    match found
    case None => 0
    case Some(c) => c
  }

  // ---------------------------------------------------------------------------
  // File formats

  /** `s.find(sub) != npos`. */
  predicate Contains(s: string, sub: string) {
    exists i :: 0 <= i <= |s| - |sub| && OccursAt(s, sub, i)
  }

  /** `sub` starts at index `i` of `s`. */
  predicate OccursAt(s: string, sub: string, i: int) {
    0 <= i <= |s| - |sub| && s[i..i + |sub|] == sub
  }

  datatype Format = JsonFormat | CsvFormat

  /** The reader family `load` picks for a path: ".json" anywhere in it wins over ".csv" anywhere in it. */
  function FormatOf(fullPath: string): (f: Option<Format>)
    ensures f == Some(JsonFormat) <==> Contains(fullPath, ".json")
    ensures f == Some(CsvFormat) <==> !Contains(fullPath, ".json") && Contains(fullPath, ".csv")
  {
    if Contains(fullPath, ".json") then Some(JsonFormat)
    else if Contains(fullPath, ".csv") then Some(CsvFormat)
    else None
  }

  /**
   * The test looks at the whole path, data directory included: a data
   * directory whose name holds ".json" sends every file to the JSON
   * readers, whatever the file's own extension.
   */
  lemma DataPathDecidesFormat(dataPath: string, path: string)
    requires Contains(dataPath, ".json")
    ensures FormatOf(dataPath + path) == Some(JsonFormat)
  {
    var i :| 0 <= i <= |dataPath| - |".json"| && OccursAt(dataPath, ".json", i);
    assert dataPath[i..i + |".json"|] == ".json";
    assert (dataPath + path)[i..i + |".json"|] == ".json";
    assert OccursAt(dataPath + path, ".json", i);
  }

  /** A name carrying both extensions goes to the JSON readers, whichever comes last. */
  lemma JsonWinsOverCsv(name: string, prefix: string, suffix: string)
    requires name == prefix + ".csv" + suffix + ".json"
    ensures FormatOf(name) == Some(JsonFormat)
  {
    var i := |prefix + ".csv" + suffix|;
    assert name[i..i + |".json"|] == ".json";
    assert OccursAt(name, ".json", i);
  }

  // ---------------------------------------------------------------------------
  // Records typed in by hand

  const BookKeys: set<string> := {"title", "author_id", "description", "year", "genre_id", "publisher_id", "pages"}
  const AuthorKeys: set<string> := {"full_name", "date_of_birth", "date_of_death", "biography"}
  const PublisherKeys: set<string> := {"name", "address", "phone", "mail"}
  const GenreKeys: set<string> := {"title", "description"}

  /**
   * The book `addRecord` builds from a record: `None` when a key is missing
   * (`at` throws), a number does not parse (`stoi` throws) or the
   * constructor refuses it. The values are taken as they are, untrimmed.
   */
  function BookOfRecord(record: map<string, string>, currentYear: int): (r: Option<Book>)
    ensures r.Some? <==>
      && BookKeys <= record.Keys
      && Stoi(record["author_id"]).Some? && Stoi(record["year"]).Some? && Stoi(record["genre_id"]).Some?
      && Stoi(record["publisher_id"]).Some? && Stoi(record["pages"]).Some?
      && record["title"] != "" && Stoi(record["year"]).value <= currentYear
    ensures r.Some? ==> r.value == Book(-1, record["title"], Stoi(record["author_id"]).value, record["description"],
                                       Stoi(record["year"]).value, Stoi(record["genre_id"]).value,
                                       Stoi(record["publisher_id"]).value, Stoi(record["pages"]).value)
  {
    if !(BookKeys <= record.Keys) then None
    else
      var authorId := Stoi(record["author_id"]);
      var year := Stoi(record["year"]);
      var genreId := Stoi(record["genre_id"]);
      var publisherId := Stoi(record["publisher_id"]);
      var pages := Stoi(record["pages"]);
      if authorId.None? || year.None? || genreId.None? || publisherId.None? || pages.None? then None
      else
        NewBook(record["title"], authorId.value, record["description"], year.value, genreId.value,
                publisherId.value, pages.value, currentYear).ToOption()
  }

  /** The author `addRecord` builds from a record, or `None` when a key is missing or the constructor refuses it. */
  function AuthorOfRecord(record: map<string, string>, clock: Clock): (r: Option<Author>)
    ensures r.Some? <==>
      && AuthorKeys <= record.Keys
      && AuthorAcceptable(record["full_name"], record["date_of_birth"], record["date_of_death"], clock)
    ensures r.Some? ==> r.value == Author(-1, record["full_name"], record["date_of_birth"], record["date_of_death"],
                                         record["biography"])
  {
    if !(AuthorKeys <= record.Keys) then None
    else
      NewAuthor(record["full_name"], record["date_of_birth"], record["date_of_death"], record["biography"], clock).ToOption()
  }

  /** The publisher `addRecord` builds from a record, or `None` when a key is missing or the constructor refuses it. */
  function PublisherOfRecord(record: map<string, string>): (r: Option<Publisher>)
    ensures r.Some? <==> PublisherKeys <= record.Keys && record["name"] != "" && MailMatches(record["mail"])
    ensures r.Some? ==> r.value == Publisher(-1, record["name"], record["address"], record["phone"], record["mail"])
  {
    if !(PublisherKeys <= record.Keys) then None
    else NewPublisher(record["name"], record["address"], record["phone"], record["mail"]).ToOption()
  }

  /** The genre `addRecord` builds from a record, or `None` when a key is missing or the title is empty. */
  function GenreOfRecord(record: map<string, string>): (r: Option<Genre>)
    ensures r.Some? <==> GenreKeys <= record.Keys && record["title"] != ""
    ensures r.Some? ==> r.value == Genre(-1, record["title"], record["description"])
  {
    if !(GenreKeys <= record.Keys) then None
    else NewGenre(record["title"], record["description"]).ToOption()
  }

  /** A record lacking any one of the keys its entity needs is refused before anything is saved. */
  lemma MissingKeyRefused(record: map<string, string>, clock: Clock)
    ensures !(BookKeys <= record.Keys) ==> BookOfRecord(record, clock.currentYear).None?
    ensures !(AuthorKeys <= record.Keys) ==> AuthorOfRecord(record, clock).None?
    ensures !(PublisherKeys <= record.Keys) ==> PublisherOfRecord(record).None?
    ensures !(GenreKeys <= record.Keys) ==> GenreOfRecord(record).None?
  {
  }

  /**
   * The same genre record added twice: the second `save` finds the title
   * taken and yields -1, so a table never holds two genres of one title
   * through `addRecord`.
   */
  lemma GenreAddedTwiceRefused(rows: seq<Genre>, nextId: int, g: Genre)
    ensures GenreRepo.GenreExists(rows + [g.(id := nextId)], g)
  {
    assert (rows + [g.(id := nextId)])[|rows|].title == g.title;
  }

  /** Likewise for books: the saved copy has every column `bookExists` compares. */
  lemma BookAddedTwiceRefused(rows: seq<Book>, nextId: int, b: Book)
    ensures BookRepo.BookExists(rows + [b.(id := nextId)], b)
  {
    assert BookRepo.SameBook((rows + [b.(id := nextId)])[|rows|], b);
  }

  // ---------------------------------------------------------------------------
  // The facade

  class Library {
    const books: BookRepo.BookRepository
    const authors: AuthorRepo.AuthorRepository
    const publishers: PublisherRepo.PublisherRepository
    const genres: GenreRepo.GenreRepository
    /** The directory prefix `load` puts before every file name. */
    const dataPath: string

    ghost predicate Valid()
      reads this, books, authors, publishers, genres
    {
      books.Valid() && authors.Valid() && publishers.Valid() && genres.Valid()
    }

    /** The repositories, not yet initialised, over empty tables. */
    constructor(dataPath: string)
      ensures Valid() && this.dataPath == dataPath
      ensures fresh(books) && fresh(authors) && fresh(publishers) && fresh(genres)
      ensures books.rows == [] && authors.rows == [] && publishers.rows == [] && genres.rows == []
    {
      books := new BookRepo.BookRepository();
      authors := new AuthorRepo.AuthorRepository();
      publishers := new PublisherRepo.PublisherRepository();
      genres := new GenreRepo.GenreRepository();
      this.dataPath := dataPath;
    }

    /**
     * `Library(db_path, data_path)`: builds the repositories, then
     * initialises authors, genres, publishers and books in that order,
     * stopping at the first failure, which throws (`None`). `tried` lists
     * the `initialize` calls made.
     */
    static method Open(dataPath: string, initializes: Entity -> bool) returns (lib: Option<Library>, tried: seq<Entity>)
      ensures tried == Initialized(InitOrder, initializes)
      ensures lib.Some? <==> AllInitialize(initializes)
      ensures lib.Some? ==> fresh(lib.value) && lib.value.Valid() && lib.value.dataPath == dataPath
    {
      var l := new Library(dataPath);
      AllInitializeOrder(initializes);
      tried := [Authors];
      if !initializes(Authors) {
        return None, tried;
      }
      tried := tried + [Genres];
      if !initializes(Genres) {
        return None, tried;
      }
      tried := tried + [Publishers];
      if !initializes(Publishers) {
        return None, tried;
      }
      tried := tried + [Books];
      if !initializes(Books) {
        return None, tried;
      }
      return Some(l), tried;
    }

    /**
     * `load(path, choice)`: imports the file `dataPath + path` with the
     * reader the format and the code select and reports whether at least
     * one record was imported. `fileExists` is the `fopen` probe;
     * `content` is the text a CSV reader gets and `doc` the document a JSON
     * reader parses (`None`: it cannot open or parse the file). The book,
     * author and publisher JSON readers and the author and publisher CSV
     * readers are not part of this model: `elsewhere` is the number of
     * records such a reader imports, and their tables are left as they are.
     */
    method Load(path: string, choice: string, fileExists: bool, content: Option<string>, doc: Option<Json>,
                currentYear: int, elsewhere: nat)
      returns (ok: bool)
      requires Valid()
      modifies books, authors, publishers, genres
      ensures Valid()
      ensures ok ==> fileExists && FormatOf(dataPath + path).Some? && EntityOf(choice).Some?
      ensures !fileExists || FormatOf(dataPath + path).None? || EntityOf(choice).None? ==>
        !ok && unchanged(books, authors, publishers, genres)
      ensures fileExists && FormatOf(dataPath + path) == Some(CsvFormat) && choice == "1" ==>
        var loaded := BookCsvReader.Loaded(old(books.rows), old(books.nextId), content, currentYear);
        && ok == (loaded != [])
        && books.rows == old(books.rows) + loaded && books.nextId == old(books.nextId) + |loaded|
        && unchanged(authors, publishers, genres)
      ensures fileExists && FormatOf(dataPath + path) == Some(CsvFormat) && choice == "4" ==>
        var loaded := GenreCsvReader.Loaded(old(genres.rows), old(genres.nextId), content);
        && ok == (loaded != [])
        && genres.rows == old(genres.rows) + loaded && genres.nextId == old(genres.nextId) + |loaded|
        && unchanged(books, authors, publishers)
      ensures fileExists && FormatOf(dataPath + path) == Some(JsonFormat) && choice == "4" ==>
        var loaded := GenreJsonReader.Loaded(old(genres.rows), old(genres.nextId), doc);
        && ok == (loaded != [])
        && genres.rows == old(genres.rows) + loaded && genres.nextId == old(genres.nextId) + |loaded|
        && unchanged(books, authors, publishers)
      // The readers whose code is not part of this model: their table is left unspecified.
      ensures fileExists && FormatOf(dataPath + path).Some? && EntityOf(choice).Some? &&
              !(FormatOf(dataPath + path) == Some(CsvFormat) && choice == "1") && choice != "4" ==>
        && ok == (elsewhere > 0)
        && (choice == "1" ==> unchanged(authors, publishers, genres))
        && (choice == "2" ==> unchanged(books, publishers, genres))
        && (choice == "3" ==> unchanged(books, authors, genres))
    {
      var fullPath := dataPath + path;
      if !fileExists {
        return false;
      }
      var format := FormatOf(fullPath);
      if format.None? || EntityOf(choice).None? {
        return false;
      }
      if format == Some(CsvFormat) && choice == "1" {
        var data := BookCsvReader.LoadFromCsv(content, books, currentYear);
        return data != [];
      } else if format == Some(CsvFormat) && choice == "4" {
        var data := GenreCsvReader.LoadFromCsv(content, genres);
        return data != [];
      } else if format == Some(JsonFormat) && choice == "4" {
        var data := GenreJsonReader.LoadFromJson(doc, genres);
        return data != [];
      }
      return elsewhere > 0;
    }

    /**
     * `search(choice, field, value)`: the number of matching rows of the
     * selected table; 0 for an invalid code and when `find` throws because
     * a matching row no longer passes its constructor.
     */
    method Search(choice: string, field: string, value: string, clock: Clock) returns (count: int)
      requires Valid()
      ensures EntityOf(choice).None? ==> count == 0
      ensures choice == "1" ==> (count ==
        if exists i :: 0 <= i < |books.rows| && BookRepo.BookMatches(books.rows[i], field, value)
                                             && !BookRebuilds(books.rows[i], clock.currentYear)
        then 0 else |Positions(books.rows, BookRepo.Matching(field, value))|)
      ensures choice == "2" ==> (count ==
        if exists i :: 0 <= i < |authors.rows| && AuthorRepo.AuthorMatches(authors.rows[i], field, value)
                                               && !AuthorRepo.AuthorRebuilds(authors.rows[i], clock)
        then 0 else |Positions(authors.rows, AuthorRepo.Matching(field, value))|)
      ensures choice == "3" ==> (count ==
        if exists i :: 0 <= i < |publishers.rows| && PublisherRepo.PublisherMatches(publishers.rows[i], field, value)
                                                  && !PublisherRebuilds(publishers.rows[i])
        then 0 else |Positions(publishers.rows, PublisherRepo.Matching(field, value))|)
      ensures choice == "4" ==> (count ==
        if exists i :: 0 <= i < |genres.rows| && GenreRepo.GenreMatches(genres.rows[i], field, value)
                                              && !GenreRebuilds(genres.rows[i])
        then 0 else |Positions(genres.rows, GenreRepo.Matching(field, value))|)
      ensures count >= 0
    {
      var found: Option<int>;
      if choice == "1" {
        found := books.Find(field, value, clock.currentYear);
      } else if choice == "2" {
        found := authors.Find(field, value, clock);
      } else if choice == "3" {
        found := publishers.Find(field, value);
      } else if choice == "4" {
        found := genres.Find(field, value);
      } else {
        return 0;
      }
      count := CountOrZero(found);
    }

    /**
     * `addRecord(choice, record)`: builds the selected entity from the
     * record and saves it, returning the new id; -1 for an invalid code, a
     * record the entity cannot be built from, or an entity `save` finds
     * already present. Only the selected table can change.
     */
    method AddRecord(choice: string, record: map<string, string>, clock: Clock) returns (id: int)
      requires Valid()
      modifies books, authors, publishers, genres
      ensures Valid()
      ensures EntityOf(choice).None? ==> id == -1 && unchanged(books, authors, publishers, genres)
      ensures choice == "1" ==> (unchanged(authors, publishers, genres) &&
        var b := BookOfRecord(record, clock.currentYear);
        if b.None? || BookRepo.BookExists(old(books.rows), b.value)
        then id == -1 && books.rows == old(books.rows) && books.nextId == old(books.nextId)
        else id == old(books.nextId) && books.rows == old(books.rows) + [b.value.(id := id)]
             && books.nextId == id + 1)
      ensures choice == "2" ==> (unchanged(books, publishers, genres) &&
        var a := AuthorOfRecord(record, clock);
        if a.None? || AuthorRepo.AuthorExists(old(authors.rows), a.value)
        then id == -1 && authors.rows == old(authors.rows) && authors.nextId == old(authors.nextId)
        else id == old(authors.nextId) && authors.rows == old(authors.rows) + [a.value.(id := id)]
             && authors.nextId == id + 1)
      ensures choice == "3" ==> (unchanged(books, authors, genres) &&
        var p := PublisherOfRecord(record);
        if p.None? || PublisherRepo.PublisherExists(old(publishers.rows), p.value)
        then id == -1 && publishers.rows == old(publishers.rows) && publishers.nextId == old(publishers.nextId)
        else id == old(publishers.nextId) && publishers.rows == old(publishers.rows) + [p.value.(id := id)]
             && publishers.nextId == id + 1)
      ensures choice == "4" ==> (unchanged(books, authors, publishers) &&
        var g := GenreOfRecord(record);
        if g.None? || GenreRepo.GenreExists(old(genres.rows), g.value)
        then id == -1 && genres.rows == old(genres.rows) && genres.nextId == old(genres.nextId)
        else id == old(genres.nextId) && genres.rows == old(genres.rows) + [g.value.(id := id)]
             && genres.nextId == id + 1)
    {
      id := -1;
      if choice == "1" {
        var b := BookOfRecord(record, clock.currentYear);
        if b.Some? {
          var saved;
          id, saved := books.Save(b.value);
        }
      } else if choice == "2" {
        var a := AuthorOfRecord(record, clock);
        if a.Some? {
          id := authors.Save(a.value);
        }
      } else if choice == "3" {
        var p := PublisherOfRecord(record);
        if p.Some? {
          var saved;
          id, saved := publishers.Save(p.value);
        }
      } else if choice == "4" {
        var g := GenreOfRecord(record);
        if g.Some? {
          var saved;
          id, saved := genres.Save(g.value);
        }
      }
    }

    /**
     * `updateRecord(choice, field, new_val, id)`: the selected repository's
     * `update`, whose result is passed on; false for an invalid code. Only
     * the selected table can change.
     */
    method UpdateRecord(choice: string, field: string, newVal: string, id: int) returns (ok: bool)
      requires Valid()
      modifies books, authors, publishers, genres
      ensures Valid()
      ensures EntityOf(choice).None? ==> !ok && unchanged(books, authors, publishers, genres)
      ensures choice == "1" ==> (unchanged(authors, publishers, genres) && books.nextId == old(books.nextId)
        && (ok <==> BookRepo.HasId(old(books.rows), id) && BookRepo.Assignable(field, newVal))
        && (!ok ==> books.rows == old(books.rows))
        && (ok ==> |books.rows| == |old(books.rows)| && forall i :: 0 <= i < |books.rows| ==>
              books.rows[i] == if old(books.rows)[i].id == id
                               then BookRepo.AssignBook(old(books.rows)[i], field, newVal).value else old(books.rows)[i]))
      ensures choice == "2" ==> (unchanged(books, publishers, genres) && authors.nextId == old(authors.nextId)
        && (ok <==> AuthorRepo.HasId(old(authors.rows), id) && AuthorRepo.Assignable(field))
        && (!ok ==> authors.rows == old(authors.rows))
        && (ok ==> |authors.rows| == |old(authors.rows)| && forall i :: 0 <= i < |authors.rows| ==>
              authors.rows[i] == if old(authors.rows)[i].id == id
                                 then AuthorRepo.AssignAuthor(old(authors.rows)[i], field, newVal).value else old(authors.rows)[i]))
      ensures choice == "3" ==> (unchanged(books, authors, genres) && publishers.nextId == old(publishers.nextId)
        && (ok <==> PublisherRepo.HasId(old(publishers.rows), id) && PublisherRepo.Assignable(field))
        && (!ok ==> publishers.rows == old(publishers.rows))
        && (ok ==> |publishers.rows| == |old(publishers.rows)| && forall i :: 0 <= i < |publishers.rows| ==>
              publishers.rows[i] == if old(publishers.rows)[i].id == id
                                    then PublisherRepo.AssignPublisher(old(publishers.rows)[i], field, newVal).value
                                    else old(publishers.rows)[i]))
      ensures choice == "4" ==> (unchanged(books, authors, publishers) && genres.nextId == old(genres.nextId)
        && (ok <==> GenreRepo.HasId(old(genres.rows), id) && GenreRepo.Assignable(field))
        && (!ok ==> genres.rows == old(genres.rows))
        && (ok ==> |genres.rows| == |old(genres.rows)| && forall i :: 0 <= i < |genres.rows| ==>
              genres.rows[i] == if old(genres.rows)[i].id == id
                                then GenreRepo.AssignGenre(old(genres.rows)[i], field, newVal).value else old(genres.rows)[i]))
    {
      ok := false;
      if choice == "1" {
        ok := books.Update(field, id, newVal);
      } else if choice == "2" {
        ok := authors.Update(field, id, newVal);
      } else if choice == "3" {
        ok := publishers.Update(field, id, newVal);
      } else if choice == "4" {
        ok := genres.Update(field, id, newVal);
      }
    }

    /**
     * `deleteRecord(choice, field, value)`: the selected repository's `del`,
     * whose result is passed on; false for an invalid code. Only the
     * selected table can change.
     */
    method DeleteRecord(choice: string, field: string, value: string) returns (ok: bool)
      requires Valid()
      modifies books, authors, publishers, genres
      ensures Valid()
      ensures EntityOf(choice).None? ==> !ok && unchanged(books, authors, publishers, genres)
      ensures choice == "1" ==> (unchanged(authors, publishers, genres) && books.nextId == old(books.nextId)
        && (ok <==> exists i :: 0 <= i < |old(books.rows)| && BookRepo.BookMatches(old(books.rows)[i], field, value))
        && books.rows == Where(old(books.rows), BookRepo.Keeping(field, value)))
      ensures choice == "2" ==> (unchanged(books, publishers, genres) && authors.nextId == old(authors.nextId)
        && (ok <==> exists i :: 0 <= i < |old(authors.rows)| && AuthorRepo.AuthorMatches(old(authors.rows)[i], field, value))
        && authors.rows == Where(old(authors.rows), AuthorRepo.Keeping(field, value)))
      ensures choice == "3" ==> (unchanged(books, authors, genres) && publishers.nextId == old(publishers.nextId)
        && (ok <==> exists i :: 0 <= i < |old(publishers.rows)|
                               && PublisherRepo.PublisherMatches(old(publishers.rows)[i], field, value))
        && publishers.rows == Where(old(publishers.rows), PublisherRepo.Keeping(field, value)))
      ensures choice == "4" ==> (unchanged(books, authors, publishers) && genres.nextId == old(genres.nextId)
        && (ok <==> exists i :: 0 <= i < |old(genres.rows)| && GenreRepo.GenreMatches(old(genres.rows)[i], field, value))
        && genres.rows == Where(old(genres.rows), GenreRepo.Keeping(field, value)))
    {
      ok := false;
      if choice == "1" {
        ok := books.Del(field, value);
      } else if choice == "2" {
        ok := authors.Del(field, value);
      } else if choice == "3" {
        ok := publishers.Del(field, value);
      } else if choice == "4" {
        ok := genres.Del(field, value);
      }
    }

    /**
     * `join(choice)`: runs the join statement the code selects and shows
     * its rows. An invalid code shows nothing, and so does a statement that
     * throws (the exception is caught); `run` stands for the database.
     */
    method Join(choice: string, run: Joiner.JoinKind -> Result<seq<seq<Option<string>>>, string>)
      returns (shown: Option<Joiner.Shown>)
      ensures shown.Some? <==> JoinTitle(choice).Some? && run(Joiner.KindOf(JoinTitle(choice).value)).Success?
      ensures shown.Some? ==>
        var kind := Joiner.KindOf(JoinTitle(choice).value);
        shown.value.headers == Joiner.Headers(kind) && |shown.value.data| == |run(kind).value|
      ensures choice == "1" && shown.Some? ==> shown.value.headers == Joiner.Headers(Joiner.AuthorJoin)
      ensures choice == "2" && shown.Some? ==> shown.value.headers == Joiner.Headers(Joiner.PublisherJoin)
      ensures choice == "3" && shown.Some? ==> shown.value.headers == Joiner.Headers(Joiner.GenreJoin)
    {
      var title := JoinTitle(choice);
      if title.None? {
        return None;
      }
      var r := Joiner.Join(title.value, run);
      if r.Failure? {
        return None;
      }
      return Some(r.value.1);
    }
  }
}
