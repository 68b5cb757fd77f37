/**
 * `CSVGenreReader::loadFromCSV` (import/genre_csv_parser.cpp): reads a
 * CSV file of genres line by line and saves every acceptable row into the
 * genre table, returning the genres saved.
 */
module GenreCsvReader {
  import opened Wrappers
  import opened Csv
  import opened Imports
  import opened GenreModel
  import opened GenreRepo

  /** The header names the reader insists on before it reads any row. */
  const RequiredHeaders: set<string> := {"Name", "Description"}

  /**
   * The genre a `row` map describes: the trimmed "Name" and "Description"
   * values; `None` when the constructor refuses the (trimmed) name.
   */
  function GenreOfRow(row: map<string, string>): (r: Option<Genre>)
    ensures r.Some? <==> Trim(Lookup(row, "Name")) != ""
    ensures r.Some? ==> r.value == Genre(-1, Trim(Lookup(row, "Name")), Trim(Lookup(row, "Description")))
  {
    NewGenre(Trim(Lookup(row, "Name")), Trim(Lookup(row, "Description"))).ToOption()
  }

  /** The genre a data line yields, if it is neither skipped nor refused. */
  function GenreOfLine(headers: seq<string>, line: string): Option<Genre> {
    match RowOf(headers, line)
    case None => None
    case Some(row) => GenreOfRow(row)
  }

  /** `GenreOfLine` as the line reader of `Collect`. */
  function LineReader(headers: seq<string>): string -> Option<Genre> {
    (line: string) => GenreOfLine(headers, line)
  }

  /** The genres the data lines yield, in file order, before any is saved. */
  function Candidates(headers: seq<string>, lines: seq<string>): seq<Genre> {
    Collect(lines, LineReader(headers))
  }

  /**
   * The genres `loadFromCSV` returns for a file (`None`: it cannot be
   * opened) and a table with `rows` and counter `nextId`: nothing without a
   * header line or with "Name" or "Description" missing from it; otherwise
   * the candidates that `save` accepts, one after the other.
   */
  function Loaded(rows: seq<Genre>, nextId: int, content: Option<string>): seq<Genre> {
    if content.None? then []
    else
      var lines := FileLines(content.value);
      if lines == [] then []
      else
        var headers := SplitFields(lines[0]);
        if !(RequiredHeaders <= HeaderSet(headers)) then []
        else SaveMany(rows, nextId, Candidates(headers, lines[1..]), GenreExists, WithGenreId)
  }

  /**
   * The reader. Every returned genre is also appended to the table, and
   * the table changes in no other way.
   */
  method LoadFromCsv(content: Option<string>, repo: GenreRepository) returns (genres: seq<Genre>)
    requires repo.Valid()
    modifies repo
    ensures repo.Valid()
    ensures genres == Loaded(old(repo.rows), old(repo.nextId), content)
    ensures repo.rows == old(repo.rows) + genres && repo.nextId == old(repo.nextId) + |genres|
  {
    genres := [];
    if content.None? {
      return;
    }
    var lines := FileLines(content.value);
    if lines == [] {
      return;
    }
    var headers := SplitCsvLine(lines[0]);
    if !(RequiredHeaders <= HeaderSet(headers)) {
      return;
    }
    genres := SaveLines(headers, lines[1..], LineReader(headers), repo);
  }

  /** `reader` yields for each line the genre `GenreOfLine` gives it. */
  ghost predicate ReadsGenres(reader: string -> Option<Genre>, headers: seq<string>) {
    forall line {:trigger GenreOfLine(headers, line)} :: reader(line) == GenreOfLine(headers, line)
  }

  /** One data line through `splitCSVLine`, the row map and the `Genre` constructor. */
  method ReadGenre(headers: seq<string>, line: string, ghost reader: string -> Option<Genre>) returns (genre: Option<Genre>)
    requires ReadsGenres(reader, headers)
    ensures genre == reader(line)
  {
    var row := ReadRow(headers, line);
    genre := None;
    if row.Some? {
      genre := GenreOfRow(row.value);
    }
    assert genre == GenreOfLine(headers, line);
  }

  /** The loop over the data lines: each genre a line yields is offered to `save`, and kept when saved. */
  method SaveLines(headers: seq<string>, data: seq<string>, ghost reader: string -> Option<Genre>, repo: GenreRepository)
    returns (genres: seq<Genre>)
    requires ReadsGenres(reader, headers)
    requires repo.Valid()
    modifies repo
    ensures repo.Valid()
    ensures genres == SaveMany(old(repo.rows), old(repo.nextId), Collect(data, reader), GenreExists, WithGenreId)
    ensures repo.rows == old(repo.rows) + genres && repo.nextId == old(repo.nextId) + |genres|
  {
    genres := [];
    ghost var rows0, next0 := repo.rows, repo.nextId;
    var i := 0;
    while i < |data|
      invariant 0 <= i <= |data|
      invariant repo.Valid()
      invariant genres == SaveMany(rows0, next0, Collect(data[..i], reader), GenreExists, WithGenreId)
      invariant repo.rows == rows0 + genres && repo.nextId == next0 + |genres|
    {
      genres := SaveLine(headers, data, i, reader, repo, genres, rows0, next0);
      i := i + 1;
    }
    assert data[..i] == data;
  }

  /** Line `i` of the loop: the genre it yields, if any, is offered to `save` and kept when saved. */
  method SaveLine(headers: seq<string>, data: seq<string>, i: nat, ghost reader: string -> Option<Genre>,
                  repo: GenreRepository, genres: seq<Genre>, ghost rows0: seq<Genre>, ghost next0: int)
    returns (genres': seq<Genre>)
    requires i < |data|
    requires ReadsGenres(reader, headers)
    requires repo.Valid()
    requires genres == SaveMany(rows0, next0, Collect(data[..i], reader), GenreExists, WithGenreId)
    requires repo.rows == rows0 + genres && repo.nextId == next0 + |genres|
    modifies repo
    ensures repo.Valid()
    ensures genres' == SaveMany(rows0, next0, Collect(data[..i + 1], reader), GenreExists, WithGenreId)
    ensures repo.rows == rows0 + genres' && repo.nextId == next0 + |genres'|
  {
    var genre := ReadGenre(headers, data[i], reader);
    ghost var cands := Collect(data[..i], reader);
    CollectStep(data, i, reader);
    genres' := genres;
    if genre.Some? {
      genres' := SaveAndKeep(genre.value, repo, genres, rows0, next0, cands);
      assert Collect(data[..i + 1], reader) == cands + [genre.value];
    } else {
      assert Collect(data[..i + 1], reader) == cands + [];
      assert cands + [] == cands;
    }
  }

  /** The result is at most one genre per data line. */
  lemma LoadedFacts(rows: seq<Genre>, nextId: int, content: Option<string>)
    ensures var genres := Loaded(rows, nextId, content);
      genres != [] ==> content.Some? && |genres| < |FileLines(content.value)|
  {
  }

  /**
   * Under a header line naming "Name" and "Description", the result follows
   * line order: every candidate whose title is not already in the table or
   * saved before it is saved, under the next free id, and every other one
   * is refused.
   */
  lemma LoadedInOrder(rows: seq<Genre>, nextId: int, content: Option<string>)
    ensures content.Some? && FileLines(content.value) != []
            && RequiredHeaders <= HeaderSet(SplitFields(FileLines(content.value)[0])) ==>
      var lines := FileLines(content.value);
      var cands := Candidates(SplitFields(lines[0]), lines[1..]);
      SavedInOrder(rows, nextId, cands, Loaded(rows, nextId, content), GenreExists, WithGenreId,
                   SavedIndices(rows, nextId, cands, GenreExists, WithGenreId))
  {
    if content.Some? && FileLines(content.value) != [] {
      var lines := FileLines(content.value);
      SaveManyFacts(rows, nextId, Candidates(SplitFields(lines[0]), lines[1..]), GenreExists, WithGenreId);
    }
  }

  /**
   * The columns may come in any order and be mixed with others: a line
   * takes its name and description from the fields under the last "Name"
   * and the last "Description" header.
   */
  lemma FieldsByHeaderName(headers: seq<string>, line: string, j: nat, k: nat)
    requires RowOf(headers, line).Some?
    requires j < |headers| && headers[j] == "Name" && forall j' :: j < j' < |headers| ==> headers[j'] != "Name"
    requires k < |headers| && headers[k] == "Description" && forall k' :: k < k' < |headers| ==> headers[k'] != "Description"
    ensures var f := SplitFields(line);
      GenreOfLine(headers, line) == if Trim(f[j]) == "" then None else Some(Genre(-1, Trim(f[j]), Trim(f[k])))
  {
    var f := SplitFields(line);
    RowMapLast(headers, f, "Name", j);
    RowMapLast(headers, f, "Description", k);
    var row := RowMap(headers, f);
    assert RowOf(headers, line) == Some(row);
    assert Lookup(row, "Name") == f[j] && Lookup(row, "Description") == f[k];
  }

  /**
   * A file of a header line "Name,Description" and one row of plain values
   * imports that one genre, under the next id, unless its title is taken.
   */
  lemma OneRowFileLoads(rows: seq<Genre>, nextId: int, names: seq<string>, name: string, description: string)
    requires names == ["Name", "Description"]
    requires PlainName(name) && PlainName(description)
    ensures var content := BOM + Unlines([JoinComma(names), JoinComma([name, description])]);
      Loaded(rows, nextId, Some(content))
        == if GenreExists(rows, Genre(-1, name, description)) then [] else [Genre(nextId, name, description)]
  {
    var content := BOM + Unlines([JoinComma(names), JoinComma([name, description])]);
    OneRowFileLines(names, name, description);
    var lines := FileLines(content);
    assert lines[1..] == [JoinComma([name, description])];
    assert Loaded(rows, nextId, Some(content)) == SaveMany(rows, nextId, Candidates(names, lines[1..]), GenreExists, WithGenreId);
    var g := OneRowCandidate(names, name, description);
    SaveOne(rows, nextId, g);
  }

  /** Such a file is read as its header line, naming both required columns, and its row. */
  lemma OneRowFileLines(names: seq<string>, name: string, description: string)
    requires names == ["Name", "Description"]
    requires PlainName(name) && PlainName(description)
    ensures var lines := FileLines(BOM + Unlines([JoinComma(names), JoinComma([name, description])]));
      && lines == [JoinComma(names), JoinComma([name, description])]
      && SplitFields(lines[0]) == names && RequiredHeaders <= HeaderSet(names)
  {
    ImportHeader(names);
    HeaderAndRowReadBack(names, [name, description]);
  }

  lemma ImportHeader(names: seq<string>)
    requires names == ["Name", "Description"]
    ensures PlainName(names[0]) && PlainName(names[1]) && RequiredHeaders <= HeaderSet(names)
  {
  }

  /** The one row of such a file yields its genre. */
  lemma OneRowCandidate(names: seq<string>, name: string, description: string) returns (g: Genre)
    requires names == ["Name", "Description"]
    requires PlainName(name) && PlainName(description)
    ensures g == Genre(-1, name, description)
    ensures Candidates(names, [JoinComma([name, description])]) == [g]
  {
    g := Genre(-1, name, description);
    var line := JoinComma([name, description]);
    OneRowGenre(names, name, description);
    CollectStep([line], 0, LineReader(names));
    assert [line][..1] == [line] && [line][..0] == [];
  }

  /** The one row of such a file, through `splitCSVLine`, the row map and the constructor. */
  lemma OneRowGenre(names: seq<string>, name: string, description: string)
    requires names == ["Name", "Description"]
    requires PlainName(name) && PlainName(description)
    ensures GenreOfLine(names, JoinComma([name, description])) == Some(Genre(-1, name, description))
  {
    var line := JoinComma([name, description]);
    PlainHeaderReadsBack([name, description]);
    RowMapPair(names[0], names[1], name, description);
    var row := map["Name" := name]["Description" := description];
    assert RowOf(names, line) == Some(row);
    assert Lookup(row, "Name") == name && Lookup(row, "Description") == description;
    TrimPlain(name);
    TrimPlain(description);
  }

  /**
   * A file written by the genre CSV export cannot be read back: its header
   * line "ID,title,description" lacks "Name".
   */
  lemma ExportedCsvLoadsNothing(rows: seq<Genre>, nextId: int, exported: seq<Genre>)
    ensures Loaded(rows, nextId, Some(GenreCsvText(exported))) == []
  {
    var text := GenreCsvText(exported);
    var body := seq(|exported|, i requires 0 <= i < |exported| => GenreCsvLine(exported[i]));
    assert text == BOM + Unlines([GenreCsvHeader] + body);
    assert text[..3] == BOM;
    assert SkipBom(text) == Unlines([GenreCsvHeader] + body);
    HeaderFields();
    LinesCons(GenreCsvHeader, Unlines(body));
    assert FileLines(text)[0] == GenreCsvHeader;
  }

  /** The exported header is one line, and "Name" is not among its fields. */
  lemma HeaderFields()
    ensures '\n' !in GenreCsvHeader && "Name" !in SplitFields(GenreCsvHeader)
  {
    ExportedNames(GenreCsvNames);
    PlainHeaderLacks(GenreCsvNames, "Name");
  }

  lemma ExportedNames(names: seq<string>)
    requires names == GenreCsvNames
    ensures forall k :: 0 <= k < |names| ==> PlainName(names[k]) && names[k] != "Name"
  {
    assert PlainName(names[0]) && PlainName(names[1]) && PlainName(names[2]);
    forall k | 0 <= k < |names| ensures names[k] != "Name" {
      assert names[k][0] != "Name"[0];
    }
  }
}
