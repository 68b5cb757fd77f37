/**
 * `GenreRepository` (databases/genre_repository.cpp): the `genre` table as
 * a sequence of rows in rowid order plus the AUTOINCREMENT counter. Every
 * column but `id` is TEXT.
 */
module GenreRepo {
  import opened Wrappers
  import opened Imports
  import opened Numbers
  import opened Table
  import opened Csv
  import opened Json
  import opened GenreModel

  /** The columns of `CREATE TABLE genre`. */
  const GenreColumns: set<string> := {"id", "title", "description"}

  /** The value of column `field` in a row; `None` for a name that is not a column. */
  function GenreColumn(g: Genre, field: string): (k: Option<Key>)
    ensures k.Some? <==> field in GenreColumns
    ensures k.Some? && field != "id" ==> k.value.TextKey?
  {
    if field == "id" then Some(IntKey(g.id))
    else if field == "title" then Some(TextKey(g.title))
    else if field == "description" then Some(TextKey(g.description))
    else None
  }

  /** `WHERE field = ?` with `value` bound as text. */
  predicate GenreMatches(g: Genre, field: string, value: string) {
    GenreColumn(g, field).Some? && KeyMatches(GenreColumn(g, field).value, value)
  }

  function GenreId(g: Genre): int {
    g.id
  }

  function Matching(field: string, value: string): Genre -> bool {
    (g: Genre) => GenreMatches(g, field, value)
  }

  function Keeping(field: string, value: string): Genre -> bool {
    (g: Genre) => !GenreMatches(g, field, value)
  }

  function OrderKey(field: string): Genre -> Key {
    (g: Genre) => GenreColumn(g, field).GetOr(IntKey(0))
  }

  /** The duplicate test of `genreExists`: the title alone. */
  predicate GenreExists(rows: seq<Genre>, g: Genre) {
    exists i :: 0 <= i < |rows| && rows[i].title == g.title
  }

  predicate HasId(rows: seq<Genre>, id: int) {
    exists i :: 0 <= i < |rows| && rows[i].id == id
  }

  /** The columns `UPDATE genre SET field = ?` can take a text into: every TEXT column. */
  predicate Assignable(field: string) {
    field in GenreColumns && field != "id"
  }

  /** The row after `SET field = newVal`: the named column takes the value and no other column changes. */
  function AssignGenre(g: Genre, field: string, newVal: string): (r: Option<Genre>)
    ensures r.Some? <==> Assignable(field)
    ensures r.Some? ==> r.value.id == g.id && GenreMatches(r.value, field, newVal)
    ensures r.Some? ==> forall f :: f != field ==> GenreColumn(r.value, f) == GenreColumn(g, f)
  {
    if field == "title" then Some(g.(title := newVal))
    else if field == "description" then Some(g.(description := newVal))
    else None
  }

  /** The header line of the CSV export. */
  const GenreCsvNames: seq<string> := ["ID", "title", "description"]
  const GenreCsvHeader: string := JoinComma(GenreCsvNames)

  /** The cells of one exported row; every text field goes through `escape`. */
  function GenreCsvCells(g: Genre): seq<string> {
    [IntToString(g.id), Escape(g.title), Escape(g.description)]
  }

  function GenreCsvLine(g: Genre): string {
    JoinComma(GenreCsvCells(g))
  }

  function GenreJson(g: Genre): Json {
    JObject(map["ID" := JNumber(g.id), "title" := JString(g.title), "description" := JString(g.description)])
  }

  function GenreCsvText(rows: seq<Genre>): string {
    BOM + Unlines([GenreCsvHeader] + seq(|rows|, i requires 0 <= i < |rows| => GenreCsvLine(rows[i])))
  }

  function GenreJsonDoc(rows: seq<Genre>): Json {
    JArray(seq(|rows|, i requires 0 <= i < |rows| => GenreJson(rows[i])))
  }

  /** An exported row is read back by `splitCSVLine` as its three values, the texts trimmed. */
  lemma GenreCsvLineReadsBack(g: Genre)
    requires '"' !in g.title && '"' !in g.description
    ensures var f := SplitFields(GenreCsvLine(g));
      |f| == 3 && f[0] == IntToString(g.id) && f[1] == Trim(g.title) && f[2] == Trim(g.description)
  {
    IntCell(g.id);
    var values := [IntToString(g.id), g.title, g.description];
    assert GenreCsvCells(g) == EscapeAll(values);
    SplitEscaped(values);
    var f := SplitFields(GenreCsvLine(g));
    assert f[0] == Trim(values[0]);
    assert f[1] == Trim(values[1]);
    assert f[2] == Trim(values[2]);
  }

  /** `g` stored under `id`; a run of saves (`Imports.SaveMany`) refuses with `GenreExists`. */
  function WithGenreId(g: Genre, id: int): Genre {
    g.(id := id)
  }

  /** A single `save`: the genre under the next id, unless its title is taken. */
  lemma SaveOne(rows: seq<Genre>, nextId: int, c: Genre)
    ensures SaveMany(rows, nextId, [c], GenreExists, WithGenreId)
         == if GenreExists(rows, c) then [] else [c.(id := nextId)]
  {
    SaveManyStep(rows, nextId, [], c, GenreExists, WithGenreId);
    assert [] + [c] == [c];
    assert rows + [] == rows;
  }

  /** `if (repo.save(genre) != -1) genres.push_back(genre)`: one more save of a run of imports. */
  method SaveAndKeep(genre: Genre, repo: GenreRepository, genres: seq<Genre>, ghost rows0: seq<Genre>, ghost next0: int, ghost cands: seq<Genre>)
    returns (genres': seq<Genre>)
    requires repo.Valid()
    requires genres == SaveMany(rows0, next0, cands, GenreExists, WithGenreId)
    requires repo.rows == rows0 + genres && repo.nextId == next0 + |genres|
    modifies repo
    ensures repo.Valid()
    ensures genres' == SaveMany(rows0, next0, cands + [genre], GenreExists, WithGenreId)
    ensures repo.rows == rows0 + genres' && repo.nextId == next0 + |genres'|
  {
    SaveManyStep(rows0, next0, cands, genre, GenreExists, WithGenreId);
    var id, saved := repo.Save(genre);
    genres' := genres;
    if id != -1 {
      genres' := genres + [saved];
    }
  }

  class GenreRepository {
    /** The rows of `genre` in rowid order. */
    var rows: seq<Genre>
    /** The id the next INSERT receives (AUTOINCREMENT never reuses an id). */
    var nextId: int

    predicate Valid()
      reads this
    {
      && nextId >= 1
      && IdsIncreasing(rows, GenreId)
      && forall i :: 0 <= i < |rows| ==> 1 <= rows[i].id < nextId
    }

    /** A new, empty table. */
    constructor()
      ensures Valid() && rows == [] && nextId == 1
    {
      rows := [];
      nextId := 1;
    }

    /**
     * `save(Genre&)`: -1 and no change when a genre of that title exists;
     * otherwise one row is appended under a fresh id, which is returned and
     * written into the caller's genre (`saved`).
     */
    method Save(genre: Genre) returns (id: int, saved: Genre)
      requires Valid()
      modifies this
      ensures Valid()
      ensures GenreExists(old(rows), genre) ==>
        id == -1 && saved == genre && rows == old(rows) && nextId == old(nextId)
      ensures !GenreExists(old(rows), genre) ==>
        && id == old(nextId) && saved == genre.(id := id)
        && rows == old(rows) + [saved] && nextId == old(nextId) + 1
    {
      if GenreExists(rows, genre) {
        return -1, genre;
      }
      id := nextId;
      saved := genre.(id := id);
      rows := rows + [saved];
      nextId := nextId + 1;
    }

    /**
     * `update(field, id, new_val)`: false and no change when no row has `id`
     * or `field` is not a TEXT column; otherwise that one row gets the new
     * value and everything else stays.
     */
    method Update(field: string, id: int, newVal: string) returns (ok: bool)
      requires Valid()
      modifies this
      ensures Valid()
      ensures nextId == old(nextId)
      ensures ok <==> HasId(old(rows), id) && Assignable(field)
      ensures !ok ==> rows == old(rows)
      ensures ok ==>
        && |rows| == |old(rows)|
        && forall i :: 0 <= i < |rows| ==>
             rows[i] == (if old(rows)[i].id == id then AssignGenre(old(rows)[i], field, newVal).value else old(rows)[i])
    {
      if !HasId(rows, id) || !Assignable(field) {
        return false;
      }
      var before := rows;
      rows := seq(|before|, i requires 0 <= i < |before| =>
        if before[i].id == id then AssignGenre(before[i], field, newVal).value else before[i]);
      assert forall i :: 0 <= i < |rows| ==> rows[i].id == before[i].id;
      ok := true;
    }

    /** `del(field, value)`: false when nothing matches; otherwise every matching row goes and the rest stay in order. */
    method Del(field: string, value: string) returns (ok: bool)
      requires Valid()
      modifies this
      ensures Valid()
      ensures nextId == old(nextId)
      ensures ok <==> exists i :: 0 <= i < |old(rows)| && GenreMatches(old(rows)[i], field, value)
      ensures rows == Where(old(rows), Keeping(field, value))
    {
      if !exists i :: 0 <= i < |rows| && GenreMatches(rows[i], field, value) {
        WhereAll(rows, Keeping(field, value));
        return false;
      }
      WhereKeepsOrder(rows, Keeping(field, value), GenreId);
      rows := Where(rows, Keeping(field, value));
      ok := true;
    }

    /**
     * `find(field, value)`: the number of rows with `field = value`. A
     * matching row the constructor refuses throws out of `find` (`None`).
     */
    method Find(field: string, value: string) returns (r: Option<int>)
      requires Valid()
      ensures r.None? <==>
        exists i :: 0 <= i < |rows| && GenreMatches(rows[i], field, value) && !GenreRebuilds(rows[i])
      ensures r.Some? ==> r.value == |Positions(rows, Matching(field, value))|
    {
      var found := Where(rows, Matching(field, value));
      var genres := Rebuild(found, GenreRebuilds);
      if genres.None? {
        return None;
      }
      WhereCount(rows, Matching(field, value));
      return Some(|genres.value|);
    }

    /**
     * `filter(field, direction)`: the rows shown, ordered by the column,
     * ascending for "up" and descending for "down". Any other direction, an
     * unknown column or a row the constructor refuses shows nothing (`None`).
     */
    method Filter(field: string, direction: string) returns (r: Option<seq<Genre>>)
      requires Valid()
      ensures r.Some? <==>
        && (direction == "up" || direction == "down") && field in GenreColumns
        && forall i :: 0 <= i < |rows| ==> GenreRebuilds(rows[i])
      ensures r.Some? ==> r.value == SortBy(rows, OrderKey(field), direction == "down")
      ensures r.Some? ==> SortedBy(r.value, OrderKey(field), direction == "down") && multiset(r.value) == multiset(rows)
    {
      if direction != "up" && direction != "down" {
        return None;
      }
      if field !in GenreColumns {
        return None;
      }
      var sorted := SortBy(rows, OrderKey(field), direction == "down");
      SortByCorrect(rows, OrderKey(field), direction == "down");
      AllOfPermutation(rows, sorted, GenreRebuilds);
      r := Rebuild(sorted, GenreRebuilds);
    }

    /**
     * `exportData(format)`: the CSV text or JSON document written; nothing
     * (`None`) for another format or when a row fails to rebuild.
     */
    method ExportData(format: string) returns (r: Option<Exported>)
      requires Valid()
      ensures r.Some? <==>
        (format == "csv" || format == "json") && forall i :: 0 <= i < |rows| ==> GenreRebuilds(rows[i])
      ensures r.Some? && format == "csv" ==> r.value == CsvFile(GenreCsvText(rows))
      ensures r.Some? && format == "json" ==> r.value == JsonFile(GenreJsonDoc(rows))
    {
      var genres := Rebuild(rows, GenreRebuilds);
      if genres.None? {
        return None;
      }
      var all := genres.value;
      if format == "csv" {
        var lines := [GenreCsvHeader];
        var i := 0;
        while i < |all|
          invariant 0 <= i <= |all|
          invariant lines == [GenreCsvHeader] + seq(i, k requires 0 <= k < i => GenreCsvLine(all[k]))
        {
          lines := lines + [GenreCsvLine(all[i])];
          i := i + 1;
        }
        return Some(CsvFile(BOM + Unlines(lines)));
      } else if format == "json" {
        var items: seq<Json> := [];
        var i := 0;
        while i < |all|
          invariant 0 <= i <= |all|
          invariant items == seq(i, k requires 0 <= k < i => GenreJson(all[k]))
        {
          items := items + [GenreJson(all[i])];
          i := i + 1;
        }
        return Some(JsonFile(JArray(items)));
      }
      return None;
    }
  }
}
