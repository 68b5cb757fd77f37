/**
 * `AuthorRepository` (databases/author_repository.cpp): the `author` table
 * as a sequence of rows in rowid order plus the AUTOINCREMENT counter.
 * Every column but `id` is TEXT.
 */
module AuthorRepo {
  import opened Wrappers
  import opened Numbers
  import opened Table
  import opened Csv
  import opened Json
  import opened Clock
  import opened AuthorModel

  /** The columns of `CREATE TABLE author`. */
  const AuthorColumns: set<string> := {"id", "full_name", "date_of_birth", "date_of_death", "biography"}

  /** The value of column `field` in a row; `None` for a name that is not a column. */
  function AuthorColumn(a: Author, field: string): (k: Option<Key>)
    ensures k.Some? <==> field in AuthorColumns
    ensures k.Some? && field != "id" ==> k.value.TextKey?
  {
    if field == "id" then Some(IntKey(a.id))
    else if field == "full_name" then Some(TextKey(a.fullName))
    else if field == "date_of_birth" then Some(TextKey(a.dateOfBirth))
    else if field == "date_of_death" then Some(TextKey(a.dateOfDeath))
    else if field == "biography" then Some(TextKey(a.biography))
    else None
  }

  /** `WHERE field = ?` with `value` bound as text. */
  predicate AuthorMatches(a: Author, field: string, value: string) {
    AuthorColumn(a, field).Some? && KeyMatches(AuthorColumn(a, field).value, value)
  }

  function AuthorId(a: Author): int {
    a.id
  }

  function Matching(field: string, value: string): Author -> bool {
    (a: Author) => AuthorMatches(a, field, value)
  }

  function Keeping(field: string, value: string): Author -> bool {
    (a: Author) => !AuthorMatches(a, field, value)
  }

  /** Rebuilding a stored row through the validating constructor. */
  predicate AuthorRebuilds(a: Author, clock: Clock) {
    NewAuthor(a.fullName, a.dateOfBirth, a.dateOfDeath, a.biography, clock, a.id).Success?
  }

  function Rebuilder(clock: Clock): Author -> bool {
    (a: Author) => AuthorRebuilds(a, clock)
  }

  function OrderKey(field: string): Author -> Key {
    (a: Author) => AuthorColumn(a, field).GetOr(IntKey(0))
  }

  /** The duplicate test of `authorExists`: the full name alone. */
  predicate AuthorExists(rows: seq<Author>, a: Author) {
    exists i :: 0 <= i < |rows| && rows[i].fullName == a.fullName
  }

  predicate HasId(rows: seq<Author>, id: int) {
    exists i :: 0 <= i < |rows| && rows[i].id == id
  }

  /** The columns `UPDATE author SET field = ?` can take a text into: every TEXT column. */
  predicate Assignable(field: string) {
    field in AuthorColumns && field != "id"
  }

  /** The row after `SET field = newVal`: the named column takes the value and no other column changes. */
  function AssignAuthor(a: Author, field: string, newVal: string): (r: Option<Author>)
    ensures r.Some? <==> Assignable(field)
    ensures r.Some? ==> r.value.id == a.id && AuthorMatches(r.value, field, newVal)
    ensures r.Some? ==> forall f :: f != field ==> AuthorColumn(r.value, f) == AuthorColumn(a, f)
  {
    if field == "full_name" then Some(a.(fullName := newVal))
    else if field == "date_of_birth" then Some(a.(dateOfBirth := newVal))
    else if field == "date_of_death" then Some(a.(dateOfDeath := newVal))
    else if field == "biography" then Some(a.(biography := newVal))
    else None
  }

  /** The header line of the CSV export. */
  const AuthorCsvNames: seq<string> := ["id", "full_name", "date_of_birth", "date_of_death", "biography"]
  const AuthorCsvHeader: string := JoinComma(AuthorCsvNames)

  /** The cells of one exported row; every text field goes through `escape`. */
  function AuthorCsvCells(a: Author): seq<string> {
    [IntToString(a.id), Escape(a.fullName), Escape(a.dateOfBirth), Escape(a.dateOfDeath), Escape(a.biography)]
  }

  function AuthorCsvLine(a: Author): string {
    JoinComma(AuthorCsvCells(a))
  }

  function AuthorJson(a: Author): Json {
    JObject(map["id" := JNumber(a.id), "full_name" := JString(a.fullName),
                "date_of_birth" := JString(a.dateOfBirth), "date_of_death" := JString(a.dateOfDeath),
                "biography" := JString(a.biography)])
  }

  function AuthorCsvText(rows: seq<Author>): string {
    BOM + Unlines([AuthorCsvHeader] + seq(|rows|, i requires 0 <= i < |rows| => AuthorCsvLine(rows[i])))
  }

  function AuthorJsonDoc(rows: seq<Author>): Json {
    JArray(seq(|rows|, i requires 0 <= i < |rows| => AuthorJson(rows[i])))
  }

  /** An exported row is read back by `splitCSVLine` as its five values, the texts trimmed. */
  lemma AuthorCsvLineReadsBack(a: Author)
    requires '"' !in a.fullName && '"' !in a.dateOfBirth && '"' !in a.dateOfDeath && '"' !in a.biography
    ensures var f := SplitFields(AuthorCsvLine(a));
      && |f| == 5
      && f[0] == IntToString(a.id) && f[1] == Trim(a.fullName) && f[2] == Trim(a.dateOfBirth)
      && f[3] == Trim(a.dateOfDeath) && f[4] == Trim(a.biography)
  {
    IntCell(a.id);
    var values := [IntToString(a.id), a.fullName, a.dateOfBirth, a.dateOfDeath, a.biography];
    assert AuthorCsvCells(a) == EscapeAll(values);
    SplitEscaped(values);
    var f := SplitFields(AuthorCsvLine(a));
    assert f[0] == Trim(values[0]);
    assert f[1] == Trim(values[1]);
    assert f[2] == Trim(values[2]);
    assert f[3] == Trim(values[3]);
    assert f[4] == Trim(values[4]);
  }

  class AuthorRepository {
    /** The rows of `author` in rowid order. */
    var rows: seq<Author>
    /** The id the next INSERT receives (AUTOINCREMENT never reuses an id). */
    var nextId: int

    predicate Valid()
      reads this
    {
      && nextId >= 1
      && IdsIncreasing(rows, AuthorId)
      && forall i :: 0 <= i < |rows| ==> 1 <= rows[i].id < nextId
    }

    /** A new, empty table. */
    constructor()
      ensures Valid() && rows == [] && nextId == 1
    {
      rows := [];
      nextId := 1;
    }

    /**
     * `save(const Author&)`: -1 and no change when an author of that full
     * name exists; otherwise one row is appended under a fresh id, which is
     * returned (the caller's author keeps its id).
     */
    method Save(author: Author) returns (id: int)
      requires Valid()
      modifies this
      ensures Valid()
      ensures AuthorExists(old(rows), author) ==> id == -1 && rows == old(rows) && nextId == old(nextId)
      ensures !AuthorExists(old(rows), author) ==>
        && id == old(nextId) && rows == old(rows) + [author.(id := id)] && nextId == old(nextId) + 1
    {
      if AuthorExists(rows, author) {
        return -1;
      }
      id := nextId;
      rows := rows + [author.(id := id)];
      nextId := nextId + 1;
    }

    /**
     * `update(field, id, new_val)`: false and no change when no row has `id`
     * or `field` is not a TEXT column; otherwise that one row gets the new
     * value and everything else stays.
     */
    method Update(field: string, id: int, newVal: string) returns (ok: bool)
      requires Valid()
      modifies this
      ensures Valid()
      ensures nextId == old(nextId)
      ensures ok <==> HasId(old(rows), id) && Assignable(field)
      ensures !ok ==> rows == old(rows)
      ensures ok ==>
        && |rows| == |old(rows)|
        && forall i :: 0 <= i < |rows| ==>
             rows[i] == (if old(rows)[i].id == id then AssignAuthor(old(rows)[i], field, newVal).value else old(rows)[i])
    {
      if !HasId(rows, id) || !Assignable(field) {
        return false;
      }
      var before := rows;
      rows := seq(|before|, i requires 0 <= i < |before| =>
        if before[i].id == id then AssignAuthor(before[i], field, newVal).value else before[i]);
      assert forall i :: 0 <= i < |rows| ==> rows[i].id == before[i].id;
      ok := true;
    }

    /** `del(field, value)`: false when nothing matches; otherwise every matching row goes and the rest stay in order. */
    method Del(field: string, value: string) returns (ok: bool)
      requires Valid()
      modifies this
      ensures Valid()
      ensures nextId == old(nextId)
      ensures ok <==> exists i :: 0 <= i < |old(rows)| && AuthorMatches(old(rows)[i], field, value)
      ensures rows == Where(old(rows), Keeping(field, value))
    {
      if !exists i :: 0 <= i < |rows| && AuthorMatches(rows[i], field, value) {
        WhereAll(rows, Keeping(field, value));
        return false;
      }
      WhereKeepsOrder(rows, Keeping(field, value), AuthorId);
      rows := Where(rows, Keeping(field, value));
      ok := true;
    }

    /**
     * `find(field, value)`: the number of rows with `field = value`. A
     * matching row the constructor refuses throws out of `find` (`None`).
     */
    method Find(field: string, value: string, clock: Clock) returns (r: Option<int>)
      requires Valid()
      ensures r.None? <==>
        exists i :: 0 <= i < |rows| && AuthorMatches(rows[i], field, value) && !AuthorRebuilds(rows[i], clock)
      ensures r.Some? ==> r.value == |Positions(rows, Matching(field, value))|
    {
      var found := Where(rows, Matching(field, value));
      var authors := Rebuild(found, Rebuilder(clock));
      if authors.None? {
        return None;
      }
      WhereCount(rows, Matching(field, value));
      return Some(|authors.value|);
    }

    /**
     * `filter(field, direction)`: the rows shown, ordered by the column,
     * ascending for "up" and descending for "down". Any other direction, an
     * unknown column or a row the constructor refuses shows nothing (`None`).
     */
    method Filter(field: string, direction: string, clock: Clock) returns (r: Option<seq<Author>>)
      requires Valid()
      ensures r.Some? <==>
        && (direction == "up" || direction == "down") && field in AuthorColumns
        && forall i :: 0 <= i < |rows| ==> AuthorRebuilds(rows[i], clock)
      ensures r.Some? ==> r.value == SortBy(rows, OrderKey(field), direction == "down")
      ensures r.Some? ==> SortedBy(r.value, OrderKey(field), direction == "down") && multiset(r.value) == multiset(rows)
    {
      if direction != "up" && direction != "down" {
        return None;
      }
      if field !in AuthorColumns {
        return None;
      }
      var sorted := SortBy(rows, OrderKey(field), direction == "down");
      SortByCorrect(rows, OrderKey(field), direction == "down");
      AllOfPermutation(rows, sorted, Rebuilder(clock));
      assert forall i :: 0 <= i < |rows| ==> Rebuilder(clock)(rows[i]) == AuthorRebuilds(rows[i], clock);
      r := Rebuild(sorted, Rebuilder(clock));
    }

    /**
     * `exportData(format)`: the CSV text or JSON document written; nothing
     * (`None`) for another format or when a row fails to rebuild.
     */
    method ExportData(format: string, clock: Clock) returns (r: Option<Exported>)
      requires Valid()
      ensures r.Some? <==>
        (format == "csv" || format == "json") && forall i :: 0 <= i < |rows| ==> AuthorRebuilds(rows[i], clock)
      ensures r.Some? && format == "csv" ==> r.value == CsvFile(AuthorCsvText(rows))
      ensures r.Some? && format == "json" ==> r.value == JsonFile(AuthorJsonDoc(rows))
    {
      var authors := Rebuild(rows, Rebuilder(clock));
      if authors.None? {
        var i :| 0 <= i < |rows| && !Rebuilder(clock)(rows[i]);
        assert !AuthorRebuilds(rows[i], clock);
        return None;
      }
      assert forall i :: 0 <= i < |rows| ==> Rebuilder(clock)(rows[i]);
      var all := authors.value;
      if format == "csv" {
        var lines := [AuthorCsvHeader];
        var i := 0;
        while i < |all|
          invariant 0 <= i <= |all|
          invariant lines == [AuthorCsvHeader] + seq(i, k requires 0 <= k < i => AuthorCsvLine(all[k]))
        {
          lines := lines + [AuthorCsvLine(all[i])];
          i := i + 1;
        }
        return Some(CsvFile(BOM + Unlines(lines)));
      } else if format == "json" {
        var items: seq<Json> := [];
        var i := 0;
        while i < |all|
          invariant 0 <= i <= |all|
          invariant items == seq(i, k requires 0 <= k < i => AuthorJson(all[k]))
        {
          items := items + [AuthorJson(all[i])];
          i := i + 1;
        }
        return Some(JsonFile(JArray(items)));
      }
      return None;
    }
  }
}
