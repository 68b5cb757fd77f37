/**
 * `PublisherRepository` (databases/publisher_repository.cpp): the
 * `publisher` table as a sequence of rows in rowid order plus the
 * AUTOINCREMENT counter. Every column but `id` is TEXT.
 */
module PublisherRepo {
  import opened Wrappers
  import opened Numbers
  import opened Table
  import opened Csv
  import opened Json
  import opened PublisherModel

  /** The columns of `CREATE TABLE publisher`. */
  const PublisherColumns: set<string> := {"id", "name", "address", "phone", "mail"}

  /** The value of column `field` in a row; `None` for a name that is not a column. */
  function PublisherColumn(p: Publisher, field: string): (k: Option<Key>)
    ensures k.Some? <==> field in PublisherColumns
    ensures k.Some? && field != "id" ==> k.value.TextKey?
  {
    if field == "id" then Some(IntKey(p.id))
    else if field == "name" then Some(TextKey(p.name))
    else if field == "address" then Some(TextKey(p.address))
    else if field == "phone" then Some(TextKey(p.phone))
    else if field == "mail" then Some(TextKey(p.mail))
    else None
  }

  /** `WHERE field = ?` with `value` bound as text. */
  predicate PublisherMatches(p: Publisher, field: string, value: string) {
    PublisherColumn(p, field).Some? && KeyMatches(PublisherColumn(p, field).value, value)
  }

  function PublisherId(p: Publisher): int {
    p.id
  }

  function Matching(field: string, value: string): Publisher -> bool {
    (p: Publisher) => PublisherMatches(p, field, value)
  }

  function Keeping(field: string, value: string): Publisher -> bool {
    (p: Publisher) => !PublisherMatches(p, field, value)
  }

  function OrderKey(field: string): Publisher -> Key {
    (p: Publisher) => PublisherColumn(p, field).GetOr(IntKey(0))
  }

  /** The duplicate test of `publisherExists`: the name alone. */
  predicate PublisherExists(rows: seq<Publisher>, p: Publisher) {
    exists i :: 0 <= i < |rows| && rows[i].name == p.name
  }

  predicate HasId(rows: seq<Publisher>, id: int) {
    exists i :: 0 <= i < |rows| && rows[i].id == id
  }

  /** The columns `UPDATE publisher SET field = ?` can take a text into: every TEXT column. */
  predicate Assignable(field: string) {
    field in PublisherColumns && field != "id"
  }

  /** The row after `SET field = newVal`: the named column takes the value and no other column changes. */
  function AssignPublisher(p: Publisher, field: string, newVal: string): (r: Option<Publisher>)
    ensures r.Some? <==> Assignable(field)
    ensures r.Some? ==> r.value.id == p.id && PublisherMatches(r.value, field, newVal)
    ensures r.Some? ==> forall f :: f != field ==> PublisherColumn(r.value, f) == PublisherColumn(p, f)
  {
    if field == "name" then Some(p.(name := newVal))
    else if field == "address" then Some(p.(address := newVal))
    else if field == "phone" then Some(p.(phone := newVal))
    else if field == "mail" then Some(p.(mail := newVal))
    else None
  }

  /** The header line of the CSV export; the name column is labelled "title". */
  const PublisherCsvNames: seq<string> := ["ID", "title", "address", "phone", "mail"]
  const PublisherCsvHeader: string := JoinComma(PublisherCsvNames)

  /** The cells of one exported row; every text field goes through `escape`. */
  function PublisherCsvCells(p: Publisher): seq<string> {
    [IntToString(p.id), Escape(p.name), Escape(p.address), Escape(p.phone), Escape(p.mail)]
  }

  function PublisherCsvLine(p: Publisher): string {
    JoinComma(PublisherCsvCells(p))
  }

  /** One exported object; the name is written under the key "title". */
  function PublisherJson(p: Publisher): Json {
    JObject(map["ID" := JNumber(p.id), "title" := JString(p.name), "address" := JString(p.address),
                "phone" := JString(p.phone), "mail" := JString(p.mail)])
  }

  function PublisherCsvText(rows: seq<Publisher>): string {
    BOM + Unlines([PublisherCsvHeader] + seq(|rows|, i requires 0 <= i < |rows| => PublisherCsvLine(rows[i])))
  }

  function PublisherJsonDoc(rows: seq<Publisher>): Json {
    JArray(seq(|rows|, i requires 0 <= i < |rows| => PublisherJson(rows[i])))
  }

  /** An exported row is read back by `splitCSVLine` as its five values, the texts trimmed. */
  lemma PublisherCsvLineReadsBack(p: Publisher)
    requires '"' !in p.name && '"' !in p.address && '"' !in p.phone && '"' !in p.mail
    ensures var f := SplitFields(PublisherCsvLine(p));
      && |f| == 5
      && f[0] == IntToString(p.id) && f[1] == Trim(p.name) && f[2] == Trim(p.address)
      && f[3] == Trim(p.phone) && f[4] == Trim(p.mail)
  {
    IntCell(p.id);
    var values := [IntToString(p.id), p.name, p.address, p.phone, p.mail];
    assert PublisherCsvCells(p) == EscapeAll(values);
    SplitEscaped(values);
    var f := SplitFields(PublisherCsvLine(p));
    assert f[0] == Trim(values[0]);
    assert f[1] == Trim(values[1]);
    assert f[2] == Trim(values[2]);
    assert f[3] == Trim(values[3]);
    assert f[4] == Trim(values[4]);
  }

  class PublisherRepository {
    /** The rows of `publisher` in rowid order. */
    var rows: seq<Publisher>
    /** The id the next INSERT receives (AUTOINCREMENT never reuses an id). */
    var nextId: int

    predicate Valid()
      reads this
    {
      && nextId >= 1
      && IdsIncreasing(rows, PublisherId)
      && forall i :: 0 <= i < |rows| ==> 1 <= rows[i].id < nextId
    }

    /** A new, empty table. */
    constructor()
      ensures Valid() && rows == [] && nextId == 1
    {
      rows := [];
      nextId := 1;
    }

    /**
     * `save(Publisher&)`: -1 and no change when a publisher of that name
     * exists; otherwise one row is appended under a fresh id, which is
     * returned and written into the caller's publisher (`saved`).
     */
    method Save(publisher: Publisher) returns (id: int, saved: Publisher)
      requires Valid()
      modifies this
      ensures Valid()
      ensures PublisherExists(old(rows), publisher) ==>
        id == -1 && saved == publisher && rows == old(rows) && nextId == old(nextId)
      ensures !PublisherExists(old(rows), publisher) ==>
        && id == old(nextId) && saved == publisher.(id := id)
        && rows == old(rows) + [saved] && nextId == old(nextId) + 1
    {
      if PublisherExists(rows, publisher) {
        return -1, publisher;
      }
      id := nextId;
      saved := publisher.(id := id);
      rows := rows + [saved];
      nextId := nextId + 1;
    }

    /**
     * `update(field, id, new_val)`: false and no change when no row has `id`
     * or `field` is not a TEXT column; otherwise that one row gets the new
     * value and everything else stays.
     */
    method Update(field: string, id: int, newVal: string) returns (ok: bool)
      requires Valid()
      modifies this
      ensures Valid()
      ensures nextId == old(nextId)
      ensures ok <==> HasId(old(rows), id) && Assignable(field)
      ensures !ok ==> rows == old(rows)
      ensures ok ==>
        && |rows| == |old(rows)|
        && forall i :: 0 <= i < |rows| ==>
             rows[i] == (if old(rows)[i].id == id then AssignPublisher(old(rows)[i], field, newVal).value else old(rows)[i])
    {
      if !HasId(rows, id) || !Assignable(field) {
        return false;
      }
      var before := rows;
      rows := seq(|before|, i requires 0 <= i < |before| =>
        if before[i].id == id then AssignPublisher(before[i], field, newVal).value else before[i]);
      assert forall i :: 0 <= i < |rows| ==> rows[i].id == before[i].id;
      ok := true;
    }

    /** `del(field, value)`: false when nothing matches; otherwise every matching row goes and the rest stay in order. */
    method Del(field: string, value: string) returns (ok: bool)
      requires Valid()
      modifies this
      ensures Valid()
      ensures nextId == old(nextId)
      ensures ok <==> exists i :: 0 <= i < |old(rows)| && PublisherMatches(old(rows)[i], field, value)
      ensures rows == Where(old(rows), Keeping(field, value))
    {
      if !exists i :: 0 <= i < |rows| && PublisherMatches(rows[i], field, value) {
        WhereAll(rows, Keeping(field, value));
        return false;
      }
      WhereKeepsOrder(rows, Keeping(field, value), PublisherId);
      rows := Where(rows, Keeping(field, value));
      ok := true;
    }

    /**
     * `find(field, value)`: the number of rows with `field = value`. A
     * matching row the constructor refuses throws out of `find` (`None`).
     */
    method Find(field: string, value: string) returns (r: Option<int>)
      requires Valid()
      ensures r.None? <==>
        exists i :: 0 <= i < |rows| && PublisherMatches(rows[i], field, value) && !PublisherRebuilds(rows[i])
      ensures r.Some? ==> r.value == |Positions(rows, Matching(field, value))|
    {
      var found := Where(rows, Matching(field, value));
      var publishers := Rebuild(found, PublisherRebuilds);
      if publishers.None? {
        return None;
      }
      WhereCount(rows, Matching(field, value));
      return Some(|publishers.value|);
    }

    /**
     * `filter(field, direction)`: the rows shown, ordered by the column,
     * ascending for "up" and descending for "down". Any other direction, an
     * unknown column or a row the constructor refuses shows nothing (`None`).
     */
    method Filter(field: string, direction: string) returns (r: Option<seq<Publisher>>)
      requires Valid()
      ensures r.Some? <==>
        && (direction == "up" || direction == "down") && field in PublisherColumns
        && forall i :: 0 <= i < |rows| ==> PublisherRebuilds(rows[i])
      ensures r.Some? ==> r.value == SortBy(rows, OrderKey(field), direction == "down")
      ensures r.Some? ==> SortedBy(r.value, OrderKey(field), direction == "down") && multiset(r.value) == multiset(rows)
    {
      if direction != "up" && direction != "down" {
        return None;
      }
      if field !in PublisherColumns {
        return None;
      }
      var sorted := SortBy(rows, OrderKey(field), direction == "down");
      SortByCorrect(rows, OrderKey(field), direction == "down");
      AllOfPermutation(rows, sorted, PublisherRebuilds);
      r := Rebuild(sorted, PublisherRebuilds);
    }

    /**
     * `exportData(format)`: the CSV text or JSON document written; nothing
     * (`None`) for another format or when a row fails to rebuild.
     */
    method ExportData(format: string) returns (r: Option<Exported>)
      requires Valid()
      ensures r.Some? <==>
        (format == "csv" || format == "json") && forall i :: 0 <= i < |rows| ==> PublisherRebuilds(rows[i])
      ensures r.Some? && format == "csv" ==> r.value == CsvFile(PublisherCsvText(rows))
      ensures r.Some? && format == "json" ==> r.value == JsonFile(PublisherJsonDoc(rows))
    {
      var publishers := Rebuild(rows, PublisherRebuilds);
      if publishers.None? {
        return None;
      }
      var all := publishers.value;
      if format == "csv" {
        var lines := [PublisherCsvHeader];
        var i := 0;
        while i < |all|
          invariant 0 <= i <= |all|
          invariant lines == [PublisherCsvHeader] + seq(i, k requires 0 <= k < i => PublisherCsvLine(all[k]))
        {
          lines := lines + [PublisherCsvLine(all[i])];
          i := i + 1;
        }
        return Some(CsvFile(BOM + Unlines(lines)));
      } else if format == "json" {
        var items: seq<Json> := [];
        var i := 0;
        while i < |all|
          invariant 0 <= i <= |all|
          invariant items == seq(i, k requires 0 <= k < i => PublisherJson(all[k]))
        {
          items := items + [PublisherJson(all[i])];
          i := i + 1;
        }
        return Some(JsonFile(JArray(items)));
      }
      return None;
    }
  }
}
