/**
 * `Joiner` (joiner.cpp): runs one of three fixed JOIN statements over the
 * catalogue, collects the result rows as text and shows them as a grid.
 * The SQL engine is outside the model: the rows a statement returns are a
 * parameter. The grid itself is console output; the column widths it is
 * laid out with are kept.
 */
module Joiner {
  import opened Wrappers

  // ---------------------------------------------------------------------------
  // Column widths

  /**
   * `w` is the width column `i` needs: the longest of the header and of the
   * cells the first `n` rows have in that column (a row shorter than the
   * column has no cell there).
   */
  predicate IsColumnWidth(data: seq<seq<string>>, n: nat, headers: seq<string>, i: nat, w: nat)
    requires n <= |data| && i < |headers|
  {
    && |headers[i]| <= w
    && (forall r :: 0 <= r < n && i < |data[r]| ==> |data[r][i]| <= w)
    && (w == |headers[i]| || exists r :: 0 <= r < n && i < |data[r]| && w == |data[r][i]|)
  }

  /** The width is determined: two widths that both fit the column are equal. */
  lemma ColumnWidthUnique(data: seq<seq<string>>, n: nat, headers: seq<string>, i: nat, w1: nat, w2: nat)
    requires n <= |data| && i < |headers|
    requires IsColumnWidth(data, n, headers, i, w1) && IsColumnWidth(data, n, headers, i, w2)
    ensures w1 == w2
  {
    assert w1 <= w2 by {
      if w1 != |headers[i]| {
        var r :| 0 <= r < n && i < |data[r]| && w1 == |data[r][i]|;
      }
    }
    assert w2 <= w1 by {
      if w2 != |headers[i]| {
        var r :| 0 <= r < n && i < |data[r]| && w2 == |data[r][i]|;
      }
    }
  }

  /**
   * `calculateColumnWidths`: one width per header, starting from the header
   * lengths and widened by every cell. Every row must be no longer than the
   * header list (a longer row would index past the widths vector).
   */
  method CalculateColumnWidths(data: seq<seq<string>>, headers: seq<string>) returns (widths: seq<nat>)
    requires forall r :: 0 <= r < |data| ==> |data[r]| <= |headers|
    ensures |widths| == |headers|
    ensures forall i :: 0 <= i < |headers| ==> IsColumnWidth(data, |data|, headers, i, widths[i])
    ensures |data| == 0 ==> forall i :: 0 <= i < |headers| ==> widths[i] == |headers[i]|
  {
    var w := new nat[|headers|];
    var i := 0;
    while i < |headers|
      invariant 0 <= i <= |headers|
      invariant forall k :: 0 <= k < i ==> w[k] == |headers[k]|
    {
      w[i] := |headers[i]|;
      i := i + 1;
    }
    var r := 0;
    while r < |data|
      invariant 0 <= r <= |data|
      invariant forall k :: 0 <= k < |headers| ==> IsColumnWidth(data, r, headers, k, w[k])
    {
      var row := data[r];
      var j := 0;
      while j < |row|
        invariant 0 <= j <= |row|
        invariant forall k :: 0 <= k < j ==> IsColumnWidth(data, r + 1, headers, k, w[k])
        invariant forall k :: j <= k < |headers| ==> IsColumnWidth(data, r, headers, k, w[k])
      {
        ghost var before := w[j];
        if |row[j]| > w[j] {
          w[j] := |row[j]|;
        }
        WidenColumn(data, r, headers, j, before, w[j]);
        j := j + 1;
      }
      forall k | |row| <= k < |headers|
        ensures IsColumnWidth(data, r + 1, headers, k, w[k])
      {
        NoCellNoChange(data, r, headers, k, w[k]);
      }
      r := r + 1;
    }
    widths := w[..];
  }

  /** Taking row `r` into account in a column it has a cell in: the larger of the old width and the cell. */
  lemma WidenColumn(data: seq<seq<string>>, r: nat, headers: seq<string>, i: nat, before: nat, after: nat)
    requires r < |data| && i < |headers| && i < |data[r]|
    requires IsColumnWidth(data, r, headers, i, before)
    requires after == if |data[r][i]| > before then |data[r][i]| else before
    ensures IsColumnWidth(data, r + 1, headers, i, after)
  {
    if after != |headers[i]| && after == before {
      var q :| 0 <= q < r && i < |data[q]| && before == |data[q][i]|;
    }
  }

  /** A row without a cell in column `i` leaves its width as it was. */
  lemma NoCellNoChange(data: seq<seq<string>>, r: nat, headers: seq<string>, i: nat, w: nat)
    requires r < |data| && i < |headers| && |data[r]| <= i
    requires IsColumnWidth(data, r, headers, i, w)
    ensures IsColumnWidth(data, r + 1, headers, i, w)
  {
    if w != |headers[i]| {
      var q :| 0 <= q < r && i < |data[q]| && w == |data[q][i]|;
    }
  }

  // ---------------------------------------------------------------------------
  // The join

  /** The three statements `join` can run. */
  datatype JoinKind = AuthorJoin | PublisherJoin | GenreJoin

  /** "author" and "publisher" select those joins; every other name falls through to the genre join. */
  function KindOf(tableTitle: string): (k: JoinKind)
    ensures k == AuthorJoin <==> tableTitle == "author"
    ensures k == PublisherJoin <==> tableTitle == "publisher"
    ensures k == GenreJoin <==> tableTitle != "author" && tableTitle != "publisher"
  {
    if tableTitle == "author" then AuthorJoin
    else if tableTitle == "publisher" then PublisherJoin
    else GenreJoin
  }

  /** The columns each statement selects, in order. */
  function Columns(kind: JoinKind): seq<string> {
    match kind
    case AuthorJoin =>
      ["book.title", "book.year", "book.genre_id", "book.pages", "book.publisher_id",
       "author.full_name", "author.date_of_birth", "author.date_of_death"]
    case PublisherJoin =>
      ["book.title", "book.author_id", "book.year", "book.genre_id", "book.pages",
       "publisher.name", "publisher.address", "publisher.phone", "publisher.mail"]
    case GenreJoin =>
      ["book.title", "book.author_id", "book.year", "book.pages", "book.publisher_id",
       "genre.title", "genre.description"]
  }

  /** The column titles shown above each statement's rows. */
  function Headers(kind: JoinKind): seq<string> {
    match kind
    case AuthorJoin => ["title", "year", "genre", "pages", "publisher", "author", "date_of_birth", "date_of_death"]
    case PublisherJoin => ["title", "author", "year", "genre", "pages", "publisher", "address", "phone", "mail"]
    case GenreJoin => ["title", "author", "year", "pages", "publisher", "genre", "description"]
  }

  /** Each statement has one header per selected column: 8, 9 and 7. */
  lemma HeadersMatchColumns(kind: JoinKind)
    ensures |Headers(kind)| == |Columns(kind)|
    ensures |Headers(kind)| == match kind case AuthorJoin => 8 case PublisherJoin => 9 case GenreJoin => 7
  {
  }

  /** A result cell as text: NULL reads as the empty string. */
  function CellText(cell: Option<string>): string {
    match cell
    case None => ""
    case Some(s) => s
  }

  /** What `join` puts on screen: the headers and the rows as text. */
  datatype Shown = Shown(headers: seq<string>, data: seq<seq<string>>)

  /**
   * `join(table_title)`: runs the statement the name selects (`run` stands
   * for the database; `Failure` is a thrown exception, which `join` logs
   * and rethrows), converts every cell to text and returns the number of
   * rows together with what is shown.
   */
  method Join(tableTitle: string, run: JoinKind -> Result<seq<seq<Option<string>>>, string>)
    returns (r: Result<(int, Shown), string>)
    ensures var result := run(KindOf(tableTitle));
      && (result.Failure? <==> r.Failure?)
      && (result.Failure? ==> r.error == result.error)
    ensures r.Success? ==>
      var rows := run(KindOf(tableTitle)).value;
      var (count, shown) := r.value;
      && count == |rows| && |shown.data| == |rows|
      && shown.headers == Headers(KindOf(tableTitle))
      && forall k :: 0 <= k < |rows| ==>
           |shown.data[k]| == |rows[k]| && forall c :: 0 <= c < |rows[k]| ==> shown.data[k][c] == CellText(rows[k][c])
  {
    var kind := KindOf(tableTitle);
    var headers := Headers(kind);
    var result := run(kind);
    if result.Failure? {
      return Failure(result.error);
    }
    var rows := result.value;
    var tableData: seq<seq<string>> := [];
    var k := 0;
    while k < |rows|
      invariant 0 <= k <= |rows|
      invariant |tableData| == k
      invariant forall q :: 0 <= q < k ==>
        |tableData[q]| == |rows[q]| && forall c :: 0 <= c < |rows[q]| ==> tableData[q][c] == CellText(rows[q][c])
    {
      var row: seq<string> := [];
      var c := 0;
      while c < |rows[k]|
        invariant 0 <= c <= |rows[k]|
        invariant |row| == c && forall c' :: 0 <= c' < c ==> row[c'] == CellText(rows[k][c'])
      {
        var value := if rows[k][c].None? then "" else rows[k][c].value;
        row := row + [value];
        c := c + 1;
      }
      tableData := tableData + [row];
      k := k + 1;
    }
    return Success((|tableData|, Shown(headers, tableData)));
  }

  /**
   * When the statement returns rows of its own width, as SQLite does, every
   * shown row fits the header list, so the grid's widths are defined for it.
   */
  lemma ShownRowsFitHeaders(kind: JoinKind, rows: seq<seq<Option<string>>>, shown: Shown)
    requires forall k :: 0 <= k < |rows| ==> |rows[k]| == |Columns(kind)|
    requires shown.headers == Headers(kind) && |shown.data| == |rows|
    requires forall k :: 0 <= k < |rows| ==> |shown.data[k]| == |rows[k]|
    ensures forall k :: 0 <= k < |shown.data| ==> |shown.data[k]| == |shown.headers|
  {
    HeadersMatchColumns(kind);
  }
}
