/**
 * What the four repositories ask of an SQLite table, stated once over a
 * sequence of rows in rowid order: `WHERE column = ?` selection,
 * `ORDER BY column ASC|DESC`, and the `while (query.executeStep())
 * emplace_back(...)` loop that rebuilds every selected row through the
 * entity's validating constructor.
 */
module Table {
  import opened Wrappers
  import opened Numbers

  /** A column value as SQLite compares and orders it: INTEGER or TEXT. */
  datatype Key = IntKey(n: int) | TextKey(s: string)

  /**
   * `column = ?` with the value bound as text: a TEXT column compares the
   * texts, an INTEGER column first reads the text as an integer and never
   * equals a text that is not one.
   */
  predicate KeyMatches(k: Key, value: string) {
    match k
    case IntKey(n) => ParseInteger(value) == Some(n)
    case TextKey(s) => s == value
  }

  /** An INTEGER column matches exactly the decimal text of its value. */
  lemma IntKeyMatchesItsText(n: int)
    ensures KeyMatches(IntKey(n), IntToString(n))
  {
    ParseIntegerIntToString(n);
  }

  // ---------------------------------------------------------------------------
  // WHERE

  /** The rows satisfying `p`, in table order. */
  function Where<R>(rows: seq<R>, p: R -> bool): (r: seq<R>)
    ensures |r| <= |rows|
    ensures forall k :: 0 <= k < |r| ==> p(r[k]) && r[k] in rows
    ensures forall k :: 0 <= k < |rows| && p(rows[k]) ==> rows[k] in r
  {
    if rows == [] then []
    else
      var init := rows[..|rows| - 1];
      var x := rows[|rows| - 1];
      var w := Where(init, p);
      assert forall y :: y in init ==> y in rows;
      assert forall k :: 0 <= k < |rows| - 1 ==> rows[k] == init[k];
      if p(x) then w + [x] else w
  }

  /** When every row satisfies `p`, all rows are selected. */
  lemma {:induction false} WhereAll<R>(rows: seq<R>, p: R -> bool)
    requires forall k :: 0 <= k < |rows| ==> p(rows[k])
    ensures Where(rows, p) == rows
  {
    if rows != [] {
      WhereAll(rows[..|rows| - 1], p);
      assert rows[..|rows| - 1] + [rows[|rows| - 1]] == rows;
    }
  }

  /** The indices of the rows satisfying `p`. */
  function Positions<R>(rows: seq<R>, p: R -> bool): set<int> {
    set i | 0 <= i < |rows| && p(rows[i])
  }

  /** `Where` keeps one row per satisfying position: its length is the number of matches. */
  lemma {:induction false} WhereCount<R>(rows: seq<R>, p: R -> bool)
    ensures |Where(rows, p)| == |Positions(rows, p)|
  {
    if rows != [] {
      var n := |rows| - 1;
      WhereCount(rows[..n], p);
      PositionsSnoc(rows, p);
    }
  }

  /** The positions of a table are those of all rows but the last, plus the last when it matches. */
  lemma PositionsSnoc<R>(rows: seq<R>, p: R -> bool)
    requires rows != []
    ensures var n := |rows| - 1;
      && n !in Positions(rows[..n], p)
      && Positions(rows, p) == Positions(rows[..n], p) + (if p(rows[n]) then {n} else {})
  {
    var n := |rows| - 1;
    var init := rows[..n];
    assert forall i :: 0 <= i < n ==> rows[i] == init[i];
  }

  /** No row is selected exactly when no row satisfies `p`. */
  lemma WhereEmpty<R>(rows: seq<R>, p: R -> bool)
    ensures Where(rows, p) == [] <==> forall k :: 0 <= k < |rows| ==> !p(rows[k])
  {
    if Where(rows, p) != [] {
      var r := Where(rows, p);
      assert p(r[0]) && r[0] in rows;
    }
  }

  /** Rows whose `id` strictly increases in table order (rowid order). */
  predicate IdsIncreasing<R>(rows: seq<R>, id: R -> int) {
    forall i, j :: 0 <= i < j < |rows| ==> id(rows[i]) < id(rows[j])
  }

  /** Selecting rows keeps them in rowid order. */
  lemma {:induction false} WhereKeepsOrder<R>(rows: seq<R>, p: R -> bool, id: R -> int)
    requires IdsIncreasing(rows, id)
    ensures IdsIncreasing(Where(rows, p), id)
  {
    if rows != [] {
      var n := |rows| - 1;
      var init := rows[..n];
      WhereKeepsOrder(init, p, id);
      var w := Where(init, p);
      forall k | 0 <= k < |w| ensures id(w[k]) < id(rows[n]) {
        var m :| 0 <= m < n && init[m] == w[k];
      }
    }
  }

  // ---------------------------------------------------------------------------
  // Reading rows back

  /**
   * The `executeStep` loop: every row is handed to the entity constructor in
   * order; the first one it refuses throws out of the loop (`None`).
   * A constructor that accepts stores exactly the row's fields and id, so
   * the rebuilt vector equals the rows.
   */
  method Rebuild<R>(rows: seq<R>, rebuilds: R -> bool) returns (r: Option<seq<R>>)
    ensures r.Some? <==> forall k :: 0 <= k < |rows| ==> rebuilds(rows[k])
    ensures r.Some? ==> r.value == rows
  {
    var built: seq<R> := [];
    var i := 0;
    while i < |rows|
      invariant 0 <= i <= |rows|
      invariant built == rows[..i]
      invariant forall k :: 0 <= k < i ==> rebuilds(rows[k])
    {
      if !rebuilds(rows[i]) {
        return None;
      }
      built := built + [rows[i]];
      i := i + 1;
    }
    assert rows[..|rows|] == rows;
    return Some(built);
  }

  // ---------------------------------------------------------------------------
  // ORDER BY

  /** SQLite's BINARY collation: lexicographic by character code, a prefix first. */
  predicate TextLe(a: string, b: string)
    decreases |a|
  {
    if a == [] then true
    else if b == [] then false
    else if a[0] != b[0] then a[0] < b[0]
    else TextLe(a[1..], b[1..])
  }

  /** INTEGER values sort before TEXT values; each kind in its own order. */
  predicate KeyLe(a: Key, b: Key) {
    match (a, b)
    case (IntKey(x), IntKey(y)) => x <= y
    case (IntKey(_), TextKey(_)) => true
    case (TextKey(_), IntKey(_)) => false
    case (TextKey(s), TextKey(t)) => TextLe(s, t)
  }

  lemma {:induction false} TextLeTotal(a: string, b: string)
    ensures TextLe(a, b) || TextLe(b, a)
    decreases |a|
  {
    if a != [] && b != [] && a[0] == b[0] {
      TextLeTotal(a[1..], b[1..]);
    }
  }

  lemma {:induction false} TextLeTrans(a: string, b: string, c: string)
    requires TextLe(a, b) && TextLe(b, c)
    ensures TextLe(a, c)
    decreases |a|
  {
    if a != [] && b != [] && c != [] && a[0] == b[0] && b[0] == c[0] {
      TextLeTrans(a[1..], b[1..], c[1..]);
    }
  }

  /** Ascending order is `KeyLe`; DESC flips it. */
  predicate Before(a: Key, b: Key, descending: bool) {
    if descending then KeyLe(b, a) else KeyLe(a, b)
  }

  lemma BeforeTotal(a: Key, b: Key, descending: bool)
    ensures Before(a, b, descending) || Before(b, a, descending)
  {
    if a.TextKey? && b.TextKey? {
      TextLeTotal(a.s, b.s);
    }
  }

  lemma BeforeTrans(a: Key, b: Key, c: Key, descending: bool)
    requires Before(a, b, descending) && Before(b, c, descending)
    ensures Before(a, c, descending)
  {
    if a.TextKey? && b.TextKey? && c.TextKey? {
      if descending {
        TextLeTrans(c.s, b.s, a.s);
      } else {
        TextLeTrans(a.s, b.s, c.s);
      }
    }
  }

  predicate SortedBy<R>(s: seq<R>, key: R -> Key, descending: bool) {
    forall i, j :: 0 <= i < j < |s| ==> Before(key(s[i]), key(s[j]), descending)
  }

  function Insert<R>(x: R, s: seq<R>, key: R -> Key, descending: bool): seq<R> {
    if s == [] || Before(key(x), key(s[0]), descending) then [x] + s
    else [s[0]] + Insert(x, s[1..], key, descending)
  }

  /** The rows ordered by `key`; rows with equal keys keep table order. */
  function SortBy<R>(rows: seq<R>, key: R -> Key, descending: bool): seq<R> {
    if rows == [] then [] else Insert(rows[0], SortBy(rows[1..], key, descending), key, descending)
  }

  lemma {:induction false} InsertPermutes<R>(x: R, s: seq<R>, key: R -> Key, descending: bool)
    ensures multiset(Insert(x, s, key, descending)) == multiset(s) + multiset{x}
  {
    if s != [] && !Before(key(x), key(s[0]), descending) {
      InsertPermutes(x, s[1..], key, descending);
      assert s == [s[0]] + s[1..];
    }
  }

  lemma {:induction false} InsertSorted<R>(x: R, s: seq<R>, key: R -> Key, descending: bool)
    requires SortedBy(s, key, descending)
    ensures SortedBy(Insert(x, s, key, descending), key, descending)
  {
    if s == [] {
    } else if Before(key(x), key(s[0]), descending) {
      forall j | 0 <= j < |s| ensures Before(key(x), key(s[j]), descending) {
        if j > 0 {
          BeforeTrans(key(x), key(s[0]), key(s[j]), descending);
        }
      }
    } else {
      var t := Insert(x, s[1..], key, descending);
      InsertSorted(x, s[1..], key, descending);
      InsertPermutes(x, s[1..], key, descending);
      BeforeTotal(key(x), key(s[0]), descending);
      forall j | 0 <= j < |t| ensures Before(key(s[0]), key(t[j]), descending) {
        assert t[j] in multiset(t);
        if t[j] != x {
          assert t[j] in multiset(s[1..]);
          var m :| 0 <= m < |s[1..]| && s[1..][m] == t[j];
        }
      }
    }
  }

  /** ORDER BY yields the same rows, each at most as large (ASC) or as small (DESC) as the next. */
  lemma {:induction false} SortByCorrect<R>(rows: seq<R>, key: R -> Key, descending: bool)
    ensures SortedBy(SortBy(rows, key, descending), key, descending)
    ensures multiset(SortBy(rows, key, descending)) == multiset(rows)
  {
    if rows != [] {
      SortByCorrect(rows[1..], key, descending);
      InsertSorted(rows[0], SortBy(rows[1..], key, descending), key, descending);
      InsertPermutes(rows[0], SortBy(rows[1..], key, descending), key, descending);
      assert rows == [rows[0]] + rows[1..];
    }
  }

  /** A property holds of every row exactly when it holds of every row of a permutation. */
  lemma AllOfPermutation<R>(a: seq<R>, b: seq<R>, p: R -> bool)
    requires multiset(a) == multiset(b)
    ensures (forall i :: 0 <= i < |a| ==> p(a[i])) <==> (forall j :: 0 <= j < |b| ==> p(b[j]))
  {
    if forall i :: 0 <= i < |a| ==> p(a[i]) {
      forall j | 0 <= j < |b| ensures p(b[j]) {
        assert b[j] in multiset(a);
        var i :| 0 <= i < |a| && a[i] == b[j];
      }
    }
    if forall j :: 0 <= j < |b| ==> p(b[j]) {
      forall i | 0 <= i < |a| ensures p(a[i]) {
        assert a[i] in multiset(b);
        var j :| 0 <= j < |b| && b[j] == a[i];
      }
    }
  }
}
