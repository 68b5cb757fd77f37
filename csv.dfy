/**
 * The hand-written CSV tokenizer shared (as identical copies) by the Book
 * and Genre CSV readers: `trim`, `splitCSVLine`, line reading with
 * `std::getline`, the UTF-8 byte-order mark, and the `escape` lambda that
 * the repositories use when they export CSV.
 */
module Csv {
  import opened Wrappers
  import opened Numbers

  /** The characters `trim` strips: " \t\r\n". */
  predicate IsTrimSpace(c: char) {
    c == ' ' || c == '\t' || c == '\r' || c == '\n'
  }

  predicate AllTrimSpace(s: string) {
    forall i :: 0 <= i < |s| ==> IsTrimSpace(s[i])
  }

  /** `find_first_not_of(" \t\r\n")`, with `|s|` standing for `npos`. */
  function FirstNonSpace(s: string): (k: nat)
    ensures k <= |s| && AllTrimSpace(s[..k])
    ensures k < |s| ==> !IsTrimSpace(s[k])
  {
    if s == [] || !IsTrimSpace(s[0]) then 0
    else
      var k := 1 + FirstNonSpace(s[1..]);
      assert s[..k] == [s[0]] + s[1..][..k - 1];
      k
  }

  /** One past `find_last_not_of(" \t\r\n")`; 0 when there is no such character. */
  function EndNonSpace(s: string): (k: nat)
    ensures k <= |s| && AllTrimSpace(s[k..])
    ensures k > 0 ==> !IsTrimSpace(s[k - 1])
  {
    if s == [] || !IsTrimSpace(s[|s| - 1]) then |s|
    else
      var k := EndNonSpace(s[..|s| - 1]);
      assert s[k..] == s[..|s| - 1][k..] + [s[|s| - 1]];
      k
  }

  /**
   * `trim`: the text between the leading and the trailing white space; the
   * empty string when there is nothing else.
   */
  function Trim(s: string): (r: string)
    ensures r == "" <==> AllTrimSpace(s)
    ensures r != "" ==> !IsTrimSpace(r[0]) && !IsTrimSpace(r[|r| - 1])
    ensures FirstNonSpace(s) + |r| <= |s|
    ensures r == s[FirstNonSpace(s)..FirstNonSpace(s) + |r|]
    ensures AllTrimSpace(s[FirstNonSpace(s) + |r|..])
  {
    var first := FirstNonSpace(s);
    if first == |s| then
      assert s[..first] == s;
      ""
    else
      s[first..EndNonSpace(s)]
  }

  lemma TrimIdempotent(s: string)
    ensures Trim(Trim(s)) == Trim(s)
  {
    var r := Trim(s);
    if r != "" {
      assert FirstNonSpace(r) == 0;
      assert EndNonSpace(r) == |r|;
      assert r[0..|r|] == r;
    }
  }

  /** The scanner state of `splitCSVLine` before trimming: finished fields, current field, quote flag. */
  datatype ScanState = ScanState(done: seq<string>, field: string, inQuotes: bool)

  const Start: ScanState := ScanState([], "", false)

  /** One pass of the loop body: a quote toggles, an unquoted comma ends the field, anything else is kept. */
  function Step(st: ScanState, c: char): ScanState {
    if c == '"' then st.(inQuotes := !st.inQuotes)
    else if c == ',' && !st.inQuotes then ScanState(st.done + [st.field], "", st.inQuotes)
    else st.(field := st.field + [c])
  }

  function Scan(st: ScanState, s: string): ScanState
    decreases |s|
  {
    if s == [] then st else Step(Scan(st, s[..|s| - 1]), s[|s| - 1])
  }

  /** The fields of a line before trimming: the finished ones and the last one. */
  function RawFields(line: string): seq<string> {
    var st := Scan(Start, line);
    st.done + [st.field]
  }

  function MapTrim(xs: seq<string>): seq<string> {
    seq(|xs|, k requires 0 <= k < |xs| => Trim(xs[k]))
  }

  /** What `splitCSVLine` returns. */
  function SplitFields(line: string): seq<string> {
    MapTrim(RawFields(line))
  }

  /** `splitCSVLine`: the character loop with its `field`, `in_quotes` and `fields` variables. */
  method SplitCsvLine(line: string) returns (fields: seq<string>)
    ensures fields == SplitFields(line)
  {
    fields := [];
    var field := "";
    var inQuotes := false;
    var i := 0;
    while i < |line|
      invariant 0 <= i <= |line|
      invariant Scan(Start, line[..i]).field == field
      invariant Scan(Start, line[..i]).inQuotes == inQuotes
      invariant fields == MapTrim(Scan(Start, line[..i]).done)
    {
      var c := line[i];
      assert line[..i + 1][..i] == line[..i];
      if c == '"' {
        inQuotes := !inQuotes;
      } else if c == ',' && !inQuotes {
        fields := fields + [Trim(field)];
        field := "";
      } else {
        field := field + [c];
      }
      i := i + 1;
    }
    assert line[..|line|] == line;
    fields := fields + [Trim(field)];
  }

  // ---------------------------------------------------------------------------
  // What the tokenizer promises

  function QuoteCount(s: string): nat {
    if s == [] then 0 else QuoteCount(s[..|s| - 1]) + (if s[|s| - 1] == '"' then 1 else 0)
  }

  /** The commas preceded by an even number of quote characters: those outside quotes. */
  function UnquotedCommas(s: string): nat {
    if s == [] then 0
    else UnquotedCommas(s[..|s| - 1]) + (if s[|s| - 1] == ',' && QuoteCount(s[..|s| - 1]) % 2 == 0 then 1 else 0)
  }

  lemma {:induction false} ScanCounts(s: string)
    ensures Scan(Start, s).inQuotes <==> QuoteCount(s) % 2 == 1
    ensures |Scan(Start, s).done| == UnquotedCommas(s)
  {
    if s != [] {
      ScanCounts(s[..|s| - 1]);
    }
  }

  /** A line yields one field more than it has commas outside quotes. */
  lemma FieldCount(line: string)
    ensures |SplitFields(line)| == UnquotedCommas(line) + 1
  {
    ScanCounts(line);
  }

  predicate QuoteFree(st: ScanState) {
    (forall k :: 0 <= k < |st.done| ==> '"' !in st.done[k]) && '"' !in st.field
  }

  lemma {:induction false} ScanHasNoQuotes(s: string)
    ensures QuoteFree(Scan(Start, s))
  {
    if s != [] {
      ScanHasNoQuotes(s[..|s| - 1]);
      var st := Scan(Start, s[..|s| - 1]);
      var c := s[|s| - 1];
      if c != '"' && !(c == ',' && !st.inQuotes) {
        assert forall x :: x in st.field + [c] ==> x in st.field || x == c;
      }
    }
  }

  /** Quote characters only steer the scanner; none reaches an output field. */
  lemma FieldsHaveNoQuotes(line: string)
    ensures forall k :: 0 <= k < |SplitFields(line)| ==> '"' !in SplitFields(line)[k]
  {
    ScanHasNoQuotes(line);
    var raw := RawFields(line);
    forall k | 0 <= k < |raw| ensures '"' !in Trim(raw[k]) {
      assert '"' !in raw[k];
      var t := Trim(raw[k]);
      var p := FirstNonSpace(raw[k]);
      assert forall j :: 0 <= j < |t| ==> t[j] == raw[k][p + j];
    }
  }

  /** Every field comes out trimmed. */
  lemma FieldsAreTrimmed(line: string)
    ensures forall k :: 0 <= k < |SplitFields(line)| ==> Trim(SplitFields(line)[k]) == SplitFields(line)[k]
  {
    forall k | 0 <= k < |SplitFields(line)| ensures Trim(SplitFields(line)[k]) == SplitFields(line)[k] {
      TrimIdempotent(RawFields(line)[k]);
    }
  }

  function RemoveQuotes(s: string): string {
    if s == [] then [] else RemoveQuotes(s[..|s| - 1]) + (if s[|s| - 1] == '"' then [] else [s[|s| - 1]])
  }

  /** The fields joined back with commas. */
  function JoinComma(xs: seq<string>): string
    requires |xs| > 0
  {
    if |xs| == 1 then xs[0] else JoinComma(xs[..|xs| - 1]) + "," + xs[|xs| - 1]
  }

  /**
   * Nothing but the quote characters is lost: joining the untrimmed fields
   * with commas gives back the line without its quotes, so a comma inside
   * quotes stays in its field.
   */
  lemma {:induction false} RawFieldsRebuildLine(line: string)
    ensures JoinComma(RawFields(line)) == RemoveQuotes(line)
  {
    if line != [] {
      var p := line[..|line| - 1];
      var c := line[|line| - 1];
      RawFieldsRebuildLine(p);
      var st := Scan(Start, p);
      if c == '"' {
      } else if c == ',' && !st.inQuotes {
        assert RawFields(line) == (st.done + [st.field]) + [""];
      } else {
        var d := st.done;
        if d != [] {
          assert (d + [st.field + [c]])[..|d|] == d;
          assert (d + [st.field])[..|d|] == d;
        }
      }
    }
  }

  // ---------------------------------------------------------------------------
  // Reading back what the exporters write

  /** The `escape` lambda of every `exportData`: a value with a comma is wrapped in quotes, nothing is escaped. */
  function Escape(s: string): string {
    if ',' in s then "\"" + s + "\"" else s
  }

  /** A cell that the scanner reads as one field equal to the cell without its quotes. */
  predicate OneField(cell: string) {
    Scan(Start, cell) == ScanState([], RemoveQuotes(cell), false)
  }

  lemma {:induction false} ScanConcat(st: ScanState, p: string, q: string)
    ensures Scan(st, p + q) == Scan(Scan(st, p), q)
    decreases |q|
  {
    if q == [] {
      assert p + q == p;
    } else {
      assert (p + q)[..|p + q| - 1] == p + q[..|q| - 1];
      ScanConcat(st, p, q[..|q| - 1]);
    }
  }

  /** Scanning from a state with finished fields just appends the new fields to them. */
  lemma {:induction false} ScanShift(d: seq<string>, s: string)
    ensures Scan(ScanState(d, "", false), s)
         == ScanState(d + Scan(Start, s).done, Scan(Start, s).field, Scan(Start, s).inQuotes)
  {
    if s != [] {
      ScanShift(d, s[..|s| - 1]);
      var st := Scan(Start, s[..|s| - 1]);
      assert d + (st.done + [st.field]) == (d + st.done) + [st.field];
    }
  }

  /** Without quotes, and with no comma where one would split, every character lands in the current field. */
  lemma {:induction false} ScanPlain(st: ScanState, s: string)
    requires '"' !in s
    requires st.inQuotes || ',' !in s
    ensures Scan(st, s) == st.(field := st.field + s)
  {
    if s != [] {
      var p := s[..|s| - 1];
      assert forall c :: c in p ==> c in s;
      ScanPlain(st, p);
      assert st.field + p + [s[|s| - 1]] == st.field + s;
    }
  }

  lemma {:induction false} RemoveQuotesConcat(a: string, b: string)
    ensures RemoveQuotes(a + b) == RemoveQuotes(a) + RemoveQuotes(b)
    decreases |b|
  {
    if b == [] {
      assert a + b == a;
    } else {
      assert (a + b)[..|a + b| - 1] == a + b[..|b| - 1];
      RemoveQuotesConcat(a, b[..|b| - 1]);
    }
  }

  lemma {:induction false} RemoveQuotesNone(s: string)
    requires '"' !in s
    ensures RemoveQuotes(s) == s
  {
    if s != [] {
      assert forall c :: c in s[..|s| - 1] ==> c in s;
      RemoveQuotesNone(s[..|s| - 1]);
    }
  }

  /** A value with neither comma nor quote is written and read as itself. */
  lemma PlainCell(s: string)
    requires '"' !in s && ',' !in s
    ensures OneField(s) && RemoveQuotes(s) == s
  {
    ScanPlain(Start, s);
    RemoveQuotesNone(s);
  }

  /** An escaped value without quotes is read back as one field holding the value. */
  lemma EscapeIsOneField(s: string)
    requires '"' !in s
    ensures OneField(Escape(s)) && RemoveQuotes(Escape(s)) == s
  {
    if ',' in s {
      var q: string := "\"";
      ScanConcat(Start, q, s);
      ScanPlain(ScanState([], "", true), s);
      ScanConcat(Start, q + s, q);
      assert Escape(s) == q + s + q;
      RemoveQuotesConcat(q, s);
      RemoveQuotesConcat(q + s, q);
      RemoveQuotesNone(s);
    } else {
      PlainCell(s);
    }
  }

  /** After an unquoted comma, a cell that is one field becomes the new last field. */
  lemma ScanAfterComma(st: ScanState, cell: string)
    requires !st.inQuotes && OneField(cell)
    ensures Scan(st, [','] + cell) == ScanState(st.done + [st.field], RemoveQuotes(cell), false)
  {
    ScanConcat(st, [','], cell);
    assert Scan(st, [',']) == ScanState(st.done + [st.field], "", false);
    ScanShift(st.done + [st.field], cell);
    assert st.done + [st.field] + [] == st.done + [st.field];
  }

  lemma JoinSnoc(cells: seq<string>)
    requires |cells| > 1
    ensures JoinComma(cells) == JoinComma(cells[..|cells| - 1]) + ([','] + cells[|cells| - 1])
  {
  }

  /** Cells joined with commas scan as one field per cell. */
  lemma {:induction false} ScanJoined(cells: seq<string>)
    requires |cells| > 0
    requires forall k :: 0 <= k < |cells| ==> OneField(cells[k])
    ensures var st := Scan(Start, JoinComma(cells));
      && |st.done| == |cells| - 1
      && (forall k :: 0 <= k < |st.done| ==> st.done[k] == RemoveQuotes(cells[k]))
      && st.field == RemoveQuotes(cells[|cells| - 1])
      && !st.inQuotes
  {
    if |cells| > 1 {
      var init := cells[..|cells| - 1];
      var x := cells[|cells| - 1];
      assert OneField(x);
      ScanJoined(init);
      var j := JoinComma(init);
      JoinSnoc(cells);
      ScanConcat(Start, j, [','] + x);
      var st0 := Scan(Start, j);
      ScanAfterComma(st0, x);
      assert Scan(Start, JoinComma(cells)) == ScanState(st0.done + [st0.field], RemoveQuotes(x), false);
      var st := Scan(Start, JoinComma(cells));
      assert |st.done| == |cells| - 1;
      assert forall k :: 0 <= k < |st0.done| ==> st.done[k] == st0.done[k];
      forall k | 0 <= k < |st.done| ensures st.done[k] == RemoveQuotes(cells[k]) {
        if k < |st0.done| {
          assert st.done[k] == st0.done[k] == RemoveQuotes(init[k]);
        } else {
          assert st.done[k] == st0.field == RemoveQuotes(init[|init| - 1]);
        }
      }
    }
  }

  /** Splitting a line of cells joined with commas gives back each cell without its quotes, before trimming. */
  lemma RawFieldsOfJoined(cells: seq<string>)
    requires |cells| > 0
    requires forall k :: 0 <= k < |cells| ==> OneField(cells[k])
    ensures |RawFields(JoinComma(cells))| == |cells|
    ensures forall k :: 0 <= k < |cells| ==> RawFields(JoinComma(cells))[k] == RemoveQuotes(cells[k])
  {
    var line := JoinComma(cells);
    ScanJoined(cells);
    var st := Scan(Start, line);
    var raw := RawFields(line);
    assert raw == st.done + [st.field];
    forall k | 0 <= k < |cells| ensures raw[k] == RemoveQuotes(cells[k]) {
      if k < |st.done| {
        assert raw[k] == st.done[k];
      }
    }
  }

  /** ... and after trimming, each cell's trimmed text. */
  lemma SplitJoined(cells: seq<string>)
    requires |cells| > 0
    requires forall k :: 0 <= k < |cells| ==> OneField(cells[k])
    ensures |SplitFields(JoinComma(cells))| == |cells|
    ensures forall k :: 0 <= k < |cells| ==> SplitFields(JoinComma(cells))[k] == Trim(RemoveQuotes(cells[k]))
  {
    RawFieldsOfJoined(cells);
    SplitRaw(JoinComma(cells));
  }

  lemma SplitRaw(line: string)
    ensures |SplitFields(line)| == |RawFields(line)|
    ensures forall k :: 0 <= k < |RawFields(line)| ==> SplitFields(line)[k] == Trim(RawFields(line)[k])
  {
  }

  /** An exported value (without quote characters) is read back by `splitCSVLine` as its trimmed self. */
  lemma EscapeReadsBack(s: string)
    requires '"' !in s
    ensures SplitFields(Escape(s)) == [Trim(s)]
  {
    EscapeIsOneField(s);
    SplitRaw(Escape(s));
  }

  // ---------------------------------------------------------------------------
  // The file around the lines

  /** The UTF-8 byte-order mark EF BB BF, one char per byte. */
  const BOM: string := ['\U{EF}', '\U{BB}', '\U{BF}']

  /**
   * The reader consumes three bytes and rewinds to offset 0 unless they are
   * exactly the byte-order mark.
   */
  function SkipBom(content: string): (r: string)
    ensures content == BOM + r || r == content
    ensures |content| >= 3 && content[..3] == BOM <==> content == BOM + r
  {
    if |content| >= 3 && content[..3] == BOM then
      assert content == content[..3] + content[3..];
      content[3..]
    else
      content
  }

  function NewlineIndex(s: string): (k: nat)
    ensures k <= |s| && (k < |s| ==> s[k] == '\n')
    ensures forall i :: 0 <= i < k ==> s[i] != '\n'
  {
    if s == [] || s[0] == '\n' then 0 else 1 + NewlineIndex(s[1..])
  }

  /**
   * The lines `std::getline` delivers: text up to each '\n' (which is
   * dropped); a last line without '\n' still counts, and no line follows a
   * final '\n'. '\r' is kept.
   */
  function Lines(s: string): (ls: seq<string>)
    ensures forall k :: 0 <= k < |ls| ==> '\n' !in ls[k]
    decreases |s|
  {
    if s == [] then []
    else
      var k := NewlineIndex(s);
      if k == |s| then [s] else [s[..k]] + Lines(s[k + 1..])
  }

  /** A line followed by '\n' is read as that line, then the rest. */
  lemma LinesCons(line: string, rest: string)
    requires '\n' !in line
    ensures Lines(line + "\n" + rest) == [line] + Lines(rest)
  {
    var s := line + "\n" + rest;
    assert NewlineIndex(s) == |line| by {
      NewlineIndexOf(line, rest);
    }
    assert s[..|line|] == line;
    assert s[|line| + 1..] == rest;
  }

  lemma {:induction false} NewlineIndexOf(line: string, rest: string)
    requires '\n' !in line
    ensures NewlineIndex(line + "\n" + rest) == |line|
  {
    if line != [] {
      assert (line + "\n" + rest)[1..] == line[1..] + "\n" + rest;
      assert forall c :: c in line[1..] ==> c in line;
      NewlineIndexOf(line[1..], rest);
    }
  }

  /** What an exporter writes: every line followed by '\n'. */
  function Unlines(ls: seq<string>): string {
    if ls == [] then "" else ls[0] + "\n" + Unlines(ls[1..])
  }

  /** Reading back what was written line by line gives the same lines. */
  lemma {:induction false} LinesUnlines(ls: seq<string>)
    requires forall k :: 0 <= k < |ls| ==> '\n' !in ls[k]
    ensures Lines(Unlines(ls)) == ls
  {
    if ls != [] {
      LinesUnlines(ls[1..]);
      LinesCons(ls[0], Unlines(ls[1..]));
    }
  }

  /** Text without white space at either end is its own trim. */
  lemma TrimPlain(s: string)
    requires s != [] ==> !IsTrimSpace(s[0]) && !IsTrimSpace(s[|s| - 1])
    ensures Trim(s) == s
  {
    if s != [] {
      assert FirstNonSpace(s) == 0;
      assert EndNonSpace(s) == |s|;
      assert s[0..|s|] == s;
    }
  }

  /** A number written by an exporter is left alone by `escape` and by `trim`. */
  lemma IntCell(n: int)
    ensures '"' !in IntToString(n) && '\n' !in IntToString(n)
    ensures Escape(IntToString(n)) == IntToString(n)
    ensures Trim(IntToString(n)) == IntToString(n)
  {
    var s := IntToString(n);
    assert '"' !in s && ',' !in s && '\n' !in s by {
      forall i | 0 <= i < |s| ensures s[i] != '"' && s[i] != ',' && s[i] != '\n' {
      }
    }
    TrimPlain(s);
  }

  function EscapeAll(values: seq<string>): seq<string> {
    seq(|values|, k requires 0 <= k < |values| => Escape(values[k]))
  }

  /**
   * A row an exporter writes, values escaped and joined with commas, is
   * split back into the values, trimmed, provided none holds a quote.
   */
  lemma SplitEscaped(values: seq<string>)
    requires |values| > 0
    requires forall k :: 0 <= k < |values| ==> '"' !in values[k]
    ensures |SplitFields(JoinComma(EscapeAll(values)))| == |values|
    ensures forall k :: 0 <= k < |values| ==> SplitFields(JoinComma(EscapeAll(values)))[k] == Trim(values[k])
  {
    var cells := EscapeAll(values);
    forall k | 0 <= k < |cells| ensures OneField(cells[k]) && RemoveQuotes(cells[k]) == values[k] {
      EscapeIsOneField(values[k]);
    }
    SplitJoined(cells);
  }

  /** A column name an exporter writes into its header line: nothing in it is quoted, split or trimmed. */
  predicate PlainName(s: string) {
    && s != [] && '"' !in s && ',' !in s && '\n' !in s
    && !IsTrimSpace(s[0]) && !IsTrimSpace(s[|s| - 1])
  }

  lemma {:induction false} JoinCommaNoNewline(xs: seq<string>)
    requires |xs| > 0
    requires forall k :: 0 <= k < |xs| ==> '\n' !in xs[k]
    ensures '\n' !in JoinComma(xs)
  {
    if |xs| > 1 {
      JoinCommaNoNewline(xs[..|xs| - 1]);
    }
  }

  /** A header line made of plain names is one line and splits back into exactly those names. */
  lemma PlainHeaderReadsBack(names: seq<string>)
    requires |names| > 0
    requires forall k :: 0 <= k < |names| ==> PlainName(names[k])
    ensures '\n' !in JoinComma(names)
    ensures SplitFields(JoinComma(names)) == names
  {
    JoinCommaNoNewline(names);
    PlainNamesUnescaped(names);
    PlainNamesTrimmed(names);
    SplitEscaped(names);
  }

  /** Trimming leaves plain names as they are. */
  lemma PlainNamesTrimmed(names: seq<string>)
    requires forall k :: 0 <= k < |names| ==> PlainName(names[k])
    ensures forall k :: 0 <= k < |names| ==> Trim(names[k]) == names[k]
  {
    forall k | 0 <= k < |names| ensures Trim(names[k]) == names[k] {
      TrimPlain(names[k]);
    }
  }

  /** `escape` leaves plain names as they are. */
  lemma PlainNamesUnescaped(names: seq<string>)
    requires forall k :: 0 <= k < |names| ==> PlainName(names[k])
    ensures EscapeAll(names) == names
    ensures forall k :: 0 <= k < |names| ==> '"' !in names[k]
  {
  }

  /** A name other than all the plain names of a header line is none of its fields. */
  lemma PlainHeaderLacks(names: seq<string>, missing: string)
    requires |names| > 0
    requires forall k :: 0 <= k < |names| ==> PlainName(names[k]) && names[k] != missing
    ensures '\n' !in JoinComma(names) && missing !in SplitFields(JoinComma(names))
  {
    PlainHeaderReadsBack(names);
  }

  // ---------------------------------------------------------------------------
  // From lines to rows

  /**
   * The lines a reader gets with `std::getline` after the byte-order-mark
   * check. Fewer than three bytes make the three-byte read fail; the failed
   * stream then refuses the rewind and every `getline`, so no line is read.
   */
  function FileLines(content: string): seq<string> {
    if |content| < 3 then [] else Lines(SkipBom(content))
  }

  /** A file an exporter writes, the byte-order mark and then lines, is read back as those lines. */
  lemma WrittenFileLines(ls: seq<string>)
    requires forall k :: 0 <= k < |ls| ==> '\n' !in ls[k]
    ensures FileLines(BOM + Unlines(ls)) == ls
  {
    var content := BOM + Unlines(ls);
    assert content[..3] == BOM;
    assert SkipBom(content) == Unlines(ls);
    LinesUnlines(ls);
  }

  /** A file of a header line and one row, all plain names and values, is read back as both, field by field. */
  lemma HeaderAndRowReadBack(names: seq<string>, cells: seq<string>)
    requires |names| > 0 && |cells| > 0
    requires forall k :: 0 <= k < |names| ==> PlainName(names[k])
    requires forall k :: 0 <= k < |cells| ==> PlainName(cells[k])
    ensures FileLines(BOM + Unlines([JoinComma(names), JoinComma(cells)])) == [JoinComma(names), JoinComma(cells)]
    ensures SplitFields(JoinComma(names)) == names && SplitFields(JoinComma(cells)) == cells
  {
    PlainHeaderReadsBack(names);
    PlainHeaderReadsBack(cells);
    TwoWrittenLines(JoinComma(names), JoinComma(cells));
  }

  /** A file written as two lines is read as those two lines. */
  lemma TwoWrittenLines(first: string, second: string)
    requires '\n' !in first && '\n' !in second
    ensures FileLines(BOM + Unlines([first, second])) == [first, second]
  {
    WrittenFileLines([first, second]);
  }

  /** The header names as the reader collects them into a `std::set`. */
  function HeaderSet(headers: seq<string>): set<string> {
    set h | h in headers
  }

  /**
   * The `row` map of a data line: `row[headers[i]] = fields[i]` for every
   * index both have, in order, so a repeated header keeps its last value.
   */
  function RowMap(headers: seq<string>, fields: seq<string>): map<string, string>
    decreases |headers|
  {
    if headers == [] then map[]
    else
      var n := |headers| - 1;
      var m := RowMap(headers[..n], fields);
      if n < |fields| then m[headers[n] := fields[n]] else m
  }

  /** The loop that fills the `row` map. */
  method MapRow(headers: seq<string>, fields: seq<string>) returns (row: map<string, string>)
    ensures row == RowMap(headers, fields)
  {
    row := map[];
    var i := 0;
    while i < |headers| && i < |fields|
      invariant 0 <= i <= |headers|
      invariant i <= |fields|
      invariant row == RowMap(headers[..i], fields)
    {
      assert headers[..i + 1][..i] == headers[..i];
      row := row[headers[i] := fields[i]];
      i := i + 1;
    }
    RowMapBeyond(headers, fields, i);
  }

  /** Headers past the last field add nothing to the map. */
  lemma {:induction false} RowMapBeyond(headers: seq<string>, fields: seq<string>, i: nat)
    requires i <= |headers| && (i == |headers| || i == |fields|)
    ensures RowMap(headers[..i], fields) == RowMap(headers, fields)
    decreases |headers| - i
  {
    if i < |headers| {
      var n := |headers| - 1;
      assert headers[..n][..i] == headers[..i];
      RowMapBeyond(headers[..n], fields, i);
    } else {
      assert headers[..i] == headers;
    }
  }

  /**
   * With at least as many fields as headers, the map has exactly the header
   * names as keys, and each name maps to the field under its last occurrence.
   */
  lemma {:induction false} RowMapLookup(headers: seq<string>, fields: seq<string>, key: string)
    requires |headers| <= |fields|
    ensures key in RowMap(headers, fields) <==> key in headers
    ensures key in headers ==>
      exists j :: 0 <= j < |headers| && headers[j] == key && RowMap(headers, fields)[key] == fields[j]
        && forall j' :: j < j' < |headers| ==> headers[j'] != key
    decreases |headers|
  {
    if headers != [] {
      var n := |headers| - 1;
      RowMapLookup(headers[..n], fields, key);
      assert forall x :: x in headers <==> x in headers[..n] || x == headers[n] by {
        assert headers == headers[..n] + [headers[n]];
      }
      if key != headers[n] && key in headers[..n] {
        var j :| 0 <= j < n && headers[..n][j] == key && RowMap(headers[..n], fields)[key] == fields[j]
          && forall j' :: j < j' < n ==> headers[..n][j'] != key;
        assert headers[j] == key && RowMap(headers, fields)[key] == fields[j];
      }
    }
  }

  /** A key's value is the field under its last occurrence among the headers. */
  lemma RowMapLast(headers: seq<string>, fields: seq<string>, key: string, j: nat)
    requires |headers| <= |fields|
    requires j < |headers| && headers[j] == key
    requires forall j' :: j < j' < |headers| ==> headers[j'] != key
    ensures key in RowMap(headers, fields) && RowMap(headers, fields)[key] == fields[j]
  {
    RowMapLookup(headers, fields, key);
    var jj :| 0 <= jj < |headers| && headers[jj] == key && RowMap(headers, fields)[key] == fields[jj]
      && forall j' :: jj < j' < |headers| ==> headers[j'] != key;
    assert jj == j;
  }

  /** The map of a two-column line. */
  lemma RowMapPair(a: string, b: string, x: string, y: string)
    ensures RowMap([a, b], [x, y]) == map[a := x][b := y]
  {
    assert [a, b][..1] == [a];
    assert [a][..0] == [];
    assert RowMap([a], [x, y]) == map[a := x];
  }

  /** `row[key]` of a `std::map`: a missing key reads as the empty string. */
  function Lookup(row: map<string, string>, key: string): string {
    if key in row then row[key] else ""
  }

  /**
   * A data line as the readers take it: an empty line and a line with fewer
   * fields than headers are skipped (`None`); otherwise its `row` map.
   */
  function RowOf(headers: seq<string>, line: string): (r: Option<map<string, string>>)
    ensures r.Some? <==> line != "" && |SplitFields(line)| >= |headers|
    ensures r.Some? ==> r.value == RowMap(headers, SplitFields(line))
  {
    if line == "" then None
    else
      var fields := SplitFields(line);
      if |fields| < |headers| then None else Some(RowMap(headers, fields))
  }

  /** The row step of the readers' loops: `splitCSVLine`, the field-count test, then the row map. */
  method ReadRow(headers: seq<string>, line: string) returns (row: Option<map<string, string>>)
    ensures row == RowOf(headers, line)
  {
    if line == "" {
      return None;
    }
    var fields := SplitCsvLine(line);
    if |fields| < |headers| {
      return None;
    }
    var m := MapRow(headers, fields);
    return Some(m);
  }
}
