/**
 * Integer <-> text conversions the C++ code relies on: `std::to_string`,
 * `std::stoi` (32-bit `int`), and the way SQLite reads a bound text value
 * against an INTEGER column.
 */
module Numbers {
  import opened Wrappers

  const INT_MIN: int := -0x8000_0000
  const INT_MAX: int := 0x7FFF_FFFF

  /** The range of a C++ `int`. */
  predicate InInt32(n: int) {
    INT_MIN <= n <= INT_MAX
  }

  predicate IsDigit(c: char) {
    '0' <= c <= '9'
  }

  predicate AllDigits(s: string) {
    forall i :: 0 <= i < |s| ==> IsDigit(s[i])
  }

  function DigitValue(c: char): nat
    requires IsDigit(c)
  {
    (c as int) - ('0' as int)
  }

  function DigitChar(d: nat): (c: char)
    requires d < 10
    ensures IsDigit(c) && DigitValue(c) == d
  {
    (('0' as int) + d) as char
  }

  /** Decimal digits of `n`, most significant first, without leading zeros. */
  function NatToDigits(n: nat): (s: string)
    ensures |s| > 0 && AllDigits(s)
  {
    if n < 10 then [DigitChar(n)] else NatToDigits(n / 10) + [DigitChar(n % 10)]
  }

  /** The value of a run of decimal digits. */
  function DigitsValue(s: string): nat
    requires AllDigits(s)
  {
    if s == [] then 0 else DigitsValue(s[..|s| - 1]) * 10 + DigitValue(s[|s| - 1])
  }

  lemma {:induction false} DigitsRoundTrip(n: nat)
    ensures DigitsValue(NatToDigits(n)) == n
  {
    if n >= 10 {
      DigitsRoundTrip(n / 10);
      var s := NatToDigits(n);
      assert s[..|s| - 1] == NatToDigits(n / 10);
    }
  }

  /** `std::to_string(int)`: optional minus sign followed by the digits. */
  function IntToString(n: int): (s: string)
    ensures |s| > 0
    ensures forall i :: 0 <= i < |s| ==> IsDigit(s[i]) || (i == 0 && s[i] == '-')
  {
    if n < 0 then "-" + NatToDigits(-n) else NatToDigits(n)
  }

  /** `isspace` in the "C" locale. */
  predicate IsCSpace(c: char) {
    c == ' ' || c == '\t' || c == '\n' || c == '\U{0B}' || c == '\U{0C}' || c == '\r'
  }

  function LeadingSpaces(s: string): (k: nat)
    ensures k <= |s|
    ensures forall i :: 0 <= i < k ==> IsCSpace(s[i])
    ensures k < |s| ==> !IsCSpace(s[k])
  {
    if s == [] || !IsCSpace(s[0]) then 0 else 1 + LeadingSpaces(s[1..])
  }

  /** Length of the longest prefix of `s` made of decimal digits. */
  function DigitRun(s: string): (k: nat)
    ensures k <= |s| && AllDigits(s[..k])
    ensures k < |s| ==> !IsDigit(s[k])
  {
    if s == [] || !IsDigit(s[0]) then 0
    else
      var k := 1 + DigitRun(s[1..]);
      assert s[..k] == [s[0]] + s[1..][..k - 1];
      k
  }

  /**
   * `std::stoi(s)` in base 10: leading white space is skipped, an optional
   * sign is read, then the longest run of digits; whatever follows is
   * ignored. No digit at all throws `invalid_argument`, a value outside the
   * range of `int` throws `out_of_range`; both are `None` here.
   */
  function Stoi(s: string): (r: Option<int>)
    ensures r.Some? ==> InInt32(r.value)
    ensures r.Some? ==> exists i :: 0 <= i < |s| && IsDigit(s[i])
  {
    var t := s[LeadingSpaces(s)..];
    var negative := |t| > 0 && t[0] == '-';
    var u := if |t| > 0 && (t[0] == '-' || t[0] == '+') then t[1..] else t;
    var k := DigitRun(u);
    if k == 0 then None
    else
      assert IsDigit(u[..k][0]);
      SignedValue(negative, u[..k])
  }

  /** The value of the digits `d`, negated when `negative`; `None` outside the range of `int`. */
  function SignedValue(negative: bool, d: string): (r: Option<int>)
    requires AllDigits(d)
    ensures r.Some? ==> InInt32(r.value) && (r.value < 0 ==> negative)
    ensures r.Some? <==> (if negative then DigitsValue(d) <= -INT_MIN else DigitsValue(d) <= INT_MAX)
  {
    var v: int := if negative then 0 - DigitsValue(d) as int else DigitsValue(d);
    if InInt32(v) then Some(v) else None
  }

  /** `std::to_string` followed by `std::stoi` gives the number back. */
  lemma StoiIntToString(n: int)
    requires InInt32(n)
    ensures Stoi(IntToString(n)) == Some(n)
  {
    var s := IntToString(n);
    assert LeadingSpaces(s) == 0;
    assert s[0..] == s;
    var m: nat := if n < 0 then -n else n;
    var u := if n < 0 then s[1..] else s;
    assert u == NatToDigits(m);
    assert DigitRun(u) == |u| by {
      AllDigitsRun(u);
    }
    assert u[..|u|] == u;
    DigitsRoundTrip(m);
  }

  lemma {:induction false} AllDigitsRun(s: string)
    requires AllDigits(s)
    ensures DigitRun(s) == |s|
  {
    if s != [] {
      AllDigitsRun(s[1..]);
    }
  }

  /** White space `ws`, then text that does not start with white space: `stoi` skips exactly `ws`. */
  lemma {:induction false} SpacesThen(ws: string, rest: string)
    requires forall i :: 0 <= i < |ws| ==> IsCSpace(ws[i])
    requires rest == [] || !IsCSpace(rest[0])
    ensures LeadingSpaces(ws + rest) == |ws|
  {
    if ws != [] {
      assert (ws + rest)[1..] == ws[1..] + rest;
      SpacesThen(ws[1..], rest);
    }
  }

  /** Digits `d`, then text that does not start with a digit: the digit run is exactly `d`. */
  lemma {:induction false} DigitsThen(d: string, tail: string)
    requires AllDigits(d)
    requires tail == [] || !IsDigit(tail[0])
    ensures DigitRun(d + tail) == |d|
  {
    if d != [] {
      assert (d + tail)[1..] == d[1..] + tail;
      DigitsThen(d[1..], tail);
    }
  }

  /** Leading white space does not change what `stoi` reads. */
  lemma StoiSkipsSpaces(ws: string, t: string)
    requires forall i :: 0 <= i < |ws| ==> IsCSpace(ws[i])
    requires t == [] || !IsCSpace(t[0])
    ensures Stoi(ws + t) == Stoi(t)
  {
    SpacesThen(ws, t);
    assert (ws + t)[|ws|..] == t;
    assert LeadingSpaces(t) == 0;
    assert t[0..] == t;
  }

  /**
   * `stoi` on white space, an optional sign, a run of digits and anything
   * not starting with a digit: the signed value of the digits when it fits
   * an `int`, `out_of_range` otherwise.
   */
  lemma StoiValue(ws: string, sign: string, d: string, tail: string)
    requires forall i :: 0 <= i < |ws| ==> IsCSpace(ws[i])
    requires sign == "" || sign == "-" || sign == "+"
    requires d != [] && AllDigits(d)
    requires tail == [] || !IsDigit(tail[0])
    ensures Stoi(ws + sign + d + tail) == SignedValue(sign == "-", d)
  {
    var t := sign + d + tail;
    assert ws + sign + d + tail == ws + t;
    assert t[0] == if sign == "" then d[0] else sign[0];
    StoiSkipsSpaces(ws, t);
    StoiSigned(sign, d, tail);
  }

  /** `stoi` on an optional sign, a run of digits and anything not starting with a digit. */
  lemma StoiSigned(sign: string, d: string, tail: string)
    requires sign == "" || sign == "-" || sign == "+"
    requires d != [] && AllDigits(d)
    requires tail == [] || !IsDigit(tail[0])
    ensures Stoi(sign + d + tail) == SignedValue(sign == "-", d)
  {
    var t := sign + d + tail;
    assert LeadingSpaces(t) == 0 && t[0..] == t && (t[0] == '-' <==> sign == "-") by {
      assert t[0] == if sign == "" then d[0] else sign[0];
    }
    var u := if sign == "" then t else t[1..];
    assert u == if |t| > 0 && (t[0] == '-' || t[0] == '+') then t[1..] else t by {
      assert t[0] == if sign == "" then d[0] else sign[0];
    }
    assert u[..DigitRun(u)] == d by {
      assert u == d + tail;
      DigitsThen(d, tail);
      assert (d + tail)[..|d|] == d;
    }
  }

  /**
   * `stoi` on white space and an optional sign not followed by a digit
   * throws `invalid_argument`.
   */
  lemma StoiNoDigit(ws: string, sign: string, rest: string)
    requires forall i :: 0 <= i < |ws| ==> IsCSpace(ws[i])
    requires sign == "" || sign == "-" || sign == "+"
    requires rest == [] || !IsDigit(rest[0])
    requires sign == "" && rest != [] ==> !IsCSpace(rest[0]) && rest[0] != '-' && rest[0] != '+'
    ensures Stoi(ws + sign + rest) == None
  {
    var s := ws + sign + rest;
    var t := sign + rest;
    assert s == ws + t;
    SpacesThen(ws, t);
    assert s[LeadingSpaces(s)..] == t;
    var u := if |t| > 0 && (t[0] == '-' || t[0] == '+') then t[1..] else t;
    assert u == rest;
  }

  /**
   * SQLite's reading of a bound text as an integer when it is compared with
   * or stored into an INTEGER column: the whole text must be an optional
   * sign followed by at least one digit.
   */
  function ParseInteger(s: string): (r: Option<int>)
    ensures r.Some? ==> |s| > 0
  {
    var negative := |s| > 0 && s[0] == '-';
    var u := if |s| > 0 && (s[0] == '-' || s[0] == '+') then s[1..] else s;
    if |u| == 0 || !AllDigits(u) then None
    else if negative then Some(0 - DigitsValue(u) as int)
    else Some(DigitsValue(u))
  }

  /** The text SQLite produces for an integer column is read back as that integer. */
  lemma ParseIntegerIntToString(n: int)
    ensures ParseInteger(IntToString(n)) == Some(n)
  {
    var m: nat := if n < 0 then -n else n;
    DigitsRoundTrip(m);
    var s := IntToString(n);
    if n < 0 {
      assert s[1..] == NatToDigits(m);
    }
  }
}
