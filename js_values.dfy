/** The JavaScript values the attribution scripts inspect: query result rows,
    string truthiness, ASCII case folding and the `\s` whitespace class. */
module JsValues {

  datatype Option<+T> = None | Some(value: T) {
    function GetOr(default: T): T {
      match this
      case Some(v) => v
      case None => default
    }
  }

  /** One row of an NRQL result. `attrs` holds the row's string-valued keys; a key
      bound to `None` is present with the JSON value `null`, so it shows up in
      `Object.keys(row)` but is falsy. `bytecountestimate` is `None` when the key is
      missing or `null`. */
  datatype Row = Row(attrs: map<string, Option<string>>, bytecountestimate: Option<int>)

  /** `row[key]` read as a string: the empty string stands for every falsy value
      (missing key, `null`, `''`), so JavaScript truthiness is `Attr(row, key) != ""`. */
  function Attr(row: Row, key: string): (v: string)
    ensures v != "" <==> key in row.attrs && row.attrs[key].Some? && row.attrs[key].value != ""
  {
    if key in row.attrs then row.attrs[key].GetOr("") else ""
  }

  /** `Object.keys(row).includes(key)`. */
  predicate HasKey(row: Row, key: string) {
    key in row.attrs
  }

  /** `row.bytecountestimate || 0` over integers: a missing or null estimate is 0. */
  function ByteEstimate(row: Row): int {
    row.bytecountestimate.GetOr(0)
  }

  /** `value || 'n/a'`: the sentinel replaces a falsy value. */
  function OrNotAvailable(value: string): (r: string)
    ensures r != ""
    ensures value != "" ==> r == value
    ensures value == "" ==> r == "n/a"
  {
    if value != "" then value else "n/a"
  }

  /** Case folding used by the regular-expression `i` flag, restricted to ASCII letters. */
  function Fold(c: char): (d: char)
    ensures 'A' <= c <= 'Z' ==> d as int == c as int + 32
    ensures !('A' <= c <= 'Z') ==> d == c
  {
    if 'A' <= c <= 'Z' then (c as int + 32) as char else c
  }

  predicate IsAsciiAlnum(c: char) {
    ('a' <= c <= 'z') || ('A' <= c <= 'Z') || ('0' <= c <= '9')
  }

  /** The ECMAScript line terminators, which `.` does not match. */
  predicate IsLineTerminator(c: char) {
    c == '\n' || c == '\r' || c == '\U{2028}' || c == '\U{2029}'
  }

  /** The ECMAScript `\s` class: white space and line terminators. */
  predicate IsJsWhitespace(c: char) {
    || c == '\t' || c == '\U{000B}' || c == '\U{000C}' || c == ' ' || c == '\U{00A0}'
    || c == '\U{FEFF}' || c == '\U{1680}' || ('\U{2000}' <= c <= '\U{200A}')
    || c == '\U{202F}' || c == '\U{205F}' || c == '\U{3000}'
    || IsLineTerminator(c)
  }

  /** Two strings of equal length that agree letter by letter up to ASCII case. */
  predicate FoldEq(a: string, b: string) {
    |a| == |b| && forall i :: 0 <= i < |a| ==> Fold(a[i]) == Fold(b[i])
  }
}
