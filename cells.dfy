/** Cell values as the spreadsheet reader hands them over (rows read with
    `header: 1`), and the two JavaScript operations the comparison applies to
    a cell before looking at its text: truthiness and `toString()`. */
module Cells {
  import opened Strings

  /** A string, a number, a boolean, or nothing (`undefined`: a blank cell,
      a position past the end of a short row, or index -1). Numbers are
      integers here; see NumberText. */
  datatype Cell = Text(text: string) | Number(n: int) | Bool(b: bool) | Empty

  /** One row of a sheet; row 0 of a sheet is its header. */
  type Row = seq<Cell>

  /** JavaScript truthiness: `''`, `0`, `false` and `undefined` are falsy. */
  predicate Truthy(c: Cell)
    ensures !Truthy(c) <==> c == Text("") || c == Number(0) || c == Bool(false) || c == Empty
  {
    match c
    case Text(t) => t != ""
    case Number(n) => n != 0
    case Bool(b) => b
    case Empty => false
  }

  /** The decimal digit for d. */
  function DigitChar(d: nat): (c: char)
    requires d < 10
    ensures '0' <= c <= '9' && DigitValue(c) == d
  {
    ('0' as int + d) as char
  }

  /** The value of a decimal digit character. */
  function DigitValue(c: char): int {
    c as int - '0' as int
  }

  /** The number a string of decimal digits denotes, read most significant
      digit first. */
  function DecimalValue(s: string): int {
    if s == [] then 0 else 10 * DecimalValue(s[..|s| - 1]) + DigitValue(s[|s| - 1])
  }

  /** The decimal numeral of n, most significant digit first, no leading zero. */
  function Digits(n: nat): (r: string)
    ensures |r| > 0
    ensures forall k :: 0 <= k < |r| ==> '0' <= r[k] <= '9'
    ensures |r| > 1 ==> r[0] != '0'
    ensures DecimalValue(r) == n
  {
    if n < 10 then [DigitChar(n)]
    else
      var high := Digits(n / 10);
      assert (high + [DigitChar(n % 10)])[..|high|] == high;
      high + [DigitChar(n % 10)]
  }

  /** Number.prototype.toString() on an integer: an optional minus sign and the
      decimal digits, which denote the magnitude of n. */
  function NumberText(n: int): (r: string)
    ensures |r| > 0
    ensures forall k :: 0 <= k < |r| ==> !IsSpace(r[k])
    ensures (r[0] == '-') == (n < 0)
    ensures n >= 0 ==> DecimalValue(r) == n
    ensures n < 0 ==> DecimalValue(r[1..]) == -n
  {
    if n < 0 then
      assert ("-" + Digits(-n))[1..] == Digits(-n);
      "-" + Digits(-n)
    else Digits(n)
  }

  /** `cell.toString()`. Undefined has no toString (it would throw), and the
      comparison only asks a truthy cell for its text. */
  function ToText(c: Cell): (r: string)
    requires !c.Empty?
    ensures c.Text? ==> r == c.text
    ensures Truthy(c) ==> r != []
  {
    match c
    case Text(t) => t
    case Number(n) => NumberText(n)
    case Bool(b) => if b then "true" else "false"
  }
}
