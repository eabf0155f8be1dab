/** The few JavaScript built-ins the application leans on, written out:
    `String.prototype.trim`, the characters a regular-expression `.` refuses,
    `String(n)` for integers, and `Number.isInteger`. Strings are sequences of
    characters; JavaScript numbers are taken as reals (NaN and the infinities
    are represented only where an input can produce them). */
module Js {

  /** LineTerminator of ECMAScript: the characters `.` does not match. */
  predicate IsLineTerminator(c: char)
  {
    c == '\n' || c == '\r' || c == '\U{2028}' || c == '\U{2029}'
  }

  /** WhiteSpace or LineTerminator of ECMAScript: what `trim()` removes. */
  predicate IsWhiteSpace(c: char)
  {
    || c == '\t' || c == '\U{000B}' || c == '\U{000C}' || c == ' '
    || c == '\U{00A0}' || c == '\U{FEFF}' || c == '\U{1680}'
    || ('\U{2000}' <= c <= '\U{200A}')
    || c == '\U{202F}' || c == '\U{205F}' || c == '\U{3000}'
    || IsLineTerminator(c)
  }

  predicate AllWhiteSpace(s: string)
  {
    forall i :: 0 <= i < |s| ==> IsWhiteSpace(s[i])
  }

  function TrimStart(s: string): (r: string)
    ensures r == "" <==> AllWhiteSpace(s)
    ensures r != "" ==> !IsWhiteSpace(r[0])
    decreases |s|
  {
    if s == [] then s
    else if IsWhiteSpace(s[0]) then TrimStart(s[1..])
    else s
  }

  function TrimEnd(s: string): (r: string)
    ensures r == "" <==> AllWhiteSpace(s)
    ensures r != "" ==> r[0] == s[0]
    decreases |s|
  {
    if s == [] then s
    else if IsWhiteSpace(s[|s| - 1]) then TrimEnd(s[..|s| - 1])
    else s
  }

  /** `s.trim()`. It is empty exactly when every character of `s` is white space. */
  function Trim(s: string): (r: string)
    ensures r == "" <==> AllWhiteSpace(s)
  {
    TrimEnd(TrimStart(s))
  }

  function DigitChar(d: nat): (c: char)
    requires d < 10
    ensures '0' <= c <= '9'
  {
    "0123456789"[d]
  }

  function NaturalDigits(n: nat): (r: string)
    ensures |r| >= 1
    ensures forall i :: 0 <= i < |r| ==> '0' <= r[i] <= '9'
    decreases n
  {
    if n < 10 then [DigitChar(n)] else NaturalDigits(n / 10) + [DigitChar(n % 10)]
  }

  /** `String(n)` (or a template literal) for an integer-valued number. */
  function DecimalString(n: int): (r: string)
    ensures |r| >= 1
    ensures (r[0] == '-') <==> n < 0
  {
    if n < 0 then "-" + NaturalDigits(-n) else NaturalDigits(n)
  }

  /** `Number.isInteger` on a finite number. */
  predicate IsInteger(v: real)
  {
    v.Floor as real == v
  }

  /** What `Number(input.value)` yields for the text of a numeric input field:
      a finite value, or NaN for text that is not a number. */
  datatype NumberInput = Numeric(value: real) | NaN
}
