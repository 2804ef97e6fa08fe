/** Character classes and case mapping as the cleaning code sees them.

    Python's `\w`, `\s`, `str.lower` and `str.upper` are Unicode-aware; this
    model restricts them to ASCII: word characters are letters, digits and
    `_`, case mapping only touches `A`-`Z` and `a`-`z`, and whitespace is the
    set of ASCII characters for which `str.isspace()` holds. JavaScript's
    `String.prototype.trim` uses a different whitespace set, modelled
    separately by `IsJsSpace`. */
module Chars {

  predicate IsAsciiUpper(c: char) { 'A' <= c <= 'Z' }

  predicate IsAsciiLower(c: char) { 'a' <= c <= 'z' }

  predicate IsDigit(c: char) { '0' <= c <= '9' }

  /** Python's `\w` restricted to ASCII. */
  predicate IsWordChar(c: char) {
    IsAsciiUpper(c) || IsAsciiLower(c) || IsDigit(c) || c == '_'
  }

  /** Python's `\s` (and `str.isspace`) restricted to ASCII: tab, line feed,
      vertical tab, form feed, carriage return, the four information
      separators 0x1c-0x1f, and the space. */
  predicate IsSpace(c: char) {
    c == ' ' || '\t' <= c <= '\r' || '\U{1C}' <= c <= '\U{1F}'
  }

  /** The characters JavaScript's `trim` removes: ASCII white space, line
      terminators, no-break space, the byte-order mark, and the Unicode
      space separators. */
  predicate IsJsSpace(c: char) {
    || c == ' ' || '\t' <= c <= '\r'
    || c == '\U{A0}' || c == '\U{1680}' || '\U{2000}' <= c <= '\U{200A}'
    || c == '\U{2028}' || c == '\U{2029}' || c == '\U{202F}' || c == '\U{205F}'
    || c == '\U{3000}' || c == '\U{FEFF}'
  }

  /** `str.lower` on one character. */
  function Lower(c: char): (r: char)
    ensures !IsAsciiUpper(r)
    ensures IsAsciiUpper(c) ==> IsAsciiLower(r)
    ensures IsAsciiUpper(c) ==> r as int - 'a' as int == c as int - 'A' as int
    ensures !IsAsciiUpper(c) ==> r == c
    ensures IsWordChar(r) <==> IsWordChar(c)
    ensures IsSpace(r) <==> IsSpace(c)
  {
    if IsAsciiUpper(c) then (c as int + 32) as char else c
  }

  /** `str.upper` on one character. */
  function Upper(c: char): (r: char)
    ensures !IsAsciiLower(r)
    ensures IsAsciiLower(c) ==> IsAsciiUpper(r) && Lower(r) == c
    ensures IsAsciiLower(c) ==> r as int - 'A' as int == c as int - 'a' as int
    ensures !IsAsciiLower(c) ==> r == c
    ensures IsWordChar(r) <==> IsWordChar(c)
    ensures IsSpace(r) <==> IsSpace(c)
  {
    if IsAsciiLower(c) then (c as int - 32) as char else c
  }

  /** Lowering and then raising an upper-case letter gives it back. */
  lemma UpperOfLower(c: char)
    ensures IsAsciiUpper(c) ==> Upper(Lower(c)) == c
    ensures Lower(Upper(c)) == Lower(c)
  {
  }

  /** `str.lower` on a whole string: the same letters, none of them upper case. */
  function LowerStr(s: string): (r: string)
    ensures |r| == |s|
    ensures forall i :: 0 <= i < |r| ==> !IsAsciiUpper(r[i]) && Upper(r[i]) == Upper(s[i])
    ensures forall i :: 0 <= i < |r| ==> !IsAsciiUpper(s[i]) ==> r[i] == s[i]
  {
    seq(|s|, i requires 0 <= i < |s| => Lower(s[i]))
  }

  /** No ASCII upper-case letter anywhere in `s`. */
  predicate NoUpper(s: string) {
    forall i :: 0 <= i < |s| ==> !IsAsciiUpper(s[i])
  }
}
