/** JavaScript strings as sequences of UTF-16 code units: `.length`, `.slice`
    and regular expressions without the `u` flag all count code units. */
module Utf16 {

  /** One UTF-16 code unit. */
  newtype Unit = x: int | 0 <= x < 0x1_0000

  type Str = seq<Unit>

  /** The code unit of a character of the Basic Multilingual Plane; only used
      to write ASCII literals, so the replacement branch never matters. */
  function UnitOf(c: char): Unit {
    if c as int < 0x1_0000 then c as int as Unit else 0xFFFD
  }

  /** A Dafny string literal as code units. */
  function Lift(s: string): Str {
    seq(|s|, i requires 0 <= i < |s| => UnitOf(s[i]))
  }

  /** `\d` without the `u` flag: the ASCII digits '0'..'9'. */
  predicate IsDigit(u: Unit) {
    0x30 <= u <= 0x39
  }

  /** ECMAScript LineTerminator: the code units that `.` does not match. */
  predicate IsLineTerminator(u: Unit) {
    u == 0x0A || u == 0x0D || u == 0x2028 || u == 0x2029
  }

  /** `\s`: ECMAScript WhiteSpace (tab, vertical tab, form feed, space,
      no-break space, the byte order mark and every Zs code point) or a
      LineTerminator. */
  predicate IsSpace(u: Unit) {
    || u == 0x09 || u == 0x0B || u == 0x0C || u == 0x20 || u == 0xA0
    || u == 0x1680 || (0x2000 <= u <= 0x200A) || u == 0x202F || u == 0x205F
    || u == 0x3000 || u == 0xFEFF
    || IsLineTerminator(u)
  }

  predicate AllSpace(s: Str) {
    forall i :: 0 <= i < |s| ==> IsSpace(s[i])
  }

  predicate AllDigits(s: Str) {
    forall i :: 0 <= i < |s| ==> IsDigit(s[i])
  }

  /** Every unit of `s` is matched by `.`. */
  predicate NoLineTerminator(s: Str) {
    forall i :: 0 <= i < |s| ==> !IsLineTerminator(s[i])
  }

  predicate IsPrefix(p: Str, s: Str) {
    |p| <= |s| && s[..|p|] == p
  }
}
