/** Byte strings and the character classes the scanners share. */
module Bytes {

  newtype u8 = x: int | 0 <= x < 0x100
  type Bytes = seq<u8>

  predicate Whitespace(c: u8) {
    c == '\t' as u8 || c == '\n' as u8 || c == '\r' as u8 || c == ' ' as u8
  }

  predicate Digit(c: u8) {
    '0' as u8 <= c <= '9' as u8
  }

  predicate PathSep(c: u8) {
    c == '/' as u8 || c == '\\' as u8
  }

  /** What follows the white space at the front. */
  function AfterBlanks(s: Bytes): (r: Bytes)
    ensures |r| <= |s| && (r != [] ==> !Whitespace(r[0]))
  {
    if s != [] && Whitespace(s[0]) then AfterBlanks(s[1..]) else s
  }

  datatype Option<+T> = None | Some(value: T)

  datatype Result<+T, +E> = Ok(value: T) | Err(error: E)
}
