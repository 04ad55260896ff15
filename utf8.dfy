/**
 * Well-formed UTF-8, the test Rust's `std::str::from_utf8` applies (the
 * byte ranges of the Unicode standard's table of well-formed byte sequences:
 * no overlong forms, no surrogates, nothing above U+10FFFF).
 */
module Utf8 {
  import opened Common

  predicate Continuation(b: byte) {
    0x80 <= b <= 0xBF
  }

  predicate Utf8Valid(s: Bytes)
    decreases |s|
  {
    if s == [] then true
    else if s[0] < 0x80 then Utf8Valid(s[1..])
    else if 0xC2 <= s[0] <= 0xDF then
      |s| >= 2 && Continuation(s[1]) && Utf8Valid(s[2..])
    else if s[0] == 0xE0 then
      |s| >= 3 && 0xA0 <= s[1] <= 0xBF && Continuation(s[2]) && Utf8Valid(s[3..])
    else if 0xE1 <= s[0] <= 0xEC || 0xEE <= s[0] <= 0xEF then
      |s| >= 3 && Continuation(s[1]) && Continuation(s[2]) && Utf8Valid(s[3..])
    else if s[0] == 0xED then
      |s| >= 3 && 0x80 <= s[1] <= 0x9F && Continuation(s[2]) && Utf8Valid(s[3..])
    else if s[0] == 0xF0 then
      |s| >= 4 && 0x90 <= s[1] <= 0xBF && Continuation(s[2]) && Continuation(s[3]) && Utf8Valid(s[4..])
    else if 0xF1 <= s[0] <= 0xF3 then
      |s| >= 4 && Continuation(s[1]) && Continuation(s[2]) && Continuation(s[3]) && Utf8Valid(s[4..])
    else if s[0] == 0xF4 then
      |s| >= 4 && 0x80 <= s[1] <= 0x8F && Continuation(s[2]) && Continuation(s[3]) && Utf8Valid(s[4..])
    else false
  }

  /** ASCII text is valid UTF-8. */
  lemma {:induction false} AsciiIsUtf8(s: Bytes)
    requires IsAscii(s)
    ensures Utf8Valid(s)
    decreases |s|
  {
    if s != [] {
      AsciiIsUtf8(s[1..]);
    }
  }
}
