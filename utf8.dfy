/**
 * Well-formed UTF-8 (the byte sequences of Table 3-7 of the Unicode
 * Standard, as RFC 3629 restates them): what Rust's `String::from_utf8`
 * accepts and what every Rust `String` holds.
 */
module Utf8 {
  import opened Octets

  predicate Continuation(b: Byte) {
    0x80 <= b <= 0xBF
  }

  /**
   * The length of the well-formed encoded scalar value at the start of s,
   * or 0 when s does not start with one.
   */
  function ScalarWidth(s: Bytes): (w: nat)
    requires s != []
    ensures w <= 4 && w <= |s|
  {
    var b0 := s[0];
    if b0 <= 0x7F then 1
    else if 0xC2 <= b0 <= 0xDF then
      if |s| >= 2 && Continuation(s[1]) then 2 else 0
    else if b0 == 0xE0 then
      if |s| >= 3 && 0xA0 <= s[1] <= 0xBF && Continuation(s[2]) then 3 else 0
    else if 0xE1 <= b0 <= 0xEC || 0xEE <= b0 <= 0xEF then
      if |s| >= 3 && Continuation(s[1]) && Continuation(s[2]) then 3 else 0
    else if b0 == 0xED then
      if |s| >= 3 && 0x80 <= s[1] <= 0x9F && Continuation(s[2]) then 3 else 0
    else if b0 == 0xF0 then
      if |s| >= 4 && 0x90 <= s[1] <= 0xBF && Continuation(s[2]) && Continuation(s[3]) then 4 else 0
    else if 0xF1 <= b0 <= 0xF3 then
      if |s| >= 4 && Continuation(s[1]) && Continuation(s[2]) && Continuation(s[3]) then 4 else 0
    else if b0 == 0xF4 then
      if |s| >= 4 && 0x80 <= s[1] <= 0x8F && Continuation(s[2]) && Continuation(s[3]) then 4 else 0
    else 0
  }

  /** s is a sequence of well-formed encoded scalar values. */
  predicate Valid(s: Bytes)
    decreases |s|, 1
  {
    s == [] || ValidNonEmpty(s)
  }

  /** A well-formed scalar value at the start of s, followed by a well-formed rest. */
  predicate ValidNonEmpty(s: Bytes)
    requires s != []
    decreases |s|, 0
  {
    var w := ScalarWidth(s); 0 < w && Valid(s[w..])
  }

  /** Bytes below 0x80 (ASCII, NUL included) are each a scalar of their own. */
  lemma {:induction false} AsciiValid(s: Bytes)
    requires forall i :: 0 <= i < |s| ==> s[i] < 0x80
    ensures Valid(s)
    decreases |s|
  {
    if s != [] {
      AsciiValid(s[1..]);
    }
  }
}
