/**
 UTF-8 well-formedness (RFC 3629, section 4) and the splitting of a line at Unicode white space,
 as the Rust standard library performs them for `String::from_utf8` and `split_whitespace`.
 */
module Utf8 {
  import opened ByteStrings

  predicate Between(b: byte, lo: int, hi: int) {
    lo <= b <= hi
  }

  predicate Tail(b: byte) {
    Between(b, 0x80, 0xBF)
  }

  /** The length of the well-formed character at the head of `s`; 0 when there is none. */
  function CharLength(s: Bytes): (n: nat)
    ensures n <= |s| && n <= 4
  {
    if s == [] then 0
    else if s[0] <= 0x7F then 1
    else if Between(s[0], 0xC2, 0xDF) then
      if |s| >= 2 && Tail(s[1]) then 2 else 0
    else if Between(s[0], 0xE0, 0xEF) then
      if |s| >= 3 && Tail(s[2]) &&
         Between(s[1], if s[0] == 0xE0 then 0xA0 else 0x80, if s[0] == 0xED then 0x9F else 0xBF)
      then 3 else 0
    else if Between(s[0], 0xF0, 0xF4) then
      if |s| >= 4 && Tail(s[2]) && Tail(s[3]) &&
         Between(s[1], if s[0] == 0xF0 then 0x90 else 0x80, if s[0] == 0xF4 then 0x8F else 0xBF)
      then 4 else 0
    else 0
  }

  predicate Valid(s: Bytes) {
    s == [] || (CharLength(s) > 0 && Valid(s[CharLength(s)..]))
  }

  predicate Ascii(s: Bytes) {
    forall i :: 0 <= i < |s| ==> s[i] <= 0x7F
  }

  lemma {:induction false} AsciiIsValid(s: Bytes)
    requires Ascii(s)
    ensures Valid(s)
  {
    if s != [] {
      AsciiIsValid(s[1..]);
    }
  }

  /** The characters with the Unicode property White_Space, in UTF-8. */
  predicate WhiteSpace(c: Bytes) {
    || (|c| == 1 && (Between(c[0], 0x09, 0x0D) || c[0] == 0x20))
    || (|c| == 2 && c[0] == 0xC2 && (c[1] == 0x85 || c[1] == 0xA0))
    || c == [0xE1, 0x9A, 0x80]
    || (|c| == 3 && c[0] == 0xE2 && c[1] == 0x80
        && (Between(c[2], 0x80, 0x8A) || c[2] == 0xA8 || c[2] == 0xA9 || c[2] == 0xAF))
    || c == [0xE2, 0x81, 0x9F]
    || c == [0xE3, 0x80, 0x80]
  }

  function Flush(word: Bytes): seq<Bytes> {
    if word == [] then [] else [word]
  }

  /** The words of `s`, `word` being the part of the current word that is already read. */
  function Words(s: Bytes, word: Bytes): seq<Bytes>
    requires Valid(s)
  {
    if s == [] then Flush(word)
    else
      var n := CharLength(s);
      if WhiteSpace(s[..n]) then Flush(word) + Words(s[n..], [])
      else Words(s[n..], word + s[..n])
  }

  function SplitWhitespace(s: Bytes): seq<Bytes>
    requires Valid(s)
  {
    Words(s, [])
  }

  /** There are at most as many words as bytes, and no word is empty or longer than the line. */
  lemma {:induction false} WordsBounds(s: Bytes, word: Bytes)
    requires Valid(s)
    ensures |Words(s, word)| <= |s| + |word|
    ensures forall i :: 0 <= i < |Words(s, word)| ==> 0 < |Words(s, word)[i]| <= |s| + |word|
  {
    if s != [] {
      var n := CharLength(s);
      if WhiteSpace(s[..n]) {
        WordsBounds(s[n..], []);
      } else {
        WordsBounds(s[n..], word + s[..n]);
      }
    }
  }
}
