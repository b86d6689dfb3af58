/**
 What the text of the wire format means, in numbers: UTF-8 as the encodings of code points (RFC 3629,
 section 3), white space by code point, inline commands as words with spaces between them, decimals digit
 by digit, and every kind of frame byte by byte.
 */
module TextLaws {
  import opened Wrappers
  import opened ByteStrings
  import opened Frames
  import Decimals
  import FrameLaws
  import Utf8

  // ----- UTF-8 -----

  /** The Unicode scalar values: all code points but the surrogates. */
  predicate IsScalar(c: int) {
    0 <= c < 0xD800 || 0xE000 <= c < 0x11_0000
  }

  function Scalar(c: int): (r: Bytes)
    requires IsScalar(c)
    ensures 0 < |r| <= 4
  {
    if c < 0x80 then [c]
    else if c < 0x800 then [192 + c / 64, 128 + c % 64]
    else if c < 0x1_0000 then [224 + c / 4096, 128 + c / 64 % 64, 128 + c % 64]
    else [240 + c / 262144, 128 + c / 4096 % 64, 128 + c / 64 % 64, 128 + c % 64]
  }

  predicate AllScalars(cs: seq<int>) {
    forall i :: 0 <= i < |cs| ==> IsScalar(cs[i])
  }

  function Scalars(cs: seq<int>): Bytes
    requires AllScalars(cs)
  {
    if cs == [] then [] else Scalar(cs[0]) + Scalars(cs[1..])
  }

  lemma TwoBytes(c: int)
    requires 0x80 <= c < 0x800
    ensures 2 <= c / 64 <= 31 && 0 <= c % 64 <= 63
  {
  }

  lemma ThreeBytes(c: int)
    requires 0x800 <= c < 0x1_0000 && IsScalar(c)
    ensures 0 <= c / 4096 <= 15 && 0 <= c / 64 % 64 <= 63 && 0 <= c % 64 <= 63
    ensures c / 4096 == 0 ==> c / 64 % 64 >= 32
    ensures c / 4096 == 13 ==> c / 64 % 64 <= 31
  {
    assert c / 4096 == c / 64 / 64;
  }

  lemma FourBytes(c: int)
    requires 0x1_0000 <= c < 0x11_0000
    ensures 0 <= c / 262144 <= 4 && 0 <= c / 4096 % 64 <= 63 && 0 <= c / 64 % 64 <= 63 && 0 <= c % 64 <= 63
    ensures c / 262144 == 0 ==> c / 4096 % 64 >= 16
    ensures c / 262144 == 4 ==> c / 4096 % 64 <= 15
  {
    assert c / 262144 == c / 4096 / 64;
  }

  /** The encoding of a scalar value is one well-formed character, whatever follows. */
  lemma ScalarIsCharacter(c: int, rest: Bytes)
    requires IsScalar(c)
    ensures Utf8.CharLength(Scalar(c) + rest) == |Scalar(c)|
  {
    if c < 0x80 {
    } else if c < 0x800 {
      TwoBytes(c);
    } else if c < 0x1_0000 {
      ThreeBytes(c);
    } else {
      FourBytes(c);
    }
  }

  /** Every well-formed character is the encoding of a scalar value. */
  lemma CharacterIsScalar(s: Bytes) returns (c: int)
    requires Utf8.CharLength(s) > 0
    ensures IsScalar(c) && s[..Utf8.CharLength(s)] == Scalar(c)
  {
    var n := Utf8.CharLength(s);
    var a: int := s[0];
    var b: int := if n > 1 then s[1] else 128;
    var d: int := if n > 2 then s[2] else 128;
    var e: int := if n > 3 then s[3] else 128;
    if n == 1 {
      c := a;
    } else if n == 2 {
      c := (a - 192) * 64 + (b - 128);
    } else if n == 3 {
      c := (a - 224) * 4096 + (b - 128) * 64 + (d - 128);
      Divided(a - 224, b - 128, d - 128);
    } else {
      c := (a - 240) * 262144 + (b - 128) * 4096 + (d - 128) * 64 + (e - 128);
      DividedFour(a - 240, b - 128, d - 128, e - 128);
    }
  }

  lemma Divided(a: int, b: int, d: int)
    requires 0 <= b < 64 && 0 <= d < 64
    ensures var c := a * 4096 + b * 64 + d;
            c / 4096 == a && c / 64 == a * 64 + b && c / 64 % 64 == b && c % 64 == d
  {
  }

  lemma DividedFour(a: int, b: int, d: int, e: int)
    requires 0 <= b < 64 && 0 <= d < 64 && 0 <= e < 64
    ensures var c := a * 262144 + b * 4096 + d * 64 + e;
            c / 262144 == a && c / 4096 % 64 == b && c / 64 % 64 == d && c % 64 == e
  {
    var c := a * 262144 + b * 4096 + d * 64 + e;
    assert c / 4096 == a * 64 + b && c / 64 == a * 4096 + b * 64 + d;
  }

  lemma {:induction false} ScalarsAreValid(cs: seq<int>)
    requires AllScalars(cs)
    ensures Utf8.Valid(Scalars(cs))
  {
    hide Scalar, Utf8.CharLength;
    if cs != [] {
      ScalarIsCharacter(cs[0], Scalars(cs[1..]));
      ScalarsAreValid(cs[1..]);
      assert (Scalar(cs[0]) + Scalars(cs[1..]))[|Scalar(cs[0])|..] == Scalars(cs[1..]);
    }
  }

  lemma {:induction false} ValidIsScalars(s: Bytes) returns (cs: seq<int>)
    requires Utf8.Valid(s)
    ensures AllScalars(cs) && s == Scalars(cs)
  {
    hide Scalar, Utf8.CharLength;
    if s == [] {
      cs := [];
    } else {
      var n := Utf8.CharLength(s);
      var c := CharacterIsScalar(s);
      var rest := ValidIsScalars(s[n..]);
      cs := [c] + rest;
      assert cs[1..] == rest && s == s[..n] + s[n..];
    }
  }

  /** A byte string is valid if and only if it encodes a list of scalar values. */
  lemma ValidMeansScalars(s: Bytes)
    ensures Utf8.Valid(s) <==> exists cs :: AllScalars(cs) && s == Scalars(cs)
  {
    if Utf8.Valid(s) {
      var cs := ValidIsScalars(s);
      assert AllScalars(cs) && s == Scalars(cs);
    }
    if cs :| AllScalars(cs) && s == Scalars(cs) {
      ScalarsAreValid(cs);
    }
  }

  /** White space, by code point. */
  lemma WhiteSpaceByCodePoint(c: int)
    requires IsScalar(c)
    ensures Utf8.WhiteSpace(Scalar(c)) <==>
            9 <= c <= 13 || c == 32 || c == 0x85 || c == 0xA0 || c == 0x1680 || 0x2000 <= c <= 0x200A
            || c == 0x2028 || c == 0x2029 || c == 0x202F || c == 0x205F || c == 0x3000
  {
    if 0x80 <= c < 0x800 {
      TwoBytes(c);
    } else if 0x800 <= c < 0x1_0000 {
      ThreeBytes(c);
      Divided(c / 4096, c / 64 % 64, c % 64);
      assert c == c / 4096 * 4096 + c / 64 % 64 * 64 + c % 64;
    }
  }

  // ----- words -----

  /** Text without a white-space character. */
  predicate Solid(s: Bytes)
    requires Utf8.Valid(s)
  {
    s == [] || (!Utf8.WhiteSpace(s[..Utf8.CharLength(s)]) && Solid(s[Utf8.CharLength(s)..]))
  }

  lemma {:induction false} SolidIsOneWord(s: Bytes, word: Bytes)
    requires Utf8.Valid(s) && Solid(s)
    ensures Utf8.Words(s, word) == if word + s == [] then [] else [word + s]
  {
    hide Utf8.CharLength, Utf8.WhiteSpace;
    if s == [] {
      assert word + s == word;
    } else {
      var n := Utf8.CharLength(s);
      SolidIsOneWord(s[n..], word + s[..n]);
      assert word + s[..n] + s[n..] == word + s;
    }
  }

  /** A text without white space is one word, and that word is the text. */
  lemma OneWord(s: Bytes)
    requires Utf8.Valid(s) && Solid(s) && s != []
    ensures Utf8.SplitWhitespace(s) == [s]
  {
    SolidIsOneWord(s, []);
    assert [] + s == s;
  }

  lemma CharacterExtends(s: Bytes, t: Bytes)
    requires Utf8.CharLength(s) > 0
    ensures Utf8.CharLength(s + t) == Utf8.CharLength(s)
    ensures (s + t)[..Utf8.CharLength(s)] == s[..Utf8.CharLength(s)]
    ensures (s + t)[Utf8.CharLength(s)..] == s[Utf8.CharLength(s)..] + t
  {
  }

  lemma {:induction false} ValidConcat(s: Bytes, t: Bytes)
    requires Utf8.Valid(s) && Utf8.Valid(t)
    ensures Utf8.Valid(s + t)
  {
    hide Utf8.CharLength;
    if s == [] {
      assert s + t == t;
    } else {
      CharacterExtends(s, t);
      ValidConcat(s[Utf8.CharLength(s)..], t);
    }
  }

  /** One white-space character. */
  predicate Gap(c: Bytes) {
    Utf8.CharLength(c) == |c| && c != [] && Utf8.WhiteSpace(c)
  }

  /** The words of a text whose first character is taken off. */
  lemma WordsUnfold(s: Bytes, word: Bytes, n: nat)
    requires Utf8.Valid(s) && s != [] && n == Utf8.CharLength(s)
    ensures 0 < n <= |s| && Utf8.Valid(s[n..])
    ensures Utf8.Words(s, word) ==
            if Utf8.WhiteSpace(s[..n]) then Utf8.Flush(word) + Utf8.Words(s[n..], [])
            else Utf8.Words(s[n..], word + s[..n])
  {
    hide Utf8.CharLength, Utf8.WhiteSpace;
  }

  lemma {:induction false} WordsAcrossGap(u: Bytes, c: Bytes, v: Bytes, word: Bytes)
    requires Utf8.Valid(u) && Gap(c) && Utf8.Valid(v)
    ensures Utf8.Valid(u + c + v) && Utf8.Words(u + c + v, word) == Utf8.Words(u, word) + Utf8.Words(v, [])
    decreases |u|
  {
    hide Utf8.CharLength, Utf8.WhiteSpace, Utf8.Words, Utf8.Valid;
    var s := u + c + v;
    GapIsValid(c);
    ValidConcat(c, v);
    ValidConcat(u, c + v);
    assert s == u + (c + v);
    if u == [] {
      assert s == c + v && c[..|c|] == c && c[|c|..] + v == v;
      CharacterExtends(c, v);
      WordsUnfold(s, word, |c|);
      NoMoreWords(word);
    } else {
      var n := Utf8.CharLength(u);
      WordsUnfold(u, word, n);
      CharacterExtends(u, c + v);
      assert u[n..] + (c + v) == u[n..] + c + v;
      WordsUnfold(s, word, n);
      if Utf8.WhiteSpace(u[..n]) {
        WordsAcrossGap(u[n..], c, v, []);
        assert Utf8.Flush(word) + (Utf8.Words(u[n..], []) + Utf8.Words(v, []))
            == (Utf8.Flush(word) + Utf8.Words(u[n..], [])) + Utf8.Words(v, []);
      } else {
        WordsAcrossGap(u[n..], c, v, word + u[..n]);
      }
    }
  }

  lemma GapIsValid(c: Bytes)
    requires Gap(c)
    ensures Utf8.Valid(c)
  {
    hide Utf8.CharLength, Utf8.WhiteSpace;
    assert c[|c|..] == [];
  }

  lemma NoMoreWords(word: Bytes)
    ensures Utf8.Valid([]) && Utf8.Words([], word) == Utf8.Flush(word)
  {
  }

  /** White space separates: the words of both sides, one after the other. */
  lemma GapSeparates(u: Bytes, c: Bytes, v: Bytes)
    requires Utf8.Valid(u) && Gap(c) && Utf8.Valid(v)
    ensures Utf8.Valid(u + c + v)
    ensures Utf8.SplitWhitespace(u + c + v) == Utf8.SplitWhitespace(u) + Utf8.SplitWhitespace(v)
  {
    WordsAcrossGap(u, c, v, []);
  }

  /** Space and tab, for two. */
  lemma SpaceAndTab()
    ensures Gap([32]) && Gap([9])
  {
  }

  // ----- inline commands -----

  /** A word of an inline command. */
  predicate IsWord(w: Bytes) {
    w != [] && Utf8.Valid(w) && Solid(w)
  }

  predicate AllWords(words: seq<Bytes>) {
    forall i :: 0 <= i < |words| ==> IsWord(words[i])
  }

  /** Words with one space between them. */
  function Spaced(words: seq<Bytes>): Bytes {
    if words == [] then [] else if |words| == 1 then words[0] else words[0] + [32] + Spaced(words[1..])
  }

  lemma {:induction false} SpacedSplits(words: seq<Bytes>)
    requires words != [] && AllWords(words)
    ensures Utf8.Valid(Spaced(words)) && Utf8.SplitWhitespace(Spaced(words)) == words
  {
    hide Utf8.Valid, Solid, Utf8.Words;
    OneWord(words[0]);
    if |words| > 1 {
      SpacedSplits(words[1..]);
      SpaceAndTab();
      GapSeparates(words[0], [32], Spaced(words[1..]));
    }
  }

  /** A character of several bytes has none below 128. */
  lemma LongCharacter(s: Bytes, i: nat)
    requires 1 < Utf8.CharLength(s) && i < Utf8.CharLength(s)
    ensures s[i] >= 128
  {
  }

  /** A solid text has no byte of ASCII white space. */
  lemma {:induction false} SolidBytes(s: Bytes)
    requires Utf8.Valid(s) && Solid(s)
    ensures 13 !in s
  {
    if s != [] {
      var n := Utf8.CharLength(s);
      SolidBytes(s[n..]);
      assert s == s[..n] + s[n..];
      if 13 in s[..n] {
        var i :| 0 <= i < n && s[i] == 13;
        CarriageReturnIsSpace(s, i);
      }
    }
  }

  lemma CarriageReturnIsSpace(s: Bytes, i: nat)
    requires s != [] && i < Utf8.CharLength(s) && s[i] == 13
    ensures Utf8.WhiteSpace(s[..Utf8.CharLength(s)])
  {
    if Utf8.CharLength(s) > 1 {
      LongCharacter(s, i);
      assert false;
    }
  }

  lemma {:induction false} SpacedBytes(words: seq<Bytes>)
    requires AllWords(words)
    ensures 13 !in Spaced(words)
    ensures words != [] ==> IsWord(words[0]) && Spaced(words) != [] && Spaced(words)[0] == words[0][0]
  {
    hide Utf8.Valid, Solid;
    if words != [] {
      SolidBytes(words[0]);
      SpacedBytes(words[1..]);
    }
  }

  /** Words with spaces between them, of which the first starts with no type byte, decode as those words. */
  lemma InlineDecodes(words: seq<Bytes>, t: Bytes)
    requires words != [] && AllWords(words)
    requires IsWord(words[0]) && words[0][0] !in [42, 43, 45, 58, 36]
    ensures Parse(Spaced(words) + [13, 10] + t) == Success((Array(BulksOf(words)), |Spaced(words)| + 2))
  {
    hide Utf8.Valid, Utf8.Words, Solid, Line;
    SpacedSplits(words);
    SpacedBytes(words);
    var line := Spaced(words);
    FrameLaws.LineOf(line, t);
    assert line + CRLF + t == line + [13, 10] + t;
  }

  /** For two words: w1, a space, w2. */
  lemma TwoWordsDecode(w1: Bytes, w2: Bytes, t: Bytes)
    requires IsWord(w1) && IsWord(w2) && w1[0] !in [42, 43, 45, 58, 36]
    ensures Parse(w1 + [32] + w2 + [13, 10] + t) == Success((Array([Bulk(w1), Bulk(w2)]), |w1| + |w2| + 3))
  {
    InlineDecodes([w1, w2], t);
    assert [w1, w2][1..] == [w2];
    assert Spaced([w1, w2]) == w1 + [32] + w2;
    assert BulksOf([w1, w2]) == [Bulk(w1), Bulk(w2)];
  }

  /** A text of the bytes 33 to 126 is a word. */
  lemma {:induction false} PrintableAsciiIsWord(w: Bytes)
    requires w != [] && forall i :: 0 <= i < |w| ==> 33 <= w[i] <= 126
    ensures IsWord(w)
  {
    if |w| > 1 {
      PrintableAsciiIsWord(w[1..]);
    }
  }

  // ----- decimals -----

  /** Decimals, digit by digit. */
  lemma ShowDigits(n: nat, d: nat)
    requires d < 10
    ensures Decimals.Show(d) == [48 + d]
    ensures n > 0 ==> Decimals.Show(10 * n + d) == Decimals.Show(n) + [48 + d]
    ensures n > 0 ==> Decimals.Show(0 - n) == [45] + Decimals.Show(n)
  {
  }

  predicate AllDigits(ds: Bytes) {
    forall i :: 0 <= i < |ds| ==> 48 <= ds[i] <= 57
  }

  /** The number that digits stand for, the last one counting once. */
  function Positional(ds: Bytes): nat
    requires AllDigits(ds)
  {
    if ds == [] then 0 else 10 * Positional(ds[..|ds| - 1]) + (ds[|ds| - 1] - 48)
  }

  lemma {:induction false} DigitsArePositional(ds: Bytes)
    ensures Decimals.DigitsValue(ds).Some? <==> AllDigits(ds)
    ensures AllDigits(ds) ==> Decimals.DigitsValue(ds) == Some(Positional(ds))
  {
    if ds != [] {
      var n := |ds| - 1;
      DigitsArePositional(ds[..n]);
      assert ds == ds[..n] + [ds[n]];
    }
  }

  /** A number is an optional 43 or 45 and then one or more digits, and fits in 64 bits. */
  lemma ReadMeansDigits(s: Bytes)
    ensures var body := if s != [] && (s[0] == 43 || s[0] == 45) then s[1..] else s;
            && (Decimals.Read(s).Some? <==>
                  && body != [] && AllDigits(body)
                  && (if s[0] == 45 then Positional(body) <= 0x8000_0000_0000_0000
                      else Positional(body) < 0x8000_0000_0000_0000))
            && (Decimals.Read(s).Some? ==>
                  Decimals.Read(s).value == if s[0] == 45 then 0 - Positional(body) else Positional(body))
  {
    hide Decimals.DigitsValue, Positional;
    DigitsArePositional(if s != [] && (s[0] == 43 || s[0] == 45) then s[1..] else s);
  }

  /** A length or a number that is not one is refused. */
  lemma BadNumbers(line: Bytes, t: Bytes)
    requires SingleLine(line) && Utf8.Valid(line) && Decimals.Read(line) == None
    ensures Check([58] + line + [13, 10] + t) == Failure(Other(InvalidIntegerDigits))
    ensures Check([42] + line + [13, 10] + t) == Failure(Other(InvalidIntegerDigits))
    ensures line == [] || line[0] != 45 ==> Check([36] + line + [13, 10] + t) == Failure(Other(InvalidIntegerDigits))
  {
    hide Line, Decimals.Read, Utf8.Valid;
    FrameLaws.LineOf(line, t);
    assert ([58] + line + [13, 10] + t)[1..] == line + CRLF + t;
    assert ([42] + line + [13, 10] + t)[1..] == line + CRLF + t;
    assert ([36] + line + [13, 10] + t)[1..] == line + CRLF + t;
  }

  // ----- frames, byte by byte -----

  lemma PrintedBytes(text: Bytes, v: int, data: Bytes, items: seq<Frame>)
    ensures Encode(Simple(text)) == [43] + text + [13, 10]
    ensures Encode(Error(text)) == [45] + text + [13, 10]
    ensures Encode(Integer(v)) == [58] + Decimals.Show(v) + [13, 10]
    ensures Encode(Null) == [36, 45, 49, 13, 10]
    ensures Encode(Bulk(data)) == [36] + Decimals.Show(|data|) + [13, 10] + data + [13, 10]
    ensures Encode(Array(items)) == [42] + Decimals.Show(|items|) + [13, 10] + EncodeAll(items)
  {
  }

  /** A negative array length is refused. */
  lemma NegativeArray(n: int, t: Bytes)
    requires Decimals.I64_MIN <= n < 0
    ensures Check([42] + Decimals.Show(n) + [13, 10] + t) == Failure(Other(NegativeArrayLength))
  {
    hide Decimal, Decimals.Show;
    FrameLaws.DecimalOf(n, t);
    assert ([42] + Decimals.Show(n) + [13, 10] + t)[1..] == Decimals.Show(n) + CRLF + t;
  }

  /** Of the lengths that start with 45, only -1 is one, and it is the null. */
  lemma NegativeBulk(line: Bytes, t: Bytes)
    requires SingleLine(line) && line != [] && line[0] == 45
    ensures Check([36] + line + [13, 10] + t) ==
            if line == [45, 49] then Success(5) else Failure(Other(InvalidNullBulk))
  {
    hide Line;
    var s := [36] + line + [13, 10] + t;
    FrameLaws.LineOf(line, t);
    assert s[1..] == line + CRLF + t;
    assert s[0] == 36 && s[1..][0] == 45;
    assert CheckBulk(s[1..]) == if line == [45, 49] then Success(4) else Failure(Other(InvalidNullBulk));
  }

  /** Data that is not followed by CR LF is refused. */
  lemma UnterminatedBulk(data: Bytes, x: byte, y: byte, t: Bytes)
    requires |data| <= Decimals.I64_MAX - 2 && !(x == 13 && y == 10)
    ensures Check([36] + Decimals.Show(|data|) + [13, 10] + data + [x, y] + t) == Failure(Other(BulkNotTerminated))
  {
    hide Decimal, Decimals.Show;
    var n := |Decimals.Show(|data|)|;
    var s := [36] + Decimals.Show(|data|) + [13, 10] + data + [x, y] + t;
    var rest := data + [x, y] + t;
    FrameLaws.DecimalOf(|data|, rest);
    assert s[1..] == Decimals.Show(|data|) + CRLF + rest;
    assert s[1..][0] != 45 && s[1..][n + 2 + |data|] == x && s[1..][n + 2 + |data| + 1] == y;
    assert CheckBulk(s[1..]) == Failure(Other(BulkNotTerminated));
  }
}
