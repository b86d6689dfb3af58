/**
 The RESP2 frame language: the frames, the length of a whole frame at the head of a buffer
 (`Check`), its decoding (`Parse`) and its printed form (`Encode`), as functions of byte strings.
 The cursor-driven methods of module FrameCodec are proved against these functions.
 */
module Frames {
  import opened Wrappers
  import opened ByteStrings
  import Decimals
  import Utf8

  datatype Frame =
    | Simple(text: Bytes)
    | Error(text: Bytes)
    | Integer(number: int)
    | Bulk(data: Bytes)
    | Null
    | Array(items: seq<Frame>)

  datatype FormatError =
    | InvalidNullBulk
    | NegativeBulkLength
    | NegativeArrayLength
    | BulkNotTerminated
    | InvalidIntegerConversion
    | InvalidUtf8Integer
    | InvalidIntegerDigits
    | InvalidUtf8String
    | InvalidUtf8Inline

  datatype FrameError = Incomplete | Other(reason: FormatError)

  type Outcome<T> = Result<T, FrameError>

  // ----- lines and numbers -----

  /** The length of the line at the head of `s`, which ends at the first CR LF. */
  function Line(s: Bytes): (r: Outcome<nat>)
    ensures if r.Success? then r.value + 2 <= |s| else r.error == Incomplete
  {
    if |s| < 2 then Failure(Incomplete)
    else if s[0] == CR && s[1] == LF then Success(0)
    else
      var n :- Line(s[1..]);
      Success(n + 1)
  }

  /** The number on the line at the head of `s`, and the length of that line with its CR LF. */
  function Decimal(s: Bytes): (r: Outcome<(int, nat)>)
    ensures r.Success? ==> 2 <= r.value.1 <= |s| && Decimals.IsI64(r.value.0)
  {
    var n :- Line(s);
    if !Utf8.Valid(s[..n]) then Failure(Other(InvalidUtf8Integer))
    else
      match Decimals.Read(s[..n])
      case None => Failure(Other(InvalidIntegerDigits))
      case Some(v) => Success((v, n + 2))
  }

  // ----- the length of a whole frame -----

  /** What follows the dollar sign: a null, or a length line and that many bytes and CR LF. */
  function CheckBulk(s: Bytes): (r: Outcome<nat>)
    ensures r.Success? ==> 2 <= r.value <= |s|
  {
    if s == [] then Failure(Incomplete)
    else if s[0] == MINUS then
      var n :- Line(s);
      if s[..n] == [MINUS, 49] then Success(n + 2) else Failure(Other(InvalidNullBulk))
    else
      var (len, n) :- Decimal(s);
      if len < 0 then Failure(Other(NegativeBulkLength))
      else if |s| - n < len + 2 then Failure(Incomplete)
      else if s[n + len] != CR || s[n + len + 1] != LF then Failure(Other(BulkNotTerminated))
      else Success(n + len + 2)
  }

  /** The length of a frame that holds no frames: every kind but the array. */
  function CheckLeaf(s: Bytes): (r: Outcome<nat>)
    requires s != []
    ensures r.Success? ==> 2 <= r.value <= |s|
  {
    if s[0] == PLUS || s[0] == MINUS then
      var n :- Line(s[1..]);
      Success(n + 3)
    else if s[0] == COLON then
      var (_, n) :- Decimal(s[1..]);
      Success(n + 1)
    else if s[0] == DOLLAR then
      var n :- CheckBulk(s[1..]);
      Success(n + 1)
    else
      var n :- Line(s);
      Success(n + 2)
  }

  /** The length of the whole frame at the head of `s`. */
  function Check(s: Bytes): (r: Outcome<nat>)
    ensures r.Success? ==> 2 <= r.value <= |s|
    decreases |s|, 0
  {
    if s == [] then Failure(Incomplete)
    else if s[0] == STAR then
      var (len, n) :- Decimal(s[1..]);
      if len < 0 then Failure(Other(NegativeArrayLength))
      else
        var m :- CheckMany(s[1 + n..], len);
        Success(1 + n + m)
    else CheckLeaf(s)
  }

  /** The length of `count` frames, one after the other. */
  function CheckMany(s: Bytes, count: nat): (r: Outcome<nat>)
    ensures r.Success? ==> 2 * count <= r.value <= |s|
    decreases |s|, 1 + count
  {
    if count == 0 then Success(0)
    else
      var n :- Check(s);
      var m :- CheckMany(s[n..], count - 1);
      Success(n + m)
  }

  // ----- decoding -----

  function ParseText(s: Bytes): Outcome<(Bytes, nat)> {
    var n :- Line(s);
    if Utf8.Valid(s[..n]) then Success((s[..n], n + 2)) else Failure(Other(InvalidUtf8String))
  }

  function ParseBulk(s: Bytes): Outcome<(Frame, nat)> {
    if s == [] then Failure(Incomplete)
    else if s[0] == MINUS then
      var n :- Line(s);
      if s[..n] == [MINUS, 49] then Success((Null, n + 2)) else Failure(Other(InvalidNullBulk))
    else
      var (len, n) :- Decimal(s);
      if len < 0 then Failure(Other(InvalidIntegerConversion))
      else if |s| - n < len + 2 then Failure(Incomplete)
      else if s[n + len] != CR || s[n + len + 1] != LF then Failure(Other(BulkNotTerminated))
      else Success((Bulk(s[n..n + len]), n + len + 2))
  }

  /** One bulk string for each word of an inline command. */
  function BulksOf(words: seq<Bytes>): (fs: seq<Frame>)
    ensures |fs| == |words| && forall i :: 0 <= i < |fs| ==> fs[i] == Bulk(words[i])
  {
    seq(|words|, i requires 0 <= i < |words| => Bulk(words[i]))
  }

  function ParseInline(s: Bytes): Outcome<(Frame, nat)> {
    var n :- Line(s);
    if Utf8.Valid(s[..n]) then Success((Array(BulksOf(Utf8.SplitWhitespace(s[..n]))), n + 2))
    else Failure(Other(InvalidUtf8Inline))
  }

  function ParseLeaf(s: Bytes): (r: Outcome<(Frame, nat)>)
    requires s != []
    ensures r.Success? ==> 0 < r.value.1 <= |s|
  {
    if s[0] == PLUS then
      var (text, n) :- ParseText(s[1..]);
      Success((Simple(text), n + 1))
    else if s[0] == MINUS then
      var (text, n) :- ParseText(s[1..]);
      Success((Error(text), n + 1))
    else if s[0] == COLON then
      var (v, n) :- Decimal(s[1..]);
      Success((Integer(v), n + 1))
    else if s[0] == DOLLAR then
      var (f, n) :- ParseBulk(s[1..]);
      Success((f, n + 1))
    else ParseInline(s)
  }

  /** The frame at the head of `s` and its length. */
  function Parse(s: Bytes): (r: Outcome<(Frame, nat)>)
    ensures r.Success? ==> 0 < r.value.1 <= |s|
    decreases |s|, 0
  {
    if s == [] then Failure(Incomplete)
    else if s[0] == STAR then
      var (len, n) :- Decimal(s[1..]);
      if len < 0 then Failure(Other(InvalidIntegerConversion))
      else
        var (fs, m) :- ParseMany(s[1 + n..], len);
        Success((Array(fs), 1 + n + m))
    else ParseLeaf(s)
  }

  /** `count` frames, one after the other, and their length. */
  function ParseMany(s: Bytes, count: nat): (r: Outcome<(seq<Frame>, nat)>)
    ensures r.Success? ==> |r.value.0| == count && r.value.1 <= |s|
    decreases |s|, 1 + count
  {
    if count == 0 then Success(([], 0))
    else
      var (f, n) :- Parse(s);
      var (fs, m) :- ParseMany(s[n..], count - 1);
      Success(([f] + fs, n + m))
  }

  // ----- printing -----

  function Encode(f: Frame): Bytes
    decreases f, 0
  {
    match f
    case Simple(text) => [PLUS] + text + CRLF
    case Error(text) => [MINUS] + text + CRLF
    case Integer(v) => [COLON] + Decimals.Show(v) + CRLF
    case Null => [DOLLAR, MINUS, 49] + CRLF
    case Bulk(data) => [DOLLAR] + Decimals.Show(|data|) + CRLF + data + CRLF
    case Array(items) => [STAR] + Decimals.Show(|items|) + CRLF + EncodeAll(items)
  }

  function EncodeAll(fs: seq<Frame>): Bytes
    decreases fs, 1
  {
    if fs == [] then [] else Encode(fs[0]) + EncodeAll(fs[1..])
  }

  /** No CR LF inside a text. */
  predicate SingleLine(text: Bytes) {
    forall i :: 0 <= i < |text| - 1 ==> !(text[i] == CR && text[i + 1] == LF)
  }

  /**
   The frames that survive printing: texts are one line of UTF-8, numbers are 64-bit, and the
   lengths fit the 64-bit length prefix (no byte vector of the program is longer).
   */
  predicate Printable(f: Frame)
    decreases f
  {
    match f
    case Simple(text) => Utf8.Valid(text) && SingleLine(text)
    case Error(text) => Utf8.Valid(text) && SingleLine(text)
    case Integer(v) => Decimals.IsI64(v)
    case Null => true
    case Bulk(data) => |data| <= Decimals.I64_MAX
    case Array(items) =>
      |items| <= Decimals.I64_MAX && forall i :: 0 <= i < |items| ==> Printable(items[i])
  }

  predicate AllPrintable(fs: seq<Frame>) {
    forall i :: 0 <= i < |fs| ==> Printable(fs[i])
  }
}
