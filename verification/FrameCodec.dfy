/**
 The codec as the program runs it: a cursor that is advanced over a buffer, and a printer that
 appends to the caller's buffer. Every method is tied to the functions of module Frames.
 */
module FrameCodec {
  import opened Wrappers
  import opened ByteStrings
  import opened Frames
  import Decimals
  import Utf8

  /** A position in a fixed buffer. */
  class Cursor {
    const data: Bytes
    var pos: nat

    ghost predicate Valid()
      reads this
    {
      pos <= |data|
    }

    function Rest(): Bytes
      requires Valid()
      reads this
    {
      data[pos..]
    }

    constructor (data: Bytes)
      ensures this.data == data && pos == 0
    {
      this.data := data;
      pos := 0;
    }

    method PeekByte() returns (r: Outcome<byte>)
      requires Valid()
      ensures r == if Rest() == [] then Failure(Incomplete) else Success(Rest()[0])
    {
      return if pos == |data| then Failure(Incomplete) else Success(data[pos]);
    }

    method GetByte() returns (r: Outcome<byte>)
      requires Valid()
      modifies this
      ensures Valid()
      ensures r == if old(Rest()) == [] then Failure(Incomplete) else Success(old(Rest())[0])
      ensures pos == if r.Success? then old(pos) + 1 else old(pos)
    {
      if pos == |data| {
        return Failure(Incomplete);
      }
      pos := pos + 1;
      return Success(data[pos - 1]);
    }

    /** Finds the first CR LF at or after the position, by index. */
    method GetLine() returns (r: Outcome<Bytes>)
      requires Valid()
      modifies this
      ensures Valid()
      ensures Line(old(Rest())).Failure? ==> r == Failure(Incomplete) && pos == old(pos)
      ensures Line(old(Rest())).Success? ==>
                var n := Line(old(Rest())).value;
                r == Success(old(Rest())[..n]) && pos == old(pos) + n + 2
    {
      var start, end := pos, |data|;
      var i := start;
      while i < end
        invariant start <= i <= end && pos == start
        invariant Line(data[start..]) ==
                  if Line(data[i..]).Success? then Success(Line(data[i..]).value + (i - start))
                  else Failure(Incomplete)
      {
        assert data[i..][1..] == data[i + 1..];
        if data[i] == CR && i + 1 < end && data[i + 1] == LF {
          pos := i + 2;
          assert data[start..][..i - start] == data[start..i];
          return Success(data[start..i]);
        }
        i := i + 1;
      }
      return Failure(Incomplete);
    }

    method GetDecimal() returns (r: Outcome<int>)
      requires Valid()
      modifies this
      ensures Valid()
      ensures var d := Decimal(old(Rest()));
              if d.Success? then r == Success(d.value.0) && pos == old(pos) + d.value.1
              else r == Failure(d.error)
    {
      var line :- GetLine();
      if !Utf8.Valid(line) {
        return Failure(Other(InvalidUtf8Integer));
      }
      match Decimals.Read(line)
      case None => return Failure(Other(InvalidIntegerDigits));
      case Some(v) => return Success(v);
    }
  }

  /** What a checking method owes its caller: the position moves over a whole frame and no further. */
  ghost predicate Advanced(spec: Outcome<nat>, r: Outcome<()>, before: nat, after: nat) {
    if spec.Success? then r.Success? && after == before + spec.value else r == Failure(spec.error)
  }

  ghost predicate Decoded<T>(spec: Outcome<(T, nat)>, r: Outcome<T>, before: nat, after: nat) {
    if spec.Success? then r == Success(spec.value.0) && after == before + spec.value.1
    else r == Failure(spec.error)
  }

  method CheckBulkAt(src: Cursor) returns (r: Outcome<()>)
    requires src.Valid()
    modifies src
    ensures src.Valid()
    ensures Advanced(CheckBulk(old(src.Rest())), r, old(src.pos), src.pos)
  {
    hide Utf8.Valid, Decimals.Read;
    var b :- src.PeekByte();
    if b == MINUS {
      var line :- src.GetLine();
      return if line == [MINUS, 49] then Success(()) else Failure(Other(InvalidNullBulk));
    }
    var len :- src.GetDecimal();
    if len < 0 {
      return Failure(Other(NegativeBulkLength));
    }
    if |src.data| - src.pos < len + 2 {
      return Failure(Incomplete);
    }
    src.pos := src.pos + len;
    var cr := src.GetByte();
    if cr != Success(CR) {
      return Failure(Other(BulkNotTerminated));
    }
    var lf := src.GetByte();
    return if lf != Success(LF) then Failure(Other(BulkNotTerminated)) else Success(());
  }

  method CheckLeafAt(src: Cursor, kind: byte) returns (r: Outcome<()>)
    requires src.Valid() && src.Rest() != [] && kind == src.Rest()[0]
    modifies src
    ensures src.Valid()
    ensures Advanced(CheckLeaf(old(src.Rest())), r, old(src.pos), src.pos)
  {
    hide Utf8.Valid, Decimal, CheckBulk;
    if kind == PLUS || kind == MINUS {
      var _ := src.GetByte();
      var _ :- src.GetLine();
      return Success(());
    } else if kind == COLON {
      var _ := src.GetByte();
      var _ :- src.GetDecimal();
      return Success(());
    } else if kind == DOLLAR {
      var _ := src.GetByte();
      r := CheckBulkAt(src);
    } else {
      var _ :- src.GetLine();
      return Success(());
    }
  }

  /** Checks that a whole frame lies at the cursor and moves the cursor to its end. */
  method CheckFrame(src: Cursor) returns (r: Outcome<()>)
    requires src.Valid()
    modifies src
    ensures src.Valid()
    ensures Advanced(Check(old(src.Rest())), r, old(src.pos), src.pos)
    decreases |src.Rest()|, 0
  {
    hide Decimal, CheckLeaf;
    if src.pos == |src.data| {
      return Failure(Incomplete);
    }
    var kind := src.data[src.pos];
    if kind != STAR {
      r := CheckLeafAt(src, kind);
      return;
    }
    var _ := src.GetByte();
    var len :- src.GetDecimal();
    if len < 0 {
      return Failure(Other(NegativeArrayLength));
    }
    r := CheckFrames(src, len);
  }

  /** The loop of an array: one whole frame after another. */
  method CheckFrames(src: Cursor, count: nat) returns (r: Outcome<()>)
    requires src.Valid()
    modifies src
    ensures src.Valid()
    ensures Advanced(CheckMany(old(src.Rest()), count), r, old(src.pos), src.pos)
    decreases |src.Rest()|, 1
  {
    hide Check;
    for i := 0 to count
      invariant src.Valid() && old(src.pos) <= src.pos
      invariant CheckMany(old(src.Rest()), count) ==
                match CheckMany(src.Rest(), count - i)
                case Success(n) => Success(n + (src.pos - old(src.pos)))
                case Failure(e) => Failure(e)
    {
      ghost var p := src.pos;
      var _ :- CheckFrame(src);
      assert src.data[p..][src.pos - p..] == src.Rest();
    }
    return Success(());
  }

  lemma SliceOfRest(data: Bytes, at: nat, n: nat, len: nat)
    requires at + n + len <= |data|
    ensures data[at..][n..n + len] == data[at + n..at + n + len]
  {
  }

  method ParseBulkAt(src: Cursor) returns (r: Outcome<Frame>)
    requires src.Valid()
    modifies src
    ensures src.Valid()
    ensures Decoded(ParseBulk(old(src.Rest())), r, old(src.pos), src.pos)
  {
    hide Utf8.Valid, Decimals.Read, Line, Decimal;
    ghost var s := src.Rest();
    var b :- src.PeekByte();
    if b == MINUS {
      var line :- src.GetLine();
      return if line == [MINUS, 49] then Success(Null) else Failure(Other(InvalidNullBulk));
    }
    var len :- src.GetDecimal();
    if len < 0 {
      return Failure(Other(InvalidIntegerConversion));
    }
    if |src.data| - src.pos < len + 2 {
      return Failure(Incomplete);
    }
    var data := src.data[src.pos..src.pos + len];
    ghost var n := Decimal(s).value.1;
    SliceOfRest(src.data, old(src.pos), n, len);
    assert data == s[n..n + len];
    assert src.data[src.pos + len] == s[n + len] && src.data[src.pos + len + 1] == s[n + len + 1];
    src.pos := src.pos + len;
    var cr := src.GetByte();
    if cr != Success(CR) {
      return Failure(Other(BulkNotTerminated));
    }
    var lf := src.GetByte();
    return if lf != Success(LF) then Failure(Other(BulkNotTerminated)) else Success(Bulk(data));
  }

  method ParseTextAt(src: Cursor) returns (r: Outcome<Bytes>)
    requires src.Valid()
    modifies src
    ensures src.Valid()
    ensures Decoded(ParseText(old(src.Rest())), r, old(src.pos), src.pos)
  {
    var line :- src.GetLine();
    return if Utf8.Valid(line) then Success(line) else Failure(Other(InvalidUtf8String));
  }

  method ParseLeafAt(src: Cursor, kind: byte) returns (r: Outcome<Frame>)
    requires src.Valid() && src.Rest() != [] && kind == src.Rest()[0]
    modifies src
    ensures src.Valid()
    ensures Decoded(ParseLeaf(old(src.Rest())), r, old(src.pos), src.pos)
  {
    hide Utf8.Valid, Decimal, ParseBulk;
    if kind == PLUS {
      var _ := src.GetByte();
      var text :- ParseTextAt(src);
      return Success(Simple(text));
    } else if kind == MINUS {
      var _ := src.GetByte();
      var text :- ParseTextAt(src);
      return Success(Error(text));
    } else if kind == COLON {
      var _ := src.GetByte();
      var v :- src.GetDecimal();
      return Success(Integer(v));
    } else if kind == DOLLAR {
      var _ := src.GetByte();
      r := ParseBulkAt(src);
    } else {
      var line :- src.GetLine();
      if !Utf8.Valid(line) {
        return Failure(Other(InvalidUtf8Inline));
      }
      return Success(Array(BulksOf(Utf8.SplitWhitespace(line))));
    }
  }

  /** Decodes the frame at the cursor and moves the cursor to its end. */
  method ParseFrame(src: Cursor) returns (r: Outcome<Frame>)
    requires src.Valid()
    modifies src
    ensures src.Valid()
    ensures Decoded(Parse(old(src.Rest())), r, old(src.pos), src.pos)
    decreases |src.Rest()|, 0
  {
    hide Decimal, ParseLeaf;
    var kind :- src.PeekByte();
    if kind != STAR {
      r := ParseLeafAt(src, kind);
      return;
    }
    var _ := src.GetByte();
    var len :- src.GetDecimal();
    if len < 0 {
      return Failure(Other(InvalidIntegerConversion));
    }
    var items :- ParseFrames(src, len);
    return Success(Array(items));
  }

  method ParseFrames(src: Cursor, count: nat) returns (r: Outcome<seq<Frame>>)
    requires src.Valid()
    modifies src
    ensures src.Valid()
    ensures Decoded(ParseMany(old(src.Rest()), count), r, old(src.pos), src.pos)
    decreases |src.Rest()|, 1
  {
    hide Parse;
    var out: seq<Frame> := [];
    ghost var all := ParseMany(src.Rest(), count);
    assert all.Success? ==> out + all.value.0 == all.value.0;
    for i := 0 to count
      invariant src.Valid() && old(src.pos) <= src.pos
      invariant ParseMany(old(src.Rest()), count) ==
                match ParseMany(src.Rest(), count - i)
                case Success(rest) => Success((out + rest.0, rest.1 + (src.pos - old(src.pos))))
                case Failure(e) => Failure(e)
    {
      ghost var p := src.pos;
      ghost var rest := ParseMany(src.Rest(), count - i);
      var f :- ParseFrame(src);
      assert src.data[p..][src.pos - p..] == src.Rest();
      if rest.Success? {
        assert out + rest.value.0 == (out + [f]) + rest.value.0[1..];
      }
      out := out + [f];
    }
    assert out + [] == out;
    return Success(out);
  }

  /** A growable byte vector. */
  class ByteVec {
    var bytes: Bytes

    constructor ()
      ensures bytes == []
    {
      bytes := [];
    }

    method Extend(more: Bytes)
      modifies this
      ensures bytes == old(bytes) + more
    {
      bytes := bytes + more;
    }
  }

  /** Appends a type byte, a text and CR LF. */
  method WriteLine(kind: byte, text: Bytes, dst: ByteVec)
    modifies dst
    ensures dst.bytes == old(dst.bytes) + ([kind] + text + CRLF)
  {
    dst.Extend([kind]);
    dst.Extend(text);
    dst.Extend(CRLF);
  }

  /** Appends the printed frame to `dst`. */
  method WriteToBuf(f: Frame, dst: ByteVec)
    modifies dst
    ensures dst.bytes == old(dst.bytes) + Encode(f)
    decreases f, 0
  {
    hide Decimals.Show, EncodeAll;
    match f
    case Simple(text) =>
      WriteLine(PLUS, text, dst);
    case Error(text) =>
      WriteLine(MINUS, text, dst);
    case Integer(v) =>
      WriteLine(COLON, Decimals.Show(v), dst);
    case Null =>
      dst.Extend([DOLLAR, MINUS, 49] + CRLF);
    case Bulk(data) =>
      WriteLine(DOLLAR, Decimals.Show(|data|), dst);
      dst.Extend(data);
      dst.Extend(CRLF);
    case Array(items) =>
      WriteLine(STAR, Decimals.Show(|items|), dst);
      WriteItems(items, dst);
  }

  /** Appends the printed items, one after the other. */
  method WriteItems(items: seq<Frame>, dst: ByteVec)
    modifies dst
    ensures dst.bytes == old(dst.bytes) + EncodeAll(items)
    decreases items, 1
  {
    hide Encode;
    assert items[0..] == items;
    for i := 0 to |items|
      invariant dst.bytes + EncodeAll(items[i..]) == old(dst.bytes) + EncodeAll(items)
    {
      assert items[i..][1..] == items[i + 1..];
      WriteToBuf(items[i], dst);
    }
  }
}
