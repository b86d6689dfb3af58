/** Bytes, byte strings and the control characters of the wire format. */
module ByteStrings {

  type byte = b: int | 0 <= b < 256

  type Bytes = seq<byte>

  /** The 64-bit counters and access times of the program are below this. */
  const WORD: nat := 0x1_0000_0000_0000_0000

  const CR: byte := 13
  const LF: byte := 10
  const CRLF: Bytes := [13, 10]

  const PLUS: byte := 43
  const MINUS: byte := 45
  const COLON: byte := 58
  const DOLLAR: byte := 36
  const STAR: byte := 42
  const ZERO: byte := 48

  /** Several chunks, one after the other. */
  function Flatten<T>(chunks: seq<seq<T>>): seq<T> {
    if chunks == [] then [] else chunks[0] + Flatten(chunks[1..])
  }

  lemma {:induction false} FlattenAppend<T>(xs: seq<seq<T>>, ys: seq<seq<T>>)
    ensures Flatten(xs + ys) == Flatten(xs) + Flatten(ys)
  {
    if xs == [] {
      assert xs + ys == ys;
    } else {
      assert (xs + ys)[1..] == xs[1..] + ys;
      FlattenAppend(xs[1..], ys);
    }
  }

  lemma FlattenOne<T>(chunk: seq<T>)
    ensures Flatten([chunk]) == chunk
  {
    assert Flatten([chunk]) == chunk + Flatten([]);
  }

  lemma FlattenSplit<T>(chunks: seq<seq<T>>, k: nat)
    requires k <= |chunks|
    ensures Flatten(chunks) == Flatten(chunks[..k]) + Flatten(chunks[k..])
  {
    FlattenAppend(chunks[..k], chunks[k..]);
    assert chunks == chunks[..k] + chunks[k..];
  }
}
