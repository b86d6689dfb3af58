/**
 What a byte stream means to the server, independently of how the network cuts it: the frames it
 holds, in order, and how it ends.
 */
module Sessions {
  import opened Wrappers
  import opened ByteStrings
  import opened Frames
  import FrameLaws

  /** The result of one attempt to read a frame. */
  datatype ReadResult =
    | Got(frame: Frame)
    | CleanEof            // the peer closed between two frames
    | Reset               // the peer closed inside a frame
    | ProtocolError(reason: FormatError)

  /** The first read of a connection whose unread bytes, buffered or still to come, are `d`. */
  function FirstRead(d: Bytes): ReadResult {
    match Check(d)
    case Failure(Incomplete) => if d == [] then CleanEof else Reset
    case Failure(Other(e)) => ProtocolError(e)
    case Success(_) =>
      match Parse(d)
      case Success((f, _)) => Got(f)
      case Failure(Other(e)) => ProtocolError(e)
      case Failure(Incomplete) => Reset  // excluded by ParseAfterCheck
  }

  /** The number of bytes the first read takes out of the buffer. */
  function FirstUsed(d: Bytes): (n: nat)
    ensures n <= |d|
    ensures FirstRead(d).Got? ==> n > 0
  {
    if FirstRead(d).Got? then Check(d).value else 0
  }

  lemma ParseAfterCheck(d: Bytes)
    requires Check(d).Success?
    ensures Parse(d) != Failure(Incomplete)
    ensures Parse(d).Success? ==> Parse(d).value.1 == Check(d).value
  {
    FrameLaws.CheckParseAgree(d);
  }

  /** All frames of the stream `d`, and the read that ends the session. */
  function Session(d: Bytes): (r: (seq<Frame>, ReadResult))
    ensures !r.1.Got?
    decreases |d|
  {
    var first := FirstRead(d);
    if first.Got? then
      var rest := Session(d[FirstUsed(d)..]);
      ([first.frame] + rest.0, rest.1)
    else ([], first)
  }

  /** The bytes that the first `n` frames of the stream `d` take. */
  function Used(d: Bytes, n: nat): (u: nat)
    ensures u <= |d|
  {
    if n == 0 || !FirstRead(d).Got? then 0 else FirstUsed(d) + Used(d[FirstUsed(d)..], n - 1)
  }

  lemma {:induction false} UsedNext(d: Bytes, n: nat)
    requires FirstRead(d[Used(d, n)..]).Got?
    ensures Used(d, n + 1) == Used(d, n) + FirstUsed(d[Used(d, n)..])
    ensures d[Used(d, n + 1)..] == d[Used(d, n)..][FirstUsed(d[Used(d, n)..])..]
    ensures d[..Used(d, n + 1)] == d[..Used(d, n)] + d[Used(d, n)..][..FirstUsed(d[Used(d, n)..])]
  {
    hide FirstRead, FirstUsed;
    if n > 0 && FirstRead(d).Got? {
      var u, rest := FirstUsed(d), d[FirstUsed(d)..];
      assert d[Used(d, n)..] == rest[Used(rest, n - 1)..];
      UsedNext(rest, n - 1);
    }
  }

  /** A read that yields no frame takes nothing out of the buffer. */
  lemma NothingUsed(d: Bytes)
    requires !FirstRead(d).Got? || !FrameLaws.Settled(Check(d))
    ensures FirstUsed(d) == 0 && d[FirstUsed(d)..] == d
    ensures !FrameLaws.Settled(Check(d)) ==> FirstRead(d) == if d == [] then CleanEof else Reset
  {
  }

  lemma SessionUnfold(d: Bytes)
    ensures FirstRead(d).Got? ==>
              Session(d) == ([FirstRead(d).frame] + Session(d[FirstUsed(d)..]).0, Session(d[FirstUsed(d)..]).1)
    ensures !FirstRead(d).Got? ==> Session(d) == ([], FirstRead(d)) && FirstUsed(d) == 0
  {
    hide Check, Parse, FirstRead;
  }

  /**
   A frame is delivered as soon as its last byte is buffered: more input does not change a read
   that succeeded or failed on its format.
   */
  lemma FirstReadExtends(d: Bytes, more: Bytes)
    requires FrameLaws.Settled(Check(d))
    ensures FirstRead(d + more) == FirstRead(d) && FirstUsed(d + more) == FirstUsed(d)
  {
    FrameLaws.CheckExtends(d, more);
    if Check(d).Success? {
      ParseAfterCheck(d);
      FrameLaws.ParseExtends(d, more);
    }
  }

  lemma SessionStep(f: Frame, rest: Bytes)
    requires Printable(f)
    ensures Session(Encode(f) + rest) == ([f] + Session(rest).0, Session(rest).1)
  {
    hide Check, Parse, Encode;
    FrameLaws.RoundTrip(f, rest);
    FrameLaws.CheckEncode(f, rest);
    assert (Encode(f) + rest)[|Encode(f)|..] == rest;
  }

  /**
   A pipeline of printed frames is read back frame by frame, and the session then goes on with the
   bytes that follow it.
   */
  lemma {:induction false} SessionOfPipeline(fs: seq<Frame>, more: Bytes)
    requires AllPrintable(fs)
    ensures Session(EncodeAll(fs) + more) == (fs + Session(more).0, Session(more).1)
  {
    hide Check, Parse, Encode, Session;
    if fs == [] {
      assert EncodeAll(fs) + more == more && fs + Session(more).0 == Session(more).0;
    } else {
      SessionStep(fs[0], EncodeAll(fs[1..]) + more);
      assert EncodeAll(fs) + more == Encode(fs[0]) + (EncodeAll(fs[1..]) + more);
      SessionOfPipeline(fs[1..], more);
      assert [fs[0]] + (fs[1..] + Session(more).0) == fs + Session(more).0;
    }
  }

  /** Cut off inside a further frame, the pipeline is still read in full, and the cut is noticed. */
  lemma SessionOfCutPipeline(fs: seq<Frame>, f: Frame, k: nat)
    requires AllPrintable(fs) && Printable(f) && k < |Encode(f)|
    ensures Session(EncodeAll(fs) + Encode(f)[..k]) == (fs, if k == 0 then CleanEof else Reset)
  {
    hide Parse, Encode;
    var cut := Encode(f)[..k];
    assert Encode(f) + [] == Encode(f);
    FrameLaws.CheckEncode(f, []);
    FrameLaws.CheckStrictPrefix(Encode(f), k);
    SessionOfPipeline(fs, cut);
    assert fs + [] == fs;
  }
}
