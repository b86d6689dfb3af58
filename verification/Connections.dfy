/**
 The framed connection: a read buffer that is filled in chunks of the network's choosing, and a
 buffered writer. The socket is the sequence of chunks still to arrive and the bytes sent so far.
 */
module Connections {
  import opened Wrappers
  import opened ByteStrings
  import opened Frames
  import opened Sessions
  import FrameLaws
  import FrameCodec

  /** The state of the connection when it waited for the peer. */
  datatype Wait = Wait(consumed: Bytes, buffered: Bytes, unflushed: Bytes)

  /**
   The waits of one read: nothing is sent or consumed between them, the buffer holds no whole frame,
   and only the first wait can find it empty.
   */
  ghost predicate Stalls(ws: seq<Wait>, consumed: Bytes, buffer: Bytes, unflushed: Bytes) {
    forall i :: 0 <= i < |ws| ==>
      && ws[i].unflushed == unflushed && ws[i].consumed == consumed
      && Check(ws[i].buffered) == Failure(Incomplete)
      && (if i == 0 then ws[i].buffered == buffer else ws[i].buffered != [])
  }

  lemma StallsStep(ws: seq<Wait>, consumed: Bytes, buffer: Bytes, unflushed: Bytes, now: Bytes)
    ensures Stalls([], consumed, buffer, unflushed)
    ensures Stalls(ws, consumed, buffer, unflushed) && Check(now) == Failure(Incomplete)
            && (if ws == [] then now == buffer else now != [])
            ==> Stalls(ws + [Wait(consumed, now, unflushed)], consumed, buffer, unflushed)
  {
  }

  /** The bytes of the first `n` reads. */
  ghost function Heard(chunks: seq<Bytes>, n: nat): Bytes {
    Flatten(chunks[..if n < |chunks| then n else |chunks|])
  }

  /** What is still to come after `n` reads. */
  ghost function ToCome(chunks: seq<Bytes>, n: nat): seq<Bytes> {
    chunks[if n < |chunks| then n else |chunks|..]
  }

  lemma HeardNext(chunks: seq<Bytes>, n: nat)
    ensures n < |chunks| ==>
              && Heard(chunks, n + 1) == Heard(chunks, n) + chunks[n]
              && ToCome(chunks, n) != [] && ToCome(chunks, n)[0] == chunks[n]
              && ToCome(chunks, n + 1) == ToCome(chunks, n)[1..]
    ensures n >= |chunks| ==>
              ToCome(chunks, n) == [] && ToCome(chunks, n + 1) == [] && Heard(chunks, n + 1) == Heard(chunks, n)
  {
    if n < |chunks| {
      assert chunks[..n + 1] == chunks[..n] + [chunks[n]];
      FlattenAppend(chunks[..n], [chunks[n]]);
      FlattenOne(chunks[n]);
    }
  }

  /** Each wait was followed by one read, and the reads bring the peer's bytes in order. */
  ghost predicate InStep(waits: seq<Wait>, chunks: seq<Bytes>) {
    forall j :: 0 <= j < |waits| ==> waits[j].consumed + waits[j].buffered == Heard(chunks, j)
  }

  lemma InStepNext(waits: seq<Wait>, chunks: seq<Bytes>, w: Wait)
    ensures InStep([], chunks)
    ensures InStep(waits, chunks) && w.consumed + w.buffered == Heard(chunks, |waits|) ==> InStep(waits + [w], chunks)
  {
    hide Heard;
  }

  /**
   What a buffered writer of some capacity holds after it took `bytes`. They are added to what it holds
   if there is room, after sending that if there is not. Bytes that fill the whole buffer are passed
   on, and of them at most a last piece shorter than the buffer is held.
   */
  ghost predicate Holds(before: Bytes, after: Bytes, bytes: Bytes, capacity: nat) {
    if |bytes| < capacity then after == if |before| + |bytes| <= capacity then before + bytes else bytes
    else |after| <= |bytes| && (|after| < capacity || after == []) && after == bytes[|bytes| - |after|..]
  }

  /** Moving `n` bytes from the buffer to the consumed ones leaves the stream as it is. */
  lemma TakeFirst(consumed: Bytes, buffer: Bytes, rest: Bytes, n: nat)
    requires n <= |buffer|
    ensures (buffer + rest)[n..] == buffer[n..] + rest
    ensures (consumed + buffer[..n]) + (buffer[n..] + rest) == consumed + (buffer + rest)
  {
    assert buffer == buffer[..n] + buffer[n..];
  }

  /** A buffered writer never holds more than its capacity. */
  lemma HoldsWithinCapacity(before: Bytes, after: Bytes, bytes: Bytes, capacity: nat)
    requires Holds(before, after, bytes, capacity) && |before| <= capacity
    ensures |after| <= capacity
  {
  }

  class Connection {
    const capacity: nat           // of the buffered writer
    ghost const chunks: seq<Bytes> // everything the peer ever sends, read by read
    var buffer: Bytes             // received and not yet consumed
    var incoming: seq<Bytes>      // the reads still to come; an empty list is end of file
    var pending: Bytes            // written and not yet on the wire
    var wire: Bytes               // sent
    ghost var received: Bytes
    ghost var consumed: Bytes
    ghost var waits: seq<Wait>

    /** Reads are never empty, and the received bytes are the consumed ones and the buffer. */
    ghost predicate Valid()
      reads this
    {
      && (forall i :: 0 <= i < |incoming| ==> incoming[i] != [])
      && received == consumed + buffer
      && received == Heard(chunks, |waits|) && incoming == ToCome(chunks, |waits|)
      && InStep(waits, chunks)
    }

    /** Every byte the peer sent that no frame has consumed. */
    ghost function Unread(): Bytes
      reads this
    {
      buffer + Flatten(incoming)
    }

    /** The whole stream of the peer: consumed, buffered, or still to come. */
    ghost function Stream(): Bytes
      reads this
    {
      consumed + Unread()
    }

    /** Every byte written by the server. */
    ghost function Written(): Bytes
      reads this
    {
      wire + pending
    }

    constructor (incoming: seq<Bytes>, capacity: nat)
      requires forall i :: 0 <= i < |incoming| ==> incoming[i] != []
      ensures this.capacity == capacity && chunks == incoming && consumed == []
      ensures Valid() && Unread() == Flatten(incoming) && Written() == [] && waits == []
      ensures buffer == [] && pending == []
    {
      this.incoming, this.capacity, chunks := incoming, capacity, incoming;
      buffer, pending, wire := [], [], [];
      received, consumed, waits := [], [], [];
    }

    /** One `read_buf`: waits for the next chunk; zero bytes at end of file. */
    method ReadBuf() returns (n: nat)
      requires Valid()
      modifies this
      ensures Valid()
      ensures Unread() == old(Unread()) && consumed == old(consumed)
      ensures wire == old(wire) && pending == old(pending)
      ensures n == 0 <==> old(incoming) == []
      ensures n == 0 ==> buffer == old(buffer) && incoming == old(incoming) && Unread() == buffer
      ensures n > 0 ==> incoming == old(incoming)[1..] && buffer == old(buffer) + old(incoming)[0]
      ensures waits == old(waits) + [Wait(old(consumed), old(buffer), old(pending))]
      ensures n == 0 ==> |waits| > |chunks|
    {
      hide Heard, ToCome, InStep;
      HeardNext(chunks, |waits|);
      InStepNext(waits, chunks, Wait(consumed, buffer, pending));
      waits := waits + [Wait(consumed, buffer, pending)];
      if incoming == [] {
        return 0;
      }
      var chunk := incoming[0];
      assert (buffer + chunk) + Flatten(incoming[1..]) == buffer + Flatten(incoming);
      assert (consumed + buffer) + chunk == consumed + (buffer + chunk);
      buffer, incoming := buffer + chunk, incoming[1..];
      received := received + chunk;
      return |chunk|;
    }

    /** Tries to take one frame out of the buffer. */
    method ParseBuffered() returns (r: Result<Option<Frame>, FormatError>)
      requires Valid()
      modifies this
      ensures Valid()
      ensures incoming == old(incoming) && wire == old(wire) && pending == old(pending)
      ensures waits == old(waits) && received == old(received)
      ensures Check(old(buffer)) == Failure(Incomplete) ==> r == Success(None)
      ensures FrameLaws.Settled(Check(old(buffer))) ==>
                match FirstRead(old(buffer))
                case Got(f) => r == Success(Some(f))
                case ProtocolError(e) => r == Failure(e)
                case _ => false
      ensures r == Success(None) ==> buffer == old(buffer)
      ensures r.Failure? ==> buffer == old(buffer)
      ensures r.Failure? || r.value.None? ==> consumed == old(consumed)
      ensures r.Success? && r.value.Some? ==>
                buffer == old(buffer)[FirstUsed(old(buffer))..]
                && consumed == old(consumed) + old(buffer)[..FirstUsed(old(buffer))]
    {
      hide Check, Parse, Flatten, Heard, ToCome, InStep;
      var cursor := new FrameCodec.Cursor(buffer);
      assert cursor.Rest() == buffer;
      var checked := FrameCodec.CheckFrame(cursor);
      if checked.Failure? {
        match checked.error {
          case Incomplete => return Success(None);
          case Other(e) => return Failure(e);
        }
      }
      var len := cursor.pos;
      cursor.pos := 0;
      assert cursor.Rest() == buffer;
      ParseAfterCheck(buffer);
      var parsed := FrameCodec.ParseFrame(cursor);
      match parsed {
        case Success(f) =>
          TakeFirst(consumed, buffer, [], len);
          assert consumed + buffer[..len] + buffer[len..] == consumed + buffer;
          consumed, buffer := consumed + buffer[..len], buffer[len..];
          return Success(Some(f));
        case Failure(Other(e)) =>
          return Failure(e);
      }
    }

    /**
     Reads one frame. The answer is a function of the unread bytes alone: how they are spread over
     the buffer and the reads to come does not matter.
     */
    method ReadFrame() returns (r: ReadResult, ghost ws: seq<Wait>)
      requires Valid()
      modifies this
      ensures Valid()
      ensures wire == old(wire) && pending == old(pending)
      ensures r == FirstRead(old(Unread()))
      ensures Unread() == old(Unread())[FirstUsed(old(Unread()))..]
      ensures Stream() == old(Stream())
      ensures consumed == old(consumed) + old(Unread())[..FirstUsed(old(Unread()))]
      ensures waits == old(waits) + ws && Stalls(ws, old(consumed), old(buffer), old(pending))
      ensures r.CleanEof? || r.Reset? ==> |waits| > |chunks|
    {
      hide Check, Parse, FirstRead, FirstUsed, Flatten, Stalls, Heard, ToCome, InStep;
      ws := [];
      StallsStep([], consumed, buffer, pending, buffer);
      while true
        invariant Valid()
        invariant wire == old(wire) && pending == old(pending)
        invariant Unread() == old(Unread()) && consumed == old(consumed)
        invariant waits == old(waits) + ws && Stalls(ws, old(consumed), old(buffer), old(pending))
        invariant if ws == [] then buffer == old(buffer) else buffer != []
        decreases |incoming|
      {
        ghost var b, u := buffer, Unread();
        var parsed := ParseBuffered();
        if FrameLaws.Settled(Check(b)) {
          FirstReadExtends(b, Flatten(incoming));
        }
        if parsed.Failure? {
          NothingUsed(u);
          return ProtocolError(parsed.error), ws;
        }
        if parsed.value.Some? {
          TakeFirst(old(consumed), b, Flatten(incoming), FirstUsed(b));
          assert u[..FirstUsed(b)] == b[..FirstUsed(b)];
          return Got(parsed.value.value), ws;
        }
        StallsStep(ws, consumed, old(buffer), pending, buffer);
        ws := ws + [Wait(consumed, buffer, pending)];
        var n := ReadBuf();
        if n == 0 {
          assert u == buffer;
          NothingUsed(u);
          return if buffer == [] then CleanEof else Reset, ws;
        }
      }
    }

    /** Reads frames until the session ends. */
    method Drain() returns (frames: seq<Frame>, ending: ReadResult)
      requires Valid()
      modifies this
      ensures Valid()
      ensures (frames, ending) == Session(old(Unread()))
      ensures Stream() == old(Stream())
    {
      hide Check, Parse, FirstRead, Session;
      frames := [];
      ghost var d := Unread();
      assert frames + Session(d).0 == Session(d).0;
      while true
        invariant Valid() && Stream() == old(Stream())
        invariant Session(d) == (frames + Session(Unread()).0, Session(Unread()).1)
        decreases |Unread()|
      {
        SessionUnfold(Unread());
        ghost var rest := Session(Unread()).0;
        var read, _ := ReadFrame();
        if !read.Got? {
          assert frames + [] == frames;
          return frames, read;
        }
        assert frames + rest == (frames + [read.frame]) + Session(Unread()).0;
        frames := frames + [read.frame];
      }
    }

    method HasQueuedBytes() returns (b: bool)
      ensures b <==> buffer != []
    {
      b := buffer != [];
    }

    /** Hands a printed frame to the buffered writer. */
    method WriteFrameBuffered(f: Frame)
      requires Valid()
      modifies this
      ensures Valid()
      ensures Written() == old(Written()) + Encode(f) && old(wire) <= wire
      ensures Holds(old(pending), pending, Encode(f), capacity)
      ensures Unread() == old(Unread()) && buffer == old(buffer) && incoming == old(incoming)
      ensures waits == old(waits) && consumed == old(consumed)
    {
      hide Encode, Heard, ToCome, InStep;
      var buf := new FrameCodec.ByteVec();
      FrameCodec.WriteToBuf(f, buf);
      var bytes := buf.bytes;
      assert wire + pending + bytes == (wire + pending) + [] + bytes;
      if |pending| + |bytes| > capacity {
        wire, pending := wire + pending, [];
      }
      if |bytes| >= capacity {
        // the socket may take the bytes in pieces; a last one that fits the buffer is held there
        var held: nat :| held <= |bytes| && (held < capacity || held == 0);
        var direct := |bytes| - held;
        assert bytes == bytes[..direct] + bytes[direct..];
        wire, pending := wire + bytes[..direct], bytes[direct..];
      } else {
        pending := pending + bytes;
      }
    }

    method Flush()
      requires Valid()
      modifies this
      ensures Valid()
      ensures pending == [] && wire == old(Written()) && Written() == old(Written())
      ensures Unread() == old(Unread()) && buffer == old(buffer) && incoming == old(incoming)
      ensures waits == old(waits) && consumed == old(consumed)
    {
      hide Heard, ToCome, InStep;
      wire, pending := wire + pending, [];
    }

    method WriteFrame(f: Frame)
      requires Valid()
      modifies this
      ensures Valid()
      ensures pending == [] && Written() == old(Written()) + Encode(f)
      ensures Unread() == old(Unread()) && buffer == old(buffer) && incoming == old(incoming)
      ensures waits == old(waits) && consumed == old(consumed)
    {
      hide Encode, Heard, ToCome, InStep, Holds;
      WriteFrameBuffered(f);
      Flush();
    }
  }

  /** Two connections over the same bytes, cut differently, read the same frames and end alike. */
  method ChunkingIndependence(xs: seq<Bytes>, ys: seq<Bytes>)
    returns (fs: seq<Frame>, gs: seq<Frame>, x: ReadResult, y: ReadResult)
    requires forall i :: 0 <= i < |xs| ==> xs[i] != []
    requires forall i :: 0 <= i < |ys| ==> ys[i] != []
    requires Flatten(xs) == Flatten(ys)
    ensures fs == gs && x == y && (fs, x) == Session(Flatten(xs))
  {
    var a := new Connection(xs, 0);
    fs, x := a.Drain();
    var b := new Connection(ys, 0);
    gs, y := b.Drain();
  }
}
