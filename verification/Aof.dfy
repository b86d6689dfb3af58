/**
 The append-only log: records are queued, a writer appends them to the file in order, and at start
 the file is replayed. A crash leaves some prefix of the file; replay recovers the whole commands of
 that prefix and nothing else.
 */
module AppendLog {
  import opened Wrappers
  import opened ByteStrings
  import opened Frames
  import opened Sessions
  import opened Store
  import opened Database
  import opened Eviction
  import opened Expiry
  import opened Runs
  import FrameLaws
  import FrameCodec
  import Sharding

  datatype Message = Record(bytes: Bytes) | FlushRequest

  function Queued(channel: seq<Message>): Bytes {
    if channel == [] then []
    else (if channel[0].Record? then channel[0].bytes else []) + Queued(channel[1..])
  }

  lemma {:induction false} QueuedAppend(channel: seq<Message>, m: Message)
    ensures Queued(channel + [m]) == Queued(channel) + if m.Record? then m.bytes else []
  {
    if channel == [] {
      assert channel + [m] == [m] && [m][1..] == [];
    } else {
      assert (channel + [m])[1..] == channel[1..] + [m];
      QueuedAppend(channel[1..], m);
    }
  }

  lemma {:induction false} EncodeAllAppend(fs: seq<Frame>, gs: seq<Frame>)
    ensures EncodeAll(fs + gs) == EncodeAll(fs) + EncodeAll(gs)
  {
    hide Encode;
    if fs == [] {
      assert fs + gs == gs;
    } else {
      assert (fs + gs)[1..] == fs[1..] + gs;
      EncodeAllAppend(fs[1..], gs);
    }
  }

  lemma EncodeAllOne(f: Frame)
    ensures EncodeAll([f]) == Encode(f)
  {
    hide Encode;
    assert EncodeAll([f]) == Encode(f) + EncodeAll([]);
  }

  lemma Regroup(file: Bytes, buffered: Bytes, bytes: Bytes, queued: Bytes, n: nat)
    requires n <= |buffered + bytes|
    ensures (file + (buffered + bytes)[..n]) + (buffered + bytes)[n..] + queued == file + buffered + (bytes + queued)
  {
    var all := buffered + bytes;
    assert all[..n] + all[n..] == all;
  }

  lemma RecordedNext(written: Bytes, channel: seq<Message>, recorded: seq<Frame>, f: Frame, bytes: Bytes)
    requires written + Queued(channel) == EncodeAll(recorded) && bytes == Encode(f)
    ensures written + Queued(channel + [Record(bytes)]) == EncodeAll(recorded + [f])
  {
    hide Encode, EncodeAll, Queued;
    QueuedAppend(channel, Record(bytes));
    EncodeAllAppend(recorded, [f]);
    EncodeAllOne(f);
    assert written + (Queued(channel) + bytes) == (written + Queued(channel)) + bytes;
  }

  /** What the request loop does with a frame, in the order in which it does it. */
  datatype Action = Recorded(frame: Frame) | Applied(frame: Frame)

  /** The log of one session, opened on a file without a torn tail. */
  class Aof {
    var channel: seq<Message>
    var buffered: Bytes       // taken from the channel, not yet in the file
    var file: Bytes
    ghost var recorded: seq<Frame>
    ghost var trace: seq<Action>

    /** The file, the writer's buffer and the queue hold the prints of the recorded frames, in order. */
    ghost predicate Valid()
      reads this
    {
      file + buffered + Queued(channel) == EncodeAll(recorded)
    }

    constructor ()
      ensures Valid() && recorded == [] && file == [] && trace == []
    {
      channel, buffered, file, recorded, trace := [], [], [], [], [];
    }

    method RecordFrame(f: Frame)
      requires Valid()
      modifies this
      ensures Valid() && recorded == old(recorded) + [f] && trace == old(trace) + [Recorded(f)]
      ensures file == old(file)
    {
      hide Encode, EncodeAll, Queued;
      var buf := new FrameCodec.ByteVec();
      FrameCodec.WriteToBuf(f, buf);
      RecordedNext(file + buffered, channel, recorded, f, buf.bytes);
      channel := channel + [Record(buf.bytes)];
      recorded, trace := recorded + [f], trace + [Recorded(f)];
    }

    /** The writer takes one message; its buffer may spill to the file at any time. */
    method WriterStep()
      requires Valid() && channel != []
      modifies this
      ensures Valid() && recorded == old(recorded) && trace == old(trace) && channel == old(channel)[1..]
      ensures old(file) <= file
      ensures old(channel)[0].FlushRequest? ==> buffered == []
    {
      ghost var queued := Queued(channel[1..]);
      match channel[0] {
        case Record(bytes) =>
          var all := buffered + bytes;
          var spilled: nat :| spilled <= |all|;
          Regroup(file, buffered, bytes, queued, spilled);
          file, buffered := file + all[..spilled], all[spilled..];
        case FlushRequest =>
          Regroup(file, buffered, [], queued, |buffered|);
          assert (buffered + [])[..|buffered|] == buffered && (buffered + [])[|buffered|..] == [];
          file, buffered := file + buffered, [];
      }
      channel := channel[1..];
    }

    /** Queues a flush request and waits for the writer: afterwards every record is in the file. */
    method Sync()
      requires Valid()
      modifies this
      ensures Valid() && recorded == old(recorded) && trace == old(trace)
      ensures file == EncodeAll(recorded)
    {
      QueuedAppend(channel, FlushRequest);
      assert Queued(channel) + [] == Queued(channel);
      channel := channel + [FlushRequest];
      while channel != []
        invariant Valid() && recorded == old(recorded) && trace == old(trace)
        invariant channel == [] ==> buffered == []
        invariant channel != [] ==> channel[|channel| - 1].FlushRequest?
        decreases |channel|
      {
        WriterStep();
      }
      assert file + [] + [] == file;
    }
  }

  // ----- what a cut log holds -----

  /** The number of whole prints in the first `k` bytes. */
  function WholeFrames(fs: seq<Frame>, k: nat): (n: nat)
    ensures n <= |fs|
  {
    if fs == [] || |Encode(fs[0])| > k then 0
    else 1 + WholeFrames(fs[1..], k - |Encode(fs[0])|)
  }

  /** It is the longest prefix of the frames that fits. */
  lemma {:induction false} WholeFramesFit(fs: seq<Frame>, k: nat)
    ensures var n := WholeFrames(fs, k);
            && n <= |fs| && |EncodeAll(fs[..n])| <= k
            && (n < |fs| ==> k < |EncodeAll(fs[..n + 1])|)
  {
    hide Encode;
    var n := WholeFrames(fs, k);
    if fs == [] {
    } else if |Encode(fs[0])| > k {
      assert fs[..1] == [fs[0]];
      EncodeAllOne(fs[0]);
    } else {
      WholeFramesFit(fs[1..], k - |Encode(fs[0])|);
      assert fs[..n][1..] == fs[1..][..n - 1];
      if n < |fs| {
        assert fs[..n + 1][1..] == fs[1..][..n];
      }
    }
  }

  /**
   Crash recovery: cutting the log of any recorded frames after any byte leaves a stream that holds
   exactly the longest prefix of whole frames, and ends there, cleanly or inside a frame; never a
   wrong or partial frame, never a format error.
   */
  lemma CrashRecovery(fs: seq<Frame>, k: nat)
    requires AllPrintable(fs) && k <= |EncodeAll(fs)|
    ensures Session(EncodeAll(fs)[..k]).0 == fs[..WholeFrames(fs, k)]
    ensures Session(EncodeAll(fs)[..k]).1 ==
            if k == |EncodeAll(fs[..WholeFrames(fs, k)])| then CleanEof else Reset
  {
    hide Session, Encode, WholeFrames, EncodeAll;
    var n := WholeFrames(fs, k);
    WholeFramesFit(fs, k);
    if n == |fs| {
      assert fs[..n] == fs;
      assert EncodeAll(fs)[..k] == EncodeAll(fs) + [];
      SessionOfPipeline(fs, []);
      SessionOfNothing();
      assert fs + [] == fs;
    } else {
      var r := k - |EncodeAll(fs[..n])|;
      CutInside(fs, n, r);
      SessionOfCutPipeline(fs[..n], fs[n], r);
    }
  }

  /** A cut inside the print of frame `n`. */
  lemma CutInside(fs: seq<Frame>, n: nat, r: nat)
    requires n < |fs| && |EncodeAll(fs[..n])| + r < |EncodeAll(fs[..n + 1])|
    ensures r < |Encode(fs[n])|
    ensures |EncodeAll(fs[..n])| + r <= |EncodeAll(fs)|
    ensures EncodeAll(fs)[..|EncodeAll(fs[..n])| + r] == EncodeAll(fs[..n]) + Encode(fs[n])[..r]
  {
    hide Encode, EncodeAll;
    EncodeAllAppend(fs[..n], [fs[n]]);
    EncodeAllOne(fs[n]);
    assert fs[..n + 1] == fs[..n] + [fs[n]];
    EncodeAllAppend(fs[..n + 1], fs[n + 1..]);
    assert fs[..n + 1] + fs[n + 1..] == fs;
  }

  lemma SessionOfNothing()
    ensures Session([]) == ([], CleanEof)
  {
  }

  // ----- replay -----

  /** The command a frame stands for when it is parsed at some time, if any. */
  type Parser = (Frame, nat) -> Option<Command>

  ghost predicate ProperParser(parse: Parser) {
    forall f, now :: parse(f, now).Some? ==> parse(f, now).value.Proper()
  }

  /** The commands of the frames that parse, run at the given times. */
  function ReplayEvents(parse: Parser, frames: seq<Frame>, times: seq<(nat, nat)>): seq<Event>
    requires |frames| == |times|
  {
    if frames == [] then []
    else
      var n := |frames| - 1;
      var before := ReplayEvents(parse, frames[..n], times[..n]);
      match parse(frames[n], times[n].0)
      case None => before
      case Some(c) => before + [Run(c, times[n].0, times[n].1)]
  }

  /** `frames` are the frames of `buf` before its unread rest `d`. */
  ghost predicate ReadUpTo(buf: Bytes, frames: seq<Frame>, d: Bytes) {
    Session(buf) == (frames + Session(d).0, Session(d).1)
  }

  lemma ReadStarts(buf: Bytes)
    ensures buf[0..] == buf && ReadUpTo(buf, [], buf)
  {
    assert [] + Session(buf).0 == Session(buf).0;
  }

  lemma ReadNext(buf: Bytes, frames: seq<Frame>, d: Bytes, f: Frame)
    requires ReadUpTo(buf, frames, d) && FirstRead(d) == Got(f)
    ensures ReadUpTo(buf, frames + [f], d[FirstUsed(d)..])
  {
    hide Session, FirstRead, FirstUsed;
    SessionUnfold(d);
    var rest := Session(d[FirstUsed(d)..]).0;
    assert frames + ([f] + rest) == (frames + [f]) + rest;
  }

  lemma ReadEnds(buf: Bytes, frames: seq<Frame>, d: Bytes)
    requires ReadUpTo(buf, frames, d) && !FirstRead(d).Got?
    ensures Session(buf) == (frames, FirstRead(d))
  {
    hide Session, FirstRead, FirstUsed;
    SessionUnfold(d);
    assert frames + [] == frames;
  }

  /** A session that ends at a text that is not UTF-8. */
  ghost predicate EndsAtBadText(r: ReadResult) {
    r == ProtocolError(InvalidUtf8String) || r == ProtocolError(InvalidUtf8Inline)
  }

  /** Runs the command of a frame, if it has one, at some time. */
  method RunFrame(db: Db, parse: Parser, frame: Frame)
    returns (ran: bool, ghost room: Table, ghost reply: Reply, ghost time: (nat, nat))
    requires db.Valid() && ProperParser(parse)
    modifies db
    ensures db.Valid() && db.Sharded() && (ran <==> parse(frame, time.0).Some?)
    ensures ran ==>
              LimitedStep(old(db.Contents()), old(db.uncharged), room, db.Contents(), db.uncharged,
                          Run(parse(frame, time.0).value, time.0, time.1), Some(reply), db.AsSetup())
    ensures !ran ==> db.Contents() == old(db.Contents()) && db.uncharged == old(db.uncharged)
  {
    hide LazyStep, RoomFor, Uncharged, Db.Balanced, Sharding.Flat, Sharding.Placed;
    db.IsSharded();
    var now: nat, millis: nat := *, *;
    room, reply, time := db.Contents(), Nil, (now, millis);
    var cmd := parse(frame, now);
    ran := cmd.Some?;
    if ran {
      var answer;
      answer, room := db.Apply(cmd.value, now, millis);
      reply := answer;
      db.IsSharded();
    }
  }

  /** Takes one frame off the file: a check, then a decoding of the checked bytes alone. */
  method NextFrame(cursor: FrameCodec.Cursor) returns (r: Result<Frame, Option<FormatError>>)
    requires cursor.Valid()
    modifies cursor
    ensures cursor.Valid()
    ensures match r
            case Success(f) =>
              && FirstRead(old(cursor.Rest())) == Got(f)
              && cursor.Rest() == old(cursor.Rest())[FirstUsed(old(cursor.Rest()))..] && old(cursor.pos) < cursor.pos
            case Failure(None) => !FirstRead(old(cursor.Rest())).Got? && !EndsAtBadText(FirstRead(old(cursor.Rest())))
            case Failure(Some(e)) =>
              FirstRead(old(cursor.Rest())) == ProtocolError(e) && EndsAtBadText(FirstRead(old(cursor.Rest())))
  {
    hide Check, Parse, FirstRead, FirstUsed, EndsAtBadText;
    ghost var d := cursor.Rest();
    FirstReadParts(d);
    var startPos := cursor.pos;
    var checked := FrameCodec.CheckFrame(cursor);
    if checked.Failure? {
      return Failure(None);
    }
    var endPos := cursor.pos;
    var parseCursor := new FrameCodec.Cursor(cursor.data[startPos..endPos]);
    assert parseCursor.Rest() == d[..Check(d).value];
    var parsed := FrameCodec.ParseFrame(parseCursor);
    if parsed.Failure? {
      match parsed.error {
        case Other(e) => return Failure(Some(e));
      }
    }
    assert cursor.Rest() == d[Check(d).value..];
    return Success(parsed.value);
  }

  /**
   Replays a file: frame by frame until the end, an incomplete frame or a format error; a text that is
   not UTF-8, and nothing else, is reported as a failure.
   */
  method Load(buf: Bytes, db: Db, parse: Parser)
    returns (r: Result<nat, FormatError>, ghost frames: seq<Frame>, ghost times: seq<(nat, nat)>, ghost h: Course)
    requires db.Valid() && ProperParser(parse)
    modifies db
    ensures db.Valid()
    ensures frames == Session(buf).0 && |times| == |frames|
    ensures r.Failure? <==> EndsAtBadText(Session(buf).1)
    ensures r.Failure? ==> Session(buf).1 == ProtocolError(r.error)
    ensures r.Success? ==> r.value == |ReplayEvents(parse, frames, times)|
    ensures Leads(h, ReplayEvents(parse, frames, times), db.AsSetup(),
                  old(db.Contents()), old(db.uncharged), db.Contents(), db.uncharged)
  {
    hide Check, Parse, FirstRead, FirstUsed, Session, ReadUpTo, ReplayEvents, Leads, LimitedStep;
    hide EndsAtBadText, Db.Balanced, Sharding.Flat, Sharding.Placed;
    db.IsSharded();
    var cursor := new FrameCodec.Cursor(buf);
    var count := 0;
    ghost var t0, u0 := db.Contents(), db.uncharged;
    frames, times, h := [], [], Course([t0], [u0], [], []);
    ReadStarts(buf);
    ReplayStarts(parse, db.AsSetup(), t0, u0);
    while cursor.pos < |buf|
      invariant cursor.Valid() && cursor.data == buf && fresh(cursor)
      invariant db.Valid() && db.Sharded() && |times| == |frames|
      invariant ReadUpTo(buf, frames, cursor.Rest())
      invariant count == |ReplayEvents(parse, frames, times)|
      invariant Leads(h, ReplayEvents(parse, frames, times), db.AsSetup(), t0, u0, db.Contents(), db.uncharged)
      decreases |buf| - cursor.pos
    {
      ghost var d, t, u := cursor.Rest(), db.Contents(), db.uncharged;
      var next := NextFrame(cursor);
      if next.Failure? {
        ReadEnds(buf, frames, d);
        match next.error {
          case None => return Success(count), frames, times, h;
          case Some(e) => return Failure(e), frames, times, h;
        }
      }
      var frame := next.value;
      ReadNext(buf, frames, d, frame);
      var ran, room, reply, time := RunFrame(db, parse, frame);
      ReplayNext(parse, frames, times, frame, time);
      if ran {
        LeadsOn(h, ReplayEvents(parse, frames, times), db.AsSetup(), t0, u0, t, u, room, db.Contents(), db.uncharged,
                Run(parse(frame, time.0).value, time.0, time.1), Some(reply));
        h := h.Then(room, db.Contents(), db.uncharged, Some(reply));
        count := count + 1;
      }
      frames, times := frames + [frame], times + [time];
    }
    assert cursor.Rest() == [];
    FirstReadOfNothing();
    ReadEnds(buf, frames, []);
    return Success(count), frames, times, h;
  }

  /**
   Recovery after a crash: loading a log of recorded frames that was cut after any byte succeeds, and
   runs exactly the commands of the longest prefix of whole frames.
   */
  method Recover(fs: seq<Frame>, log: Bytes, db: Db, parse: Parser)
    returns (count: nat, ghost times: seq<(nat, nat)>, ghost h: Course)
    requires AllPrintable(fs) && log <= EncodeAll(fs)
    requires db.Valid() && ProperParser(parse)
    modifies db
    ensures db.Valid() && |times| == WholeFrames(fs, |log|)
    ensures count == |ReplayEvents(parse, fs[..WholeFrames(fs, |log|)], times)|
    ensures Leads(h, ReplayEvents(parse, fs[..WholeFrames(fs, |log|)], times), db.AsSetup(),
                  old(db.Contents()), old(db.uncharged), db.Contents(), db.uncharged)
  {
    hide Session, EncodeAll, WholeFrames, ReplayEvents, Leads, Printable;
    CrashRecovery(fs, |log|);
    assert EncodeAll(fs)[..|log|] == log;
    ghost var frames;
    var r;
    r, frames, times, h := Load(log, db, parse);
    count := r.value;
  }

  lemma ReplayStarts(parse: Parser, s: Setup, t: Table, u: nat)
    ensures ReplayEvents(parse, [], []) == []
    ensures Leads(Course([t], [u], [], []), ReplayEvents(parse, [], []), s, t, u, t, u)
  {
    LeadsNowhere(s, t, u);
  }

  lemma FirstReadOfNothing()
    ensures FirstRead([]) == CleanEof && !EndsAtBadText(CleanEof)
  {
  }

  /** The first read, as a check of the buffer and a parse of the bytes that the check accepted. */
  lemma FirstReadParts(d: Bytes)
    ensures Check(d).Failure? ==> !FirstRead(d).Got? && !EndsAtBadText(FirstRead(d))
    ensures Check(d).Success? ==>
              && Parse(d[..Check(d).value]) == Parse(d) && Parse(d) != Failure(Incomplete)
              && match Parse(d)
                 case Success((f, n)) => FirstRead(d) == Got(f) && FirstUsed(d) == Check(d).value == n
                 case Failure(Other(e)) => FirstRead(d) == ProtocolError(e) && EndsAtBadText(FirstRead(d))
  {
    hide Check, Parse;
    FrameLaws.CheckHasNoTextError(d);
    FrameLaws.CheckParseAgree(d);
    if Check(d).Success? {
      FrameLaws.ParseExact(d);
      ParseAfterCheck(d);
    }
  }

  lemma ReplayNext(parse: Parser, frames: seq<Frame>, times: seq<(nat, nat)>, f: Frame, time: (nat, nat))
    requires |frames| == |times|
    ensures ReplayEvents(parse, frames + [f], times + [time]) ==
            match parse(f, time.0)
            case None => ReplayEvents(parse, frames, times)
            case Some(c) => ReplayEvents(parse, frames, times) + [Run(c, time.0, time.1)]
  {
    assert (frames + [f])[..|frames|] == frames && (times + [time])[..|frames|] == times;
  }
}
