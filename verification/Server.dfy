/**
 The request loop of one connection: read a frame, record it if it is a write, apply it, answer, and
 flush once the input is used up.
 */
module Serving {
  import opened Wrappers
  import opened ByteStrings
  import opened Frames
  import opened Sessions
  import opened Connections
  import opened Store
  import opened Database
  import opened Eviction
  import opened Expiry
  import opened Runs
  import opened AppendLog
  import Sharding

  // ----- replies as frames -----

  /** The bytes of a fixed message, whose characters are all printable ASCII. */
  function Ascii(s: string): (r: Bytes)
    ensures |r| == |s| && forall i :: 0 <= i < |r| ==> ' ' as int <= r[i] <= '~' as int
  {
    seq(|s|, i requires 0 <= i < |s| => if ' ' <= s[i] <= '~' then s[i] as int else '?' as int)
  }

  const WRONG_TYPE: string := "WRONGTYPE" + " Operation against a key holding the wrong kind of value"

  function PairFrames(order: seq<Bytes>, fields: map<Bytes, Bytes>): seq<Frame>
    requires forall k :: k in order ==> k in fields
  {
    if order == [] then []
    else
      var n := |order| - 1;
      PairFrames(order[..n], fields) + [Bulk(order[n]), Bulk(fields[order[n]])]
  }

  ghost predicate Lists(items: seq<Frame>, members: set<Bytes>) {
    exists order: seq<Bytes> :: Unique(order) && SetOf(order) == members && items == BulksOf(order)
  }

  ghost predicate ListsPairs(items: seq<Frame>, fields: map<Bytes, Bytes>) {
    exists order: seq<Bytes> ::
      && Unique(order) && SetOf(order) == fields.Keys
      && (forall k :: k in order ==> k in fields) && items == PairFrames(order, fields)
  }

  /** The frame of a reply; unordered collections are listed once each, in some order. */
  ghost predicate Renders(f: Frame, reply: Reply) {
    match reply
    case Status => f == Simple(Ascii("OK"))
    case Pong => f == Simple(Ascii("PONG"))
    case Number(n) => f == Integer(n)
    case Value(b) => f == Bulk(b)
    case Nil => f == Null
    case WrongType => f == Error(Ascii(WRONG_TYPE))
    case Items(items) => f == Array(BulksOf(items))
    case Members(members) => f.Array? && Lists(f.items, members)
    case Fields(fields) => f.Array? && ListsPairs(f.items, fields)
  }

  method OrderOf(members: set<Bytes>) returns (order: seq<Bytes>)
    ensures Unique(order) && SetOf(order) == members
  {
    order := [];
    UniqueEmpty();
    var todo := members;
    while todo != {}
      invariant Unique(order) && SetOf(order) == members - todo && todo <= members
      decreases |todo|
    {
      var m :| m in todo;
      UniqueAppend(order, m);
      order, todo := order + [m], todo - {m};
    }
  }

  method Render(reply: Reply) returns (f: Frame)
    ensures Renders(f, reply)
  {
    hide Unique, BulksOf;
    match reply
    case Status => return Simple(Ascii("OK"));
    case Pong => return Simple(Ascii("PONG"));
    case Number(n) => return Integer(n);
    case Value(b) => return Bulk(b);
    case Nil => return Null;
    case WrongType => return Error(Ascii(WRONG_TYPE));
    case Items(items) => return Array(BulksOf(items));
    case Members(members) =>
      var order := OrderOf(members);
      return Array(BulksOf(order));
    case Fields(fields) =>
      var order := OrderOf(fields.Keys);
      forall k | k in order
        ensures k in fields
      {
        assert k in SetOf(order);
      }
      return Array(PairFrames(order, fields));
  }

  // ----- the loop -----

  /** A command that ran, and what the store replied. */
  datatype Ran = Ran(event: Event, reply: Reply)

  /**
   One frame and its answer. `at` is the time its arguments were parsed; `waited` is how often the
   connection had waited for the peer by then, and `queued` what its read buffer held; `held` is what
   the writer held right after the answer was written.
   */
  datatype Exchange = Exchange(frame: Frame, at: nat, ran: Option<Ran>, answer: Frame,
                               waited: nat, queued: Bytes, held: Bytes)

  function FramesOf(xs: seq<Exchange>): (fs: seq<Frame>)
    ensures |fs| == |xs| && forall i :: 0 <= i < |xs| ==> fs[i] == xs[i].frame
  {
    seq(|xs|, i requires 0 <= i < |xs| => xs[i].frame)
  }

  function AnswersOf(xs: seq<Exchange>): (fs: seq<Frame>)
    ensures |fs| == |xs| && forall i :: 0 <= i < |xs| ==> fs[i] == xs[i].answer
  {
    seq(|xs|, i requires 0 <= i < |xs| => xs[i].answer)
  }

  predicate IsRecorded(x: Exchange) {
    x.ran.Some? && x.ran.value.event.Run? && x.ran.value.event.c.IsWrite()
  }

  function RecordedOf(xs: seq<Exchange>): seq<Frame> {
    if xs == [] then []
    else
      var n := |xs| - 1;
      RecordedOf(xs[..n]) + if IsRecorded(xs[n]) then [xs[n].frame] else []
  }

  function EventsOf(xs: seq<Exchange>): (es: seq<Event>) {
    if xs == [] then []
    else
      var n := |xs| - 1;
      EventsOf(xs[..n]) + if xs[n].ran.Some? then [xs[n].ran.value.event] else []
  }

  function RepliesOf(xs: seq<Exchange>): (rs: seq<Option<Reply>>) {
    if xs == [] then []
    else
      var n := |xs| - 1;
      RepliesOf(xs[..n]) + if xs[n].ran.Some? then [Some(xs[n].ran.value.reply)] else []
  }

  /** A frame that does not parse is refused; one that does is answered with the reply of its command. */
  ghost predicate Served(parse: Parser, refusal: Frame -> Bytes, x: Exchange) {
    match x.ran
    case None => parse(x.frame, x.at) == None && x.answer == Error(refusal(x.frame))
    case Some(r) =>
      && r.event.Run? && parse(x.frame, x.at) == Some(r.event.c)
      && Renders(x.answer, r.reply)
  }

  /** What is unsent after an exchange: the loop flushes unless more input is queued. */
  function Unsent(x: Exchange): Bytes {
    if x.ran.None? || x.queued == [] then [] else x.held
  }

  function LastUnsent(xs: seq<Exchange>): Bytes {
    if xs == [] then [] else Unsent(xs[|xs| - 1])
  }

  function LastQueued(xs: seq<Exchange>): Bytes {
    if xs == [] then [] else xs[|xs| - 1].queued
  }

  /** The answer of a command goes to the buffered writer; a refusal is flushed. */
  ghost predicate Kept(x: Exchange, before: Bytes, capacity: nat) {
    x.ran.Some? ==> Holds(before, x.held, Encode(x.answer), capacity)
  }

  ghost predicate AllKept(xs: seq<Exchange>, capacity: nat) {
    forall i :: 0 <= i < |xs| ==> Kept(xs[i], LastUnsent(xs[..i]), capacity)
  }

  function Actions(x: Exchange): seq<Action> {
    (if IsRecorded(x) then [Recorded(x.frame)] else []) + (if x.ran.Some? then [Applied(x.frame)] else [])
  }

  /** Each command is applied after its frame is recorded, if it is, and before the next frame is handled. */
  function TraceOf(xs: seq<Exchange>): seq<Action> {
    if xs == [] then []
    else
      var n := |xs| - 1;
      TraceOf(xs[..n]) + Actions(xs[n])
  }

  // ----- the connection as the loop sees it -----

  datatype View = View(unread: Bytes, consumed: Bytes, buffer: Bytes, unsent: Bytes, written: Bytes, waits: seq<Wait>,
                       recorded: seq<Frame>, trace: seq<Action>)

  ghost function Now(conn: Connection, aof: Aof): View
    reads conn, aof
  {
    View(conn.Unread(), conn.consumed, conn.buffer, conn.pending, conn.Written(), conn.waits, aof.recorded, aof.trace)
  }

  /** One turn of the loop that reads a frame: `ws` are the waits of the read. */
  ghost predicate Turn(parse: Parser, refusal: Frame -> Bytes, capacity: nat, v: View, v': View, x: Exchange,
                       ws: seq<Wait>) {
    && FirstRead(v.unread) == Got(x.frame) && Served(parse, refusal, x)
    && v'.unread == v.unread[FirstUsed(v.unread)..] && v'.consumed == v.consumed + v.unread[..FirstUsed(v.unread)]
    && v'.waits == v.waits + ws && Stalls(ws, v.consumed, v.buffer, v.unsent)
    && v'.written == v.written + Encode(x.answer) && Kept(x, v.unsent, capacity)
    && v'.buffer == x.queued && v'.unsent == Unsent(x)
    && v'.recorded == v.recorded + (if IsRecorded(x) then [x.frame] else [])
    && v'.trace == v.trace + Actions(x)
    && x.waited == |v'.waits|
  }

  /** The bytes received are those of as many reads as there were waits. */
  ghost predicate Arrived(chunks: seq<Bytes>, v: View) {
    v.consumed + v.buffer == Heard(chunks, |v.waits|)
  }

  // ----- what the loop has done so far -----

  /** `xs` are the frames of the stream before its unread rest. */
  ghost predicate ReadSoFar(xs: seq<Exchange>, v0: View, v: View) {
    var u := Used(v0.unread, |xs|);
    && Session(v0.unread) == (FramesOf(xs) + Session(v.unread).0, Session(v.unread).1)
    && v.unread == v0.unread[u..] && v.consumed == v0.consumed + v0.unread[..u]
  }

  ghost predicate DoneSoFar(parse: Parser, refusal: Frame -> Bytes, capacity: nat, xs: seq<Exchange>,
                            v0: View, v: View) {
    && (forall i :: 0 <= i < |xs| ==> Served(parse, refusal, xs[i]))
    && v.written == v0.written + EncodeAll(AnswersOf(xs))
    && v.recorded == v0.recorded + RecordedOf(xs) && v.trace == v0.trace + TraceOf(xs)
    && AllKept(xs, capacity) && v.unsent == LastUnsent(xs) && v.buffer == LastQueued(xs)
  }

  lemma ReadSoFarStep(parse: Parser, refusal: Frame -> Bytes, capacity: nat, xs: seq<Exchange>, x: Exchange,
                      v0: View, v: View, v': View, ws: seq<Wait>)
    requires ReadSoFar(xs, v0, v) && Turn(parse, refusal, capacity, v, v', x, ws)
    ensures ReadSoFar(xs + [x], v0, v')
  {
    hide Session, FirstRead, FirstUsed, Served, Kept, Stalls, IsRecorded, Encode, Used;
    SessionUnfold(v.unread);
    UsedNext(v0.unread, |xs|);
    var rest := Session(v'.unread).0;
    assert FramesOf(xs + [x]) + rest == FramesOf(xs) + ([x.frame] + rest);
    var u := Used(v0.unread, |xs|);
    assert v'.consumed == v0.consumed + (v0.unread[..u] + v.unread[..FirstUsed(v.unread)]);
  }

  lemma DoneSoFarStep(parse: Parser, refusal: Frame -> Bytes, capacity: nat, xs: seq<Exchange>, x: Exchange,
                      v0: View, v: View, v': View, ws: seq<Wait>)
    requires DoneSoFar(parse, refusal, capacity, xs, v0, v) && Turn(parse, refusal, capacity, v, v', x, ws)
    ensures DoneSoFar(parse, refusal, capacity, xs + [x], v0, v')
  {
    hide EncodeAll, FirstRead, FirstUsed, Served, Kept, AllKept, Stalls, IsRecorded, Encode, Unsent, Actions;
    hide AnswersOf, RecordedOf, TraceOf;
    AnsweredNext(xs, x);
    assert v'.written == v0.written + (EncodeAll(AnswersOf(xs)) + Encode(x.answer));
    assert v'.recorded == v0.recorded + (RecordedOf(xs) + if IsRecorded(x) then [x.frame] else []);
    assert v'.trace == v0.trace + (TraceOf(xs) + Actions(x));
    KeptNext(xs, x, capacity);
  }

  lemma AnsweredNext(xs: seq<Exchange>, x: Exchange)
    ensures EncodeAll(AnswersOf(xs + [x])) == EncodeAll(AnswersOf(xs)) + Encode(x.answer)
    ensures RecordedOf(xs + [x]) == RecordedOf(xs) + if IsRecorded(x) then [x.frame] else []
    ensures TraceOf(xs + [x]) == TraceOf(xs) + Actions(x)
  {
    hide EncodeAll, Encode, IsRecorded, Actions;
    assert (xs + [x])[..|xs|] == xs;
    assert AnswersOf(xs + [x]) == AnswersOf(xs) + [x.answer];
    EncodeAllAppend(AnswersOf(xs), [x.answer]);
    EncodeAllOne(x.answer);
  }

  lemma KeptNext(xs: seq<Exchange>, x: Exchange, capacity: nat)
    requires AllKept(xs, capacity) && Kept(x, LastUnsent(xs), capacity)
    ensures AllKept(xs + [x], capacity)
  {
    hide Kept, LastUnsent;
    forall i | 0 <= i < |xs + [x]|
      ensures Kept((xs + [x])[i], LastUnsent((xs + [x])[..i]), capacity)
    {
      assert (xs + [x])[..i] == if i < |xs| then xs[..i] else xs;
      if i < |xs| {
        assert Kept(xs[i], LastUnsent(xs[..i]), capacity);
      }
    }
  }

  // ----- waiting for input -----

  /** A wait of the loop, after a number of exchanges. */
  datatype Pause = Pause(after: nat, wait: Wait)

  function WaitsOf(ps: seq<Pause>): (ws: seq<Wait>)
    ensures |ws| == |ps| && forall i :: 0 <= i < |ps| ==> ws[i] == ps[i].wait
  {
    seq(|ps|, i requires 0 <= i < |ps| => ps[i].wait)
  }

  ghost predicate FirstAfter(ps: seq<Pause>, i: nat)
    requires i < |ps|
  {
    i == 0 || ps[i - 1].after < ps[i].after
  }

  /**
   At every wait the buffer holds no whole frame and the frames before it are consumed. What is unsent
   is what the last exchange left unsent, and the first wait after an exchange finds in the buffer what
   was queued when it was answered.
   */
  ghost predicate PauseFits(xs: seq<Exchange>, ps: seq<Pause>, i: nat, consumed: Bytes, unread: Bytes)
    requires i < |ps|
  {
    var p := ps[i];
    && p.after <= |xs| && (i > 0 ==> ps[i - 1].after <= p.after)
    && p.wait.unflushed == LastUnsent(xs[..p.after])
    && Check(p.wait.buffered) == Failure(Incomplete)
    && p.wait.consumed == consumed + unread[..Used(unread, p.after)]
    && if FirstAfter(ps, i) then p.wait.buffered == LastQueued(xs[..p.after]) else p.wait.buffered != []
  }

  ghost predicate Paused(xs: seq<Exchange>, ps: seq<Pause>, consumed: Bytes, unread: Bytes) {
    forall i :: 0 <= i < |ps| ==> PauseFits(xs, ps, i, consumed, unread)
  }

  /** All pauses so far were before the last exchange. */
  ghost predicate Behind(xs: seq<Exchange>, ps: seq<Pause>) {
    ps != [] ==> ps[|ps| - 1].after < |xs|
  }

  function Pauses(n: nat, ws: seq<Wait>): (ps: seq<Pause>)
    ensures |ps| == |ws| && forall i :: 0 <= i < |ws| ==> ps[i] == Pause(n, ws[i])
  {
    seq(|ws|, i requires 0 <= i < |ws| => Pause(n, ws[i]))
  }

  /** The waits of one more read. */
  lemma PausedStep(xs: seq<Exchange>, ps: seq<Pause>, ws: seq<Wait>, v0: View, v: View)
    requires Paused(xs, ps, v0.consumed, v0.unread) && Behind(xs, ps)
    requires Stalls(ws, v.consumed, v.buffer, v.unsent)
    requires v.consumed == v0.consumed + v0.unread[..Used(v0.unread, |xs|)]
    requires v.unsent == LastUnsent(xs) && v.buffer == LastQueued(xs)
    ensures Paused(xs, ps + Pauses(|xs|, ws), v0.consumed, v0.unread)
    ensures WaitsOf(ps + Pauses(|xs|, ws)) == WaitsOf(ps) + ws
  {
    hide Check, Used, LastUnsent, LastQueued, Stalls;
    var qs := ps + Pauses(|xs|, ws);
    forall i | 0 <= i < |qs|
      ensures PauseFits(xs, qs, i, v0.consumed, v0.unread)
    {
      if i < |ps| {
        assert PauseFits(xs, ps, i, v0.consumed, v0.unread);
        assert qs[i] == ps[i] && (i > 0 ==> qs[i - 1] == ps[i - 1]);
      } else {
        NewPauseFits(xs, ps, ws, v0, v, i - |ps|);
      }
    }
  }

  lemma NewPauseFits(xs: seq<Exchange>, ps: seq<Pause>, ws: seq<Wait>, v0: View, v: View, j: nat)
    requires Behind(xs, ps) && Stalls(ws, v.consumed, v.buffer, v.unsent) && j < |ws|
    requires v.consumed == v0.consumed + v0.unread[..Used(v0.unread, |xs|)]
    requires v.unsent == LastUnsent(xs) && v.buffer == LastQueued(xs)
    ensures PauseFits(xs, ps + Pauses(|xs|, ws), |ps| + j, v0.consumed, v0.unread)
  {
    hide Check, Used, LastUnsent, LastQueued;
    var qs, i := ps + Pauses(|xs|, ws), |ps| + j;
    assert xs[..|xs|] == xs;
    assert qs[i] == Pause(|xs|, ws[j]);
    assert j > 0 ==> qs[i - 1] == Pause(|xs|, ws[j - 1]);
    assert j == 0 && i > 0 ==> qs[i - 1] == ps[|ps| - 1];
  }

  /** One more exchange does not change the pauses before it. */
  lemma PausedKeeps(xs: seq<Exchange>, x: Exchange, ps: seq<Pause>, consumed: Bytes, unread: Bytes)
    requires Paused(xs, ps, consumed, unread)
    ensures Paused(xs + [x], ps, consumed, unread) && Behind(xs + [x], ps)
  {
    hide Check, Used, LastUnsent, LastQueued;
    forall i | 0 <= i < |ps|
      ensures PauseFits(xs + [x], ps, i, consumed, unread)
    {
      assert PauseFits(xs, ps, i, consumed, unread);
      assert (xs + [x])[..ps[i].after] == xs[..ps[i].after];
    }
    if ps != [] {
      assert PauseFits(xs, ps, |ps| - 1, consumed, unread);
    }
  }

  /**
   What was queued at an exchange is what had been received and not consumed: the frames up to this one
   and the queued bytes are the reads so far, one for each earlier wait and each wait for this frame.
   */
  ghost predicate QueuedFits(xs: seq<Exchange>, ps: seq<Pause>, i: nat, chunks: seq<Bytes>,
                             consumed: Bytes, unread: Bytes, waited: nat)
    requires i < |xs|
  {
    && consumed + unread[..Used(unread, i + 1)] + xs[i].queued == Heard(chunks, xs[i].waited)
    && forall j :: 0 <= j < |ps| ==> (ps[j].after <= i <==> waited + j < xs[i].waited)
  }

  ghost predicate AllQueued(xs: seq<Exchange>, ps: seq<Pause>, chunks: seq<Bytes>,
                            consumed: Bytes, unread: Bytes, waited: nat) {
    && (forall i :: 0 <= i < |xs| ==> QueuedFits(xs, ps, i, chunks, consumed, unread, waited))
    && (forall i :: 0 <= i < |xs| ==> xs[i].waited <= waited + |ps|)
  }

  /** More waits do not change what was queued before. */
  lemma QueuedKeeps(xs: seq<Exchange>, ps: seq<Pause>, ws: seq<Wait>, chunks: seq<Bytes>,
                    consumed: Bytes, unread: Bytes, waited: nat)
    requires AllQueued(xs, ps, chunks, consumed, unread, waited)
    ensures AllQueued(xs, ps + Pauses(|xs|, ws), chunks, consumed, unread, waited)
  {
    hide Used, Heard;
    var qs := ps + Pauses(|xs|, ws);
    forall i | 0 <= i < |xs|
      ensures QueuedFits(xs, qs, i, chunks, consumed, unread, waited)
    {
      assert QueuedFits(xs, ps, i, chunks, consumed, unread, waited);
      assert forall j :: 0 <= j < |qs| ==> qs[j] == if j < |ps| then ps[j] else Pause(|xs|, ws[j - |ps|]);
    }
  }

  /** One more exchange, after the waits of its read. */
  lemma QueuedStep(xs: seq<Exchange>, ps: seq<Pause>, x: Exchange, chunks: seq<Bytes>,
                   consumed: Bytes, unread: Bytes, waited: nat)
    requires AllQueued(xs, ps, chunks, consumed, unread, waited)
    requires forall j :: 0 <= j < |ps| ==> ps[j].after <= |xs|
    requires x.waited == waited + |ps|
    requires consumed + unread[..Used(unread, |xs| + 1)] + x.queued == Heard(chunks, x.waited)
    ensures AllQueued(xs + [x], ps, chunks, consumed, unread, waited)
  {
    hide Used, Heard;
    forall i | 0 <= i < |xs + [x]|
      ensures QueuedFits(xs + [x], ps, i, chunks, consumed, unread, waited)
    {
      if i < |xs| {
        assert QueuedFits(xs, ps, i, chunks, consumed, unread, waited);
      }
    }
  }

  /**
   A wait finds an unsent answer if and only if the last exchange ran a command, more input was queued
   when its answer was written, and the writer did not send the answer early. A writer larger than the
   answer never does. In particular nothing is unsent when the buffer was found empty.
   */
  lemma WaitsWithUnsentAnswer(xs: seq<Exchange>, ps: seq<Pause>, i: nat, consumed: Bytes, unread: Bytes, capacity: nat)
    requires Paused(xs, ps, consumed, unread) && AllKept(xs, capacity) && i < |ps|
    ensures ps[i].after <= |xs|
    ensures ps[i].wait.unflushed != [] <==>
            ps[i].after > 0 && var x := xs[ps[i].after - 1]; x.ran.Some? && x.queued != [] && x.held != []
    ensures ps[i].after > 0 ==>
              var x := xs[ps[i].after - 1];
              x.ran.Some? && |Encode(x.answer)| < capacity ==> x.held != []
    ensures ps[i].wait.buffered == [] ==> ps[i].wait.unflushed == []
  {
    hide Check, Used;
    assert PauseFits(xs, ps, i, consumed, unread);
    var n := ps[i].after;
    if n > 0 {
      assert xs[..n][|xs[..n]| - 1] == xs[n - 1];
      assert Kept(xs[n - 1], LastUnsent(xs[..n - 1]), capacity);
      PrintedIsNotEmpty(xs[n - 1].answer);
      hide Encode;
    }
  }

  lemma PrintedIsNotEmpty(f: Frame)
    ensures Encode(f) != []
  {
  }

  /** What running one exchange does to the store. */
  ghost predicate Stepped(t: Table, u: nat, room: Table, t': Table, u': nat, x: Exchange, s: Setup) {
    match x.ran
    case None => t' == t && u' == u
    case Some(r) => LimitedStep(t, u, room, t', u', r.event, Some(r.reply), s)
  }

  /** The commands of the exchanges led the store from one table to another, with these replies. */
  ghost predicate Led(h: Course, xs: seq<Exchange>, s: Setup, t0: Table, u0: nat, t: Table, u: nat) {
    Leads(h, EventsOf(xs), s, t0, u0, t, u) && h.replies == RepliesOf(xs)
  }

  lemma LedStarts(s: Setup, t: Table, u: nat)
    ensures Led(Course([t], [u], [], []), [], s, t, u, t, u)
  {
    LeadsNowhere(s, t, u);
  }

  function Onward(h: Course, x: Exchange, room: Table, t: Table, u: nat): Course {
    if x.ran.Some? then h.Then(room, t, u, Some(x.ran.value.reply)) else h
  }

  lemma LedStep(h: Course, xs: seq<Exchange>, x: Exchange, s: Setup, t0: Table, u0: nat, t: Table, u: nat,
                room: Table, t': Table, u': nat)
    requires Led(h, xs, s, t0, u0, t, u) && Stepped(t, u, room, t', u', x, s)
    ensures Led(Onward(h, x, room, t', u'), xs + [x], s, t0, u0, t', u')
  {
    hide Leads, LimitedStep;
    assert (xs + [x])[..|xs|] == xs;
    if x.ran.Some? {
      LeadsOn(h, EventsOf(xs), s, t0, u0, t, u, room, t', u', x.ran.value.event, Some(x.ran.value.reply));
    } else {
      assert EventsOf(xs) + [] == EventsOf(xs) && RepliesOf(xs) + [] == RepliesOf(xs);
    }
  }

  /** Runs a command. A write may only be applied right after its frame was recorded. */
  method Execute(db: Db, aof: Aof, frame: Frame, c: Command, now: nat, millis: nat)
    returns (reply: Reply, ghost room: Table)
    requires db.Valid() && aof.Valid() && c.Proper()
    requires c.IsWrite() ==> aof.trace != [] && aof.trace[|aof.trace| - 1] == Recorded(frame)
    modifies db, aof`trace
    ensures db.Valid() && aof.Valid()
    ensures aof.trace == old(aof.trace) + [Applied(frame)]
    ensures LimitedStep(old(db.Contents()), old(db.uncharged), room, db.Contents(), db.uncharged,
                        Run(c, now, millis), Some(reply), db.AsSetup())
  {
    hide LazyStep, RoomFor, Uncharged, Db.Balanced, Sharding.Flat, Sharding.Placed;
    db.IsSharded();
    assert db as object != aof as object;
    reply, room := db.Apply(c, now, millis);
    aof.trace := aof.trace + [Applied(frame)];
  }

  /** Buffers an answer, and flushes it unless more input is queued; `held` is what the writer held between. */
  method Answer(conn: Connection, f: Frame) returns (ghost held: Bytes)
    requires conn.Valid()
    modifies conn
    ensures conn.Valid() && conn.Written() == old(conn.Written()) + Encode(f)
    ensures Holds(old(conn.pending), held, Encode(f), conn.capacity)
    ensures conn.Unread() == old(conn.Unread()) && conn.waits == old(conn.waits) && conn.consumed == old(conn.consumed)
    ensures conn.buffer == old(conn.buffer) && conn.pending == if conn.buffer == [] then [] else held
  {
    hide Encode, Holds, Heard, ToCome, InStep, Flatten;
    conn.WriteFrameBuffered(f);
    held := conn.pending;
    var queued := conn.HasQueuedBytes();
    if !queued {
      conn.Flush();
    }
  }

  /** Handles one frame: refuses it, or records it if it is a write, runs it and answers. */
  method Serve(conn: Connection, db: Db, aof: Aof, parse: Parser, refusal: Frame -> Bytes, frame: Frame)
    returns (ghost x: Exchange, ghost room: Table)
    requires conn.Valid() && db.Valid() && aof.Valid() && ProperParser(parse)
    modifies conn, db, aof
    ensures conn.Valid() && db.Valid() && aof.Valid()
    ensures x.frame == frame && Served(parse, refusal, x)
    ensures conn.Written() == old(conn.Written()) + Encode(x.answer) && Kept(x, old(conn.pending), conn.capacity)
    ensures conn.Unread() == old(conn.Unread()) && conn.waits == old(conn.waits) && conn.consumed == old(conn.consumed)
    ensures conn.buffer == old(conn.buffer) == x.queued && conn.pending == Unsent(x) && x.waited == |conn.waits|
    ensures aof.recorded == old(aof.recorded) + if IsRecorded(x) then [frame] else []
    ensures aof.trace == old(aof.trace) + Actions(x)
    ensures Stepped(old(db.Contents()), old(db.uncharged), room, db.Contents(), db.uncharged, x, db.AsSetup())
  {
    hide Encode, EncodeAll, LimitedStep, Renders, Holds, Db.Balanced, Sharding.Flat, Sharding.Placed;
    hide Heard, ToCome, InStep, Flatten;
    db.IsSharded();
    assert db as object != aof as object && conn as object != aof as object && conn as object != db as object;
    // the clock, whenever it is read
    var at: nat, now: nat, millis: nat := *, *, *;
    var cmd := parse(frame, at);
    match cmd {
      case None =>
        var answer := Error(refusal(frame));
        x, room := Exchange(frame, at, None, answer, |conn.waits|, conn.buffer, []), db.Contents();
        conn.WriteFrame(answer);
      case Some(c) =>
        if c.IsWrite() {
          aof.RecordFrame(frame);
        }
        var reply;
        reply, room := Execute(db, aof, frame, c, now, millis);
        var answer := Render(reply);
        ghost var held := Answer(conn, answer);
        x := Exchange(frame, at, Some(Ran(Run(c, now, millis), reply)), answer, |conn.waits|, conn.buffer, held);
    }
  }

  /** Reads one frame and serves it. */
  method TakeTurn(conn: Connection, db: Db, aof: Aof, parse: Parser, refusal: Frame -> Bytes)
    returns (read: ReadResult, ghost x: Exchange, ghost ws: seq<Wait>, ghost room: Table)
    requires conn.Valid() && db.Valid() && aof.Valid() && ProperParser(parse)
    modifies conn, db, aof
    ensures conn.Valid() && db.Valid() && aof.Valid()
    ensures read == FirstRead(old(conn.Unread()))
    ensures read.Got? ==> Turn(parse, refusal, conn.capacity, old(Now(conn, aof)), Now(conn, aof), x, ws)
    ensures Arrived(conn.chunks, Now(conn, aof))
    ensures read.Got? ==>
              Stepped(old(db.Contents()), old(db.uncharged), room, db.Contents(), db.uncharged, x, db.AsSetup())
    ensures !read.Got? ==>
              && db.Contents() == old(db.Contents()) && db.uncharged == old(db.uncharged)
              && conn.waits == old(conn.waits) + ws
              && Stalls(ws, old(conn.consumed), old(conn.buffer), old(conn.pending))
              && conn.Written() == old(conn.Written())
              && aof.recorded == old(aof.recorded) && aof.trace == old(aof.trace)
    ensures read.CleanEof? || read.Reset? ==> |conn.waits| > |conn.chunks|
    // only a clean end flushes; at a reset or a format error the writer is dropped with what it holds
    ensures !read.Got? ==> conn.pending == if read.CleanEof? then [] else old(conn.pending)
  {
    hide FirstRead, FirstUsed, Served, Kept, Stalls, Unsent, IsRecorded, Actions, Stepped, Encode, EncodeAll, Queued;
    hide Db.Balanced, Sharding.Flat, Sharding.Placed, Heard, ToCome, InStep, Flatten, ProperParser;
    assert db as object != aof as object && conn as object != aof as object && conn as object != db as object;
    db.IsSharded();
    read, ws := conn.ReadFrame();
    if read.Got? {
      x, room := Serve(conn, db, aof, parse, refusal, read.frame);
    } else {
      x, room := Exchange(Null, 0, None, Null, 0, [], []), db.Contents();
      if read == CleanEof {
        conn.Flush();
      }
    }
  }

  /**
   The loop. Every frame of the session gets one answer, in order; exactly the frames of parsed writes
   are recorded, in order, each before its command is applied and each command before the next frame;
   the commands run in order, under any memory limit; `Paused` says what is unsent whenever the loop
   waits, and the last clause what is never sent.
   */
  method ProcessConnection(conn: Connection, db: Db, aof: Aof, parse: Parser, refusal: Frame -> Bytes)
    returns (ending: ReadResult, ghost xs: seq<Exchange>, ghost h: Course, ghost ps: seq<Pause>)
    requires conn.Valid() && db.Valid() && aof.Valid() && ProperParser(parse)
    requires conn.buffer == [] && conn.pending == []
    modifies conn, db, aof
    ensures conn.Valid() && db.Valid() && aof.Valid()
    ensures (FramesOf(xs), ending) == Session(old(conn.Unread()))
    ensures conn.Written() == old(conn.Written()) + EncodeAll(AnswersOf(xs))
    ensures forall i :: 0 <= i < |xs| ==> Served(parse, refusal, xs[i])
    ensures aof.recorded == old(aof.recorded) + RecordedOf(xs)
    ensures aof.trace == old(aof.trace) + TraceOf(xs)
    ensures Led(h, xs, db.AsSetup(), old(db.Contents()), old(db.uncharged), db.Contents(), db.uncharged)
    ensures conn.waits == old(conn.waits) + WaitsOf(ps) && AllKept(xs, conn.capacity)
    ensures Paused(xs, ps, old(conn.consumed), old(conn.Unread()))
    ensures AllQueued(xs, ps, conn.chunks, old(conn.consumed), old(conn.Unread()), |old(conn.waits)|)
    ensures ending.CleanEof? || ending.Reset? ==> |conn.waits| > |conn.chunks|
    ensures conn.pending == if ending.CleanEof? then [] else LastUnsent(xs)
  {
    hide Session, FirstRead, FirstUsed, Served, Turn, ReadSoFar, DoneSoFar, Paused, AllQueued, Behind, Led, Stepped;
    hide Stalls, AllKept, Arrived, Encode, EncodeAll, Queued, Db.Balanced, Sharding.Flat, Sharding.Placed;
    hide Heard, ToCome, InStep, Flatten, ProperParser, TraceOf, RecordedOf, LastUnsent;
    assert db as object != aof as object && conn as object != aof as object && conn as object != db as object;
    db.IsSharded();
    ghost var v0, t0, u0 := Now(conn, aof), db.Contents(), db.uncharged;
    xs, h, ps := [], Course([t0], [u0], [], []), [];
    Starts(parse, refusal, conn.capacity, conn.chunks, v0);
    LedStarts(db.AsSetup(), t0, u0);
    while true
      invariant conn.Valid() && db.Valid() && db.Sharded() && aof.Valid()
      invariant ReadSoFar(xs, v0, Now(conn, aof))
      invariant DoneSoFar(parse, refusal, conn.capacity, xs, v0, Now(conn, aof))
      invariant conn.waits == v0.waits + WaitsOf(ps) && Paused(xs, ps, v0.consumed, v0.unread) && Behind(xs, ps)
      invariant AllQueued(xs, ps, conn.chunks, v0.consumed, v0.unread, |v0.waits|)
      invariant Led(h, xs, db.AsSetup(), t0, u0, db.Contents(), db.uncharged)
      decreases |conn.Unread()|
    {
      ghost var v, t, u := Now(conn, aof), db.Contents(), db.uncharged;
      var read, x, ws, room := TakeTurn(conn, db, aof, parse, refusal);
      db.IsSharded();
      if !read.Got? {
        LoopEnds(parse, refusal, conn.capacity, xs, ps, v0, v, ws);
        QueuedKeeps(xs, ps, ws, conn.chunks, v0.consumed, v0.unread, |v0.waits|);
        ending, ps := read, ps + Pauses(|xs|, ws);
        return;
      }
      LoopGoesOn(parse, refusal, conn.capacity, xs, ps, v0, v, Now(conn, aof), x, ws);
      QueueGoesOn(parse, refusal, conn.capacity, conn.chunks, xs, ps, v0, v, Now(conn, aof), x, ws);
      LedStep(h, xs, x, db.AsSetup(), t0, u0, t, u, room, db.Contents(), db.uncharged);
      h := Onward(h, x, room, db.Contents(), db.uncharged);
      xs, ps := xs + [x], ps + Pauses(|xs|, ws);
    }
  }

  lemma Starts(parse: Parser, refusal: Frame -> Bytes, capacity: nat, chunks: seq<Bytes>, v: View)
    requires v.buffer == [] && v.unsent == []
    ensures ReadSoFar([], v, v) && DoneSoFar(parse, refusal, capacity, [], v, v)
    ensures v.waits == v.waits + WaitsOf([]) && Paused([], [], v.consumed, v.unread) && Behind([], [])
    ensures AllQueued([], [], chunks, v.consumed, v.unread, |v.waits|)
  {
    hide Session;
    assert FramesOf([]) + Session(v.unread).0 == Session(v.unread).0;
    assert v.unread == v.unread[0..] && v.consumed == v.consumed + v.unread[..0];
    assert v.written == v.written + [] && v.recorded == v.recorded + [] && v.trace == v.trace + [];
  }

  lemma LoopGoesOn(parse: Parser, refusal: Frame -> Bytes, capacity: nat, xs: seq<Exchange>, ps: seq<Pause>,
                   v0: View, v: View, v': View, x: Exchange, ws: seq<Wait>)
    requires ReadSoFar(xs, v0, v) && DoneSoFar(parse, refusal, capacity, xs, v0, v)
    requires v.waits == v0.waits + WaitsOf(ps) && Paused(xs, ps, v0.consumed, v0.unread) && Behind(xs, ps)
    requires Turn(parse, refusal, capacity, v, v', x, ws)
    ensures ReadSoFar(xs + [x], v0, v') && DoneSoFar(parse, refusal, capacity, xs + [x], v0, v')
    ensures var qs := ps + Pauses(|xs|, ws);
            && v'.waits == v0.waits + WaitsOf(qs) && Behind(xs + [x], qs)
            && Paused(xs + [x], qs, v0.consumed, v0.unread)
    ensures |v'.unread| < |v.unread|
  {
    hide Paused, Behind, Session, Stalls, Served, AllKept, Kept, EncodeAll, Encode, FirstRead, FirstUsed, Used;
    hide AnswersOf, RecordedOf, TraceOf, FramesOf, WaitsOf, Actions, IsRecorded, LastUnsent, LastQueued, Unsent, Pauses;
    ReadSoFarStep(parse, refusal, capacity, xs, x, v0, v, v', ws);
    DoneSoFarStep(parse, refusal, capacity, xs, x, v0, v, v', ws);
    assert v'.waits == v0.waits + (WaitsOf(ps) + ws);
    PausedStep(xs, ps, ws, v0, v);
    PausedKeeps(xs, x, ps + Pauses(|xs|, ws), v0.consumed, v0.unread);
  }

  lemma QueueGoesOn(parse: Parser, refusal: Frame -> Bytes, capacity: nat, chunks: seq<Bytes>, xs: seq<Exchange>,
                    ps: seq<Pause>, v0: View, v: View, v': View, x: Exchange, ws: seq<Wait>)
    requires AllQueued(xs, ps, chunks, v0.consumed, v0.unread, |v0.waits|) && Paused(xs, ps, v0.consumed, v0.unread)
    requires v.waits == v0.waits + WaitsOf(ps) && Turn(parse, refusal, capacity, v, v', x, ws)
    requires ReadSoFar(xs + [x], v0, v') && Arrived(chunks, v')
    ensures AllQueued(xs + [x], ps + Pauses(|xs|, ws), chunks, v0.consumed, v0.unread, |v0.waits|)
  {
    hide Session, FirstRead, FirstUsed, Served, Kept, Stalls, IsRecorded, Encode, Used, Heard, AllQueued, Unsent;
    hide Actions, LastUnsent, LastQueued, Check;
    QueuedKeeps(xs, ps, ws, chunks, v0.consumed, v0.unread, |v0.waits|);
    var qs := ps + Pauses(|xs|, ws);
    forall j | 0 <= j < |qs|
      ensures qs[j].after <= |xs|
    {
      assert j < |ps| ==> PauseFits(xs, ps, j, v0.consumed, v0.unread) && qs[j] == ps[j];
    }
    QueuedStep(xs, qs, x, chunks, v0.consumed, v0.unread, |v0.waits|);
  }

  lemma LoopEnds(parse: Parser, refusal: Frame -> Bytes, capacity: nat, xs: seq<Exchange>, ps: seq<Pause>,
                 v0: View, v: View, ws: seq<Wait>)
    requires ReadSoFar(xs, v0, v) && DoneSoFar(parse, refusal, capacity, xs, v0, v)
    requires v.waits == v0.waits + WaitsOf(ps) && Paused(xs, ps, v0.consumed, v0.unread) && Behind(xs, ps)
    requires !FirstRead(v.unread).Got? && Stalls(ws, v.consumed, v.buffer, v.unsent)
    ensures Session(v0.unread) == (FramesOf(xs), FirstRead(v.unread))
    ensures v.written == v0.written + EncodeAll(AnswersOf(xs)) && AllKept(xs, capacity)
    ensures v.recorded == v0.recorded + RecordedOf(xs) && v.trace == v0.trace + TraceOf(xs)
    ensures v.unsent == LastUnsent(xs) && forall i :: 0 <= i < |xs| ==> Served(parse, refusal, xs[i])
    ensures var qs := ps + Pauses(|xs|, ws);
            v.waits + ws == v0.waits + WaitsOf(qs) && Paused(xs, qs, v0.consumed, v0.unread)
  {
    hide FirstRead, FirstUsed, Session, Stalls, Paused, Behind, Served, AllKept, EncodeAll, Encode, Used, ReadSoFar;
    hide DoneSoFar, AnswersOf, RecordedOf, TraceOf, FramesOf, WaitsOf, LastUnsent, LastQueued, Pauses;
    ReadSoFarEnds(xs, v0, v);
    DoneSoFarMeans(parse, refusal, capacity, xs, v0, v);
    PausedStep(xs, ps, ws, v0, v);
    assert v.waits + ws == v0.waits + (WaitsOf(ps) + ws);
  }

  lemma ReadSoFarEnds(xs: seq<Exchange>, v0: View, v: View)
    requires ReadSoFar(xs, v0, v)
    ensures v.consumed == v0.consumed + v0.unread[..Used(v0.unread, |xs|)]
    ensures !FirstRead(v.unread).Got? ==> Session(v0.unread) == (FramesOf(xs), FirstRead(v.unread))
  {
    hide FirstRead, FirstUsed, Session, Used;
    SessionUnfold(v.unread);
    assert FramesOf(xs) + [] == FramesOf(xs);
  }

  lemma DoneSoFarMeans(parse: Parser, refusal: Frame -> Bytes, capacity: nat, xs: seq<Exchange>, v0: View, v: View)
    requires DoneSoFar(parse, refusal, capacity, xs, v0, v)
    ensures v.written == v0.written + EncodeAll(AnswersOf(xs)) && AllKept(xs, capacity)
    ensures v.recorded == v0.recorded + RecordedOf(xs) && v.trace == v0.trace + TraceOf(xs)
    ensures v.unsent == LastUnsent(xs) && v.buffer == LastQueued(xs)
    ensures forall i :: 0 <= i < |xs| ==> Served(parse, refusal, xs[i])
  {
    hide EncodeAll, AllKept, Served, RecordedOf, TraceOf;
  }
}
