/**
 What a client sees: when its answers decode one by one, when a refusal breaks that, when an answer has
 to wait for more input, and when it is never sent.
 */
module Answers {
  import opened Wrappers
  import opened ByteStrings
  import opened Frames
  import opened Sessions
  import opened Connections
  import opened Store
  import opened Database
  import opened Eviction
  import opened Runs
  import opened AppendLog
  import opened Serving
  import Decimals
  import FrameLaws
  import Utf8

  // ----- one answer per frame -----

  /** Lengths and counts fit 64 bits, as they do on any machine. */
  ghost predicate InRange(reply: Reply) {
    match reply
    case Number(n) => Decimals.IsI64(n)
    case Value(b) => |b| <= Decimals.I64_MAX
    case Items(items) => |items| <= Decimals.I64_MAX && forall x :: x in items ==> |x| <= Decimals.I64_MAX
    case Members(members) => |members| <= Decimals.I64_MAX && forall m :: m in members ==> |m| <= Decimals.I64_MAX
    case Fields(fields) =>
      && 2 * |fields| <= Decimals.I64_MAX
      && forall f :: f in fields ==> |f| <= Decimals.I64_MAX && |fields[f]| <= Decimals.I64_MAX
    case _ => true
  }

  lemma {:induction false} UniqueCount(xs: seq<Bytes>)
    requires Unique(xs)
    ensures |SetOf(xs)| == |xs|
  {
    if xs == [] {
      assert SetOf(xs) == {};
    } else {
      var n := |xs| - 1;
      UniqueCount(xs[..n]);
      assert xs[n] !in SetOf(xs[..n]);
      assert xs == xs[..n] + [xs[n]];
      assert SetOf(xs) == SetOf(xs[..n]) + {xs[n]};
    }
  }

  lemma BulksPrintable(items: seq<Bytes>)
    requires |items| <= Decimals.I64_MAX && forall x :: x in items ==> |x| <= Decimals.I64_MAX
    ensures Printable(Array(BulksOf(items)))
  {
    forall i | 0 <= i < |items|
      ensures Printable(BulksOf(items)[i])
    {
      assert items[i] in items;
    }
  }

  lemma {:induction false} PairsPrintable(order: seq<Bytes>, fields: map<Bytes, Bytes>)
    requires forall k :: k in order ==> k in fields && |k| <= Decimals.I64_MAX && |fields[k]| <= Decimals.I64_MAX
    ensures |PairFrames(order, fields)| == 2 * |order| && AllPrintable(PairFrames(order, fields))
  {
    if order != [] {
      var n := |order| - 1;
      assert order[n] in order;
      PairsPrintable(order[..n], fields);
    }
  }

  lemma StatusPrintable(f: Frame)
    requires f == Simple(Ascii("OK")) || f == Simple(Ascii("PONG")) || f == Error(Ascii(WRONG_TYPE))
    ensures Printable(f)
  {
    hide Ascii;
    Utf8.AsciiIsValid(f.text);
  }

  /** Every rendered reply survives printing. */
  lemma RenderedIsPrintable(f: Frame, reply: Reply)
    requires Renders(f, reply) && InRange(reply)
    ensures Printable(f)
  {
    hide Ascii, Unique, SetOf, BulksOf, PairFrames;
    match reply
    case Status => StatusPrintable(f);
    case Pong => StatusPrintable(f);
    case WrongType => StatusPrintable(f);
    case Number(n) =>
    case Value(b) =>
    case Nil =>
    case Items(items) => BulksPrintable(items);
    case Members(members) =>
      var order: seq<Bytes> :| Unique(order) && SetOf(order) == members && f.items == BulksOf(order);
      UniqueCount(order);
      InOrder(order);
      BulksPrintable(order);
    case Fields(fields) =>
      var order: seq<Bytes> :|
        && Unique(order) && SetOf(order) == fields.Keys
        && (forall k :: k in order ==> k in fields) && f.items == PairFrames(order, fields);
      UniqueCount(order);
      assert |fields.Keys| == |fields|;
      PairsPrintable(order, fields);
  }

  lemma InOrder(order: seq<Bytes>)
    ensures forall k :: k in order <==> k in SetOf(order)
  {
  }

  /** One line of UTF-8. */
  predicate OneLine(text: Bytes) {
    Utf8.Valid(text) && SingleLine(text)
  }

  /** Every frame that a session yields survives printing. */
  lemma {:induction false} SessionIsPrintable(d: Bytes)
    requires |d| <= Decimals.I64_MAX
    ensures AllPrintable(Session(d).0)
    decreases |d|
  {
    hide Check, Printable, Session;
    SessionUnfold(d);
    if FirstRead(d).Got? {
      SessionIsPrintable(d[FirstUsed(d)..]);
      FrameLaws.ParsedIsPrintable(d);
    }
  }

  /** Every refusal is one line of UTF-8. */
  ghost predicate RefusedInOneLine(refusal: Frame -> Bytes, xs: seq<Exchange>) {
    forall i :: 0 <= i < |xs| && xs[i].ran.None? ==> OneLine(refusal(xs[i].frame))
  }

  ghost predicate AllInRange(xs: seq<Exchange>) {
    && |EncodeAll(AnswersOf(xs))| <= Decimals.I64_MAX
    && forall i :: 0 <= i < |xs| && xs[i].ran.Some? ==> InRange(xs[i].ran.value.reply)
  }

  /**
   A client that decodes the bytes it was sent gets back exactly one answer per frame if and only if all
   answers were sent and every refusal is one line of UTF-8.
   */
  lemma AnswersAreDecoded(parse: Parser, refusal: Frame -> Bytes, xs: seq<Exchange>, sent: Bytes)
    requires (forall i :: 0 <= i < |xs| ==> Served(parse, refusal, xs[i])) && AllInRange(xs)
    requires sent <= EncodeAll(AnswersOf(xs))
    ensures Session(sent) == (AnswersOf(xs), CleanEof)
            <==> sent == EncodeAll(AnswersOf(xs)) && RefusedInOneLine(refusal, xs)
  {
    hide Session, EncodeAll, InRange, Renders, WholeFrames;
    var fs := AnswersOf(xs);
    forall i | 0 <= i < |xs|
      ensures Printable(fs[i]) <==> (xs[i].ran.None? ==> OneLine(refusal(xs[i].frame)))
    {
      assert Served(parse, refusal, xs[i]);
      if xs[i].ran.Some? {
        RenderedIsPrintable(fs[i], xs[i].ran.value.reply);
      }
    }
    SessionIsPrintable(sent);
    if AllPrintable(fs) {
      CrashRecovery(fs, |sent|);
      CrashRecovery(fs, |EncodeAll(fs)|);
      AllFramesFit(fs);
      assert sent == EncodeAll(fs)[..|sent|] && EncodeAll(fs) == EncodeAll(fs)[..|EncodeAll(fs)|];
      assert fs[..|fs|] == fs;
      assert |fs[..WholeFrames(fs, |sent|)]| == WholeFrames(fs, |sent|);
    }
  }

  lemma AllFramesFit(fs: seq<Frame>)
    ensures WholeFrames(fs, |EncodeAll(fs)|) == |fs|
  {
    hide WholeFrames, EncodeAll;
    var n := WholeFrames(fs, |EncodeAll(fs)|);
    WholeFramesFit(fs, |EncodeAll(fs)|);
    var m := if n < |fs| then n + 1 else n;
    EncodeAllAppend(fs[..m], fs[m..]);
    assert fs == fs[..m] + fs[m..];
  }

  /**
   A whole connection, as its client sees it. The answers that were sent are a prefix of all answers. The
   client decodes one answer for each of its frames if and only if the connection ends cleanly or nothing
   was unsent after the last answer, and every refusal is one line of UTF-8.
   */
  method ServeClient(chunks: seq<Bytes>, capacity: nat, db: Db, aof: Aof, parse: Parser, refusal: Frame -> Bytes)
    returns (sent: Bytes, ending: ReadResult, ghost xs: seq<Exchange>)
    requires forall i :: 0 <= i < |chunks| ==> chunks[i] != []
    requires db.Valid() && aof.Valid() && ProperParser(parse)
    modifies db, aof
    ensures (FramesOf(xs), ending) == Session(Flatten(chunks))
    ensures forall i :: 0 <= i < |xs| ==> Served(parse, refusal, xs[i])
    ensures EncodeAll(AnswersOf(xs)) == sent + if ending.CleanEof? then [] else LastUnsent(xs)
    ensures AllInRange(xs) ==>
              (Session(sent) == (AnswersOf(xs), CleanEof)
               <==> (ending.CleanEof? || LastUnsent(xs) == []) && RefusedInOneLine(refusal, xs))
  {
    hide Session, Served, Paused, AllQueued, AllKept, Led, Flatten, EncodeAll, AllInRange, RefusedInOneLine;
    hide Heard, ToCome, InStep, TraceOf, RecordedOf, LastUnsent, Db.Balanced, Queued;
    var conn := new Connection(chunks, capacity);
    ghost var h, ps;
    ending, xs, h, ps := ProcessConnection(conn, db, aof, parse, refusal);
    sent := conn.wire;
    assert sent + conn.pending == [] + EncodeAll(AnswersOf(xs)) == EncodeAll(AnswersOf(xs));
    assert sent == EncodeAll(AnswersOf(xs))[..|sent|];
    if AllInRange(xs) {
      ghost var all := EncodeAll(AnswersOf(xs));
      assert |sent| + |conn.pending| == |all|;
      AllInRangeMeans(xs);
      AnswersAreDecoded(parse, refusal, xs, sent);
    }
  }

  lemma AllInRangeMeans(xs: seq<Exchange>)
    requires AllInRange(xs)
    ensures |EncodeAll(AnswersOf(xs))| <= Decimals.I64_MAX
  {
  }

  // ----- answers, byte by byte -----

  /** The simple replies on the wire: +OK, +PONG, a number, a bulk string, and nothing, which is no empty string. */
  lemma AnswersInBytes(f: Frame, reply: Reply)
    requires Renders(f, reply)
    ensures reply == Status ==> Encode(f) == [43, 79, 75, 13, 10]
    ensures reply == Pong ==> Encode(f) == [43, 80, 79, 78, 71, 13, 10]
    ensures reply.Number? ==> Encode(f) == [58] + Decimals.Show(reply.n) + [13, 10]
    ensures reply.Value? ==> Encode(f) == [36] + Decimals.Show(|reply.b|) + [13, 10] + reply.b + [13, 10]
    ensures reply == Nil ==> Encode(f) == [36, 45, 49, 13, 10]
    ensures reply == Value([]) ==> Encode(f) == [36, 48, 13, 10, 13, 10]
    ensures reply == WrongType ==> Encode(f)[..10] == [45, 87, 82, 79, 78, 71, 84, 89, 80, 69]
    ensures reply.Items? ==> f.Array? && |f.items| == |reply.items|
    ensures reply.Items? ==> forall i :: 0 <= i < |reply.items| ==> f.items[i] == Bulk(reply.items[i])
  {
    assert Ascii("OK") == [79, 75] && Ascii("PONG") == [80, 79, 78, 71];
    if reply == WrongType {
      WrongTypeInBytes();
      assert Encode(f)[..10] == [45] + Ascii(WRONG_TYPE)[..9];
    }
  }

  /** A set is answered with each member once. */
  lemma MembersOnce(f: Frame, members: set<Bytes>)
    requires Renders(f, Members(members))
    ensures f.Array? && |f.items| == |members|
    ensures forall m :: m in members <==> Bulk(m) in f.items
  {
    var order: seq<Bytes> :| Unique(order) && SetOf(order) == members && f.items == BulksOf(order);
    UniqueCount(order);
    forall m
      ensures m in members <==> Bulk(m) in f.items
    {
      if m in members {
        var i :| 0 <= i < |order| && order[i] == m;
        assert f.items[i] == Bulk(m);
      }
    }
  }

  /** A frame that is no command is answered with a minus sign, the refusal, CR and LF. */
  lemma RefusedInBytes(parse: Parser, refusal: Frame -> Bytes, x: Exchange)
    requires Served(parse, refusal, x) && parse(x.frame, x.at) == None
    ensures x.ran == None && Encode(x.answer) == [45] + refusal(x.frame) + [13, 10]
  {
  }

  lemma WrongTypeInBytes()
    ensures |Ascii(WRONG_TYPE)| >= 9 && Ascii(WRONG_TYPE)[..9] == [87, 82, 79, 78, 71, 84, 89, 80, 69]
  {
    var word := "WRONGTYPE";
    assert Ascii(word) == [87, 82, 79, 78, 71, 84, 89, 80, 69];
    assert Ascii(WRONG_TYPE)[..9] == Ascii(word);
  }

  /** A hash is answered with its fields, once each, and after every field its value. */
  lemma FieldsInPairs(f: Frame, fields: map<Bytes, Bytes>) returns (order: seq<Bytes>)
    requires Renders(f, Fields(fields))
    ensures Unique(order) && SetOf(order) == fields.Keys && f.Array? && |f.items| == 2 * |order|
    ensures forall i :: 0 <= i < |order| ==>
                          && order[i] in fields
                          && f.items[2 * i] == Bulk(order[i]) && f.items[2 * i + 1] == Bulk(fields[order[i]])
  {
    order :|
      && Unique(order) && SetOf(order) == fields.Keys
      && (forall k :: k in order ==> k in fields) && f.items == PairFrames(order, fields);
    PairsByPosition(order, fields);
  }

  lemma {:induction false} PairsByPosition(order: seq<Bytes>, fields: map<Bytes, Bytes>)
    requires forall k :: k in order ==> k in fields
    ensures var fs := PairFrames(order, fields);
            && |fs| == 2 * |order|
            && forall i :: 0 <= i < |order| ==> fs[2 * i] == Bulk(order[i]) && fs[2 * i + 1] == Bulk(fields[order[i]])
  {
    if order != [] {
      PairsByPosition(order[..|order| - 1], fields);
    }
  }

  // ----- the refusal of an unknown command -----

  const UNKNOWN: string := "ERR unknown command '"
  const QUOTE: byte := 39

  /** Upper case of ASCII text. */
  function Upper(text: Bytes): (r: Bytes)
    ensures |r| == |text|
  {
    seq(|text|, i requires 0 <= i < |text| => if 97 <= text[i] <= 122 then text[i] - 32 else text[i])
  }

  /** The text that refuses a command name: the name is quoted in upper case and nothing is escaped. */
  function UnknownCommand(name: Bytes): Bytes {
    Ascii(UNKNOWN) + Upper(name) + [QUOTE]
  }

  /** The refusal is one line if and only if the name is. */
  lemma UnknownCommandIsOneLine(name: Bytes)
    requires Utf8.Ascii(name)
    ensures OneLine(UnknownCommand(name)) <==> SingleLine(name)
  {
    hide Ascii, Utf8.Valid;
    var text, n := UnknownCommand(name), |Ascii(UNKNOWN)|;
    Utf8.AsciiIsValid(text);
    assert forall i :: 0 <= i < |name| ==>
                         (text[n + i] == CR <==> name[i] == CR) && (text[n + i] == LF <==> name[i] == LF);
    if SingleLine(name) {
      forall i | 0 <= i < |text| - 1
        ensures !(text[i] == CR && text[i + 1] == LF)
      {
        if n <= i < n + |name| - 1 {
          assert !(name[i - n] == CR && name[i - n + 1] == LF);
        }
      }
    } else {
      var i :| 0 <= i < |name| - 1 && name[i] == CR && name[i + 1] == LF;
      assert text[n + i] == CR && text[n + i + 1] == LF;
    }
  }

  /**
   A name that spans two lines makes one answer decode as two. The request itself is well-formed, as the
   name is a bulk string: FOO, CR LF and +OK, say.
   */
  lemma RefusalSplits(u: Bytes, v: Bytes)
    requires Utf8.Ascii(u) && Utf8.Ascii(v) && SingleLine(u) && SingleLine(v)
    requires |u| + |v| + 3 <= Decimals.I64_MAX
    ensures var name := u + CRLF + [PLUS] + v;
            && Printable(Array([Bulk(name)]))
            && Session(Encode(Error(UnknownCommand(name)))) ==
               ([Error(Ascii(UNKNOWN) + Upper(u)), Simple(Upper(v) + [QUOTE])], CleanEof)
  {
    hide Session, Ascii, Upper, Utf8.Valid, Utf8.Ascii, SingleLine;
    var name := u + CRLF + [PLUS] + v;
    var x, y := Ascii(UNKNOWN) + Upper(u), Upper(v) + [QUOTE];
    UpperOfName(u, v);
    assert UnknownCommand(name) == x + CRLF + [PLUS] + y;
    UpperIsOneLine(Ascii(UNKNOWN), u, []);
    UpperIsOneLine([], v, [QUOTE]);
    assert x == Ascii(UNKNOWN) + Upper(u) + [] && y == [] + Upper(v) + [QUOTE];
    var fs := [Error(x), Simple(y)];
    assert fs == [Error(x)] + [Simple(y)];
    EncodeAllAppend([Error(x)], [Simple(y)]);
    EncodeAllOne(Error(x));
    EncodeAllOne(Simple(y));
    assert Encode(Error(UnknownCommand(name))) == EncodeAll(fs) + [];
    SessionOfPipeline(fs, []);
    SessionOfNothing();
    assert fs + [] == fs;
  }

  lemma UpperOfName(u: Bytes, v: Bytes)
    ensures Upper(u + CRLF + [PLUS] + v) == Upper(u) + CRLF + [PLUS] + Upper(v)
  {
  }

  /** Text between two pieces without line ends is one line if it was before it was put in upper case. */
  lemma UpperIsOneLine(before: Bytes, text: Bytes, after: Bytes)
    requires Utf8.Ascii(text) && SingleLine(text)
    requires forall i :: 0 <= i < |before| ==> before[i] <= 0x7F && before[i] != CR
    requires forall i :: 0 <= i < |after| ==> after[i] <= 0x7F && after[i] != LF
    ensures OneLine(before + Upper(text) + after)
  {
    var s, n := before + Upper(text) + after, |before|;
    Utf8.AsciiIsValid(s);
    forall i | 0 <= i < |s| - 1
      ensures !(s[i] == CR && s[i + 1] == LF)
    {
      if n <= i < n + |text| - 1 {
        assert !(text[i - n] == CR && text[i - n + 1] == LF);
      }
    }
  }

  // ----- an answer that waits -----

  /** A whole request, which is read in full. */
  ghost predicate Request(a: Bytes) {
    FirstRead(a).Got? && FirstUsed(a) == |a|
  }

  /**
   A client sends one request and the beginning of the next, and then the rest. Its first answer is still
   unsent while the server waits for the rest, if it is shorter than the writer's buffer: PING CR LF, a
   star, 1, CR LF, and then the rest of the second PING, say.
   */
  method AnswerWaits(a: Bytes, b: Bytes, k: nat, capacity: nat, db: Db, aof: Aof, parse: Parser,
                     refusal: Frame -> Bytes)
    returns (conn: Connection, ghost xs: seq<Exchange>, ghost ps: seq<Pause>)
    requires Request(a) && Request(b) && 0 < k < |b|
    requires db.Valid() && aof.Valid() && ProperParser(parse)
    requires forall now :: parse(FirstRead(a).frame, now).Some?
    modifies db, aof
    ensures |xs| == 2 && |ps| >= 2
    ensures ps[1].after == 1 && ps[1].wait.buffered == b[..k]
    ensures |Encode(xs[0].answer)| < capacity ==> ps[1].wait.unflushed == Encode(xs[0].answer) != []
  {
    hide Session, FirstRead, FirstUsed, Paused, AllQueued, AllKept, Led, Encode, EncodeAll;
    hide Heard, ToCome, InStep, TraceOf, RecordedOf, LastUnsent, Db.Balanced, Queued;
    var chunks := [a + b[..k], b[k..]];
    assert chunks == [a + b[..k]] + [b[k..]];
    FlattenAppend([a + b[..k]], [b[k..]]);
    FlattenOne(a + b[..k]);
    FlattenOne(b[k..]);
    assert a + b[..k] + b[k..] == a + b;
    RequestIsNotEmpty(a);
    conn := new Connection(chunks, capacity);
    ghost var ending, h;
    ending, xs, h, ps := ProcessConnection(conn, db, aof, parse, refusal);
    TwoRequests(a, b);
    assert WaitsOf(ps) == [] + WaitsOf(ps);
    StuckAnswer(a, b, k, xs, ps, conn.waits, chunks, capacity, parse, refusal);
  }

  lemma RequestIsNotEmpty(a: Bytes)
    requires Request(a)
    ensures a != [] && FrameLaws.Settled(Check(a))
    ensures FirstRead(a) == Got(FirstRead(a).frame)
  {
  }

  lemma TwoRequests(a: Bytes, b: Bytes)
    requires Request(a) && Request(b)
    ensures Session(a + b) == ([FirstRead(a).frame, FirstRead(b).frame], CleanEof)
    ensures Used(a + b, 0) == 0 && Used(a + b, 1) == |a| && Used(a + b, 2) == |a| + |b|
  {
    hide Session, FirstRead, FirstUsed, Check;
    RequestIsNotEmpty(a);
    OneRequest(b);
    FirstReadExtends(a, b);
    SessionUnfold(a + b);
    assert (a + b)[|a|..] == b;
    assert [FirstRead(a).frame] + [FirstRead(b).frame] == [FirstRead(a).frame, FirstRead(b).frame];
    assert Used(a + b, 1) == |a| + Used(b, 0) && Used(a + b, 2) == |a| + Used(b, 1);
  }

  lemma OneRequest(b: Bytes)
    requires Request(b)
    ensures Session(b) == ([FirstRead(b).frame], CleanEof) && Used(b, 0) == 0 && Used(b, 1) == |b|
  {
    hide Session, FirstRead, FirstUsed, Check;
    SessionUnfold(b);
    assert b[|b|..] == [];
    SessionOfNothing();
    assert [FirstRead(b).frame] + [] == [FirstRead(b).frame];
  }

  lemma StuckAnswer(a: Bytes, b: Bytes, k: nat, xs: seq<Exchange>, ps: seq<Pause>, waits: seq<Wait>,
                    chunks: seq<Bytes>, capacity: nat, parse: Parser, refusal: Frame -> Bytes)
    requires Request(a) && Request(b) && 0 < k < |b| && chunks == [a + b[..k], b[k..]]
    requires |xs| == 2 && waits == WaitsOf(ps) && |waits| > 2 && InStep(waits, chunks)
    requires Paused(xs, ps, [], a + b) && AllKept(xs, capacity)
    requires xs[0].frame == FirstRead(a).frame && Served(parse, refusal, xs[0])
    requires forall now :: parse(FirstRead(a).frame, now).Some?
    ensures ps[1].after == 1 && ps[1].wait.buffered == b[..k]
    ensures |Encode(xs[0].answer)| < capacity ==> ps[1].wait.unflushed == Encode(xs[0].answer) != []
  {
    hide Session, FirstRead, FirstUsed, Encode, Check;
    SecondPause(a, b, k, xs, ps, waits, chunks);
    assert PauseFits(xs, ps, 1, [], a + b);
    assert xs[..1][0] == xs[0] && xs[..0] == [];
    assert Kept(xs[0], LastUnsent(xs[..0]), capacity);
    PrintedIsNotEmpty(xs[0].answer);
  }

  /** When the server waits for the second time, it has read the first request and a part of the next. */
  lemma SecondPause(a: Bytes, b: Bytes, k: nat, xs: seq<Exchange>, ps: seq<Pause>, waits: seq<Wait>, chunks: seq<Bytes>)
    requires Request(a) && Request(b) && 0 < k < |b| && chunks == [a + b[..k], b[k..]]
    requires |xs| == 2 && waits == WaitsOf(ps) && |waits| > 2 && InStep(waits, chunks)
    requires Paused(xs, ps, [], a + b)
    ensures ps[0].after == 0 && ps[1].after == 1 && ps[1].wait.buffered == b[..k]
  {
    hide Session, FirstRead, FirstUsed, LastUnsent, LastQueued, Used, Check;
    TwoRequests(a, b);
    assert PauseFits(xs, ps, 0, [], a + b) && PauseFits(xs, ps, 1, [], a + b);
    FirstHeard(a, b, k, chunks);
    var p, q := ps[0], ps[1];
    assert waits[0] == p.wait && waits[1] == q.wait;
    assert p.wait.consumed + p.wait.buffered == [];
    assert p.wait.consumed == (a + b)[..Used(a + b, p.after)];
    assert q.wait.consumed + q.wait.buffered == a + b[..k];
    RequestIsNotEmpty(a);
    assert q.wait.consumed == (a + b)[..Used(a + b, q.after)];
    assert |q.wait.consumed| <= |a| + k;
    if q.after == 0 {
      NoWait(a, b[..k], q.wait);
    }
    assert q.after == 1;
    assert (a + b)[..|a|] == a;
    assert q.wait.buffered == (a + b[..k])[|a|..];
  }

  lemma NoWait(a: Bytes, more: Bytes, w: Wait)
    requires Request(a) && w.consumed == [] && w.consumed + w.buffered == a + more
    ensures Check(w.buffered) != Failure(Incomplete)
  {
    hide Check;
    RequestIsNotEmpty(a);
    FrameLaws.CheckExtends(a, more);
    assert w.buffered == a + more;
  }

  lemma FirstHeard(a: Bytes, b: Bytes, k: nat, chunks: seq<Bytes>)
    requires k <= |b| && chunks == [a + b[..k], b[k..]]
    ensures Heard(chunks, 0) == [] && Heard(chunks, 1) == a + b[..k]
  {
    assert chunks[..1] == [a + b[..k]] && chunks[..0] == [];
    FlattenOne(a + b[..k]);
  }

  // ----- an answer that is never sent -----

  /**
   A client sends one request and, in the same read, bytes that never become one: a format error, or the
   beginning of a frame before it closes. Its answer is never sent, if it is shorter than the writer's
   buffer: PING CR LF and then a dollar sign, x, CR LF, say.
   */
  method AnswerLost(a: Bytes, b: Bytes, capacity: nat, db: Db, aof: Aof, parse: Parser, refusal: Frame -> Bytes)
    returns (conn: Connection, ending: ReadResult, ghost xs: seq<Exchange>)
    requires Request(a) && b != [] && !FirstRead(b).Got?
    requires db.Valid() && aof.Valid() && ProperParser(parse)
    requires forall now :: parse(FirstRead(a).frame, now).Some?
    modifies db, aof
    ensures ending == FirstRead(b) && ending != CleanEof
    ensures |xs| == 1 && Served(parse, refusal, xs[0]) && xs[0].ran.Some?
    ensures |Encode(xs[0].answer)| < capacity ==> conn.wire == []
  {
    hide Session, FirstRead, FirstUsed, Paused, AllQueued, AllKept, Led, Encode, EncodeAll;
    hide Heard, ToCome, InStep, TraceOf, RecordedOf, LastUnsent, Db.Balanced, Queued;
    var chunks := [a + b];
    FlattenOne(a + b);
    RequestIsNotEmpty(a);
    conn := new Connection(chunks, capacity);
    ghost var h, ps;
    ending, xs, h, ps := ProcessConnection(conn, db, aof, parse, refusal);
    RequestAndGarbage(a, b);
    LostAnswer(a, b, xs, ps, capacity, parse, refusal);
  }

  lemma RequestAndGarbage(a: Bytes, b: Bytes)
    requires Request(a) && b != [] && !FirstRead(b).Got?
    ensures Session(a + b) == ([FirstRead(a).frame], FirstRead(b)) && FirstRead(b) != CleanEof
    ensures Used(a + b, 1) == |a|
  {
    hide Session, FirstUsed, Check, Parse;
    RequestIsNotEmpty(a);
    FirstReadExtends(a, b);
    SessionUnfold(a + b);
    SessionUnfold(b);
    assert (a + b)[|a|..] == b;
    assert [FirstRead(a).frame] + [] == [FirstRead(a).frame];
    assert Used(a + b, 1) == |a| + Used(b, 0);
  }

  lemma LostAnswer(a: Bytes, b: Bytes, xs: seq<Exchange>, ps: seq<Pause>, capacity: nat,
                   parse: Parser, refusal: Frame -> Bytes)
    requires Request(a) && b != [] && !FirstRead(b).Got?
    requires |xs| == 1 && xs[0].frame == FirstRead(a).frame && Served(parse, refusal, xs[0])
    requires forall now :: parse(FirstRead(a).frame, now).Some?
    requires AllQueued(xs, ps, [a + b], [], a + b, 0) && AllKept(xs, capacity)
    ensures xs[0].ran.Some? && EncodeAll(AnswersOf(xs)) == Encode(xs[0].answer)
    ensures |Encode(xs[0].answer)| < capacity ==> LastUnsent(xs) == Encode(xs[0].answer)
  {
    hide FirstRead, FirstUsed, Encode, EncodeAll, Heard, Used;
    RequestAndGarbage(a, b);
    RequestIsNotEmpty(a);
    assert QueuedFits(xs, ps, 0, [a + b], [], a + b, 0);
    OneChunk(a + b, xs[0].waited);
    assert (a + b)[..|a|] == a;
    assert [] + a + xs[0].queued == a + xs[0].queued;
    assert xs[0].queued == (a + b)[|a|..];
    assert Kept(xs[0], LastUnsent(xs[..0]), capacity);
    assert AnswersOf(xs) == [xs[0].answer];
    EncodeAllOne(xs[0].answer);
  }

  lemma OneChunk(c: Bytes, n: nat)
    ensures Heard([c], n) == if n == 0 then [] else c
  {
    if n > 0 {
      assert [c][..1] == [c];
      FlattenOne(c);
    }
  }
}
