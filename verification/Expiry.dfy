/**
 Lazy expiry. The program leaves expired entries in place until a command or a sweep comes across
 them; clients cannot tell it from a flat map whose expired keys are gone at once.
 */
module Expiry {
  import opened Wrappers
  import opened ByteStrings
  import opened Store
  import opened Database
  import Globs

  /** The stored table shows exactly the eager map. */
  ghost predicate Agrees(t: Table, v: View, now: nat) {
    forall k :: Seen(t, k, now) == Lookup(v, k)
  }

  lemma AliveLookup(v: View, k: Bytes, now: nat)
    ensures Lookup(Alive(v, now), k) ==
            if k in v && !Past(v[k].expiresAt, now) then Some(v[k]) else None
  {
  }

  /** Time passes for both alike. */
  lemma TimePasses(t: Table, v: View, now: nat, later: nat)
    requires Agrees(t, v, now) && now <= later
    ensures Agrees(t, Alive(v, later), later)
  {
    forall k
      ensures Seen(t, k, later) == Lookup(Alive(v, later), k)
    {
      AliveLookup(v, k, later);
      assert Seen(t, k, now) == Lookup(v, k);
    }
  }

  /** A command that is not recorded leaves the value it names as it is. */
  lemma ReadsKeep(c: Command, item: Option<Item>, now: nat)
    requires c.Keyed() && !c.IsWrite()
    ensures Act(c, item, now).0 == item
  {
  }

  /** A step on one key, seen from that key and from all others. */
  lemma KeyStepSeen(t: Table, t': Table, c: Command, now: nat, millis: nat, reply: Reply, k: Bytes, later: nat)
    requires c.Keyed() && KeyStep(t, t', c, now, millis, reply) && now <= later
    ensures k != c.key ==> Seen(t', k, later) == Seen(t, k, later)
    ensures k == c.key ==>
              var item := Act(c, Seen(t, k, now), now).0;
              Seen(t', k, later) == if item.Some? && !Past(item.value.expiresAt, later) then item else None
  {
    if !c.IsWrite() {
      ReadsKeep(c, Seen(t, c.key, now), now);
    }
    hide Act;
    SameElsewhere(t, t', c.key);
  }

  /** Listed keys that are stored but expired. */
  ghost function Dead(t: Table, keys: seq<Bytes>, now: nat): set<Bytes> {
    set k | k in keys && Lingers(t, k, now)
  }

  lemma KeyedIsEager(t: Table, t': Table, v: View, c: Command, now: nat, millis: nat, reply: Reply)
    requires Agrees(t, v, now) && c.Keyed() && KeyStep(t, t', c, now, millis, reply)
    ensures Agrees(t', EagerStep(v, c, now).0, now) && reply == EagerStep(v, c, now).1
  {
    hide Act;
    assert forall k :: Seen(t, k, now) == Lookup(v, k);
    assert Seen(t, c.key, now) == Lookup(v, c.key);
    forall k
      ensures Seen(t', k, now) == Lookup(EagerStep(v, c, now).0, k)
    {
      KeyStepSeen(t, t', c, now, millis, reply, k, now);
    }
  }

  lemma KeysAreEager(t: Table, v: View, pattern: Bytes, now: nat)
    requires Agrees(t, v, now)
    ensures (set k | k in t && !Expired(t[k], now) && Globs.InLanguage(pattern, k))
         == (set k | k in v && Globs.InLanguage(pattern, k))
  {
    hide Globs.InLanguage;
    forall k
      ensures k in t && !Expired(t[k], now) <==> k in v
    {
      assert Seen(t, k, now) == Lookup(v, k);
    }
  }

  /**
   One command: the stored table goes on showing the eager map, and the reply is the eager one. The
   count of DEL is larger by the number of listed keys that had expired and were not yet removed.
   */
  lemma CommandIsEager(t: Table, t': Table, v: View, c: Command, now: nat, millis: nat, reply: Reply)
    requires Agrees(t, v, now) && LazyStep(t, t', c, now, millis, reply)
    ensures Agrees(t', EagerStep(v, c, now).0, now)
    ensures !c.Del? ==> reply == EagerStep(v, c, now).1
    ensures c.Del? ==> reply == Number(EagerStep(v, c, now).1.n + |Dead(t, c.keys, now)|)
  {
    hide Act, KeyStep, Agrees, Dead, SetOf, Globs.InLanguage, Past, Put;
    if c.Keyed() {
      KeyedIsEager(t, t', v, c, now, millis, reply);
    } else if c.Del? {
      DeleteShows(t, v, SetOf(c.keys), now);
      DeleteCounts(t, v, c.keys, now);
    } else if c.Keys? {
      KeysAreEager(t, v, c.pattern, now);
    }
  }

  /**
   GET in two phases: its write phase comes `later`, on the table of that time, but still judges by the
   time `now` of the read phase. It changes nothing visible, and replies as the eager map does at that
   later time, unless the entry expired between the two times; then it replies as at the earlier time.
   */
  lemma LateGetIsEager(t: Table, t': Table, v: View, v0: View, key: Bytes, now: nat, later: nat, millis: nat,
                       reply: Reply)
    requires now <= later && Agrees(t, v, later) && Agrees(t, v0, now)
    requires KeyStep(t, t', Command.Get(key), now, millis, reply)
    ensures Agrees(t', v, later) && reply == EagerStep(v0, Command.Get(key), now).1
    ensures reply == EagerStep(v, Command.Get(key), later).1
            <==> !(key in t && t[key].expiresAt.Some? && now < t[key].expiresAt.value <= later)
  {
    SameElsewhere(t, t', key);
    assert Seen(t, key, now) == Lookup(v0, key) && Seen(t, key, later) == Lookup(v, key);
    forall k
      ensures Seen(t', k, later) == Lookup(v, k)
    {
      assert Seen(t, k, later) == Lookup(v, k);
    }
  }

  lemma DeleteShows(t: Table, v: View, s: set<Bytes>, now: nat)
    requires Agrees(t, v, now)
    ensures Agrees(t - s, v - s, now)
  {
    forall k
      ensures Seen(t - s, k, now) == Lookup(v - s, k)
    {
      assert Seen(t, k, now) == Lookup(v, k);
    }
  }

  lemma DeleteCounts(t: Table, v: View, keys: seq<Bytes>, now: nat)
    requires Agrees(t, v, now)
    ensures |t.Keys * SetOf(keys)| == |v.Keys * SetOf(keys)| + |Dead(t, keys, now)|
  {
    var alive, dead := v.Keys * SetOf(keys), Dead(t, keys, now);
    forall k
      ensures k in t.Keys * SetOf(keys) <==> k in alive || k in dead
      ensures !(k in alive && k in dead)
    {
      assert Seen(t, k, now) == Lookup(v, k);
    }
    assert t.Keys * SetOf(keys) == alive + dead && alive !! dead;
  }

  /**
   The write phase of a sweep, with the time `at` of its read phase and any noted keys: nothing
   that is visible now or later changes.
   */
  lemma SweepIsInvisible(t: Table, v: View, keys: seq<Bytes>, at: nat, now: nat)
    requires Agrees(t, v, now) && at <= now
    ensures Agrees(t - Swept(t, keys, at), v, now)
  {
    forall k
      ensures Seen(t - Swept(t, keys, at), k, now) == Lookup(v, k)
    {
      assert Seen(t, k, now) == Lookup(v, k);
    }
  }

  // ----- whole runs -----

  /** A run mixes commands with the write phases of sweeps; `at` is when the sweep read its sample. */
  datatype Event =
    | Run(c: Command, clock: nat, millis: nat)
    | Sweep(keys: seq<Bytes>, at: nat, clock: nat)

  /** Clocks do not go back, and a sweep read its sample in the past. */
  ghost predicate Ordered(events: seq<Event>) {
    && (forall i, j :: 0 <= i < j < |events| ==> events[i].clock <= events[j].clock)
    && (forall i :: 0 <= i < |events| && events[i].Sweep? ==> events[i].at <= events[i].clock)
  }

  ghost predicate EventStep(t: Table, t': Table, e: Event, reply: Option<Reply>) {
    match e
    case Run(c, clock, millis) => reply.Some? && LazyStep(t, t', c, clock, millis, reply.value)
    case Sweep(keys, at, _) => reply == None && t' == t - Swept(t, keys, at)
  }

  /** The tables of a run, and the reply of each event. */
  ghost predicate LazyRun(ts: seq<Table>, events: seq<Event>, replies: seq<Option<Reply>>) {
    && |ts| == |events| + 1 && |replies| == |events|
    && forall i :: 0 <= i < |events| ==> EventStep(ts[i], ts[i + 1], events[i], replies[i])
  }

  /** The eager map after some events; sweeps do nothing to it. */
  function EagerState(v: View, events: seq<Event>): View {
    if events == [] then v
    else
      var before := EagerState(v, events[..|events| - 1]);
      match events[|events| - 1]
      case Run(c, clock, _) => EagerStep(Alive(before, clock), c, clock).0
      case Sweep(_, _, _) => before
  }

  function EagerReply(v: View, events: seq<Event>, i: nat): Reply
    requires i < |events| && events[i].Run?
  {
    EagerStep(Alive(EagerState(v, events[..i]), events[i].clock), events[i].c, events[i].clock).1
  }

  /** After every prefix of a run, at every later time, the table shows the eager map. */
  lemma {:induction false} RunAgrees(ts: seq<Table>, events: seq<Event>, replies: seq<Option<Reply>>, v: View,
                                     start: nat, i: nat, now: nat)
    requires LazyRun(ts, events, replies) && Ordered(events) && i <= |events|
    requires Agrees(ts[0], v, start) && start <= now
    requires forall j :: 0 <= j < |events| ==> start <= events[j].clock
    requires forall j :: 0 <= j < i ==> events[j].clock <= now
    ensures Agrees(ts[i], Alive(EagerState(v, events[..i]), now), now)
    decreases i
  {
    hide EagerStep, LazyStep, Agrees, Alive, Swept;
    if i == 0 {
      TimePasses(ts[0], v, start, now);
    } else {
      var e := events[i - 1];
      assert events[..i][..i - 1] == events[..i - 1];
      RunAgrees(ts, events, replies, v, start, i - 1, e.clock);
      var before := EagerState(v, events[..i - 1]);
      assert EventStep(ts[i - 1], ts[i], e, replies[i - 1]);
      match e
      case Run(c, clock, millis) =>
        CommandIsEager(ts[i - 1], ts[i], Alive(before, clock), c, clock, millis, replies[i - 1].value);
        TimePasses(ts[i], EagerStep(Alive(before, clock), c, clock).0, clock, now);
      case Sweep(keys, at, clock) =>
        RunAgrees(ts, events, replies, v, start, i - 1, now);
        SweepIsInvisible(ts[i - 1], Alive(before, now), keys, at, now);
    }
  }

  /**
   The bisimulation: every reply of a run is the reply of the eager map, whatever sweeps are mixed
   in; only the count of DEL may be larger, by exactly the listed keys that linger expired.
   */
  lemma RepliesAreEager(ts: seq<Table>, events: seq<Event>, replies: seq<Option<Reply>>, v: View, start: nat, i: nat)
    requires LazyRun(ts, events, replies) && Ordered(events) && i < |events| && events[i].Run?
    requires Agrees(ts[0], v, start) && forall j :: 0 <= j < |events| ==> start <= events[j].clock
    ensures replies[i].Some?
    ensures !events[i].c.Del? ==> replies[i].value == EagerReply(v, events, i)
    ensures events[i].c.Del? ==>
              replies[i].value == Number(EagerReply(v, events, i).n + |Dead(ts[i], events[i].c.keys, events[i].clock)|)
  {
    hide EagerStep, LazyStep, Agrees, Alive, Dead;
    var e := events[i];
    RunAgrees(ts, events, replies, v, start, i, e.clock);
    assert EventStep(ts[i], ts[i + 1], e, replies[i]);
    CommandIsEager(ts[i], ts[i + 1], Alive(EagerState(v, events[..i]), e.clock), e.c, e.clock, e.millis,
                   replies[i].value);
  }

  function WithoutSweeps(events: seq<Event>): seq<Event> {
    if events == [] then []
    else
      var n := |events| - 1;
      WithoutSweeps(events[..n]) + if events[n].Run? then [events[n]] else []
  }

  function CommandReplies(events: seq<Event>, replies: seq<Option<Reply>>): seq<Reply>
    requires |events| == |replies|
  {
    if events == [] then []
    else
      var n := |events| - 1;
      CommandReplies(events[..n], replies[..n]) +
      if events[n].Run? && replies[n].Some? then [replies[n].value] else []
  }

  lemma {:induction false} SweepsLeaveEagerState(v: View, events: seq<Event>)
    ensures EagerState(v, WithoutSweeps(events)) == EagerState(v, events)
  {
    hide EagerStep, Alive;
    if events != [] {
      var n := |events| - 1;
      SweepsLeaveEagerState(v, events[..n]);
      var before := WithoutSweeps(events[..n]);
      if events[n].Run? {
        assert (before + [events[n]])[..|before|] == before;
      } else {
        assert before + [] == before;
      }
    }
  }

  /** The replies of the commands of a run, as the eager map gives them to the commands alone. */
  lemma {:induction false} NthReplyIsEager(ts: seq<Table>, events: seq<Event>, replies: seq<Option<Reply>>, v: View,
                                           start: nat, n: nat, j: nat)
    requires LazyRun(ts, events, replies) && Ordered(events) && n <= |events|
    requires Agrees(ts[0], v, start) && forall i :: 0 <= i < |events| ==> start <= events[i].clock
    requires j < |WithoutSweeps(events[..n])|
    ensures var runs := WithoutSweeps(events[..n]);
            && |CommandReplies(events[..n], replies[..n])| == |runs| && runs[j].Run?
            && (!runs[j].c.Del? ==> CommandReplies(events[..n], replies[..n])[j] == EagerReply(v, runs, j))
    decreases n
  {
    hide EagerStep, LazyStep, Agrees, Alive, EagerState;
    var runs, rest := WithoutSweeps(events[..n]), WithoutSweeps(events[..n - 1]);
    var e := events[n - 1];
    assert events[..n][..n - 1] == events[..n - 1] && replies[..n][..n - 1] == replies[..n - 1];
    RunLengths(ts, events, replies, n - 1);
    assert EventStep(ts[n - 1], ts[n], e, replies[n - 1]);
    if j < |rest| {
      NthReplyIsEager(ts, events, replies, v, start, n - 1, j);
      assert runs[..j] == rest[..j];
    } else {
      RepliesAreEager(ts, events, replies, v, start, n - 1);
      SweepsLeaveEagerState(v, events[..n - 1]);
      assert runs[..j] == rest;
    }
  }

  lemma {:induction false} RunLengths(ts: seq<Table>, events: seq<Event>, replies: seq<Option<Reply>>, n: nat)
    requires LazyRun(ts, events, replies) && n <= |events|
    ensures |CommandReplies(events[..n], replies[..n])| == |WithoutSweeps(events[..n])|
  {
    hide LazyStep;
    if n > 0 {
      assert events[..n][..n - 1] == events[..n - 1] && replies[..n][..n - 1] == replies[..n - 1];
      RunLengths(ts, events, replies, n - 1);
      assert EventStep(ts[n - 1], ts[n], events[n - 1], replies[n - 1]);
    }
  }

  /**
   Sweeps change no reply: two runs from the same store with the same commands, but any sweeps of
   any samples mixed into either, reply alike, DEL aside.
   */
  lemma SweepsChangeNoReply(ts: seq<Table>, events: seq<Event>, replies: seq<Option<Reply>>,
                            us: seq<Table>, others: seq<Event>, otherReplies: seq<Option<Reply>>,
                            v: View, start: nat, j: nat)
    requires LazyRun(ts, events, replies) && Ordered(events)
    requires LazyRun(us, others, otherReplies) && Ordered(others)
    requires ts[0] == us[0] && Agrees(ts[0], v, start)
    requires forall i :: 0 <= i < |events| ==> start <= events[i].clock
    requires forall i :: 0 <= i < |others| ==> start <= others[i].clock
    requires WithoutSweeps(events) == WithoutSweeps(others) && j < |WithoutSweeps(events)|
    ensures |CommandReplies(events, replies)| == |CommandReplies(others, otherReplies)| == |WithoutSweeps(events)|
    ensures WithoutSweeps(events)[j].Run?
    ensures !WithoutSweeps(events)[j].c.Del? ==>
              CommandReplies(events, replies)[j] == CommandReplies(others, otherReplies)[j]
  {
    hide EagerStep, EventStep, Agrees, Alive, EagerState, CommandReplies, WithoutSweeps;
    assert events[..|events|] == events && replies[..|replies|] == replies;
    assert others[..|others|] == others && otherReplies[..|otherReplies|] == otherReplies;
    NthReplyIsEager(ts, events, replies, v, start, |events|, j);
    NthReplyIsEager(us, others, otherReplies, v, start, |others|, j);
  }

  // ----- commands that are not recorded change nothing a client can see -----

  /**
   A command with `IsWrite` false leaves the value, and the expiry, visible under every key at every
   later time. For GET this covers both of its phases: the second one works with the time `now` of
   the first, which may be older than the clock.
   */
  lemma ReadsChangeNothing(t: Table, t': Table, c: Command, now: nat, millis: nat, reply: Reply, k: Bytes, later: nat)
    requires !c.IsWrite() && LazyStep(t, t', c, now, millis, reply) && now <= later
    ensures Seen(t', k, later) == Seen(t, k, later)
  {
    if c.Keyed() {
      ReadsKeep(c, Seen(t, c.key, now), now);
      hide Act;
      KeyStepSeen(t, t', c, now, millis, reply, k, later);
    }
  }

  // ----- the counts that commands reply -----

  function Card(item: Option<Item>): nat {
    if item.None? then 0
    else
      match item.value.data
      case Str(_) => 0
      case List(items) => |items|
      case Set(members) => |members|
      case Hash(fields) => |fields|
  }

  /** How many elements, fields or members a command and its reply claim to have added to a key. */
  function Gain(c: Command, reply: Reply): int {
    match c
    case Lpush(_, elements) => if reply.Number? then |elements| else 0
    case Rpush(_, elements) => if reply.Number? then |elements| else 0
    case Lpop(_) => if reply.Value? then -1 else 0
    case Rpop(_) => if reply.Value? then -1 else 0
    case Hset(_, _) => if reply.Number? then reply.n else 0
    case Sadd(_, _) => if reply.Number? then reply.n else 0
    case Hdel(_, _) => if reply.Number? then -reply.n else 0
    case Srem(_, _) => if reply.Number? then -reply.n else 0
    case _ => 0
  }

  predicate Pushes(c: Command) {
    c.Lpush? || c.Rpush?
  }

  /** Commands that replace, delete or time a key as a whole. */
  predicate Resets(c: Command, key: Bytes) {
    || (c.SetStr? && c.key == key) || (c.Expire? && c.key == key)
    || (c.Del? && key in c.keys)
  }

  /** The reply accounts for the change, a push replies the new length, and nothing becomes timed. */
  ghost predicate Counted(c: Command, item: Option<Item>, after: Option<Item>, reply: Reply) {
    && Card(after) == Card(item) + Gain(c, reply)
    && (Pushes(c) && reply.Number? ==> reply.n == Card(after))
    && (after.Some? ==> after.value.expiresAt == None)
  }

  ghost predicate Untimely(item: Option<Item>) {
    item.Some? ==> item.value.expiresAt == None
  }

  lemma ListCounts(c: Command, item: Option<Item>, now: nat)
    requires (c.Lpush? || c.Rpush? || c.Lpop? || c.Rpop? || c.Lrange?) && Untimely(item)
    ensures Counted(c, item, Act(c, item, now).0, Act(c, item, now).1)
  {
    hide Range;
  }

  lemma HashCounts(c: Command, item: Option<Item>, now: nat)
    requires (c.Hset? || c.Hget? || c.Hdel? || c.Hgetall?) && Untimely(item)
    ensures Counted(c, item, Act(c, item, now).0, Act(c, item, now).1)
  {
    hide Upsert, SetOf;
  }

  lemma SetCounts(c: Command, item: Option<Item>, now: nat)
    requires (c.Sadd? || c.Smembers? || c.Srem? || c.Sismember?) && Untimely(item)
    ensures Counted(c, item, Act(c, item, now).0, Act(c, item, now).1)
  {
    hide SetOf;
  }

  lemma StringCounts(c: Command, item: Option<Item>, now: nat)
    requires (c.Get? || c.Ttl?) && Untimely(item)
    ensures Counted(c, item, Act(c, item, now).0, Act(c, item, now).1)
  {
    hide Remaining;
  }

  /** One command on one value. */
  lemma ActCounts(c: Command, item: Option<Item>, now: nat)
    requires c.Keyed() && !c.SetStr? && !c.Expire? && Untimely(item)
    ensures Counted(c, item, Act(c, item, now).0, Act(c, item, now).1)
  {
    hide Act, Counted;
    if c.Get? || c.Ttl? {
      StringCounts(c, item, now);
    } else if c.Hset? || c.Hget? || c.Hdel? || c.Hgetall? {
      HashCounts(c, item, now);
    } else if c.Sadd? || c.Smembers? || c.Srem? || c.Sismember? {
      SetCounts(c, item, now);
    } else {
      ListCounts(c, item, now);
    }
  }

  function GainOf(key: Bytes, e: Event, reply: Option<Reply>): int {
    if e.Run? && e.c.Keyed() && e.c.key == key && reply.Some? then Gain(e.c, reply.value) else 0
  }

  function TotalGain(key: Bytes, events: seq<Event>, replies: seq<Option<Reply>>): int
    requires |events| == |replies|
  {
    if events == [] then 0
    else
      var n := |events| - 1;
      TotalGain(key, events[..n], replies[..n]) + GainOf(key, events[n], replies[n])
  }

  /** What is stored under a key that carries no expiry. */
  function Stored(t: Table, key: Bytes): Option<Item> {
    if key in t then Some(ItemOf(t[key])) else None
  }

  predicate Untimed(t: Table, key: Bytes) {
    key in t ==> t[key].expiresAt == None
  }

  lemma EventCounts(t: Table, t': Table, e: Event, reply: Option<Reply>, key: Bytes)
    requires EventStep(t, t', e, reply) && Untimed(t, key)
    requires e.Run? ==> !Resets(e.c, key)
    ensures Untimed(t', key)
    ensures Card(Stored(t', key)) == Card(Stored(t, key)) + GainOf(key, e, reply)
    ensures e.Run? && e.c.Keyed() && Pushes(e.c) && e.c.key == key && reply.value.Number? ==>
              reply.value.n == Card(Stored(t', key))
  {
    hide Act;
    if e.Run? && e.c.Keyed() {
      SameElsewhere(t, t', e.c.key);
      if e.c.key == key {
        assert Seen(t, key, e.clock) == Stored(t, key);
        ActCounts(e.c, Stored(t, key), e.clock);
        if !e.c.IsWrite() {
          ReadsKeep(e.c, Stored(t, key), e.clock);
        }
        var item := Act(e.c, Stored(t, key), e.clock).0;
        assert KeyStep(t, t', e.c, e.clock, e.millis, reply.value);
        assert item.Some? ==> key in t' && ItemOf(t'[key]) == item.value;
        assert item.None? ==> key !in t';
      }
    }
  }

  /**
   Over any run in which no command replaces, deletes or times the key, the counts replied by pushes,
   pops, HSET, HDEL, SADD and SREM, duplicate arguments or not, add up to the change of its size.
   */
  lemma {:induction false} CountsAddUp(ts: seq<Table>, events: seq<Event>, replies: seq<Option<Reply>>, key: Bytes,
                                       n: nat)
    requires LazyRun(ts, events, replies) && n <= |events|
    requires Untimed(ts[0], key)
    requires forall i :: 0 <= i < |events| && events[i].Run? ==> !Resets(events[i].c, key)
    ensures Untimed(ts[n], key)
    ensures Card(Stored(ts[n], key)) == Card(Stored(ts[0], key)) + TotalGain(key, events[..n], replies[..n])
    decreases n
  {
    hide EventStep, Untimed, Stored, Card, GainOf;
    if n > 0 {
      CountsAddUp(ts, events, replies, key, n - 1);
      assert EventStep(ts[n - 1], ts[n], events[n - 1], replies[n - 1]);
      EventCounts(ts[n - 1], ts[n], events[n - 1], replies[n - 1], key);
      assert events[..n][..n - 1] == events[..n - 1] && replies[..n][..n - 1] == replies[..n - 1];
    }
  }
}
