/**
 Whole runs of the database: the class executes any list of commands and sweeps as a run of the flat
 table, and its byte counter obeys the accounting law along the way.
 */
module Runs {
  import opened Wrappers
  import opened ByteStrings
  import opened Store
  import opened Eviction
  import opened Database
  import opened Expiry
  import Scans
  import Sharding

  function UnchargedBy(t: Table, e: Event): nat {
    if e.Run? then Uncharged(t, e.c, e.clock) else 0
  }

  /** The base costs of every list, hash and set that the first `n` events create. */
  function UnchargedRun(ts: seq<Table>, events: seq<Event>, n: nat): nat
    requires n <= |events| < |ts|
  {
    if n == 0 then 0 else UnchargedRun(ts, events, n - 1) + UnchargedBy(ts[n - 1], events[n - 1])
  }

  predicate Runnable(events: seq<Event>) {
    forall i :: 0 <= i < |events| && events[i].Run? ==> events[i].c.Proper()
  }

  /**
   The course of a run: the tables before, between and after the events, with the base costs that are
   uncharged so far, what evictions left of the table before each event, and the replies.
   */
  datatype Course = Course(ts: seq<Table>, us: seq<nat>, rooms: seq<Table>, replies: seq<Option<Reply>>) {
    function Then(room: Table, t: Table, u: nat, reply: Option<Reply>): Course {
      Course(ts + [t], us + [u], rooms + [room], replies + [reply])
    }
  }

  /**
   One event of a store with any memory limit: before a SET runs, entries may be evicted; `room` is what
   they leave. `u` and `u'` are the base costs left uncharged before and after.
   */
  ghost predicate LimitedStep(t: Table, u: nat, room: Table, t': Table, u': nat, e: Event, reply: Option<Reply>,
                              s: Setup) {
    && (if e.Run? then RoomFor(e.c, t, room, s, u) else room == t)
    && EventStep(room, t', e, reply)
    && u' == u + UnchargedBy(t, e)
  }

  ghost predicate LimitedRun(h: Course, events: seq<Event>, s: Setup) {
    && |h.ts| == |h.us| == |events| + 1 && |h.rooms| == |h.replies| == |events|
    && forall i :: 0 <= i < |events| ==>
                     LimitedStep(h.ts[i], h.us[i], h.rooms[i], h.ts[i + 1], h.us[i + 1], events[i], h.replies[i], s)
  }

  /** The events lead from one table and its uncharged costs to another. */
  ghost predicate Leads(h: Course, events: seq<Event>, s: Setup, t0: Table, u0: nat, t: Table, u: nat) {
    && LimitedRun(h, events, s)
    && h.ts[0] == t0 && h.us[0] == u0 && h.ts[|events|] == t && h.us[|events|] == u
  }

  lemma LeadsNowhere(s: Setup, t: Table, u: nat)
    ensures Leads(Course([t], [u], [], []), [], s, t, u, t, u)
  {
  }

  lemma LeadsOn(h: Course, events: seq<Event>, s: Setup, t0: Table, u0: nat, t: Table, u: nat,
                room: Table, t': Table, u': nat, e: Event, reply: Option<Reply>)
    requires Leads(h, events, s, t0, u0, t, u) && LimitedStep(t, u, room, t', u', e, reply, s)
    ensures Leads(h.Then(room, t', u', reply), events + [e], s, t0, u0, t', u')
  {
    hide LimitedStep;
  }

  method Perform(db: Db, e: Event) returns (reply: Option<Reply>, ghost room: Table)
    requires db.Valid() && (e.Run? ==> e.c.Proper())
    modifies db
    ensures db.Valid()
    ensures LimitedStep(old(db.Contents()), old(db.uncharged), room, db.Contents(), db.uncharged, e, reply,
                        db.AsSetup())
  {
    hide Sharding.Flat, Sharding.Placed, AllSolid, TotalSize, LazyStep, RoomFor, Swept, Uncharged;
    room := db.Contents();
    match e
    case Run(c, clock, millis) =>
      var r;
      r, room := db.Apply(c, clock, millis);
      reply := Some(r);
    case Sweep(keys, at, _) =>
      db.PurgeRemove(keys, at);
      reply := None;
  }

  /**
   Any run of commands and sweeps, under any memory limit, is a run of the flat table. The counter is the
   size of what is stored less the base costs of all lists, hashes and sets created, modulo 2^64: it is
   exact exactly when those costs are a multiple of 2^64.
   */
  method RunEvents(db: Db, events: seq<Event>) returns (replies: seq<Option<Reply>>, ghost h: Course)
    requires db.Valid() && Runnable(events)
    modifies db
    ensures db.Valid() && replies == h.replies
    ensures Leads(h, events, db.AsSetup(), old(db.Contents()), old(db.uncharged), db.Contents(), db.uncharged)
    ensures db.uncharged == old(db.uncharged) + UnchargedRun(h.ts, events, |events|)
    ensures db.currentMemory == (TotalSize(db.Contents()) - db.uncharged) % WORD
    ensures TotalSize(db.Contents()) < WORD ==>
              (db.currentMemory == TotalSize(db.Contents()) <==> db.uncharged % WORD == 0)
    ensures db.maxMemory == 0 ==> LazyRun(h.ts, events, replies)
  {
    hide Sharding.Flat, Sharding.Placed, AllSolid, EventStep, LimitedRun, LimitedStep, TotalSize;
    ghost var t0, u0 := db.Contents(), db.uncharged;
    replies, h := [], Course([t0], [u0], [], []);
    LeadsNowhere(db.AsSetup(), t0, u0);
    for i := 0 to |events|
      invariant db.Valid() && replies == h.replies
      invariant Leads(h, events[..i], db.AsSetup(), t0, u0, db.Contents(), db.uncharged)
    {
      ghost var t, u := db.Contents(), db.uncharged;
      var reply, room := Perform(db, events[i]);
      LeadsOn(h, events[..i], db.AsSetup(), t0, u0, t, u, room, db.Contents(), db.uncharged, events[i], reply);
      assert events[..i] + [events[i]] == events[..i + 1];
      replies, h := replies + [reply], h.Then(room, db.Contents(), db.uncharged, reply);
    }
    assert events[..|events|] == events;
    UnchargedSum(h, events, db.AsSetup(), |events|);
    Accounting(db);
    if db.maxMemory == 0 {
      UnlimitedRun(h, events, db.AsSetup());
    }
  }

  lemma {:induction false} UnchargedSum(h: Course, events: seq<Event>, s: Setup, n: nat)
    requires LimitedRun(h, events, s) && n <= |events|
    ensures h.us[n] == h.us[0] + UnchargedRun(h.ts, events, n)
  {
    hide EventStep, RoomFor, UnchargedBy;
    if n > 0 {
      UnchargedSum(h, events, s, n - 1);
      assert LimitedStep(h.ts[n - 1], h.us[n - 1], h.rooms[n - 1], h.ts[n], h.us[n], events[n - 1],
                         h.replies[n - 1], s);
    }
  }

  /** Without a memory limit nothing is ever evicted. */
  lemma UnlimitedRun(h: Course, events: seq<Event>, s: Setup)
    requires LimitedRun(h, events, s) && s.limit == 0
    ensures LazyRun(h.ts, events, h.replies)
  {
    hide EventStep;
    forall i | 0 <= i < |events|
      ensures EventStep(h.ts[i], h.ts[i + 1], events[i], h.replies[i])
    {
      assert LimitedStep(h.ts[i], h.us[i], h.rooms[i], h.ts[i + 1], h.us[i + 1], events[i], h.replies[i], s);
    }
  }

  /** Commands that can create a list, a hash or a set. */
  predicate Creates(c: Command) {
    c.Lpush? || c.Rpush? || c.Hset? || c.Sadd?
  }

  lemma {:induction false} StringRunsAreCharged(ts: seq<Table>, events: seq<Event>, n: nat)
    requires n <= |events| < |ts|
    requires forall i :: 0 <= i < |events| && events[i].Run? ==> !Creates(events[i].c)
    ensures UnchargedRun(ts, events, n) == 0
  {
    if n > 0 {
      StringRunsAreCharged(ts, events, n - 1);
    }
  }

  /**
   In every run from an empty store that creates no list, hash or set, under any memory limit, the
   counter is exact.
   */
  method StringRun(numShards: nat, maxMemory: nat, hash: Bytes -> nat, events: seq<Event>)
    returns (db: Db, ghost h: Course)
    requires numShards > 0 && Runnable(events)
    requires forall i :: 0 <= i < |events| && events[i].Run? ==> !Creates(events[i].c)
    ensures db.Valid() && db.AsSetup() == Setup(maxMemory, hash, numShards)
    ensures Leads(h, events, db.AsSetup(), map[], 0, db.Contents(), 0)
    ensures db.currentMemory == TotalSize(db.Contents()) % WORD
  {
    hide Sharding.Flat, Sharding.Placed, AllSolid, EventStep, UnchargedRun, Creates, TotalSize, LimitedStep;
    db := new Db(numShards, maxMemory, hash);
    var replies;
    replies, h := RunEvents(db, events);
    StringRunsAreCharged(h.ts, events, |events|);
  }

  // ----- SCAN, called until it is finished -----

  /** Chains SCAN calls from cursor 0 with any counts: it ends, and has listed every passing key once. */
  method ScanAll(db: Db, order: seq<seq<Bytes>>, q: Scans.Query)
    returns (keys: seq<Bytes>, ghost calls: seq<Scans.Call>)
    requires db.Valid() && Scans.IsOrder(order, db.Contents())
    requires |order| == db.numShards && forall i :: 0 <= i < db.numShards ==> SetOf(order[i]) == db.shards[i].Keys
    ensures Unique(keys) && forall k :: k in keys <==> Scans.Passes(db.Contents(), k, q)
    ensures Scans.Chain(order, db.Contents(), q, calls) && keys == Scans.Collected(calls)
  {
    hide Scans.IsOrder, Scans.ScanStep, Scans.Passes, Unique, Flatten, Scans.Rank;
    var cursor := 0;
    keys, calls := [], [];
    ghost var t := db.Contents();
    while true
      invariant Scans.Chain(order, t, q, calls) && keys == Scans.Collected(calls)
      invariant if calls == [] then cursor == 0 else cursor != 0 && cursor == calls[|calls| - 1].next
      decreases |Flatten(order)| - Scans.Rank(order, cursor)
    {
      var count: nat, _: nat := *, *;
      var next, matched := db.Scan(order, cursor, count, q);
      ghost var call := Scans.Call(cursor, count, next, matched);
      Scans.ChainStep(order, t, q, calls, call);
      keys, calls := keys + matched, calls + [call];
      if next == 0 {
        Scans.ScanIsComplete(order, t, q, calls);
        return;
      }
      Scans.ScanAdvances(order, t, q, cursor, count, next, matched);
      cursor := next;
    }
  }
}
