/**
 Many connections and one log. A connection records a write before it applies it, and the two are
 not one atomic step, so the log and the store may see the writes of different connections in
 different orders. A DEL is not atomic either: it removes one key after the other. The orders agree for
 a key exactly when no write of the key is applied while an earlier recorded one of another connection
 is still pending; replaying the log then rebuilds the key.
 */
module Replay {
  import opened Wrappers
  import opened ByteStrings
  import opened Frames
  import opened Sessions
  import opened Store
  import opened Database
  import opened Expiry
  import opened Runs
  import opened AppendLog
  import Serving

  // ----- the protocol -----

  datatype Tagged = Tagged(conn: nat, cmd: Command)

  /** The atomic steps of a command: a DEL removes its keys one by one, each under the lock of its shard. */
  function Parts(c: Command): (ps: seq<Command>)
    ensures c.IsWrite() ==> forall i :: 0 <= i < |ps| ==> ps[i].IsWrite()
  {
    if c.Del? then seq(|c.keys|, i requires 0 <= i < |c.keys| => Del([c.keys[i]])) else [c]
  }

  /** A recorded command, its place in the log, and the steps of it that are still to be applied. */
  datatype Pending = Pending(cmd: Command, place: nat, rest: seq<Command>)

  /** The log, the steps that have been applied, and what each connection has recorded and not yet applied. */
  datatype Server = Server(log: seq<Tagged>, applied: seq<Tagged>, pending: map<nat, Pending>)

  /**
   A connection handles one command at a time: it records a write, then applies it step by step; a read
   it applies.
   */
  datatype Step =
    | RecordWrite(conn: nat, c: Command)
    | ApplyWrite(conn: nat)
    | ApplyRead(conn: nat, c: Command)

  ghost predicate Enabled(s: Server, step: Step) {
    match step
    case RecordWrite(conn, c) => c.IsWrite() && Parts(c) != [] && conn !in s.pending
    case ApplyWrite(conn) => conn in s.pending && s.pending[conn].rest != []
    case ApplyRead(conn, c) => !c.IsWrite() && conn !in s.pending
  }

  function After(s: Server, step: Step): Server
    requires step.ApplyWrite? ==> step.conn in s.pending && s.pending[step.conn].rest != []
  {
    match step
    case RecordWrite(conn, c) =>
      Server(s.log + [Tagged(conn, c)], s.applied, s.pending[conn := Pending(c, |s.log|, Parts(c))])
    case ApplyWrite(conn) =>
      var p := s.pending[conn];
      Server(s.log, s.applied + [Tagged(conn, p.rest[0])],
             if |p.rest| == 1 then s.pending - {conn} else s.pending[conn := p.(rest := p.rest[1..])])
    case ApplyRead(conn, c) => Server(s.log, s.applied + [Tagged(conn, c)], s.pending)
  }

  ghost predicate Moves(s: Server, step: Step, s': Server) {
    Enabled(s, step) && s' == After(s, step)
  }

  /** The steps lead through the states. */
  ghost predicate Path(states: seq<Server>, steps: seq<Step>) {
    && |states| == |steps| + 1
    && forall i :: 0 <= i < |steps| ==> Moves(states[i], steps[i], states[i + 1])
  }

  ghost predicate IsRun(states: seq<Server>, steps: seq<Step>) {
    Path(states, steps) && states[0] == Server([], [], map[])
  }

  function TagAll(conn: nat, cs: seq<Command>): (r: seq<Tagged>)
    ensures |r| == |cs| && forall i :: 0 <= i < |cs| ==> r[i] == Tagged(conn, cs[i])
  {
    seq(|cs|, i requires 0 <= i < |cs| => Tagged(conn, cs[i]))
  }

  /** The steps of the commands, in order. */
  function Expand(cs: seq<Tagged>): seq<Tagged> {
    if cs == [] then []
    else
      var last := cs[|cs| - 1];
      Expand(cs[..|cs| - 1]) + TagAll(last.conn, Parts(last.cmd))
  }

  lemma ExpandAppend(cs: seq<Tagged>, c: Tagged)
    ensures Expand(cs + [c]) == Expand(cs) + TagAll(c.conn, Parts(c.cmd))
  {
    assert (cs + [c])[..|cs|] == cs;
  }

  // ----- the writes of one connection -----

  /** The writes of one connection, in order. */
  function WritesOf(cs: seq<Tagged>, conn: nat): seq<Command> {
    if cs == [] then []
    else
      var last := cs[|cs| - 1];
      WritesOf(cs[..|cs| - 1], conn) + if last.conn == conn && last.cmd.IsWrite() then [last.cmd] else []
  }

  lemma WritesAppend(cs: seq<Tagged>, c: Tagged, conn: nat)
    ensures WritesOf(cs + [c], conn) ==
            WritesOf(cs, conn) + if c.conn == conn && c.cmd.IsWrite() then [c.cmd] else []
  {
    assert (cs + [c])[..|cs|] == cs;
  }

  lemma {:induction false} WritesAppendAll(cs: seq<Tagged>, owner: nat, more: seq<Command>, conn: nat)
    requires forall i :: 0 <= i < |more| ==> more[i].IsWrite()
    ensures WritesOf(cs + TagAll(owner, more), conn) == WritesOf(cs, conn) + if owner == conn then more else []
  {
    hide WritesOf;
    if more == [] {
      assert cs + TagAll(owner, more) == cs;
    } else {
      var n := |more| - 1;
      WritesAppendAll(cs, owner, more[..n], conn);
      WritesAppend(cs + TagAll(owner, more[..n]), Tagged(owner, more[n]), conn);
      assert cs + TagAll(owner, more) == (cs + TagAll(owner, more[..n])) + [Tagged(owner, more[n])];
      assert more == more[..n] + [more[n]];
    }
  }

  function Owed(s: Server, conn: nat): seq<Command> {
    if conn in s.pending then s.pending[conn].rest else []
  }

  /** A pending command is where its connection says it is, and what is left of it are steps of it. */
  ghost predicate Tracked(s: Server) {
    forall conn :: conn in s.pending ==>
                     var p := s.pending[conn];
                     && p.place < |s.log| && s.log[p.place] == Tagged(conn, p.cmd) && p.rest != []
                     && forall i :: 0 <= i < |p.rest| ==> p.rest[i] in Parts(p.cmd) && p.rest[i].IsWrite()
  }

  /** Every connection's recorded steps are its applied ones and those it still owes. */
  ghost predicate InOrder(s: Server) {
    && (forall conn :: WritesOf(Expand(s.log), conn) == WritesOf(s.applied, conn) + Owed(s, conn))
    && Tracked(s)
  }

  lemma StepKeepsTrack(s: Server, step: Step)
    requires Tracked(s) && Enabled(s, step)
    ensures Tracked(After(s, step))
  {
    hide Parts;
    if step.RecordWrite? {
      PartsAreWrites(step.c);
    }
  }

  lemma PartsAreWrites(c: Command)
    requires c.IsWrite()
    ensures forall i :: 0 <= i < |Parts(c)| ==> Parts(c)[i] in Parts(c) && Parts(c)[i].IsWrite()
  {
    hide Parts;
  }

  lemma StepKeepsOrder(s: Server, step: Step)
    requires InOrder(s) && Enabled(s, step)
    ensures InOrder(After(s, step))
  {
    hide WritesOf, Expand, Parts, Tracked;
    var s' := After(s, step);
    StepKeepsTrack(s, step);
    forall conn
      ensures WritesOf(Expand(s'.log), conn) == WritesOf(s'.applied, conn) + Owed(s', conn)
    {
      assert WritesOf(Expand(s.log), conn) == WritesOf(s.applied, conn) + Owed(s, conn);
      match step
      case RecordWrite(c, cmd) =>
        ExpandAppend(s.log, Tagged(c, cmd));
        PartsAreWrites(cmd);
        WritesAppendAll(Expand(s.log), c, Parts(cmd), conn);
      case ApplyWrite(c) =>
        OwedIsWritten(s, c);
        WritesAppend(s.applied, Tagged(c, s.pending[c].rest[0]), conn);
      case ApplyRead(c, cmd) =>
        WritesAppend(s.applied, Tagged(c, cmd), conn);
    }
  }

  lemma OwedIsWritten(s: Server, conn: nat)
    requires Tracked(s) && conn in s.pending
    ensures s.pending[conn].rest != [] && s.pending[conn].rest[0].IsWrite()
  {
  }

  lemma {:induction false} RunKeepsOrder(states: seq<Server>, steps: seq<Step>, i: nat)
    requires IsRun(states, steps) && i < |states|
    ensures InOrder(states[i])
  {
    hide InOrder, Enabled, After;
    if i == 0 {
      StartsInOrder();
    } else {
      RunKeepsOrder(states, steps, i - 1);
      assert Moves(states[i - 1], steps[i - 1], states[i]);
      StepKeepsOrder(states[i - 1], steps[i - 1]);
    }
  }

  lemma StartsInOrder()
    ensures InOrder(Server([], [], map[]))
  {
  }

  lemma RunIsTracked(states: seq<Server>, steps: seq<Step>, i: nat)
    requires IsRun(states, steps) && i < |states|
    ensures Tracked(states[i])
  {
    RunKeepsOrder(states, steps, i);
  }

  // ----- the writes of one key -----

  lemma ReadsWriteNoKey(c: Command, key: Bytes)
    requires !c.IsWrite()
    ensures !WritesKey(c, key)
  {
  }

  /** A command writes a key when a step of it does. */
  lemma PartsWrite(c: Command, key: Bytes)
    ensures WritesKey(c, key) <==> exists i :: 0 <= i < |Parts(c)| && WritesKey(Parts(c)[i], key)
  {
    if WritesKey(c, key) {
      if c.Del? {
        var i :| 0 <= i < |c.keys| && c.keys[i] == key;
        assert Parts(c)[i] == Del([key]);
      } else {
        assert Parts(c)[0] == c;
      }
    }
  }

  /** The writes of a key by any connection, in order. */
  function KeyOrder(cs: seq<Tagged>, key: Bytes): seq<Tagged> {
    if cs == [] then []
    else
      var last := cs[|cs| - 1];
      KeyOrder(cs[..|cs| - 1], key) + if WritesKey(last.cmd, key) then [last] else []
  }

  lemma KeyOrderAppend(cs: seq<Tagged>, c: Tagged, key: Bytes)
    ensures KeyOrder(cs + [c], key) == KeyOrder(cs, key) + if WritesKey(c.cmd, key) then [c] else []
  {
    assert (cs + [c])[..|cs|] == cs;
  }

  lemma {:induction false} KeyOrderConcat(xs: seq<Tagged>, ys: seq<Tagged>, key: Bytes)
    ensures KeyOrder(xs + ys, key) == KeyOrder(xs, key) + KeyOrder(ys, key)
  {
    if ys == [] {
      assert xs + ys == xs;
    } else {
      var n := |ys| - 1;
      KeyOrderConcat(xs, ys[..n], key);
      assert (xs + ys)[..|xs| + n] == xs + ys[..n];
    }
  }

  /** Tagged steps: the writes of the key among them are of that connection, and there are some if one writes it. */
  lemma {:induction false} KeyOrderOfOne(conn: nat, cs: seq<Command>, key: Bytes)
    ensures KeyOrder(TagAll(conn, cs), key) != [] <==> exists i :: 0 <= i < |cs| && WritesKey(cs[i], key)
    ensures forall t :: t in KeyOrder(TagAll(conn, cs), key) ==> t.conn == conn
  {
    hide WritesKey;
    if cs != [] {
      var n := |cs| - 1;
      KeyOrderOfOne(conn, cs[..n], key);
      assert TagAll(conn, cs)[..n] == TagAll(conn, cs[..n]);
    }
  }

  /** Commands that give no key an expiry. */
  predicate Timeless(c: Command) {
    !c.Expire? && (c.SetStr? ==> c.expiresAt == None)
  }

  function EffectOn(key: Bytes, item: Option<Item>, c: Command): Option<Item> {
    if c.Keyed() && c.key == key then Act(c, item, 0).0
    else if c.Del? && key in c.keys then None
    else item
  }

  /** What a list of commands leaves under one key. */
  function Fold(key: Bytes, item: Option<Item>, cs: seq<Command>): Option<Item> {
    if cs == [] then item
    else EffectOn(key, Fold(key, item, cs[..|cs| - 1]), cs[|cs| - 1])
  }

  lemma EffectOfOthers(key: Bytes, item: Option<Item>, c: Command)
    requires !WritesKey(c, key)
    ensures EffectOn(key, item, c) == item
  {
    if c.Keyed() && c.key == key {
      ReadsKeep(c, item, 0);
    }
  }

  lemma TimelessActs(c: Command, item: Option<Item>, now: nat)
    requires c.Keyed() && Timeless(c)
    requires item.Some? ==> item.value.expiresAt == None
    ensures Act(c, item, now).0 == Act(c, item, 0).0
    ensures Act(c, item, now).0.Some? ==> Act(c, item, now).0.value.expiresAt == None
  {
    hide Upsert, SetOf, Range;
  }

  function CommandsOf(events: seq<Event>): seq<Command> {
    if events == [] then []
    else
      var last := events[|events| - 1];
      CommandsOf(events[..|events| - 1]) + if last.Run? then [last.c] else []
  }

  ghost predicate TimelessRun(events: seq<Event>) {
    forall i :: 0 <= i < |events| && events[i].Run? ==> Timeless(events[i].c)
  }

  lemma TimelessEvent(t: Table, t': Table, e: Event, reply: Option<Reply>, key: Bytes)
    requires EventStep(t, t', e, reply) && Untimed(t, key)
    requires e.Run? ==> Timeless(e.c)
    ensures Untimed(t', key)
    ensures Stored(t', key) == if e.Run? then EffectOn(key, Stored(t, key), e.c) else Stored(t, key)
  {
    hide Act;
    if e.Run? && e.c.Keyed() {
      SameElsewhere(t, t', e.c.key);
      if e.c.key == key {
        assert Seen(t, key, e.clock) == Stored(t, key);
        TimelessActs(e.c, Stored(t, key), e.clock);
        if !e.c.IsWrite() {
          ReadsKeep(e.c, Stored(t, key), e.clock);
        }
        var item := Act(e.c, Stored(t, key), e.clock).0;
        assert KeyStep(t, t', e.c, e.clock, e.millis, reply.value);
        assert item.Some? ==> key in t' && ItemOf(t'[key]) == item.value;
        assert item.None? ==> key !in t';
      }
    }
  }

  /** A run without times leaves under each key what its commands, folded over that key, leave there. */
  lemma {:induction false} RunFolds(ts: seq<Table>, events: seq<Event>, replies: seq<Option<Reply>>, key: Bytes,
                                    n: nat)
    requires LazyRun(ts, events, replies) && TimelessRun(events) && n <= |events|
    requires ts[0] == map[]
    ensures Untimed(ts[n], key)
    ensures Stored(ts[n], key) == Fold(key, None, CommandsOf(events[..n]))
    decreases n
  {
    hide EventStep, EffectOn, Timeless;
    if n > 0 {
      RunFolds(ts, events, replies, key, n - 1);
      assert EventStep(ts[n - 1], ts[n], events[n - 1], replies[n - 1]);
      TimelessEvent(ts[n - 1], ts[n], events[n - 1], replies[n - 1], key);
      assert events[..n][..n - 1] == events[..n - 1];
      var before := CommandsOf(events[..n - 1]);
      if events[n - 1].Run? {
        assert (before + [events[n - 1].c])[..|before|] == before;
      } else {
        assert before + [] == before;
      }
    }
  }

  function Untag(cs: seq<Tagged>): (r: seq<Command>)
    ensures |r| == |cs| && forall i :: 0 <= i < |cs| ==> r[i] == cs[i].cmd
  {
    seq(|cs|, i requires 0 <= i < |cs| => cs[i].cmd)
  }

  /** Only the writes of a key matter for it. */
  lemma {:induction false} FoldOfKeyOrder(key: Bytes, cs: seq<Tagged>)
    ensures Fold(key, None, Untag(cs)) == Fold(key, None, Untag(KeyOrder(cs, key)))
  {
    hide EffectOn, WritesKey, Untag;
    if cs == [] {
      assert Untag(cs) == [] && Untag(KeyOrder(cs, key)) == [];
    } else {
      var init, last := cs[..|cs| - 1], cs[|cs| - 1];
      FoldOfKeyOrder(key, init);
      var order := KeyOrder(init, key);
      assert Untag(cs)[..|cs| - 1] == Untag(init);
      if WritesKey(last.cmd, key) {
        assert Untag(order + [last])[..|order|] == Untag(order);
      } else {
        assert order + [] == order;
        EffectOfOthers(key, Fold(key, None, Untag(init)), last.cmd);
      }
    }
  }

  lemma FoldAppend(key: Bytes, cs: seq<Command>, c: Command)
    ensures Fold(key, None, cs + [c]) == EffectOn(key, Fold(key, None, cs), c)
  {
    hide EffectOn;
    assert (cs + [c])[..|cs|] == cs;
  }

  lemma RemovalsOneByOne(key: Bytes, item: Option<Item>, keys: seq<Bytes>, k: Bytes)
    ensures EffectOn(key, item, Del(keys + [k])) == EffectOn(key, EffectOn(key, item, Del(keys)), Del([k]))
    ensures EffectOn(key, item, Del([])) == item
  {
  }

  lemma {:induction false} FoldOfRemovals(key: Bytes, before: seq<Command>, keys: seq<Bytes>)
    ensures Fold(key, None, before + Parts(Del(keys))) == EffectOn(key, Fold(key, None, before), Del(keys))
  {
    hide Fold, EffectOn;
    if keys == [] {
      assert before + Parts(Del(keys)) == before;
      RemovalsOneByOne(key, Fold(key, None, before), keys, []);
    } else {
      var n := |keys| - 1;
      FoldOfRemovals(key, before, keys[..n]);
      var earlier := before + Parts(Del(keys[..n]));
      assert before + Parts(Del(keys)) == earlier + [Del([keys[n]])];
      FoldAppend(key, earlier, Del([keys[n]]));
      RemovalsOneByOne(key, Fold(key, None, before), keys[..n], keys[n]);
      assert keys == keys[..n] + [keys[n]];
    }
  }

  /** The steps of a command leave what the command leaves. */
  lemma FoldOfParts(key: Bytes, before: seq<Command>, c: Command)
    ensures Fold(key, None, before + Parts(c)) == EffectOn(key, Fold(key, None, before), c)
  {
    hide EffectOn, Fold;
    if c.Del? {
      FoldOfRemovals(key, before, c.keys);
    } else {
      FoldAppend(key, before, c);
    }
  }

  lemma {:induction false} FoldOfExpanded(key: Bytes, cs: seq<Tagged>)
    ensures Fold(key, None, Untag(Expand(cs))) == Fold(key, None, Untag(cs))
  {
    hide EffectOn, Parts, Untag;
    if cs == [] {
      assert Untag(Expand(cs)) == Untag(cs);
    } else {
      var init, last := cs[..|cs| - 1], cs[|cs| - 1];
      FoldOfExpanded(key, init);
      FoldOfParts(key, Untag(Expand(init)), last.cmd);
      assert Untag(Expand(cs)) == Untag(Expand(init)) + Parts(last.cmd);
      assert Untag(cs)[..|cs| - 1] == Untag(init);
    }
  }

  // ----- the order of the writes of a key -----

  predicate OwesKey(p: Pending, key: Bytes) {
    exists i :: 0 <= i < |p.rest| && WritesKey(p.rest[i], key)
  }

  /** A write of the key is applied while a write of it that was recorded earlier is still pending. */
  ghost predicate Overtakes(s: Server, step: Step, key: Bytes) {
    && step.ApplyWrite? && step.conn in s.pending
    && s.pending[step.conn].rest != [] && WritesKey(s.pending[step.conn].rest[0], key)
    && exists other ::
         && other in s.pending && OwesKey(s.pending[other], key)
         && s.pending[other].place < s.pending[step.conn].place
  }

  ghost predicate NeverOvertaken(states: seq<Server>, steps: seq<Step>, key: Bytes)
    requires |steps| <= |states|
  {
    forall i :: 0 <= i < |steps| ==> !Overtakes(states[i], steps[i], key)
  }

  /** The writes of the key that are still to come from the command at place `i` of the log. */
  function DueAt(s: Server, key: Bytes, i: nat): seq<Tagged>
    requires i < |s.log|
  {
    var conn := s.log[i].conn;
    if conn in s.pending && s.pending[conn].place == i then KeyOrder(TagAll(conn, s.pending[conn].rest), key) else []
  }

  /** The writes of the key that are still to come from the first `n` places of the log. */
  function Due(s: Server, key: Bytes, n: nat): seq<Tagged>
    requires n <= |s.log|
  {
    if n == 0 then [] else Due(s, key, n - 1) + DueAt(s, key, n - 1)
  }

  lemma {:induction false} DueSame(s: Server, s': Server, key: Bytes, n: nat)
    requires n <= |s.log| && n <= |s'.log|
    requires forall i :: 0 <= i < n ==> DueAt(s, key, i) == DueAt(s', key, i)
    ensures Due(s, key, n) == Due(s', key, n)
  {
    hide DueAt;
    if n > 0 {
      DueSame(s, s', key, n - 1);
    }
  }

  /** Nothing is due before place `p`, and in `s'` one write less is due there. */
  lemma {:induction false} DueDrops(s: Server, s': Server, key: Bytes, p: nat, n: nat, t: Tagged)
    requires p < n <= |s.log| && s'.log == s.log && DueAt(s, key, p) == [t] + DueAt(s', key, p)
    requires forall i :: 0 <= i < p ==> DueAt(s, key, i) == []
    requires forall i :: 0 <= i < n && i != p ==> DueAt(s, key, i) == DueAt(s', key, i)
    ensures Due(s, key, n) == [t] + Due(s', key, n)
  {
    hide DueAt;
    if n - 1 > p {
      DueDrops(s, s', key, p, n - 1, t);
    } else {
      DueSame(s, s', key, p);
      NothingDue(s, key, p);
    }
  }

  lemma {:induction false} NothingDue(s: Server, key: Bytes, n: nat)
    requires n <= |s.log| && forall i :: 0 <= i < n ==> DueAt(s, key, i) == []
    ensures Due(s, key, n) == []
  {
    hide DueAt;
    if n > 0 {
      NothingDue(s, key, n - 1);
    }
  }

  /** The first write that is due stands no later than any other. */
  lemma {:induction false} FirstDue(s: Server, key: Bytes, i: nat, n: nat) returns (j: nat)
    requires i < n <= |s.log| && DueAt(s, key, i) != []
    ensures j <= i && DueAt(s, key, j) != [] && Due(s, key, n) != [] && Due(s, key, n)[0] == DueAt(s, key, j)[0]
  {
    hide DueAt;
    if n - 1 > i {
      j := FirstDue(s, key, i, n - 1);
    } else if k :| 0 <= k < i && DueAt(s, key, k) != [] {
      j := FirstDue(s, key, k, n - 1);
    } else {
      NothingDue(s, key, i);
      j := i;
    }
  }

  /** What a pending command owes is due at its place, and it is of its connection. */
  lemma DueIsOwed(s: Server, key: Bytes, i: nat)
    requires i < |s.log|
    ensures DueAt(s, key, i) != [] <==>
            var conn := s.log[i].conn;
            conn in s.pending && s.pending[conn].place == i && OwesKey(s.pending[conn], key)
    ensures forall t :: t in DueAt(s, key, i) ==> t.conn == s.log[i].conn
  {
    hide KeyOrder, WritesKey;
    var conn := s.log[i].conn;
    if conn in s.pending && s.pending[conn].place == i {
      KeyOrderOfOne(conn, s.pending[conn].rest, key);
    }
  }

  /** The writes of the key were applied in the order of the log, and the others are still due. */
  ghost predicate InKeyOrder(s: Server, key: Bytes) {
    KeyOrder(Expand(s.log), key) == KeyOrder(s.applied, key) + Due(s, key, |s.log|)
  }

  ghost predicate Differs(xs: seq<Tagged>, ys: seq<Tagged>, m: nat) {
    m < |xs| && m < |ys| && xs[m] != ys[m]
  }

  ghost predicate Diverged(s: Server, key: Bytes) {
    exists m :: Differs(KeyOrder(Expand(s.log), key), KeyOrder(s.applied, key), m)
  }

  /** Recording a write makes its steps due. */
  lemma RecordKeepsKeyOrder(s: Server, conn: nat, c: Command, key: Bytes)
    requires Tracked(s) && Enabled(s, RecordWrite(conn, c)) && InKeyOrder(s, key)
    ensures InKeyOrder(After(s, RecordWrite(conn, c)), key)
  {
    hide WritesKey, KeyOrder, Expand, Parts;
    var s', n := After(s, RecordWrite(conn, c)), |s.log|;
    ExpandAppend(s.log, Tagged(conn, c));
    KeyOrderConcat(Expand(s.log), TagAll(conn, Parts(c)), key);
    DueSame(s, s', key, n);
    assert DueAt(s', key, n) == KeyOrder(TagAll(conn, Parts(c)), key);
    assert Due(s', key, n + 1) == Due(s, key, n) + KeyOrder(TagAll(conn, Parts(c)), key);
  }

  /** What a step of a pending command changes: its own write is no longer due at its place. */
  lemma ApplyDrops(s: Server, conn: nat, key: Bytes)
    requires Tracked(s) && Enabled(s, ApplyWrite(conn))
    ensures var p := s.pending[conn];
            var s' := After(s, ApplyWrite(conn));
            var head := if WritesKey(p.rest[0], key) then [Tagged(conn, p.rest[0])] else [];
            && p.place < |s.log| && DueAt(s, key, p.place) == head + DueAt(s', key, p.place)
            && forall i :: 0 <= i < |s.log| && i != p.place ==> DueAt(s, key, i) == DueAt(s', key, i)
  {
    hide WritesKey, Parts, KeyOrder;
    var p := s.pending[conn];
    var first, others := [Tagged(conn, p.rest[0])], TagAll(conn, p.rest[1..]);
    assert TagAll(conn, p.rest) == first + others;
    KeyOrderConcat(first, others, key);
    KeyOrderAppend([], first[0], key);
    assert [] + first == first;
    KeyOrderOfNone(key);
  }

  lemma KeyOrderOfNone(key: Bytes)
    ensures KeyOrder([], key) == []
  {
  }

  lemma ApplyKeepsKeyOrder(s: Server, conn: nat, key: Bytes)
    requires Tracked(s) && Enabled(s, ApplyWrite(conn)) && InKeyOrder(s, key) && !Overtakes(s, ApplyWrite(conn), key)
    ensures InKeyOrder(After(s, ApplyWrite(conn)), key)
  {
    hide WritesKey, KeyOrder, Expand, Parts, DueAt, OwesKey;
    var s', n, p := After(s, ApplyWrite(conn)), |s.log|, s.pending[conn];
    ApplyDrops(s, conn, key);
    KeyOrderAppend(s.applied, Tagged(conn, p.rest[0]), key);
    if WritesKey(p.rest[0], key) {
      forall i | 0 <= i < p.place
        ensures DueAt(s, key, i) == []
      {
        DueIsOwed(s, key, i);
      }
      DueDrops(s, s', key, p.place, n, Tagged(conn, p.rest[0]));
    } else {
      DueSame(s, s', key, n);
    }
  }

  lemma StepKeepsKeyOrder(s: Server, step: Step, key: Bytes)
    requires Tracked(s) && Enabled(s, step) && InKeyOrder(s, key) && !Overtakes(s, step, key)
    ensures InKeyOrder(After(s, step), key)
  {
    match step
    case RecordWrite(conn, c) => RecordKeepsKeyOrder(s, conn, c, key);
    case ApplyWrite(conn) => ApplyKeepsKeyOrder(s, conn, key);
    case ApplyRead(conn, c) => ReadKeepsKeyOrder(s, conn, c, key);
  }

  lemma ReadKeepsKeyOrder(s: Server, conn: nat, c: Command, key: Bytes)
    requires Enabled(s, ApplyRead(conn, c)) && InKeyOrder(s, key)
    ensures InKeyOrder(After(s, ApplyRead(conn, c)), key)
  {
    hide KeyOrder, Expand, WritesKey;
    KeyOrderAppend(s.applied, Tagged(conn, c), key);
    ReadsWriteNoKey(c, key);
    DueSame(s, After(s, ApplyRead(conn, c)), key, |s.log|);
  }

  lemma OvertakingDiverges(s: Server, step: Step, key: Bytes)
    requires Tracked(s) && Enabled(s, step) && InKeyOrder(s, key) && Overtakes(s, step, key)
    ensures Diverged(After(s, step), key)
  {
    hide WritesKey, KeyOrder, Expand, Parts, DueAt, OwesKey;
    var p := s.pending[step.conn];
    var other :|
      && other in s.pending && OwesKey(s.pending[other], key)
      && s.pending[other].place < p.place;
    var i := s.pending[other].place;
    DueIsOwed(s, key, i);
    var j := FirstDue(s, key, i, |s.log|);
    DueIsOwed(s, key, j);
    assert s.log[j].conn != step.conn;
    KeyOrderAppend(s.applied, Tagged(step.conn, p.rest[0]), key);
    var s' := After(s, step);
    assert Differs(KeyOrder(Expand(s'.log), key), KeyOrder(s'.applied, key), |KeyOrder(s.applied, key)|);
  }

  /** Both orders only grow, so that they never agree again. */
  lemma StaysDiverged(s: Server, step: Step, key: Bytes)
    requires Enabled(s, step) && Diverged(s, key)
    ensures Diverged(After(s, step), key)
  {
    hide WritesKey, KeyOrder, Expand, Parts;
    var s' := After(s, step);
    match step {
      case RecordWrite(conn, c) =>
        ExpandAppend(s.log, Tagged(conn, c));
        KeyOrderConcat(Expand(s.log), TagAll(conn, Parts(c)), key);
      case ApplyRead(conn, c) => KeyOrderAppend(s.applied, Tagged(conn, c), key);
      case ApplyWrite(conn) => KeyOrderAppend(s.applied, Tagged(conn, s.pending[conn].rest[0]), key);
    }
    var m :| Differs(KeyOrder(Expand(s.log), key), KeyOrder(s.applied, key), m);
    assert Differs(KeyOrder(Expand(s'.log), key), KeyOrder(s'.applied, key), m);
  }

  /** Along a run, the orders agree until the first overtaking, and never after it. */
  lemma {:induction false} RunKeepsKeyOrder(states: seq<Server>, steps: seq<Step>, key: Bytes, n: nat)
    requires IsRun(states, steps) && n <= |steps|
    ensures if forall i :: 0 <= i < n ==> !Overtakes(states[i], steps[i], key) then InKeyOrder(states[n], key)
            else Diverged(states[n], key)
  {
    hide Enabled, After, Overtakes, InKeyOrder, Diverged, InOrder, Tracked;
    if n == 0 {
      StartsInKeyOrder(key);
    } else {
      var s, step := states[n - 1], steps[n - 1];
      RunKeepsKeyOrder(states, steps, key, n - 1);
      RunIsTracked(states, steps, n - 1);
      assert Moves(s, step, states[n]);
      if exists i :: 0 <= i < n - 1 && Overtakes(states[i], steps[i], key) {
        StaysDiverged(s, step, key);
      } else if Overtakes(s, step, key) {
        OvertakingDiverges(s, step, key);
      } else {
        StepKeepsKeyOrder(s, step, key);
      }
    }
  }

  lemma StartsInKeyOrder(key: Bytes)
    ensures InKeyOrder(Server([], [], map[]), key)
  {
  }

  /**
   Once nothing is pending, the log and the store have the writes of a key in the same order, step by
   step, if and only if none of them ever overtook another.
   */
  lemma SameOrderWhenNeverOvertaken(states: seq<Server>, steps: seq<Step>, key: Bytes)
    requires IsRun(states, steps) && states[|steps|].pending == map[]
    ensures KeyOrder(Expand(states[|steps|].log), key) == KeyOrder(states[|steps|].applied, key)
            <==> NeverOvertaken(states, steps, key)
  {
    hide KeyOrder, Expand, Overtakes, WritesKey, Enabled, After;
    var s := states[|steps|];
    RunKeepsKeyOrder(states, steps, key, |steps|);
    NothingDue(s, key, |s.log|);
    assert KeyOrder(s.applied, key) + [] == KeyOrder(s.applied, key);
  }

  /** Then the log and the applied steps leave the same under the key. */
  lemma LogAgreesWithStore(states: seq<Server>, steps: seq<Step>, key: Bytes)
    requires IsRun(states, steps) && states[|steps|].pending == map[] && NeverOvertaken(states, steps, key)
    ensures Fold(key, None, Untag(states[|steps|].log)) == Fold(key, None, Untag(states[|steps|].applied))
  {
    hide NeverOvertaken, Fold, Untag, KeyOrder, Expand, Enabled, After;
    SameOrderWhenNeverOvertaken(states, steps, key);
    FoldOfExpanded(key, states[|steps|].log);
    FoldOfKeyOrder(key, Expand(states[|steps|].log));
    FoldOfKeyOrder(key, states[|steps|].applied);
  }

  // ----- two disciplines under which nothing is overtaken -----

  ghost predicate OneWriterPerKey(log: seq<Tagged>) {
    forall i, j, key ::
      (0 <= i < |log| && 0 <= j < |log| && WritesKey(log[i].cmd, key) && WritesKey(log[j].cmd, key))
      ==> log[i].conn == log[j].conn
  }

  lemma {:induction false} LogGrows(states: seq<Server>, steps: seq<Step>, i: nat, j: nat)
    requires IsRun(states, steps) && i <= j <= |steps|
    ensures states[i].log <= states[j].log
    decreases j - i
  {
    hide Parts;
    if i < j {
      assert Moves(states[j - 1], steps[j - 1], states[j]);
      LogGrows(states, steps, i, j - 1);
    }
  }

  /** A pending command that owes a write of the key writes the key. */
  lemma OwersWrite(s: Server, conn: nat, key: Bytes)
    requires Tracked(s) && conn in s.pending && OwesKey(s.pending[conn], key)
    ensures WritesKey(s.pending[conn].cmd, key)
  {
    hide WritesKey, Parts;
    PartsWrite(s.pending[conn].cmd, key);
  }

  /** No key is written by two connections. */
  lemma OneWriterIsNeverOvertaken(states: seq<Server>, steps: seq<Step>, key: Bytes)
    requires IsRun(states, steps) && OneWriterPerKey(states[|steps|].log)
    ensures NeverOvertaken(states, steps, key)
  {
    hide InOrder, WritesKey, Parts;
    forall i | 0 <= i < |steps|
      ensures !Overtakes(states[i], steps[i], key)
    {
      var s, step, log := states[i], steps[i], states[|steps|].log;
      RunIsTracked(states, steps, i);
      LogGrows(states, steps, i, |steps|);
      if step.ApplyWrite? && step.conn in s.pending && OwesKey(s.pending[step.conn], key) {
        var b := s.pending[step.conn].place;
        OwersWrite(s, step.conn, key);
        forall other | other in s.pending && OwesKey(s.pending[other], key)
          ensures other == step.conn
        {
          var a := s.pending[other].place;
          OwersWrite(s, other, key);
          assert log[a] == s.log[a] && log[b] == s.log[b];
        }
      }
    }
  }

  ghost predicate NonePending(s: Server, key: Bytes) {
    forall conn :: conn in s.pending ==> !OwesKey(s.pending[conn], key)
  }

  /** A write of the key is recorded only when no other one is pending. */
  ghost predicate InTurn(states: seq<Server>, steps: seq<Step>, key: Bytes)
    requires |steps| <= |states|
  {
    forall i :: 0 <= i < |steps| && steps[i].RecordWrite? && WritesKey(steps[i].c, key) ==> NonePending(states[i], key)
  }

  ghost predicate OneAtATime(s: Server, key: Bytes) {
    forall a, b :: a in s.pending && b in s.pending && a != b ==>
                     !(OwesKey(s.pending[a], key) && OwesKey(s.pending[b], key))
  }

  lemma TurnKeepsOneAtATime(s: Server, step: Step, key: Bytes)
    requires OneAtATime(s, key) && Enabled(s, step)
    requires step.RecordWrite? && WritesKey(step.c, key) ==> NonePending(s, key)
    ensures OneAtATime(After(s, step), key)
  {
    hide WritesKey, Parts;
    if step.RecordWrite? {
      PartsWrite(step.c, key);
    } else if step.ApplyWrite? {
      var rest := s.pending[step.conn].rest;
      assert forall i :: 0 <= i < |rest| - 1 ==> rest[1..][i] == rest[i + 1];
    }
  }

  lemma {:induction false} TurnsAreOneAtATime(states: seq<Server>, steps: seq<Step>, key: Bytes, n: nat)
    requires IsRun(states, steps) && InTurn(states, steps, key) && n <= |steps|
    ensures OneAtATime(states[n], key)
  {
    hide WritesKey, Enabled, After;
    if n > 0 {
      TurnsAreOneAtATime(states, steps, key, n - 1);
      assert Moves(states[n - 1], steps[n - 1], states[n]);
      TurnKeepsOneAtATime(states[n - 1], steps[n - 1], key);
    }
  }

  /** Connections that write a key one after the other never overtake each other on it. */
  lemma TurnsAreNeverOvertaken(states: seq<Server>, steps: seq<Step>, key: Bytes)
    requires IsRun(states, steps) && InTurn(states, steps, key)
    ensures NeverOvertaken(states, steps, key)
  {
    hide WritesKey;
    forall i | 0 <= i < |steps|
      ensures !Overtakes(states[i], steps[i], key)
    {
      TurnsAreOneAtATime(states, steps, key, i);
      var s, step := states[i], steps[i];
      if step.ApplyWrite? && step.conn in s.pending && s.pending[step.conn].rest != []
         && WritesKey(s.pending[step.conn].rest[0], key) {
        assert OwesKey(s.pending[step.conn], key);
      }
    }
  }

  /**
   Otherwise the log may rebuild another store: two connections set the same key, are logged in one
   order and applied in the other.
   */
  lemma SharedKeyDiverges(key: Bytes, a: Bytes, b: Bytes) returns (states: seq<Server>, steps: seq<Step>)
    requires a != b
    ensures IsRun(states, steps) && states[|steps|].pending == map[]
    ensures Fold(key, None, Untag(states[|steps|].log)) == Some(Item(Str(b), None))
    ensures Fold(key, None, Untag(states[|steps|].applied)) == Some(Item(Str(a), None))
  {
    hide Fold, Untag, Act, Path;
    var x, y := SetStr(key, a, None), SetStr(key, b, None);
    var p, q := Tagged(0, x), Tagged(1, y);
    FoldOfTwo(key, p, q);
    FoldOfTwo(key, q, p);
    var s0 := Server([], [], map[]);
    var s1 := After(s0, RecordWrite(0, x));
    var s2 := After(s1, RecordWrite(1, y));
    var s3 := After(s2, ApplyWrite(1));
    var s4 := After(s3, ApplyWrite(0));
    assert s4.log == [p, q] && s4.applied == [q, p] && s4.pending == map[];
    states, steps := [s0], [];
    PathStarts(s0);
    steps, states := PathOn(states, steps, RecordWrite(0, x), s1);
    steps, states := PathOn(states, steps, RecordWrite(1, y), s2);
    steps, states := PathOn(states, steps, ApplyWrite(1), s3);
    steps, states := PathOn(states, steps, ApplyWrite(0), s4);
  }

  lemma PathStarts(s: Server)
    ensures Path([s], [])
  {
  }

  lemma PathOn(states: seq<Server>, steps: seq<Step>, step: Step, s: Server)
    returns (steps': seq<Step>, states': seq<Server>)
    requires Path(states, steps) && Moves(states[|steps|], step, s)
    ensures steps' == steps + [step] && states' == states + [s]
    ensures Path(states', steps') && states'[0] == states[0] && states'[|steps'|] == s
  {
    hide Moves;
    steps', states' := steps + [step], states + [s];
  }

  lemma FoldOfTwo(key: Bytes, p: Tagged, q: Tagged)
    requires p.cmd.SetStr? && q.cmd.SetStr? && p.cmd.key == q.cmd.key == key
    ensures Fold(key, None, Untag([p, q])) == Some(Item(Str(q.cmd.value), q.cmd.expiresAt))
  {
    hide Act;
    SetActs(q.cmd, EffectOn(key, None, p.cmd));
    assert [p, q][..1] == [p] && [p][..0] == [];
    assert Untag([p]) == [p.cmd] && Untag([p, q]) == [p.cmd, q.cmd];
    var one, two := [p.cmd], [p.cmd, q.cmd];
    assert two[..1] == one && one[..0] == [];
    assert Fold(key, None, one) == EffectOn(key, None, p.cmd);
    assert Fold(key, None, two) == EffectOn(key, Fold(key, None, one), q.cmd);
  }

  lemma SetActs(c: Command, item: Option<Item>)
    requires c.SetStr?
    ensures Act(c, item, 0).0 == Some(Item(Str(c.value), c.expiresAt))
  {
  }

  // ----- replay -----

  /**
   The live store ran the applied commands in their order, mixed with any sweeps; the replayed store
   ran the log, at other times. Once every recorded command is applied, both hold the same data under
   every key on which no write overtook another.
   */
  lemma ReplayRebuilds(states: seq<Server>, steps: seq<Step>, key: Bytes,
                       ts: seq<Table>, live: seq<Event>, liveReplies: seq<Option<Reply>>,
                       us: seq<Table>, replayed: seq<Event>, replayReplies: seq<Option<Reply>>)
    requires IsRun(states, steps)
    requires var s := states[|steps|];
             && s.pending == map[] && NeverOvertaken(states, steps, key)
             && CommandsOf(live) == Untag(s.applied) && CommandsOf(replayed) == Untag(s.log)
    requires LazyRun(ts, live, liveReplies) && ts[0] == map[] && TimelessRun(live)
    requires LazyRun(us, replayed, replayReplies) && us[0] == map[] && TimelessRun(replayed)
    ensures Stored(us[|replayed|], key) == Stored(ts[|live|], key)
  {
    hide IsRun, NeverOvertaken, Fold, Untag, LazyRun, Timeless;
    LogAgreesWithStore(states, steps, key);
    RunFolds(ts, live, liveReplies, key, |live|);
    RunFolds(us, replayed, replayReplies, key, |replayed|);
    assert live[..|live|] == live && replayed[..|replayed|] == replayed;
  }

  // ----- from the file to the store -----

  /** The frames of a log, each of which parses to its command at any time. */
  ghost predicate LogFrames(parse: Parser, fs: seq<Frame>, cs: seq<Command>) {
    && |fs| == |cs| && AllPrintable(fs)
    && forall i, now :: 0 <= i < |fs| ==> parse(fs[i], now) == Some(cs[i])
  }

  lemma {:induction false} ReplayedCommands(parse: Parser, fs: seq<Frame>, cs: seq<Command>, times: seq<(nat, nat)>)
    requires LogFrames(parse, fs, cs) && |times| == |fs|
    ensures CommandsOf(ReplayEvents(parse, fs, times)) == cs
    ensures (forall i :: 0 <= i < |cs| ==> Timeless(cs[i])) ==> TimelessRun(ReplayEvents(parse, fs, times))
  {
    hide Timeless, Printable;
    if fs != [] {
      var n := |fs| - 1;
      ReplayedCommands(parse, fs[..n], cs[..n], times[..n]);
      var before := ReplayEvents(parse, fs[..n], times[..n]);
      var now := times[n].0;
      assert parse(fs[n], now) == Some(cs[n]);
      assert (before + [Run(cs[n], now, times[n].1)])[..|before|] == before;
      assert cs[..n] + [cs[n]] == cs;
    }
  }

  /** The run of the new store over the loaded log ends with what the old store held. */
  lemma LoadedAgrees(parse: Parser, fs: seq<Frame>, times: seq<(nat, nat)>,
                     states: seq<Server>, steps: seq<Step>, key: Bytes,
                     ts: seq<Table>, live: seq<Event>, liveReplies: seq<Option<Reply>>,
                     us: seq<Table>, replies: seq<Option<Reply>>)
    requires IsRun(states, steps) && |times| == |fs|
    requires var s := states[|steps|];
             && s.pending == map[] && NeverOvertaken(states, steps, key)
             && LogFrames(parse, fs, Untag(s.log)) && CommandsOf(live) == Untag(s.applied)
             && forall i :: 0 <= i < |s.log| ==> Timeless(Untag(s.log)[i])
    requires LazyRun(ts, live, liveReplies) && ts[0] == map[] && TimelessRun(live)
    requires LazyRun(us, ReplayEvents(parse, fs, times), replies) && us[0] == map[]
    ensures Stored(us[|us| - 1], key) == Stored(ts[|live|], key)
  {
    var log := Untag(states[|steps|].log);
    var events := ReplayEvents(parse, fs, times);
    assert |us| == |events| + 1;
    hide IsRun, NeverOvertaken, LazyRun, LogFrames, ReplayEvents, TimelessRun, Timeless, Stored, Untag;
    ReplayedCommands(parse, fs, log, times);
    ReplayRebuilds(states, steps, key, ts, live, liveReplies, us, events, replies);
  }

  lemma RunLength(ts: seq<Table>, events: seq<Event>, replies: seq<Option<Reply>>)
    requires LazyRun(ts, events, replies)
    ensures |ts| == |events| + 1
  {
  }

  /**
   Restart: the server is stopped after a sync with nothing pending, and a new one loads the file.
   Every key holds the data it held.
   */
  method Restart(aof: Aof, ghost states: seq<Server>, ghost steps: seq<Step>, parse: Parser, hash: Bytes -> nat,
                 ghost ts: seq<Table>, ghost live: seq<Event>, ghost liveReplies: seq<Option<Reply>>)
    returns (db: Db)
    requires aof.Valid() && ProperParser(parse)
    requires IsRun(states, steps)
    requires var s := states[|steps|];
             && s.pending == map[] && (forall key :: NeverOvertaken(states, steps, key))
             && LogFrames(parse, aof.recorded, Untag(s.log))
             && CommandsOf(live) == Untag(s.applied)
             && forall i :: 0 <= i < |s.log| ==> Timeless(Untag(s.log)[i])
    requires LazyRun(ts, live, liveReplies) && ts[0] == map[] && TimelessRun(live)
    modifies aof
    ensures db.Valid()
    ensures forall key :: Stored(db.Contents(), key) == Stored(ts[|live|], key)
  {
    hide IsRun, NeverOvertaken, LazyRun, ReplayEvents, TimelessRun, Stored, Session, EncodeAll, Untag;
    hide Timeless, LimitedStep, Printable;
    RunLength(ts, live, liveReplies);
    aof.Sync();
    db := new Db(64, 0, hash);
    ghost var fs := aof.recorded;
    SessionOfPipeline(fs, []);
    SessionOfNothing();
    assert EncodeAll(fs) + [] == EncodeAll(fs) && fs + [] == fs;
    var r, frames, times, h := Load(aof.file, db, parse);
    UnlimitedRun(h, ReplayEvents(parse, fs, times), db.AsSetup());
    forall key
      ensures Stored(db.Contents(), key) == Stored(ts[|live|], key)
    {
      LoadedAgrees(parse, fs, times, states, steps, key, ts, live, liveReplies, h.ts, h.replies);
    }
  }

  // ----- the request loop as a connection of the protocol -----

  function ApplySteps(conn: nat, c: Command): seq<Step> {
    if c.IsWrite() then seq(|Parts(c)|, i requires 0 <= i < |Parts(c)| => ApplyWrite(conn)) else [ApplyRead(conn, c)]
  }

  /** The protocol steps behind a trace of the loop, whose commands are `cs`. */
  function StepsOf(conn: nat, trace: seq<Action>, cs: seq<Command>): seq<Step> {
    if trace == [] || cs == [] then []
    else
      match trace[0]
      case Recorded(_) => [RecordWrite(conn, cs[0])] + StepsOf(conn, trace[1..], cs)
      case Applied(_) => ApplySteps(conn, cs[0]) + StepsOf(conn, trace[1..], cs[1..])
  }

  function CountApplied(trace: seq<Action>): nat {
    if trace == [] then 0 else (if trace[0].Applied? then 1 else 0) + CountApplied(trace[1..])
  }

  /** The trace applies each of the commands, and nothing is recorded after the last one. */
  ghost predicate Balanced(trace: seq<Action>, cs: seq<Command>) {
    CountApplied(trace) == |cs| && (trace != [] ==> trace[|trace| - 1].Applied?)
  }

  lemma {:induction false} StepsAppend(conn: nat, a: seq<Action>, b: seq<Action>, xs: seq<Command>, ys: seq<Command>)
    requires Balanced(a, xs)
    ensures StepsOf(conn, a + b, xs + ys) == StepsOf(conn, a, xs) + StepsOf(conn, b, ys)
    ensures CountApplied(a + b) == CountApplied(a) + CountApplied(b)
  {
    hide ApplySteps;
    if a == [] {
      assert a + b == b && xs + ys == ys;
    } else {
      assert a[1..] != [] ==> a[1..][|a| - 2] == a[|a| - 1];
      SomeApplied(a);
      assert (a + b)[1..] == a[1..] + b;
      if a[0].Recorded? {
        StepsAppend(conn, a[1..], b, xs, ys);
      } else {
        assert (xs + ys)[1..] == xs[1..] + ys;
        StepsAppend(conn, a[1..], b, xs[1..], ys);
      }
    }
  }

  lemma {:induction false} SomeApplied(a: seq<Action>)
    requires a != [] && a[|a| - 1].Applied?
    ensures CountApplied(a) > 0
  {
    if |a| > 1 {
      SomeApplied(a[1..]);
    }
  }

  lemma PathJoin(a: seq<Server>, xs: seq<Step>, b: seq<Server>, ys: seq<Step>)
    requires Path(a, xs) && Path(b, ys) && a[|xs|] == b[0]
    ensures Path(a + b[1..], xs + ys) && (a + b[1..])[0] == a[0] && (a + b[1..])[|xs| + |ys|] == b[|ys|]
  {
    hide Moves;
    var c, zs := a + b[1..], xs + ys;
    forall i | 0 <= i < |zs|
      ensures Moves(c[i], zs[i], c[i + 1])
    {
      if i < |xs| {
        assert Moves(a[i], xs[i], a[i + 1]);
      } else {
        assert Moves(b[i - |xs|], ys[i - |xs|], b[i - |xs| + 1]);
      }
    }
  }

  /** What is left of a connection's command can always be applied, step by step. */
  lemma {:induction false} AppliesToTheEnd(s: Server, conn: nat) returns (states: seq<Server>)
    requires conn in s.pending && s.pending[conn].rest != []
    ensures var rest := s.pending[conn].rest;
            var steps := seq(|rest|, i requires 0 <= i < |rest| => ApplyWrite(conn));
            && Path(states, steps) && states[0] == s
            && states[|steps|] == Server(s.log, s.applied + TagAll(conn, rest), s.pending - {conn})
    decreases |s.pending[conn].rest|
  {
    var rest := s.pending[conn].rest;
    var s' := After(s, ApplyWrite(conn));
    var first := [ApplyWrite(conn)];
    assert Moves(s, ApplyWrite(conn), s');
    assert Path([s, s'], first);
    if |rest| == 1 {
      states := [s, s'];
      assert s.applied + [Tagged(conn, rest[0])] == s.applied + TagAll(conn, rest);
      assert seq(|rest|, i requires 0 <= i < |rest| => ApplyWrite(conn)) == first;
    } else {
      var more := AppliesToTheEnd(s', conn);
      var tail := seq(|rest| - 1, i requires 0 <= i < |rest| - 1 => ApplyWrite(conn));
      PathJoin([s, s'], first, more, tail);
      states := [s, s'] + more[1..];
      assert first + tail == seq(|rest|, i requires 0 <= i < |rest| => ApplyWrite(conn));
      assert s'.applied + TagAll(conn, rest[1..]) == s.applied + TagAll(conn, rest);
      assert s'.pending - {conn} == s.pending - {conn};
    }
  }

  /** The server after one connection handled a command alone. */
  function AfterCommand(s: Server, conn: nat, c: Command): Server {
    Server(s.log + (if c.IsWrite() then [Tagged(conn, c)] else []),
           s.applied + TagAll(conn, if c.IsWrite() then Parts(c) else [c]), s.pending)
  }

  lemma CommandIsPath(s: Server, conn: nat, c: Command) returns (states: seq<Server>)
    requires conn !in s.pending && Parts(c) != []
    ensures var steps := (if c.IsWrite() then [RecordWrite(conn, c)] else []) + ApplySteps(conn, c);
            Path(states, steps) && states[0] == s && states[|steps|] == AfterCommand(s, conn, c)
  {
    hide Parts;
    if c.IsWrite() {
      var s' := After(s, RecordWrite(conn, c));
      assert Moves(s, RecordWrite(conn, c), s') && Path([s, s'], [RecordWrite(conn, c)]);
      var more := AppliesToTheEnd(s', conn);
      PathJoin([s, s'], [RecordWrite(conn, c)], more, ApplySteps(conn, c));
      states := [s, s'] + more[1..];
      assert s'.pending - {conn} == s.pending;
    } else {
      states := [s, After(s, ApplyRead(conn, c))];
      assert Moves(s, ApplyRead(conn, c), states[1]);
      assert [] + ApplySteps(conn, c) == [ApplyRead(conn, c)];
      assert TagAll(conn, [c]) == [Tagged(conn, c)];
    }
  }

  /** One exchange of the loop, as steps. */
  lemma ExchangeIsPath(s: Server, conn: nat, x: Serving.Exchange) returns (states: seq<Server>)
    requires conn !in s.pending && x.ran.Some? && x.ran.value.event.Run? && Parts(x.ran.value.event.c) != []
    ensures var c := x.ran.value.event.c;
            var steps := StepsOf(conn, Serving.Actions(x), [c]);
            && Balanced(Serving.Actions(x), [c])
            && Path(states, steps) && states[0] == s && states[|steps|] == AfterCommand(s, conn, c)
  {
    hide Parts, Path, AfterCommand, ApplySteps;
    var c := x.ran.value.event.c;
    states := CommandIsPath(s, conn, c);
    var record, apply := Recorded(x.frame), Applied(x.frame);
    OneApplied(conn, apply, c);
    if c.IsWrite() {
      assert Serving.Actions(x) == [record, apply];
      assert [record, apply][1..] == [apply];
      assert StepsOf(conn, [record, apply], [c]) == [RecordWrite(conn, c)] + StepsOf(conn, [apply], [c]);
      assert CountApplied([record, apply]) == CountApplied([apply]);
    } else {
      assert Serving.Actions(x) == [apply];
      assert [] + ApplySteps(conn, c) == ApplySteps(conn, c);
    }
  }

  lemma OneApplied(conn: nat, apply: Action, c: Command)
    requires apply.Applied?
    ensures StepsOf(conn, [apply], [c]) == ApplySteps(conn, c) && CountApplied([apply]) == 1
  {
    hide ApplySteps;
    assert [apply][1..] == [] && [c][1..] == [];
    assert ApplySteps(conn, c) + [] == ApplySteps(conn, c);
  }

  /**
   The trace of the request loop is a sequence of steps of the protocol: wherever one connection's loop
   starts with nothing pending, its records and applications are steps of a connection, in their order,
   and it ends with nothing pending. What it recorded and applied are its writes and its commands.
   */
  lemma {:induction false} LoopIsPath(parse: Parser, refusal: Frame -> Bytes, conn: nat, xs: seq<Serving.Exchange>,
                                      s: Server) returns (states: seq<Server>)
    requires conn !in s.pending && ProperParser(parse)
    requires forall i :: 0 <= i < |xs| ==> Serving.Served(parse, refusal, xs[i])
    ensures var cs := CommandsOf(Serving.EventsOf(xs));
            var steps := StepsOf(conn, Serving.TraceOf(xs), cs);
            && Balanced(Serving.TraceOf(xs), cs) && Path(states, steps) && states[0] == s
            && states[|steps|].pending == s.pending
            && states[|steps|].log == s.log + TagAll(conn, WritesOf(TagAll(conn, cs), conn))
  {
    hide Path, StepsOf, Parts, AfterCommand, Serving.Renders, Serving.Actions, Balanced, WritesOf;
    if xs == [] {
      states := [s];
      NoStepsIsPath(conn, s);
    } else {
      var n := |xs| - 1;
      var init, x := xs[..n], xs[n];
      states := LoopIsPath(parse, refusal, conn, init, s);
      var trace, cs := Serving.TraceOf(init), CommandsOf(Serving.EventsOf(init));
      var steps := StepsOf(conn, trace, cs);
      assert Serving.Served(parse, refusal, x);
      if x.ran.None? {
        NothingRan(xs);
      } else {
        var c := x.ran.value.event.c;
        ProperHasParts(c);
        PathLength(states, steps);
        var more := ExchangeIsPath(states[|steps|], conn, x);
        PathLength(more, StepsOf(conn, Serving.Actions(x), [c]));
        SomethingRan(xs);
        StepsAppend(conn, trace, Serving.Actions(x), cs, [c]);
        BalancedAppend(trace, Serving.Actions(x), cs, [c]);
        PathJoin(states, steps, more, StepsOf(conn, Serving.Actions(x), [c]));
        LoggedNext(states[|steps|], conn, s, cs, c);
        states := states + more[1..];
      }
    }
  }

  lemma NoStepsIsPath(conn: nat, s: Server)
    ensures Path([s], StepsOf(conn, [], [])) && StepsOf(conn, [], []) == [] && Balanced([], [])
    ensures s.log == s.log + TagAll(conn, WritesOf(TagAll(conn, []), conn))
    ensures Serving.TraceOf([]) == [] && CommandsOf(Serving.EventsOf([])) == []
  {
  }

  lemma ProperHasParts(c: Command)
    requires c.Proper()
    ensures Parts(c) != []
  {
  }

  lemma PathLength(states: seq<Server>, steps: seq<Step>)
    requires Path(states, steps)
    ensures |states| == |steps| + 1
  {
  }

  lemma {:induction false} NothingRan(xs: seq<Serving.Exchange>)
    requires xs != [] && xs[|xs| - 1].ran.None?
    ensures Serving.TraceOf(xs) == Serving.TraceOf(xs[..|xs| - 1])
    ensures Serving.EventsOf(xs) == Serving.EventsOf(xs[..|xs| - 1])
  {
  }

  lemma {:induction false} SomethingRan(xs: seq<Serving.Exchange>)
    requires xs != [] && xs[|xs| - 1].ran.Some? && xs[|xs| - 1].ran.value.event.Run?
    ensures Serving.TraceOf(xs) == Serving.TraceOf(xs[..|xs| - 1]) + Serving.Actions(xs[|xs| - 1])
    ensures CommandsOf(Serving.EventsOf(xs)) ==
            CommandsOf(Serving.EventsOf(xs[..|xs| - 1])) + [xs[|xs| - 1].ran.value.event.c]
  {
    hide Serving.Actions;
    var before := Serving.EventsOf(xs[..|xs| - 1]);
    assert (before + [xs[|xs| - 1].ran.value.event])[..|before|] == before;
  }

  lemma BalancedAppend(a: seq<Action>, b: seq<Action>, xs: seq<Command>, ys: seq<Command>)
    requires Balanced(a, xs) && Balanced(b, ys) && CountApplied(a + b) == CountApplied(a) + CountApplied(b)
    ensures Balanced(a + b, xs + ys)
  {
    hide CountApplied;
    assert b == [] ==> a + b == a;
  }

  lemma LoggedNext(s: Server, conn: nat, s0: Server, cs: seq<Command>, c: Command)
    requires s.pending == s0.pending && s.log == s0.log + TagAll(conn, WritesOf(TagAll(conn, cs), conn))
    ensures AfterCommand(s, conn, c).pending == s0.pending
    ensures AfterCommand(s, conn, c).log == s0.log + TagAll(conn, WritesOf(TagAll(conn, cs + [c]), conn))
  {
    hide WritesOf, Parts;
    WritesAppend(TagAll(conn, cs), Tagged(conn, c), conn);
    assert TagAll(conn, cs + [c]) == TagAll(conn, cs) + [Tagged(conn, c)];
  }
}
