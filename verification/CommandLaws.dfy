/**
 What the commands mean to a client, by observation: what one command stores, another one reads back. The
 laws are about steps of the stored table, in positions and numbers, and then about whole runs.
 */
module CommandLaws {
  import opened Wrappers
  import opened ByteStrings
  import opened Sums
  import opened Store
  import opened Eviction
  import opened Database
  import opened Expiry
  import Globs

  // ----- what a client can see under a key -----

  function ItemsIn(item: Option<Item>): seq<Bytes> {
    if item.Some? && item.value.data.List? then item.value.data.items else []
  }

  function FieldsIn(item: Option<Item>): map<Bytes, Bytes> {
    if item.Some? && item.value.data.Hash? then item.value.data.fields else map[]
  }

  function MembersIn(item: Option<Item>): set<Bytes> {
    if item.Some? && item.value.data.Set? then item.value.data.members else {}
  }

  function ListAt(t: Table, key: Bytes, now: nat): seq<Bytes> {
    ItemsIn(Seen(t, key, now))
  }

  function FieldsAt(t: Table, key: Bytes, now: nat): map<Bytes, Bytes> {
    FieldsIn(Seen(t, key, now))
  }

  function MembersAt(t: Table, key: Bytes, now: nat): set<Bytes> {
    MembersIn(Seen(t, key, now))
  }

  function ExpiryAt(t: Table, key: Bytes, now: nat): Option<nat> {
    var item := Seen(t, key, now);
    if item.Some? then item.value.expiresAt else None
  }

  /** The kinds of value a command works on. */
  predicate WorksOn(c: Command, d: Data) {
    match c
    case Get(_) => d.Str?
    case Lpush(_, _) => d.List?
    case Rpush(_, _) => d.List?
    case Lpop(_) => d.List?
    case Rpop(_) => d.List?
    case Lrange(_, _, _) => d.List?
    case Hset(_, _) => d.Hash?
    case Hget(_, _) => d.Hash?
    case Hdel(_, _) => d.Hash?
    case Hgetall(_) => d.Hash?
    case Sadd(_, _) => d.Set?
    case Smembers(_) => d.Set?
    case Srem(_, _) => d.Set?
    case Sismember(_, _) => d.Set?
    case _ => true
  }

  /** Nothing is visible under the key, or a value the command works on. */
  predicate Ready(t: Table, c: Command, now: nat)
    requires c.Keyed()
  {
    var item := Seen(t, c.key, now);
    item.Some? ==> WorksOn(c, item.value.data)
  }

  /** A command refuses exactly the values of other kinds, and then nothing visible changes. */
  lemma OtherKinds(t: Table, t': Table, c: Command, now: nat, millis: nat, reply: Reply, later: nat)
    requires c.Keyed() && KeyStep(t, t', c, now, millis, reply) && now <= later
    ensures reply == WrongType <==> !Ready(t, c, now)
    ensures reply == WrongType ==> Seen(t', c.key, later) == Seen(t, c.key, later)
  {
    hide Upsert, SetOf, Range, Remaining;
    KeyStepSeen(t, t', c, now, millis, reply, c.key, later);
  }

  /** A command on one key does not change what is visible under another. */
  lemma OtherKeys(t: Table, t': Table, c: Command, now: nat, millis: nat, reply: Reply, k: Bytes, later: nat)
    requires c.Keyed() && KeyStep(t, t', c, now, millis, reply) && now <= later && k != c.key
    ensures Seen(t', k, later) == Seen(t, k, later)
  {
    hide Act;
    KeyStepSeen(t, t', c, now, millis, reply, k, later);
  }

  // ----- strings -----

  /** SET stores its value until its expiry, whatever was there. */
  lemma SetLaw(t: Table, t': Table, key: Bytes, v: Bytes, e: Option<nat>, now: nat, millis: nat, reply: Reply,
               later: nat)
    requires KeyStep(t, t', Command.SetStr(key, v, e), now, millis, reply) && now <= later
    ensures reply == Status
    ensures Seen(t', key, later) == if e.None? || later < e.value then Some(Item(Str(v), e)) else None
  {
    KeyStepSeen(t, t', Command.SetStr(key, v, e), now, millis, reply, key, later);
  }

  /** GET replies the bytes of a visible string. */
  lemma GetLaw(t: Table, t': Table, key: Bytes, now: nat, millis: nat, reply: Reply)
    requires KeyStep(t, t', Command.Get(key), now, millis, reply)
    ensures Seen(t, key, now) == None ==> reply == Nil
    ensures Seen(t, key, now).Some? && Seen(t, key, now).value.data.Str? ==>
              reply == Value(Seen(t, key, now).value.data.value)
  {
  }

  // ----- lists -----

  /** LPUSH puts its elements in front, the last one first. */
  lemma LpushLaw(t: Table, t': Table, key: Bytes, xs: seq<Bytes>, now: nat, millis: nat, reply: Reply, later: nat)
    requires KeyStep(t, t', Lpush(key, xs), now, millis, reply) && Ready(t, Lpush(key, xs), now) && now <= later
    ensures var before, after := ListAt(t, key, now), ListAt(t', key, now);
            && reply == Number(|after|) && |after| == |xs| + |before|
            && (forall i :: 0 <= i < |xs| ==> after[i] == xs[|xs| - 1 - i])
            && (forall i :: 0 <= i < |before| ==> after[|xs| + i] == before[i])
            && Kept(t, t', key, now, later)
  {
    KeyStepSeen(t, t', Lpush(key, xs), now, millis, reply, key, now);
    KeyStepSeen(t, t', Lpush(key, xs), now, millis, reply, key, later);
  }

  /** A list stays visible for as long as the one before it, or for ever if there was none. */
  predicate Kept(t: Table, t': Table, key: Bytes, now: nat, later: nat) {
    Seen(t', key, later) ==
    if Past(ExpiryAt(t, key, now), later) then None else Some(Item(List(ListAt(t', key, now)), ExpiryAt(t, key, now)))
  }

  /** RPUSH puts its elements behind, in their order. */
  lemma RpushLaw(t: Table, t': Table, key: Bytes, xs: seq<Bytes>, now: nat, millis: nat, reply: Reply, later: nat)
    requires KeyStep(t, t', Rpush(key, xs), now, millis, reply) && Ready(t, Rpush(key, xs), now) && now <= later
    ensures var before, after := ListAt(t, key, now), ListAt(t', key, now);
            && reply == Number(|after|) && |after| == |before| + |xs|
            && (forall i :: 0 <= i < |before| ==> after[i] == before[i])
            && (forall i :: 0 <= i < |xs| ==> after[|before| + i] == xs[i])
            && Kept(t, t', key, now, later)
  {
    KeyStepSeen(t, t', Rpush(key, xs), now, millis, reply, key, now);
    KeyStepSeen(t, t', Rpush(key, xs), now, millis, reply, key, later);
  }

  /** LPOP takes the first element, RPOP the last. */
  lemma PopLaw(t: Table, t': Table, c: Command, now: nat, millis: nat, reply: Reply, later: nat)
    requires (c.Lpop? || c.Rpop?) && KeyStep(t, t', c, now, millis, reply) && Ready(t, c, now) && now <= later
    requires Seen(t, c.key, later) == Seen(t, c.key, now)
    ensures var before, after := ListAt(t, c.key, now), ListAt(t', c.key, later);
            if before == [] then reply == Nil && after == []
            else
              && |after| == |before| - 1
              && reply == Value(before[if c.Lpop? then 0 else |before| - 1])
              && (forall i :: 0 <= i < |after| ==> after[i] == before[if c.Lpop? then i + 1 else i])
    ensures Seen(t', c.key, later).Some? ==> Seen(t', c.key, later).value.data.List?
  {
    KeyStepSeen(t, t', c, now, millis, reply, c.key, later);
  }

  /** LRANGE replies the elements at the positions from `start` to `stop`; -1 is the last position. */
  lemma LrangeLaw(t: Table, t': Table, key: Bytes, start: int, stop: int, now: nat, millis: nat, reply: Reply)
    requires KeyStep(t, t', Lrange(key, start, stop), now, millis, reply) && Ready(t, Lrange(key, start, stop), now)
    ensures reply.Items?
    ensures var list, n := ListAt(t, key, now), |ListAt(t, key, now)|;
            var from := if start >= 0 then start else if n + start > 0 then n + start else 0;
            var to := if stop < 0 then n + stop else if stop < n then stop else n - 1;
            && |reply.items| == (if from <= to then to - from + 1 else 0)
            && forall i :: 0 <= i < |reply.items| ==> reply.items[i] == list[from + i]
  {
    RangeByPosition(ListAt(t, key, now), start, stop);
    hide Range;
  }

  lemma RangeByPosition(list: seq<Bytes>, start: int, stop: int)
    ensures var n, r := |list|, Range(list, start, stop);
            var from := if start >= 0 then start else if n + start > 0 then n + start else 0;
            var to := if stop < 0 then n + stop else if stop < n then stop else n - 1;
            && |r| == (if from <= to then to - from + 1 else 0)
            && forall i :: 0 <= i < |r| ==> r[i] == list[from + i]
  {
  }

  /** `LRANGE key 0 -1` is the whole list. */
  lemma WholeRange(t: Table, t': Table, key: Bytes, now: nat, millis: nat, reply: Reply)
    requires KeyStep(t, t', Lrange(key, 0, -1), now, millis, reply) && Ready(t, Lrange(key, 0, -1), now)
    ensures reply == Items(ListAt(t, key, now))
  {
    LrangeLaw(t, t', key, 0, -1, now, millis, reply);
    assert reply.items == ListAt(t, key, now);
  }

  /** One pop after the other, each at its time. */
  ghost predicate Pops(ts: seq<Table>, key: Bytes, front: bool, times: seq<(nat, nat)>, replies: seq<Reply>,
                       later: nat) {
    var c := if front then Lpop(key) else Rpop(key);
    && |ts| == |replies| + 1 && |times| == |replies|
    && forall i :: 0 <= i < |replies| ==>
                     times[i].0 <= later && KeyStep(ts[i], ts[i + 1], c, times[i].0, times[i].1, replies[i])
  }

  /** Pops of a list that is visible all the time reply its elements, from the front or from the back. */
  lemma {:induction false} PopsGiveTheList(ts: seq<Table>, key: Bytes, front: bool, times: seq<(nat, nat)>,
                                           replies: seq<Reply>, later: nat, n: nat)
    requires Pops(ts, key, front, times, replies, later) && n <= |replies|
    requires var item := Seen(ts[0], key, later);
             item.Some? && item.value.data.List?
    ensures var list, rest := ListAt(ts[0], key, later), ListAt(ts[n], key, later);
            var m := if n < |list| then n else |list|;
            && |rest| == |list| - m
            && (forall i :: 0 <= i < |rest| ==> rest[i] == list[if front then m + i else i])
            && forall i :: 0 <= i < n ==>
                             replies[i] == if i < |list| then Value(list[if front then i else |list| - 1 - i]) else Nil
    ensures var item := Seen(ts[n], key, later);
            item.Some? ==> item.value.data.List? && (forall at: nat :: at <= later ==> Seen(ts[n], key, at) == item)
    ensures Seen(ts[n], key, later) == None ==> key !in ts[n]
  {
    hide Act, KeyStep;
    if n == 0 {
      VisibleBefore(ts[0], key, later);
    } else {
      PopsGiveTheList(ts, key, front, times, replies, later, n - 1);
      var c := if front then Lpop(key) else Rpop(key);
      var t, t', now := ts[n - 1], ts[n], times[n - 1].0;
      assert KeyStep(t, t', c, now, times[n - 1].1, replies[n - 1]);
      PopLaw(t, t', c, now, times[n - 1].1, replies[n - 1], later);
      PopLeaves(t, t', c, now, times[n - 1].1, replies[n - 1], later);
    }
  }

  lemma VisibleBefore(t: Table, key: Bytes, later: nat)
    requires Seen(t, key, later).Some?
    ensures forall now: nat :: now <= later ==> Seen(t, key, now) == Seen(t, key, later)
  {
  }

  lemma PopLeaves(t: Table, t': Table, c: Command, now: nat, millis: nat, reply: Reply, later: nat)
    requires (c.Lpop? || c.Rpop?) && KeyStep(t, t', c, now, millis, reply) && now <= later
    requires Seen(t, c.key, now) == Seen(t, c.key, later) && Ready(t, c, now)
    ensures Seen(t', c.key, later) == None ==> c.key !in t'
    ensures Seen(t', c.key, later).Some? ==>
              forall at: nat :: at <= later ==> Seen(t', c.key, at) == Seen(t', c.key, later)
  {
  }

  /** What is pushed comes back: LPOPs reply the elements of LPUSH backwards, and then the old list. */
  lemma LpushThenPops(t: Table, key: Bytes, xs: seq<Bytes>, now: nat, millis: nat, reply: Reply,
                      ts: seq<Table>, times: seq<(nat, nat)>, replies: seq<Reply>, later: nat)
    requires xs != [] && Pops(ts, key, true, times, replies, later) && now <= later
    requires KeyStep(t, ts[0], Lpush(key, xs), now, millis, reply) && Ready(t, Lpush(key, xs), now)
    requires !Past(ExpiryAt(t, key, now), later)
    ensures var had := ListAt(t, key, now);
            forall i :: 0 <= i < |replies| ==>
                          replies[i] == if i < |xs| then Value(xs[|xs| - 1 - i])
                                        else if i < |xs| + |had| then Value(had[i - |xs|]) else Nil
  {
    hide KeyStep, Act;
    LpushLaw(t, ts[0], key, xs, now, millis, reply, later);
    PopsGiveTheList(ts, key, true, times, replies, later, |replies|);
    var before, after := ListAt(t, key, now), ListAt(ts[0], key, now);
    assert ListAt(ts[0], key, later) == after;
    forall i | |xs| <= i < |after|
      ensures after[i] == before[i - |xs|]
    {
      assert after[|xs| + (i - |xs|)] == before[i - |xs|];
    }
  }

  /** LPOPs after RPUSH reply the old list and then the elements; RPOPs reply the elements backwards first. */
  lemma RpushThenPops(t: Table, key: Bytes, xs: seq<Bytes>, now: nat, millis: nat, reply: Reply, front: bool,
                      ts: seq<Table>, times: seq<(nat, nat)>, replies: seq<Reply>, later: nat)
    requires xs != [] && Pops(ts, key, front, times, replies, later) && now <= later
    requires KeyStep(t, ts[0], Rpush(key, xs), now, millis, reply) && Ready(t, Rpush(key, xs), now)
    requires !Past(ExpiryAt(t, key, now), later)
    ensures var had, n := ListAt(t, key, now), |ListAt(t, key, now)| + |xs|;
            forall i :: 0 <= i < |replies| ==>
                          var p := if front then i else n - 1 - i;
                          replies[i] ==
                          if i >= n then Nil else Value(if p < |had| then had[p] else xs[p - |had|])
  {
    hide KeyStep, Act;
    RpushLaw(t, ts[0], key, xs, now, millis, reply, later);
    PopsGiveTheList(ts, key, front, times, replies, later, |replies|);
    assert ListAt(ts[0], key, later) == ListAt(ts[0], key, now);
    PushedByPosition(ListAt(t, key, now), xs, ListAt(ts[0], key, now), front, replies);
  }

  lemma PushedByPosition(had: seq<Bytes>, xs: seq<Bytes>, list: seq<Bytes>, front: bool, replies: seq<Reply>)
    requires |list| == |had| + |xs|
    requires forall i :: 0 <= i < |had| ==> list[i] == had[i]
    requires forall i :: 0 <= i < |xs| ==> list[|had| + i] == xs[i]
    requires forall i :: 0 <= i < |replies| ==>
                           replies[i] == if i < |list| then Value(list[if front then i else |list| - 1 - i]) else Nil
    ensures forall i :: 0 <= i < |replies| ==>
                          var p := if front then i else |list| - 1 - i;
                          replies[i] ==
                          if i >= |list| then Nil else Value(if p < |had| then had[p] else xs[p - |had|])
  {
    assert list == had + xs;
  }

  // ----- hashes -----

  /** The last pair of a field gives its value; fields that are not named keep theirs. */
  lemma HsetLaw(t: Table, t': Table, key: Bytes, pairs: seq<(Bytes, Bytes)>, now: nat, millis: nat, reply: Reply,
                i: nat, f: Bytes)
    requires KeyStep(t, t', Hset(key, pairs), now, millis, reply) && Ready(t, Hset(key, pairs), now)
    ensures var before, after := FieldsAt(t, key, now), FieldsAt(t', key, now);
            && (i < |pairs| && pairs[i].0 == f && (forall j :: i < j < |pairs| ==> pairs[j].0 != f) ==>
                  f in after && after[f] == pairs[i].1)
            && ((forall j :: 0 <= j < |pairs| ==> pairs[j].0 != f) ==>
                  (f in after <==> f in before) && (f in before ==> after[f] == before[f]))
    ensures reply.Number? && Seen(t', key, now) == Some(Item(Hash(FieldsAt(t', key, now)), ExpiryAt(t, key, now)))
  {
    hide Upsert;
    UpsertKeepsLast(FieldsAt(t, key, now), pairs, i, f);
    KeyStepSeen(t, t', Hset(key, pairs), now, millis, reply, key, now);
  }

  /** HDEL removes the named fields and no other, and replies how many there were. */
  lemma HdelLaw(t: Table, t': Table, key: Bytes, names: seq<Bytes>, now: nat, millis: nat, reply: Reply, f: Bytes)
    requires KeyStep(t, t', Hdel(key, names), now, millis, reply) && Ready(t, Hdel(key, names), now)
    ensures var before, after := FieldsAt(t, key, now), FieldsAt(t', key, now);
            && (f in after <==> f in before && f !in names) && (f in after ==> after[f] == before[f])
            && reply == Number(|before| - |after|)
  {
    hide Act;
    HdelActs(key, names, Seen(t, key, now), now, f);
    KeyStepSeen(t, t', Hdel(key, names), now, millis, reply, key, now);
  }

  lemma HdelActs(key: Bytes, names: seq<Bytes>, item: Option<Item>, now: nat, f: Bytes)
    requires item.Some? ==> item.value.data.Hash?
    ensures var (left, reply) := Act(Hdel(key, names), item, now);
            var before, after := FieldsIn(item), FieldsIn(left);
            && (f in after <==> f in before && f !in names) && (f in after ==> after[f] == before[f])
            && reply == Number(|before| - |after|)
            && (left.Some? ==> item.Some? && left.value.expiresAt == item.value.expiresAt)
  {
  }

  lemma HgetLaw(t: Table, t': Table, key: Bytes, f: Bytes, now: nat, millis: nat, reply: Reply)
    requires KeyStep(t, t', Hget(key, f), now, millis, reply) && Ready(t, Hget(key, f), now)
    ensures var fields := FieldsAt(t, key, now);
            reply == if f in fields then Value(fields[f]) else Nil
  {
  }

  lemma HgetallLaw(t: Table, t': Table, key: Bytes, now: nat, millis: nat, reply: Reply)
    requires KeyStep(t, t', Hgetall(key), now, millis, reply) && Ready(t, Hgetall(key), now)
    ensures reply == Fields(FieldsAt(t, key, now))
  {
  }

  // ----- sets -----

  lemma SaddLaw(t: Table, t': Table, key: Bytes, added: seq<Bytes>, now: nat, millis: nat, reply: Reply, m: Bytes)
    requires KeyStep(t, t', Sadd(key, added), now, millis, reply) && Ready(t, Sadd(key, added), now)
    ensures var before, after := MembersAt(t, key, now), MembersAt(t', key, now);
            (m in after <==> m in before || m in added) && reply == Number(|after| - |before|)
    ensures Seen(t', key, now) == Some(Item(Set(MembersAt(t', key, now)), ExpiryAt(t, key, now)))
  {
    hide Act;
    SaddActs(key, added, Seen(t, key, now), now, m);
    KeyStepSeen(t, t', Sadd(key, added), now, millis, reply, key, now);
  }

  lemma SaddActs(key: Bytes, added: seq<Bytes>, item: Option<Item>, now: nat, m: Bytes)
    requires item.Some? ==> item.value.data.Set?
    ensures var (left, reply) := Act(Sadd(key, added), item, now);
            var before, after := MembersIn(item), MembersIn(left);
            && (m in after <==> m in before || m in added) && reply == Number(|after| - |before|)
            && left == Some(Item(Set(after), if item.Some? then item.value.expiresAt else None))
  {
  }

  lemma SremLaw(t: Table, t': Table, key: Bytes, removed: seq<Bytes>, now: nat, millis: nat, reply: Reply, m: Bytes)
    requires KeyStep(t, t', Srem(key, removed), now, millis, reply) && Ready(t, Srem(key, removed), now)
    ensures var before, after := MembersAt(t, key, now), MembersAt(t', key, now);
            (m in after <==> m in before && m !in removed) && reply == Number(|before| - |after|)
  {
    hide Act;
    SremActs(key, removed, Seen(t, key, now), now, m);
    KeyStepSeen(t, t', Srem(key, removed), now, millis, reply, key, now);
  }

  lemma SremActs(key: Bytes, removed: seq<Bytes>, item: Option<Item>, now: nat, m: Bytes)
    requires item.Some? ==> item.value.data.Set?
    ensures var (left, reply) := Act(Srem(key, removed), item, now);
            var before, after := MembersIn(item), MembersIn(left);
            && (m in after <==> m in before && m !in removed) && reply == Number(|before| - |after|)
            && (left.Some? ==> item.Some? && left.value.expiresAt == item.value.expiresAt)
  {
  }

  lemma SismemberLaw(t: Table, t': Table, key: Bytes, m: Bytes, now: nat, millis: nat, reply: Reply)
    requires KeyStep(t, t', Sismember(key, m), now, millis, reply) && Ready(t, Sismember(key, m), now)
    ensures reply == Number(if m in MembersAt(t, key, now) then 1 else 0)
  {
  }

  lemma SmembersLaw(t: Table, t': Table, key: Bytes, now: nat, millis: nat, reply: Reply)
    requires KeyStep(t, t', Smembers(key), now, millis, reply) && Ready(t, Smembers(key), now)
    ensures reply == Members(MembersAt(t, key, now))
  {
  }

  // ----- expiry -----

  /** EXPIRE sets the time at which a visible value goes; where there is none, it leaves none. */
  lemma ExpireLaw(t: Table, t': Table, key: Bytes, d: nat, now: nat, millis: nat, reply: Reply, later: nat)
    requires KeyStep(t, t', Command.Expire(key, d), now, millis, reply) && now <= later
    ensures reply == Number(if Seen(t, key, now).Some? then 1 else 0)
    ensures Seen(t', key, later) ==
            if Seen(t, key, now).Some? && later < now + d
            then Some(Item(Seen(t, key, now).value.data, Some(now + d))) else None
  {
    KeyStepSeen(t, t', Command.Expire(key, d), now, millis, reply, key, later);
  }

  /** TTL in whole seconds, PTTL in whole milliseconds; -1 without expiry, -2 without a value. */
  lemma TtlLaw(t: Table, t': Table, key: Bytes, inMillis: bool, now: nat, millis: nat, reply: Reply)
    requires KeyStep(t, t', Command.Ttl(key, inMillis), now, millis, reply)
    ensures match Seen(t, key, now)
            case None => reply == Number(-2)
            case Some(item) =>
              match item.expiresAt
              case None => reply == Number(-1)
              case Some(e) => now < e && reply == Number((e - now) / if inMillis then 1_000_000 else 1_000_000_000)
  {
  }

  // ----- access times -----

  /** GET of a visible value refreshes its access time, also when it is of another kind; EXPIRE and TTL do not. */
  lemma AccessTimes(t: Table, t': Table, c: Command, now: nat, millis: nat, reply: Reply)
    requires c.Keyed() && KeyStep(t, t', c, now, millis, reply) && Seen(t, c.key, now).Some? && c.key in t'
    ensures c.Get? || c.SetStr? ==> t'[c.key].lastAccessed == millis
    ensures c.Expire? || c.Ttl? ==> t'[c.key].lastAccessed == t[c.key].lastAccessed
    ensures !c.Expire? && !c.Ttl? ==>
              t'[c.key].lastAccessed == if c.Get? || Ready(t, c, now) then millis else t[c.key].lastAccessed
  {
    OtherKinds(t, t', c, now, millis, reply, now);
    ReplyIsVisible(t, t', c, now, millis, reply);
    hide Act;
  }

  lemma ReplyIsVisible(t: Table, t': Table, c: Command, now: nat, millis: nat, reply: Reply)
    requires c.Keyed() && KeyStep(t, t', c, now, millis, reply) && Seen(t, c.key, now).Some? && c.key in t'
    ensures Act(c, Seen(t, c.key, now), now).0.Some?
  {
    hide Upsert, SetOf, Range, Remaining;
  }

  /** A key that was just read is not evicted while a draw meets an entry that was accessed before. */
  lemma ReadsProtect(t: Table, t': Table, key: Bytes, now: nat, millis: nat, reply: Reply,
                     draws: seq<Draw>, pick: nat, other: nat)
    requires KeyStep(t, t', Command.Get(key), now, millis, reply) && Seen(t, key, now).Some?
    requires Chosen(t', draws, pick)
    requires other < |draws| && Candidate(t', draws[other]) && t'[draws[other].key.value].lastAccessed < millis
    ensures draws[pick].key.value != key
  {
    assert key in t' && t'[key].lastAccessed == millis;
  }

  // ----- what is recorded -----

  /** A command is recorded exactly if it can change what a client sees. */
  lemma RecordedWhenItCanChange(c: Command)
    requires c.Keyed() && c.Proper()
    ensures c.IsWrite() <==> exists item, now :: Act(c, item, now).0 != item
  {
    if c.IsWrite() {
      var item := ChangedBy(c);
      assert Act(c, item, 0).0 != item;
    }
    forall item, now | !c.IsWrite()
      ensures Act(c, item, now).0 == item
    {
      ReadsKeep(c, item, now);
    }
  }

  /** A value that the command changes. */
  lemma ChangedBy(c: Command) returns (item: Option<Item>)
    requires c.Keyed() && c.Proper() && c.IsWrite()
    ensures Act(c, item, 0).0 != item
  {
    match c
    case Lpop(_) => item := Some(Item(List([[]]), None));
    case Rpop(_) => item := Some(Item(List([[]]), None));
    case Expire(_, _) => item := Some(Item(Str([]), None));
    case Hdel(_, names) =>
      item := Some(Item(Hash(map[names[0] := []]), None));
      assert names[0] in SetOf(names);
    case Srem(_, removed) =>
      item := Some(Item(Set({removed[0]}), None));
      assert removed[0] in SetOf(removed);
    case _ => item := None;
  }

  /** The write phase of a sweep removes the noted keys that are expired, and no other. */
  lemma SweepRemoves(t: Table, keys: seq<Bytes>, at: nat, k: Bytes)
    requires k in t
    ensures k in t - Swept(t, keys, at) <==> !(k in keys && t[k].expiresAt.Some? && t[k].expiresAt.value <= at)
  {
  }

  /** An expired entry that a command comes across: these commands remove it, and those step over it. */
  lemma ExpiredEntries(t: Table, t': Table, c: Command, now: nat, millis: nat, reply: Reply)
    requires c.Keyed() && KeyStep(t, t', c, now, millis, reply) && Lingers(t, c.key, now)
    ensures c.Get? || c.Lpop? || c.Rpop? || c.Hdel? || c.Srem? || c.Expire? ==> c.key !in t'
    ensures c.Ttl? || c.Lrange? || c.Hget? || c.Hgetall? || c.Smembers? || c.Sismember? ==>
              c.key in t' && t'[c.key] == t[c.key]
  {
  }

  /** Commands that name no key, or several. */
  lemma KeylessLaw(t: Table, t': Table, c: Command, now: nat, millis: nat, reply: Reply, k: Bytes)
    requires LazyStep(t, t', c, now, millis, reply)
    ensures c == Ping(None) ==> reply == Pong && t' == t
    ensures c.Ping? && c.message.Some? ==> reply == Value(c.message.value) && t' == t
    ensures c.Echo? ==> reply == Value(c.text) && t' == t
    ensures c.Del? ==> (k in t' <==> k in t && k !in c.keys) && (k in t' ==> t'[k] == t[k])
    ensures c.Del? ==> reply == Number(|t| - |t'|)
    ensures c.Keys? ==> reply.Members? && t' == t
    ensures c.Keys? ==> (k in reply.members <==> Seen(t, k, now).Some? && Globs.InLanguage(c.pattern, k))
  {
    hide KeyStep, Globs.InLanguage;
    if c.Del? {
      var gone := t.Keys * SetOf(c.keys);
      assert t'.Keys == t.Keys - gone && |t'.Keys| == |t.Keys| - |gone|;
      assert |t| == |t.Keys| && |t'| == |t'.Keys|;
    }
  }

  /** No stored list, set or hash is empty. */
  lemma NothingEmptyIsStored(db: Db, k: Bytes)
    requires db.Valid() && db.Sharded() && k in db.Contents()
    ensures var d := db.Contents()[k].data;
            d != List([]) && d != Set({}) && d != Hash(map[])
  {
  }

  // ----- sizes -----

  /** What the creation of a list, a hash or a set leaves uncharged, in numbers. */
  lemma UnchargedInNumbers(t: Table, c: Command, now: nat)
    requires c.Keyed()
    ensures Uncharged(t, c, now) ==
            if (c.Lpush? || c.Rpush? || c.Hset? || c.Sadd?) && Seen(t, c.key, now) == None then |c.key| + 64 else 0
  {
  }

  /** The sizes of entries, in numbers. */
  lemma SizesInNumbers(key: Bytes, v: Bytes, e: Option<nat>, millis: nat, items: seq<Bytes>,
                       members: set<Bytes>, fields: map<Bytes, Bytes>, x: Bytes)
    ensures SizeBytes(key, Entry(Str(v), e, millis)) == |key| + |v| + 64
    ensures SizeBytes(key, Entry(List([]), e, millis)) == |key| + 64
    ensures DataSize(List(items + [x])) == DataSize(List(items)) + |x| + 16
    ensures DataSize(Set({})) == 0 && DataSize(Hash(map[])) == 0
    ensures x !in members ==> DataSize(Set(members + {x})) == DataSize(Set(members)) + |x| + 16
    ensures x !in fields ==> DataSize(Hash(fields[x := v])) == DataSize(Hash(fields)) + |x| + |v| + 32
  {
    ItemsSizeAppend(items, [x]);
    MemberSize(members, x);
    FieldSize(fields, x, v);
    NoFields();
  }

  // ----- whole runs -----

  /** Events that neither write the key nor come after a time leave what is visible under it from then on. */
  lemma {:induction false} Persists(ts: seq<Table>, events: seq<Event>, replies: seq<Option<Reply>>, key: Bytes,
                                    m: nat, n: nat, later: nat)
    requires LazyRun(ts, events, replies) && Ordered(events) && m <= n <= |events|
    requires forall i :: m <= i < n ==>
                           && events[i].clock <= later
                           && (events[i].Run? ==> !WritesKey(events[i].c, key))
    ensures Seen(ts[n], key, later) == Seen(ts[m], key, later)
    decreases n
  {
    hide EventStep, WritesKey, Seen;
    if m < n {
      Persists(ts, events, replies, key, m, n - 1, later);
      assert EventStep(ts[n - 1], ts[n], events[n - 1], replies[n - 1]);
      EventKeeps(ts[n - 1], ts[n], events[n - 1], replies[n - 1], key, later);
    }
  }

  lemma EventKeeps(t: Table, t': Table, e: Event, reply: Option<Reply>, key: Bytes, later: nat)
    requires EventStep(t, t', e, reply) && e.clock <= later && (e.Sweep? ==> e.at <= e.clock)
    requires e.Run? ==> !WritesKey(e.c, key)
    ensures Seen(t', key, later) == Seen(t, key, later)
  {
    hide Act, KeyStep;
    if e.Run? && e.c.Keyed() {
      KeyStepSeen(t, t', e.c, e.clock, e.millis, reply.value, key, later);
      if e.c.key == key {
        ReadsKeep(e.c, Seen(t, key, e.clock), e.clock);
      }
    }
  }

  /** No event between two places of a run writes the key. */
  ghost predicate Untouched(events: seq<Event>, key: Bytes, m: nat, n: nat) {
    m <= n <= |events| && forall i :: m <= i < n && events[i].Run? ==> !WritesKey(events[i].c, key)
  }

  /** What is visible under a key at a later event of a run, if nothing wrote the key in between. */
  lemma StillSeen(ts: seq<Table>, events: seq<Event>, replies: seq<Option<Reply>>, key: Bytes, m: nat, n: nat)
    requires LazyRun(ts, events, replies) && Ordered(events) && Untouched(events, key, m, n) && n < |events|
    ensures Seen(ts[n], key, events[n].clock) == Seen(ts[m], key, events[n].clock)
  {
    hide EventStep, WritesKey, Seen;
    forall i | m <= i < n
      ensures events[i].clock <= events[n].clock
    {
    }
    Persists(ts, events, replies, key, m, n, events[n].clock);
  }

  ghost predicate RunsAt(events: seq<Event>, replies: seq<Option<Reply>>, i: nat, c: Command) {
    i < |events| && i < |replies| && events[i].Run? && events[i].c == c && replies[i].Some?
  }

  lemma StepAt(ts: seq<Table>, events: seq<Event>, replies: seq<Option<Reply>>, i: nat)
    requires LazyRun(ts, events, replies) && i < |events| && events[i].Run? && events[i].c.Keyed()
    ensures replies[i].Some?
    ensures KeyStep(ts[i], ts[i + 1], events[i].c, events[i].clock, events[i].millis, replies[i].value)
  {
    hide KeyStep, Act;
    assert EventStep(ts[i], ts[i + 1], events[i], replies[i]);
  }

  /** GET reads back the last SET of its key, until its expiry; a key that was never written reads as nothing. */
  lemma GetReadsSet(ts: seq<Table>, events: seq<Event>, replies: seq<Option<Reply>>, key: Bytes,
                    v: Bytes, e: Option<nat>, m: nat, n: nat)
    requires LazyRun(ts, events, replies) && Ordered(events) && m < n < |events|
    requires events[m].Run? && events[m].c == Command.SetStr(key, v, e) && Untouched(events, key, m + 1, n)
    requires events[n].Run? && events[n].c == Command.Get(key)
    ensures replies[n] == Some(if e.None? || events[n].clock < e.value then Value(v) else Nil)
  {
    hide KeyStep, Act;
    StepAt(ts, events, replies, m);
    StepAt(ts, events, replies, n);
    SetLaw(ts[m], ts[m + 1], key, v, e, events[m].clock, events[m].millis, replies[m].value, events[n].clock);
    StillSeen(ts, events, replies, key, m + 1, n);
    GetLaw(ts[n], ts[n + 1], key, events[n].clock, events[n].millis, replies[n].value);
  }

  lemma GetReadsNothing(ts: seq<Table>, events: seq<Event>, replies: seq<Option<Reply>>, key: Bytes, n: nat)
    requires LazyRun(ts, events, replies) && Ordered(events) && n < |events|
    requires key !in ts[0] && Untouched(events, key, 0, n)
    requires events[n].Run? && events[n].c == Command.Get(key)
    ensures replies[n] == Some(Nil)
  {
    hide KeyStep, Act;
    StepAt(ts, events, replies, n);
    StillSeen(ts, events, replies, key, 0, n);
    GetLaw(ts[n], ts[n + 1], key, events[n].clock, events[n].millis, replies[n].value);
  }

  /** After EXPIRE, the value is there for the given time, TTL and PTTL count it down, and then it is gone. */
  lemma ExpireCountsDown(ts: seq<Table>, events: seq<Event>, replies: seq<Option<Reply>>, key: Bytes,
                         d: nat, m: nat, n: nat)
    requires LazyRun(ts, events, replies) && Ordered(events) && m < n < |events|
    requires events[m].Run? && events[m].c == Command.Expire(key, d) && Untouched(events, key, m + 1, n)
    requires replies[m] == Some(Number(1))
    ensures var now, at := events[m].clock, events[n].clock;
            && Seen(ts[m], key, now).Some?
            && Seen(ts[n], key, at) ==
               (if at < now + d then Some(Item(Seen(ts[m], key, now).value.data, Some(now + d))) else None)
            && (events[n].Run? && events[n].c == Command.Ttl(key, false) ==>
                  replies[n] == Some(Number(if at < now + d then (now + d - at) / 1_000_000_000 else -2)))
            && (events[n].Run? && events[n].c == Command.Ttl(key, true) ==>
                  replies[n] == Some(Number(if at < now + d then (now + d - at) / 1_000_000 else -2)))
  {
    hide KeyStep, Act;
    StepAt(ts, events, replies, m);
    ExpireLaw(ts[m], ts[m + 1], key, d, events[m].clock, events[m].millis, replies[m].value, events[n].clock);
    StillSeen(ts, events, replies, key, m + 1, n);
    if events[n].Run? && events[n].c.Ttl? {
      StepAt(ts, events, replies, n);
      TtlLaw(ts[n], ts[n + 1], events[n].c.key, events[n].c.millis, events[n].clock, events[n].millis,
             replies[n].value);
    }
  }

  /** HGET and HGETALL read back the last pair that HSET stored, for as long as the hash is visible. */
  lemma HgetReadsHset(ts: seq<Table>, events: seq<Event>, replies: seq<Option<Reply>>, key: Bytes,
                      pairs: seq<(Bytes, Bytes)>, i: nat, f: Bytes, m: nat, n: nat)
    requires LazyRun(ts, events, replies) && Ordered(events) && m < n < |events|
    requires events[m].Run? && events[m].c == Hset(key, pairs) && Untouched(events, key, m + 1, n)
    requires Ready(ts[m], Hset(key, pairs), events[m].clock)
    requires !Past(ExpiryAt(ts[m], key, events[m].clock), events[n].clock)
    requires i < |pairs| && pairs[i].0 == f && forall j :: i < j < |pairs| ==> pairs[j].0 != f
    ensures events[n].Run? && events[n].c == Hget(key, f) ==> replies[n] == Some(Value(pairs[i].1))
    ensures events[n].Run? && events[n].c == Hgetall(key) ==>
              replies[n].Some? && replies[n].value.Fields?
              && f in replies[n].value.fields && replies[n].value.fields[f] == pairs[i].1
  {
    hide KeyStep, Act;
    StepAt(ts, events, replies, m);
    HsetLaw(ts[m], ts[m + 1], key, pairs, events[m].clock, events[m].millis, replies[m].value, i, f);
    StillSeen(ts, events, replies, key, m + 1, n);
    if events[n].Run? && (events[n].c == Hget(key, f) || events[n].c == Hgetall(key)) {
      StepAt(ts, events, replies, n);
      if events[n].c.Hget? {
        HgetLaw(ts[n], ts[n + 1], key, f, events[n].clock, events[n].millis, replies[n].value);
      } else {
        HgetallLaw(ts[n], ts[n + 1], key, events[n].clock, events[n].millis, replies[n].value);
      }
    }
  }

  /** SISMEMBER and SMEMBERS read back what SADD added to what was there. */
  lemma SismemberReadsSadd(ts: seq<Table>, events: seq<Event>, replies: seq<Option<Reply>>, key: Bytes,
                           added: seq<Bytes>, x: Bytes, m: nat, n: nat)
    requires LazyRun(ts, events, replies) && Ordered(events) && m < n < |events|
    requires events[m].Run? && events[m].c == Sadd(key, added) && Untouched(events, key, m + 1, n)
    requires Ready(ts[m], Sadd(key, added), events[m].clock)
    requires !Past(ExpiryAt(ts[m], key, events[m].clock), events[n].clock)
    ensures var there := x in added || x in MembersAt(ts[m], key, events[m].clock);
            && (events[n].Run? && events[n].c == Sismember(key, x) ==>
                  replies[n] == Some(Number(if there then 1 else 0)))
            && (events[n].Run? && events[n].c == Smembers(key) ==>
                  replies[n].Some? && replies[n].value.Members? && (x in replies[n].value.members <==> there))
  {
    hide KeyStep, Act;
    StepAt(ts, events, replies, m);
    SaddLaw(ts[m], ts[m + 1], key, added, events[m].clock, events[m].millis, replies[m].value, x);
    StillSeen(ts, events, replies, key, m + 1, n);
    if events[n].Run? && (events[n].c == Sismember(key, x) || events[n].c == Smembers(key)) {
      StepAt(ts, events, replies, n);
      if events[n].c.Sismember? {
        SismemberLaw(ts[n], ts[n + 1], key, x, events[n].clock, events[n].millis, replies[n].value);
      } else {
        SmembersLaw(ts[n], ts[n + 1], key, events[n].clock, events[n].millis, replies[n].value);
      }
    }
  }

  /** `RPUSH key xs` on a missing key and then `LRANGE key 0 -1`: the elements, in order. */
  lemma LrangeReadsRpush(ts: seq<Table>, events: seq<Event>, replies: seq<Option<Reply>>, key: Bytes,
                         xs: seq<Bytes>, m: nat, n: nat)
    requires LazyRun(ts, events, replies) && Ordered(events) && m < n < |events|
    requires events[m].Run? && events[m].c == Rpush(key, xs) && Untouched(events, key, m + 1, n)
    requires Seen(ts[m], key, events[m].clock) == None
    requires events[n].Run? && events[n].c == Lrange(key, 0, -1)
    ensures replies[n] == Some(Items(xs))
  {
    hide KeyStep, Act;
    StepAt(ts, events, replies, m);
    StepAt(ts, events, replies, n);
    RpushLaw(ts[m], ts[m + 1], key, xs, events[m].clock, events[m].millis, replies[m].value, events[n].clock);
    StillSeen(ts, events, replies, key, m + 1, n);
    WholeRange(ts[n], ts[n + 1], key, events[n].clock, events[n].millis, replies[n].value);
    var after := ListAt(ts[m + 1], key, events[m].clock);
    assert forall i :: 0 <= i < |xs| ==> after[i] == after[0 + i] == xs[i];
    assert after == xs;
  }
}
