/**
 The data model of the cache and the meaning of its commands: what one command does to the one
 value it names (`Act`), the flat store in which expired entries are gone (`EagerStep`), and the
 store the program keeps, in which they may linger (`LazyStep`).
 */
module Store {
  import opened Wrappers
  import opened ByteStrings
  import opened Sums
  import Globs

  const ENTRY_OVERHEAD: nat := 64
  const NANOS_PER_SECOND: nat := 1_000_000_000
  const NANOS_PER_MILLI: nat := 1_000_000

  datatype Data =
    | Str(value: Bytes)
    | List(items: seq<Bytes>)
    | Set(members: set<Bytes>)
    | Hash(fields: map<Bytes, Bytes>)

  /** A stored entry; instants are nanoseconds, `lastAccessed` is in milliseconds. */
  datatype Entry = Entry(data: Data, expiresAt: Option<nat>, lastAccessed: nat)

  type Table = map<Bytes, Entry>

  predicate Past(expiresAt: Option<nat>, now: nat) {
    expiresAt.Some? && now >= expiresAt.value
  }

  predicate Expired(e: Entry, now: nat) {
    Past(e.expiresAt, now)
  }

  // ----- sizes -----

  function ItemsSize(items: seq<Bytes>): nat {
    if items == [] then 0 else |items[0]| + 16 + ItemsSize(items[1..])
  }

  ghost function MemberCost(m: Bytes): nat {
    |m| + 16
  }

  ghost function FieldCost(f: Bytes, v: Bytes): nat {
    |f| + |v| + 32
  }

  ghost function DataSize(d: Data): nat {
    match d
    case Str(b) => |b|
    case List(items) => ItemsSize(items)
    case Set(members) => SetSum(members, MemberCost)
    case Hash(fields) => Sum(fields, FieldCost)
  }

  ghost function SizeBytes(key: Bytes, e: Entry): nat {
    |key| + DataSize(e.data) + ENTRY_OVERHEAD
  }

  ghost function TotalSize(t: Table): nat {
    Sum(t, SizeBytes)
  }

  // ----- commands and replies -----

  datatype Command =
    | Ping(message: Option<Bytes>)
    | Echo(text: Bytes)
    | Get(key: Bytes)
    | SetStr(key: Bytes, value: Bytes, expiresAt: Option<nat>)
    | Expire(key: Bytes, duration: nat)
    | Ttl(key: Bytes, millis: bool)
    | Lpush(key: Bytes, elements: seq<Bytes>)
    | Rpush(key: Bytes, elements: seq<Bytes>)
    | Lpop(key: Bytes)
    | Rpop(key: Bytes)
    | Lrange(key: Bytes, start: int, stop: int)
    | Hset(key: Bytes, pairs: seq<(Bytes, Bytes)>)
    | Hget(key: Bytes, field: Bytes)
    | Hdel(key: Bytes, names: seq<Bytes>)
    | Hgetall(key: Bytes)
    | Sadd(key: Bytes, added: seq<Bytes>)
    | Smembers(key: Bytes)
    | Srem(key: Bytes, removed: seq<Bytes>)
    | Sismember(key: Bytes, member: Bytes)
    | Del(keys: seq<Bytes>)
    | Keys(pattern: Bytes)
  {
    /** Commands that name exactly one key. */
    predicate Keyed() {
      !Ping? && !Echo? && !Del? && !Keys?
    }

    /** The lists that the command parsers refuse to leave empty. */
    predicate Proper() {
      && (Lpush? || Rpush? ==> elements != [])
      && (Hset? ==> pairs != [])
      && (Hdel? ==> names != [])
      && (Sadd? ==> added != [])
      && (Srem? ==> removed != [])
      && (Del? ==> keys != [])
    }

    /** The commands that are recorded in the log. */
    predicate IsWrite() {
      match this
      case SetStr(_, _, _) => true
      case Del(_) => true
      case Expire(_, _) => true
      case Lpush(_, _) => true
      case Rpush(_, _) => true
      case Lpop(_) => true
      case Rpop(_) => true
      case Hset(_, _) => true
      case Hdel(_, _) => true
      case Sadd(_, _) => true
      case Srem(_, _) => true
      case _ => false
    }
  }

  /** Commands that are recorded and name the key. */
  predicate WritesKey(c: Command, key: Bytes) {
    c.IsWrite() && ((c.Keyed() && c.key == key) || (c.Del? && key in c.keys))
  }

  /** Replies; the unordered ones are the collections the program lists in an arbitrary order. */
  datatype Reply =
    | Status
    | Pong
    | Number(n: int)
    | Value(b: Bytes)
    | Nil
    | WrongType
    | Items(items: seq<Bytes>)
    | Members(members: set<Bytes>)
    | Fields(fields: map<Bytes, Bytes>)

  // ----- one value -----

  /** What a client can see of an entry. */
  datatype Item = Item(data: Data, expiresAt: Option<nat>)

  function Reversed(xs: seq<Bytes>): (r: seq<Bytes>)
    ensures |r| == |xs|
  {
    seq(|xs|, i requires 0 <= i < |xs| => xs[|xs| - 1 - i])
  }

  function SetOf(xs: seq<Bytes>): set<Bytes> {
    set x | x in xs
  }

  predicate Unique(xs: seq<Bytes>) {
    forall i, j :: 0 <= i < j < |xs| ==> xs[i] != xs[j]
  }

  lemma UniqueEmpty()
    ensures Unique([]) && SetOf([]) == {}
  {
  }

  lemma UniqueAppend(xs: seq<Bytes>, x: Bytes)
    requires Unique(xs) && x !in SetOf(xs)
    ensures Unique(xs + [x]) && SetOf(xs + [x]) == SetOf(xs) + {x}
  {
  }

  lemma UniqueConcat(xs: seq<Bytes>, ys: seq<Bytes>)
    requires Unique(xs) && Unique(ys) && SetOf(xs) !! SetOf(ys)
    ensures Unique(xs + ys) && SetOf(xs + ys) == SetOf(xs) + SetOf(ys)
  {
    forall i, j | 0 <= i < j < |xs + ys|
      ensures (xs + ys)[i] != (xs + ys)[j]
    {
      if i < |xs| <= j {
        assert xs[i] in SetOf(xs) && ys[j - |xs|] in SetOf(ys);
      }
    }
  }

  /** The fields after storing the pairs one by one: the last value given for a field stays. */
  function Upsert(fields: map<Bytes, Bytes>, pairs: seq<(Bytes, Bytes)>): map<Bytes, Bytes> {
    if pairs == [] then fields
    else Upsert(fields, pairs[..|pairs| - 1])[pairs[|pairs| - 1].0 := pairs[|pairs| - 1].1]
  }

  /** The last pair of a field wins; other fields keep what they had. */
  lemma {:induction false} UpsertKeepsLast(fields: map<Bytes, Bytes>, pairs: seq<(Bytes, Bytes)>, i: nat, f: Bytes)
    ensures i < |pairs| && pairs[i].0 == f && (forall j :: i < j < |pairs| ==> pairs[j].0 != f) ==>
              f in Upsert(fields, pairs) && Upsert(fields, pairs)[f] == pairs[i].1
    ensures (forall j :: 0 <= j < |pairs| ==> pairs[j].0 != f) ==>
              (f in Upsert(fields, pairs) <==> f in fields)
              && (f in fields ==> Upsert(fields, pairs)[f] == fields[f])
  {
    if pairs != [] {
      UpsertKeepsLast(fields, pairs[..|pairs| - 1], i, f);
    }
  }

  /** The elements from `start` to `stop`, both included, negative indices counting from the end. */
  function Range(items: seq<Bytes>, start: int, stop: int): seq<Bytes> {
    var from := if start < 0 then |items| + start else start;
    var to := if stop < 0 then |items| + stop else stop;
    var lo := if from < 0 then 0 else from;
    var hi := if to >= |items| then |items| else to + 1;
    if lo < hi then items[lo..hi] else []
  }

  function Remaining(expiresAt: Option<nat>, millis: bool, now: nat): int {
    match expiresAt
    case None => -1
    case Some(t) => if now >= t then -2 else (t - now) / (if millis then NANOS_PER_MILLI else NANOS_PER_SECOND)
  }

  function Keep(data: Data, expiresAt: Option<nat>): Option<Item> {
    match data
    case List(items) => if items == [] then None else Some(Item(data, expiresAt))
    case Set(members) => if members == {} then None else Some(Item(data, expiresAt))
    case Hash(fields) => if fields == map[] then None else Some(Item(data, expiresAt))
    case Str(_) => Some(Item(data, expiresAt))
  }

  /**
   The meaning of a command for the value it names: the value afterwards and the reply. `item` is
   absent when the key is absent or expired.
   */
  function Act(c: Command, item: Option<Item>, now: nat): (Option<Item>, Reply)
    requires c.Keyed()
  {
    match c
    case SetStr(_, value, expiresAt) => (Some(Item(Str(value), expiresAt)), Status)
    case Expire(_, duration) =>
      if item.None? then (None, Number(0))
      else (Some(Item(item.value.data, Some(now + duration))), Number(1))
    case Ttl(_, millis) =>
      (item, Number(if item.None? then -2 else Remaining(item.value.expiresAt, millis, now)))
    case Get(_) =>
      if item.None? then (None, Nil)
      else (item, if item.value.data.Str? then Value(item.value.data.value) else WrongType)
    case Lpush(_, elements) =>
      var list := if item.None? then Item(List([]), None) else item.value;
      if !list.data.List? then (item, WrongType)
      else
        var items := Reversed(elements) + list.data.items;
        (Some(Item(List(items), list.expiresAt)), Number(|items|))
    case Rpush(_, elements) =>
      var list := if item.None? then Item(List([]), None) else item.value;
      if !list.data.List? then (item, WrongType)
      else
        var items := list.data.items + elements;
        (Some(Item(List(items), list.expiresAt)), Number(|items|))
    case Lpop(_) =>
      if item.None? then (None, Nil)
      else if !item.value.data.List? then (item, WrongType)
      else
        var items := item.value.data.items;
        if items == [] then (None, Nil)
        else (Keep(List(items[1..]), item.value.expiresAt), Value(items[0]))
    case Rpop(_) =>
      if item.None? then (None, Nil)
      else if !item.value.data.List? then (item, WrongType)
      else
        var items := item.value.data.items;
        if items == [] then (None, Nil)
        else (Keep(List(items[..|items| - 1]), item.value.expiresAt), Value(items[|items| - 1]))
    case Lrange(_, start, stop) =>
      if item.None? then (None, Items([]))
      else if !item.value.data.List? then (item, WrongType)
      else (item, Items(Range(item.value.data.items, start, stop)))
    case Hset(_, pairs) =>
      var hash := if item.None? then Item(Hash(map[]), None) else item.value;
      if !hash.data.Hash? then (item, WrongType)
      else
        var fields := Upsert(hash.data.fields, pairs);
        (Some(Item(Hash(fields), hash.expiresAt)), Number(|fields| - |hash.data.fields|))
    case Hget(_, field) =>
      if item.None? then (None, Nil)
      else if !item.value.data.Hash? then (item, WrongType)
      else (item, if field in item.value.data.fields then Value(item.value.data.fields[field]) else Nil)
    case Hdel(_, names) =>
      if item.None? then (None, Number(0))
      else if !item.value.data.Hash? then (item, WrongType)
      else
        var fields := item.value.data.fields - SetOf(names);
        (Keep(Hash(fields), item.value.expiresAt), Number(|item.value.data.fields| - |fields|))
    case Hgetall(_) =>
      if item.None? then (None, Fields(map[]))
      else if !item.value.data.Hash? then (item, WrongType)
      else (item, Fields(item.value.data.fields))
    case Sadd(_, added) =>
      var before := if item.None? then Item(Set({}), None) else item.value;
      if !before.data.Set? then (item, WrongType)
      else
        var members := before.data.members + SetOf(added);
        (Some(Item(Set(members), before.expiresAt)), Number(|members| - |before.data.members|))
    case Smembers(_) =>
      if item.None? then (None, Members({}))
      else if !item.value.data.Set? then (item, WrongType)
      else (item, Members(item.value.data.members))
    case Srem(_, removed) =>
      if item.None? then (None, Number(0))
      else if !item.value.data.Set? then (item, WrongType)
      else
        var members := item.value.data.members - SetOf(removed);
        (Keep(Set(members), item.value.expiresAt), Number(|item.value.data.members| - |members|))
    case Sismember(_, member) =>
      if item.None? then (None, Number(0))
      else if !item.value.data.Set? then (item, WrongType)
      else (item, Number(if member in item.value.data.members then 1 else 0))
  }

  // ----- the eager store: a flat map without expired keys -----

  type View = map<Bytes, Item>

  function Lookup(v: View, key: Bytes): Option<Item> {
    if key in v then Some(v[key]) else None
  }

  /** The value is stored unless it is absent or already expired. */
  function Put(v: View, key: Bytes, item: Option<Item>, now: nat): View {
    if item.Some? && !Past(item.value.expiresAt, now) then v[key := item.value] else v - {key}
  }

  /** The passage of time: the keys whose time has come are gone. */
  function Alive(v: View, now: nat): View {
    v - set k | k in v && Past(v[k].expiresAt, now)
  }

  function EagerStep(v: View, c: Command, now: nat): (View, Reply) {
    match c
    case Ping(message) => (v, if message.None? then Pong else Value(message.value))
    case Echo(text) => (v, Value(text))
    case Del(keys) => (v - SetOf(keys), Number(|v.Keys * SetOf(keys)|))
    case Keys(pattern) => (v, Members(set k | k in v && Globs.InLanguage(pattern, k)))
    case _ =>
      var (item, reply) := Act(c, Lookup(v, c.key), now);
      (Put(v, c.key, item, now), reply)
  }

  // ----- the stored table, expired entries included -----

  function ItemOf(e: Entry): Item {
    Item(e.data, e.expiresAt)
  }

  /** What a client sees under a key. */
  function Seen(t: Table, key: Bytes, now: nat): Option<Item> {
    if key in t && !Expired(t[key], now) then Some(ItemOf(t[key])) else None
  }

  /** Whether a command refreshes the access time of the entry it found or made. */
  predicate Touches(c: Command, reply: Reply) {
    !c.Expire? && !c.Ttl? && (c.Get? || reply != WrongType)
  }

  /** The commands that remove an expired entry they come across; the others step over it. */
  predicate Sweeps(c: Command) {
    c.Get? || c.IsWrite()
  }

  /**
   A step of the stored table for a command that names one key. Other keys are untouched. The named
   key holds what the command leaves of the visible value; where it leaves nothing, only a command
   that does not sweep keeps the expired entry it found. The access time is the current one exactly
   for the commands that refresh it.
   */
  ghost predicate KeyStep(t: Table, t': Table, c: Command, now: nat, millis: nat, reply: Reply)
    requires c.Keyed()
  {
    var (item, answer) := Act(c, Seen(t, c.key, now), now);
    && reply == answer
    && t' - {c.key} == t - {c.key}
    && (item.Some? ==>
          && c.key in t' && ItemOf(t'[c.key]) == item.value
          && t'[c.key].lastAccessed ==
             if Touches(c, reply) then millis else if c.key in t then t[c.key].lastAccessed else 0)
    && (item.None? ==>
          if c.key in t && !Sweeps(c) then c.key in t' && t'[c.key] == t[c.key] else c.key !in t')
  }

  /** Tables that agree without one key hold the same entry under every other key. */
  lemma SameElsewhere(t: Table, t': Table, key: Bytes)
    requires t' - {key} == t - {key}
    ensures forall k :: k != key ==> (k in t' <==> k in t) && (k in t ==> t'[k] == t[k])
  {
    forall k | k != key
      ensures (k in t' <==> k in t) && (k in t ==> t'[k] == t[k])
    {
      assert k in t' <==> k in t' - {key};
      assert k in t <==> k in t - {key};
    }
  }

  /** A step that stores an entry. */
  lemma Stores(t: Table, t0: Table, t': Table, c: Command, e: Entry, now: nat, millis: nat, reply: Reply)
    requires c.Keyed() && Act(c, Seen(t, c.key, now), now) == (Some(ItemOf(e)), reply)
    requires t0 == t || t0 == t - {c.key}
    requires t' == t0[c.key := e]
    requires e.lastAccessed ==
             if Touches(c, reply) then millis else if c.key in t then t[c.key].lastAccessed else 0
    ensures KeyStep(t, t', c, now, millis, reply)
  {
    hide Act;
  }

  /** A step after which the key has no visible value. */
  lemma Clears(t: Table, t': Table, c: Command, now: nat, millis: nat, reply: Reply)
    requires c.Keyed() && Act(c, Seen(t, c.key, now), now) == (None, reply)
    requires t' == if Sweeps(c) then t - {c.key} else t
    ensures KeyStep(t, t', c, now, millis, reply)
  {
    hide Act;
    if !Sweeps(c) && c.key !in t {
      assert t' == t;
    }
  }

  ghost predicate LazyStep(t: Table, t': Table, c: Command, now: nat, millis: nat, reply: Reply) {
    match c
    case Ping(message) => t' == t && reply == if message.None? then Pong else Value(message.value)
    case Echo(text) => t' == t && reply == Value(text)
    case Del(keys) => t' == t - SetOf(keys) && reply == Number(|t.Keys * SetOf(keys)|)
    case Keys(pattern) =>
      t' == t && reply == Members(set k | k in t && !Expired(t[k], now) && Globs.InLanguage(pattern, k))
    case _ => KeyStep(t, t', c, now, millis, reply)
  }

  /** The base cost that a command leaves uncharged: it creates a list, a hash or a set. */
  function Uncharged(t: Table, c: Command, now: nat): nat {
    if (c.Lpush? || c.Rpush? || c.Hset? || c.Sadd?) && Seen(t, c.key, now).None? then |c.key| + ENTRY_OVERHEAD
    else 0
  }

  /** No stored list, set or hash is empty. */
  predicate Solid(d: Data) {
    match d
    case List(items) => items != []
    case Set(members) => members != {}
    case Hash(fields) => fields != map[]
    case Str(_) => true
  }

  ghost predicate AllSolid(t: Table) {
    forall k :: k in t ==> Solid(t[k].data)
  }
}
