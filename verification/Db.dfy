/**
 The sharded database. Every method is proved against the flat table its shards stand for
 (`Contents`); the byte counter is kept by the same incremental additions and subtractions as in
 the program, and `Valid` ties it to the sizes of what is stored.
 */
module Database {
  import opened Wrappers
  import opened ByteStrings
  import opened Sums
  import opened Store
  import opened Sharding
  import opened Eviction
  import Globs
  import Scans

  // ----- the size of a table, one entry at a time -----

  lemma TotalInsert(t: Table, key: Bytes, e: Entry)
    ensures TotalSize(t[key := e]) ==
            TotalSize(t) + SizeBytes(key, e) - (if key in t then SizeBytes(key, t[key]) else 0)
  {
    SumUpdate(t, key, e, SizeBytes);
  }

  lemma TotalRemove(t: Table, key: Bytes)
    requires key in t
    ensures TotalSize(t - {key}) == TotalSize(t) - SizeBytes(key, t[key])
  {
    SumRemove(t, key, SizeBytes);
  }

  lemma {:induction false} ItemsSizeAppend(xs: seq<Bytes>, ys: seq<Bytes>)
    ensures ItemsSize(xs + ys) == ItemsSize(xs) + ItemsSize(ys)
  {
    if xs == [] {
      assert xs + ys == ys;
    } else {
      assert (xs + ys)[1..] == xs[1..] + ys;
      ItemsSizeAppend(xs[1..], ys);
    }
  }

  lemma MemberSize(members: set<Bytes>, m: Bytes)
    ensures m !in members ==> DataSize(Set(members + {m})) == DataSize(Set(members)) + |m| + 16
    ensures m in members ==> DataSize(Set(members - {m})) == DataSize(Set(members)) - |m| - 16
  {
    if m in members {
      SetSumRemove(members, m, MemberCost);
    } else {
      SetSumRemove(members + {m}, m, MemberCost);
      assert members + {m} - {m} == members;
    }
  }

  lemma FieldSize(fields: map<Bytes, Bytes>, f: Bytes, v: Bytes)
    ensures DataSize(Hash(fields[f := v])) ==
            DataSize(Hash(fields)) + |f| + |v| + 32 - (if f in fields then |f| + |fields[f]| + 32 else 0)
    ensures f in fields ==> DataSize(Hash(fields - {f})) == DataSize(Hash(fields)) - |f| - |fields[f]| - 32
  {
    SumUpdate(fields, f, v, FieldCost);
    if f in fields {
      SumRemove(fields, f, FieldCost);
    }
  }

  ghost function Pushed(front: bool, items: seq<Bytes>, elements: seq<Bytes>): seq<Bytes> {
    if front then Reversed(elements) + items else items + elements
  }

  lemma PushedEnds(front: bool, items: seq<Bytes>, elements: seq<Bytes>)
    ensures Pushed(front, items, elements[..0]) == items
    ensures elements[..|elements|] == elements
    ensures Pushed(front, items, elements) == if front then Reversed(elements) + items else items + elements
  {
  }

  lemma PushedNext(front: bool, items: seq<Bytes>, elements: seq<Bytes>, i: nat)
    requires i < |elements|
    ensures var list := Pushed(front, items, elements[..i]);
            Pushed(front, items, elements[..i + 1]) == if front then [elements[i]] + list else list + [elements[i]]
  {
    hide Reversed;
    assert elements[..i + 1] == elements[..i] + [elements[i]];
    ReversedNext(elements[..i], elements[i]);
    var list := Reversed(elements[..i]);
    assert [elements[i]] + list + items == [elements[i]] + (list + items);
    assert items + (elements[..i] + [elements[i]]) == (items + elements[..i]) + [elements[i]];
  }

  lemma ReversedNext(xs: seq<Bytes>, x: Bytes)
    ensures Reversed(xs + [x]) == [x] + Reversed(xs)
  {
  }

  /** The loop of LPUSH and RPUSH: one element after the other, and the bytes it adds. */
  method PushAll(front: bool, items: seq<Bytes>, elements: seq<Bytes>) returns (list: seq<Bytes>, addedBytes: nat)
    ensures list == if front then Reversed(elements) + items else items + elements
    ensures ItemsSize(list) == ItemsSize(items) + addedBytes
  {
    list, addedBytes := items, 0;
    PushedEnds(front, items, elements);
    hide Pushed;
    for i := 0 to |elements|
      invariant list == Pushed(front, items, elements[..i])
      invariant ItemsSize(list) == ItemsSize(items) + addedBytes
    {
      PushedNext(front, items, elements, i);
      ItemsSizeAppend(list, [elements[i]]);
      addedBytes := addedBytes + |elements[i]| + 16;
      list := if front then [elements[i]] + list else list + [elements[i]];
    }
  }

  /** Takes one element off an end. */
  method PopOne(front: bool, items: seq<Bytes>) returns (popped: Bytes, rest: seq<Bytes>)
    requires items != []
    ensures if front then popped == items[0] && rest == items[1..]
            else popped == items[|items| - 1] && rest == items[..|items| - 1]
    ensures ItemsSize(rest) + |popped| + 16 == ItemsSize(items)
  {
    if front {
      return items[0], items[1..];
    }
    popped, rest := items[|items| - 1], items[..|items| - 1];
    assert rest + [popped] == items;
    ItemsSizeAppend(rest, [popped]);
  }

  /** The index arithmetic of LRANGE. */
  method Slice(list: seq<Bytes>, start: int, stop: int) returns (result: seq<Bytes>)
    ensures result == Range(list, start, stop)
  {
    var len := |list|;
    var s := if start < 0 then len + start else start;
    var e := if stop < 0 then len + stop else stop;
    if s < 0 {
      s := 0;
    }
    if e >= len {
      e := len - 1;
    }
    if s > e || s >= len {
      return [];
    }
    result := [];
    for i := s to e + 1
      invariant result == list[s..i]
    {
      result := result + [list[i]];
    }
  }

  /** An expired entry that is still stored. */
  ghost predicate Lingers(t: Table, key: Bytes, now: nat) {
    key in t && Expired(t[key], now)
  }

  /** What a command leaves of the table before it runs: only SET under a limit may evict entries. */
  ghost predicate RoomFor(c: Command, t: Table, room: Table, s: Setup, uncharged: nat) {
    if c.SetStr? then MadeRoom(t, room, s, uncharged, |c.key| + |c.value| + ENTRY_OVERHEAD) else room == t
  }

  /** The picked keys whose stored entries are expired. */
  ghost function Noted(t: Table, picks: seq<Bytes>, now: nat): seq<Bytes> {
    if picks == [] then []
    else
      var n := |picks| - 1;
      Noted(t, picks[..n], now) + if Lingers(t, picks[n], now) then [picks[n]] else []
  }

  /** The loop of KEYS over one shard. */
  method ShardKeys(entries: Table, pattern: Bytes, now: nat) returns (result: seq<Bytes>)
    ensures Unique(result) && SetOf(result) == Matching(entries, pattern, now)
  {
    hide Unique, SetOf;
    var matchAll := pattern == [STAR];
    var todo := entries.Keys;
    result := [];
    UniqueEmpty();
    while todo != {}
      invariant todo <= entries.Keys
      invariant Unique(result)
      invariant SetOf(result) == set k | k in Matching(entries, pattern, now) && k !in todo
      decreases |todo|
    {
      var key :| key in todo;
      if !Expired(entries[key], now) {
        var isMatch := matchAll;
        if matchAll {
          Globs.StarMatchesAll(key);
        } else {
          isMatch := Globs.GlobMatch(pattern, key);
        }
        if isMatch {
          UniqueAppend(result, key);
          result := result + [key];
        }
      }
      todo := todo - {key};
    }
  }

  class Db {
    const numShards: nat
    const maxMemory: nat          // 0 is unlimited
    const hash: Bytes -> nat
    var shards: seq<Table>
    var currentMemory: nat        // a 64-bit counter that wraps around
    var expiredKeys: nat
    var evictedKeys: nat
    /** The counter as it would be without wrap-around. */
    ghost var ledger: int
    /** The base costs of the lists, hashes and sets created so far, which the counter never adds. */
    ghost var uncharged: nat

    ghost predicate Sharded()
      reads `shards
    {
      |shards| == numShards && Placed(shards, hash)
    }

    lemma IsSharded()
      requires Valid()
      ensures Sharded()
    {
    }

    ghost function Contents(): Table
      requires Sharded()
      reads `shards
    {
      Flat(shards, hash)
    }

    /** What a method may leave unbalanced by `debt` bytes while it holds a shard. */
    ghost predicate Balanced(debt: int)
      reads `shards, `currentMemory, `ledger, `uncharged
    {
      && Sharded()
      && AllSolid(Contents())
      && currentMemory == ledger % WORD
      && ledger + debt == TotalSize(Contents()) - uncharged
    }

    ghost predicate Valid()
      reads `shards, `currentMemory, `ledger, `uncharged
    {
      Balanced(0)
    }

    ghost function AsSetup(): Setup {
      Setup(maxMemory, hash, numShards)
    }

    constructor (numShards: nat, maxMemory: nat, hash: Bytes -> nat)
      requires numShards > 0
      ensures Valid() && Contents() == map[] && uncharged == 0 && currentMemory == 0
      ensures this.numShards == numShards && this.maxMemory == maxMemory && this.hash == hash
      ensures expiredKeys == evictedKeys == 0
    {
      this.numShards, this.maxMemory, this.hash := numShards, maxMemory, hash;
      shards := seq(numShards, i => map[]);
      currentMemory, expiredKeys, evictedKeys, ledger, uncharged := 0, 0, 0, 0, 0;
      new;
      FlatEmpty(shards, hash);
    }

    // ----- the counter and the shards -----

    method AddMemory(n: nat, ghost debt: int)
      requires Balanced(debt)
      modifies `currentMemory, `ledger
      ensures Sharded() && Contents() == old(Contents())
      ensures Balanced(debt - n) && ledger == old(ledger) + n
    {
      currentMemory := (currentMemory + n) % WORD;
      ledger := ledger + n;
    }

    method SubMemory(n: nat, ghost debt: int)
      requires Balanced(debt)
      modifies `currentMemory, `ledger
      ensures Sharded() && Contents() == old(Contents())
      ensures Balanced(debt + n) && ledger == old(ledger) - n
    {
      currentMemory := (currentMemory - n) % WORD;
      ledger := ledger - n;
    }

    /** Notes a base cost that is never added to the counter. */
    ghost method Forgo(n: nat, debt: int)
      requires Balanced(debt)
      modifies `uncharged
      ensures Sharded() && Contents() == old(Contents())
      ensures Balanced(debt - n) && uncharged == old(uncharged) + n
    {
      uncharged := uncharged + n;
    }

    function ShardIndex(key: Bytes): (i: nat)
      requires numShards > 0
      ensures i < numShards
    {
      hash(key) % numShards
    }

    /** Inserts or replaces an entry in the shard of its key. */
    method Insert(key: Bytes, e: Entry, ghost debt: int)
      requires Balanced(debt) && Solid(e.data)
      modifies `shards
      ensures Sharded() && Contents() == old(Contents())[key := e]
      ensures Balanced(debt + SizeBytes(key, e)
                       - if key in old(Contents()) then SizeBytes(key, old(Contents())[key]) else 0)
    {
      FlatInsert(shards, hash, key, e);
      TotalInsert(Contents(), key, e);
      var i := ShardIndex(key);
      shards := shards[i := shards[i][key := e]];
    }

    /** Removes a stored entry from the shard of its key. */
    method Remove(key: Bytes, ghost debt: int)
      requires Balanced(debt) && key in Contents()
      modifies `shards
      ensures Sharded() && Contents() == old(Contents()) - {key}
      ensures Balanced(debt - SizeBytes(key, old(Contents())[key]))
    {
      FlatRemove(shards, hash, key);
      TotalRemove(Contents(), key);
      var i := ShardIndex(key);
      shards := shards[i := shards[i] - {key}];
    }

    /** Looks a key up in its shard. */
    method Find(key: Bytes) returns (r: Option<Entry>)
      requires Sharded()
      ensures r == if key in Contents() then Some(Contents()[key]) else None
    {
      FlatLookup(shards, hash, key);
      var entries := shards[ShardIndex(key)];
      return if key in entries then Some(entries[key]) else None;
    }

    // ----- sizes, as the program computes them -----

    method Measure(key: Bytes, e: Entry) returns (n: nat)
      ensures n == SizeBytes(key, e)
    {
      var size: nat := 0;
      match e.data {
        case Str(b) => size := |b|;
        case List(items) =>
          for i := 0 to |items|
            invariant size == ItemsSize(items[..i])
          {
            ItemsSizeAppend(items[..i], [items[i]]);
            assert items[..i + 1] == items[..i] + [items[i]];
            size := size + |items[i]| + 16;
          }
          assert items[..|items|] == items;
        case Set(members) =>
          var todo := members;
          while todo != {}
            invariant size + DataSize(Set(todo)) == DataSize(e.data)
            decreases |todo|
          {
            var m :| m in todo;
            MemberSize(todo, m);
            todo := todo - {m};
            size := size + |m| + 16;
          }
        case Hash(fields) =>
          var todo := fields;
          while todo != map[]
            invariant size + DataSize(Hash(todo)) == DataSize(e.data)
            decreases |todo|
          {
            var f :| f in todo;
            FieldSize(todo, f, todo[f]);
            Smaller(todo, f);
            size := size + |f| + |todo[f]| + 32;
            todo := todo - {f};
          }
      }
      return |key| + size + ENTRY_OVERHEAD;
    }

    // ----- shared fragments -----

    /** Takes an entry out and gives its bytes back. */
    method Drop(key: Bytes)
      requires Valid() && key in Contents()
      modifies `shards, `currentMemory, `ledger
      ensures Valid() && Sharded() && Contents() == old(Contents()) - {key}
    {
      hide Flat, Placed, AllSolid, TotalSize, SizeBytes;
      var e := Find(key);
      var size: int := Measure(key, e.value);
      Remove(key, 0);
      SubMemory(size, -size);
    }

    /** Passive eviction: drops the entry of a key if it is expired. */
    method DropExpired(key: Bytes, now: nat) returns (dropped: bool)
      requires Valid()
      modifies `shards, `currentMemory, `ledger
      ensures Valid()
      ensures dropped <==> Lingers(old(Contents()), key, now)
      ensures Sharded() && Contents() == if dropped then old(Contents()) - {key} else old(Contents())
    {
      hide Flat, Placed, AllSolid, TotalSize, SizeBytes;
      var e := Find(key);
      dropped := e.Some? && Expired(e.value, now);
      if dropped {
        Drop(key);
      }
    }

    /** Refreshes the access time of a stored entry. */
    method Touch(key: Bytes, e: Entry, millis: nat)
      requires Valid() && key in Contents() && Contents()[key] == e
      modifies `shards
      ensures Valid() && Contents() == old(Contents())[key := e.(lastAccessed := millis)]
    {
      hide Flat, Placed, TotalSize;
      Insert(key, e.(lastAccessed := millis), 0);
    }

    /** Stores a container whose contents are charged already; a new one goes without its base cost. */
    method Settle(key: Bytes, found: Option<Entry>, e: Entry, ghost debt: int)
      requires Balanced(debt) && Solid(e.data)
      requires found == if key in Contents() then Some(Contents()[key]) else None
      requires debt == (if found.Some? then DataSize(found.value.data) else 0) - DataSize(e.data)
      modifies `shards, `uncharged
      ensures Valid() && Sharded() && Contents() == old(Contents())[key := e]
      ensures uncharged == old(uncharged) + if found.None? then |key| + ENTRY_OVERHEAD else 0
    {
      hide Flat, Placed, DataSize;
      assert Sharded();
      ghost var rest := debt;
      if found.None? {
        Forgo(|key| + ENTRY_OVERHEAD, debt);
        rest := debt - |key| - ENTRY_OVERHEAD;
      }
      Insert(key, e, rest);
    }

    /** Removes a container whose contents have been given back already. */
    method Discharge(key: Bytes, empty: Entry, ghost debt: int)
      requires Balanced(debt) && key in Contents()
      requires DataSize(empty.data) == 0 && debt == DataSize(Contents()[key].data)
      modifies `shards, `currentMemory, `ledger
      ensures Valid() && Sharded() && Contents() == old(Contents()) - {key}
    {
      hide Flat, Placed, DataSize;
      assert Sharded();
      var size: int := Measure(key, empty);
      Remove(key, debt);
      SubMemory(size, -size);
    }

    // ----- strings -----

    /** GET under the read lock; nothing means that the entry has to be removed under the write lock. */
    method GetShared(key: Bytes, now: nat, millis: nat) returns (r: Option<Reply>)
      requires Valid()
      modifies `shards
      ensures Valid()
      ensures r.None? ==> Contents() == old(Contents()) && key in Contents() && Expired(Contents()[key], now)
      ensures r.Some? ==> KeyStep(old(Contents()), Contents(), Command.Get(key), now, millis, r.value)
    {
      hide Flat, Placed, AllSolid, TotalSize, SizeBytes, KeyStep;
      ghost var c, t := Command.Get(key), Contents();
      var e := Find(key);
      if e.None? {
        assert t - {key} == t;
        Clears(t, Contents(), c, now, millis, Nil);
        return Some(Nil);
      }
      if Expired(e.value, now) {
        return None;
      }
      Touch(key, e.value, millis);
      var reply := if e.value.data.Str? then Value(e.value.data.value) else WrongType;
      Stores(t, t, Contents(), c, e.value.(lastAccessed := millis), now, millis, reply);
      return Some(reply);
    }

    /** GET under the write lock, with the time read before the first phase. */
    method GetExclusive(key: Bytes, now: nat, millis: nat) returns (reply: Reply)
      requires Valid()
      modifies `shards, `currentMemory, `ledger, `expiredKeys
      ensures Valid()
      ensures KeyStep(old(Contents()), Contents(), Command.Get(key), now, millis, reply)
      ensures expiredKeys == old(expiredKeys) + if Lingers(old(Contents()), key, now) then 1 else 0
    {
      hide Flat, Placed, AllSolid, TotalSize, SizeBytes, KeyStep;
      ghost var c, t := Command.Get(key), Contents();
      var dropped := DropExpired(key, now);
      var e := Find(key);
      if e.None? {
        if dropped {
          expiredKeys := expiredKeys + 1;
        }
        assert Contents() == t - {key};
        Clears(t, Contents(), c, now, millis, Nil);
        return Nil;
      }
      Touch(key, e.value, millis);
      reply := if e.value.data.Str? then Value(e.value.data.value) else WrongType;
      Stores(t, t, Contents(), c, e.value.(lastAccessed := millis), now, millis, reply);
    }

    method Get(key: Bytes, now: nat, millis: nat) returns (reply: Reply)
      requires Valid()
      modifies `shards, `currentMemory, `ledger, `expiredKeys
      ensures Valid()
      ensures KeyStep(old(Contents()), Contents(), Command.Get(key), now, millis, reply)
    {
      var r := GetShared(key, now, millis);
      if r.Some? {
        return r.value;
      }
      reply := GetExclusive(key, now, millis);
    }

    // ----- lists -----

    method Push(c: Command, elements: seq<Bytes>, now: nat, millis: nat) returns (reply: Reply)
      requires Valid() && elements != []
      requires (c.Lpush? || c.Rpush?) && c.elements == elements
      modifies `shards, `currentMemory, `ledger, `uncharged
      ensures Valid()
      ensures KeyStep(old(Contents()), Contents(), c, now, millis, reply)
      ensures uncharged == old(uncharged) + Uncharged(old(Contents()), c, now)
    {
      hide Flat, Placed, TotalSize, KeyStep;
      var key := c.key;
      ghost var t := Contents();
      var _ := DropExpired(key, now);
      ghost var t0 := Contents();
      var found := Find(key);
      var e := if found.Some? then found.value else Entry(List([]), None, millis);
      if !e.data.List? {
        Stores(t, t, Contents(), c, e, now, millis, WrongType);
        return WrongType;
      }
      var list, addedBytes := PushAll(c.Lpush?, e.data.items, elements);
      e := e.(data := List(list), lastAccessed := millis);
      ghost var debt := 0;
      if found.None? {
        Forgo(|key| + ENTRY_OVERHEAD, debt);
        debt := debt - |key| - ENTRY_OVERHEAD;
        NoFields();
      }
      Insert(key, e, debt);
      AddMemory(addedBytes, addedBytes);
      Stores(t, t0, Contents(), c, e, now, millis, Number(|list|));
      return Number(|list|);
    }

    method Pop(c: Command, now: nat, millis: nat) returns (reply: Reply)
      requires Valid()
      requires c.Lpop? || c.Rpop?
      modifies `shards, `currentMemory, `ledger, `expiredKeys
      ensures Valid()
      ensures KeyStep(old(Contents()), Contents(), c, now, millis, reply)
      ensures expiredKeys == old(expiredKeys) + if Lingers(old(Contents()), c.key, now) then 1 else 0
    {
      hide Flat, Placed, TotalSize, KeyStep, Act;
      var key := c.key;
      ghost var t := Contents();
      var dropped := DropExpired(key, now);
      var found := Find(key);
      if found.None? {
        if dropped {
          expiredKeys := expiredKeys + 1;
        }
        Misses(t, Contents(), c, now, millis, Nil);
        return Nil;
      }
      var e := found.value;
      if !e.data.List? {
        Refuses(t, c, e, now, millis);
        return WrongType;
      }
      var popped, rest := PopOne(c.Lpop?, e.data.items);
      SubMemory(|popped| + 16, 0);
      var after := e.(data := List(rest), lastAccessed := millis);
      if rest == [] {
        Discharge(key, after, |popped| + 16);
      } else {
        Insert(key, after, |popped| + 16);
      }
      PopLeaves(t, Contents(), c, e, now, millis, popped, rest);
      return Value(popped);
    }

    method Lrange(key: Bytes, start: int, stop: int, now: nat, millis: nat) returns (reply: Reply)
      requires Valid()
      modifies `shards
      ensures Valid()
      ensures KeyStep(old(Contents()), Contents(), Command.Lrange(key, start, stop), now, millis, reply)
    {
      hide Flat, Placed, AllSolid, TotalSize, SizeBytes, KeyStep;
      ghost var c, t := Command.Lrange(key, start, stop), Contents();
      var e := Find(key);
      if e.None? || Expired(e.value, now) {
        Clears(t, t, c, now, millis, Items([]));
        return Items([]);
      }
      if !e.value.data.List? {
        Stores(t, t, t, c, e.value, now, millis, WrongType);
        return WrongType;
      }
      Touch(key, e.value, millis);
      var result := Slice(e.value.data.items, start, stop);
      Stores(t, t, Contents(), c, e.value.(lastAccessed := millis), now, millis, Items(result));
      return Items(result);
    }

    // ----- hashes -----

    /** The loop of HSET: stores the fields and charges each change as it is made. */
    method PutFields(fields: map<Bytes, Bytes>, pairs: seq<(Bytes, Bytes)>)
      returns (after: map<Bytes, Bytes>, added: nat, ghost debt: int)
      requires Valid()
      modifies `currentMemory, `ledger
      ensures after == Upsert(fields, pairs) && added == |after| - |fields|
      ensures Sharded() && Contents() == old(Contents()) && Balanced(debt)
      ensures debt == DataSize(Hash(fields)) - DataSize(Hash(after))
    {
      hide Flat, Placed, DataSize;
      assert Sharded() && pairs[..0] == [] && pairs[..|pairs|] == pairs;
      after, added, debt := fields, 0, 0;
      for i := 0 to |pairs|
        invariant Sharded() && Contents() == old(Contents())
        invariant after == Upsert(fields, pairs[..i]) && added == |after| - |fields|
        invariant Balanced(debt) && debt == DataSize(Hash(fields)) - DataSize(Hash(after))
      {
        assert pairs[..i + 1][..i] == pairs[..i];
        var next, more, rest := PutField(after, pairs[i].0, pairs[i].1, debt);
        after, added, debt := next, added + more, rest;
      }
    }

    method PutField(fields: map<Bytes, Bytes>, f: Bytes, v: Bytes, ghost debt: int)
      returns (after: map<Bytes, Bytes>, added: nat, ghost rest: int)
      requires Balanced(debt)
      modifies `currentMemory, `ledger
      ensures Sharded() && Contents() == old(Contents())
      ensures after == fields[f := v] && |after| == |fields| + added
      ensures Balanced(rest) && rest == debt + DataSize(Hash(fields)) - DataSize(Hash(after))
    {
      hide Flat, Placed, DataSize;
      assert Sharded();
      FieldSize(fields, f, v);
      FieldCount(fields, f, v);
      after, added := fields[f := v], 0;
      rest := debt + DataSize(Hash(fields)) - DataSize(Hash(after));
      if f in fields {
        var previous := fields[f];
        if |v| > |previous| {
          AddMemory(|v| - |previous|, debt);
        } else {
          SubMemory(|previous| - |v|, debt);
        }
      } else {
        added := 1;
        AddMemory(|f| + |v| + 32, debt);
      }
    }

    method Hset(c: Command, now: nat, millis: nat) returns (reply: Reply)
      requires Valid() && c.Hset? && c.Proper()
      modifies `shards, `currentMemory, `ledger, `uncharged
      ensures Valid()
      ensures KeyStep(old(Contents()), Contents(), c, now, millis, reply)
      ensures uncharged == old(uncharged) + Uncharged(old(Contents()), c, now)
    {
      hide Flat, Placed, TotalSize, KeyStep, Act;
      var key := c.key;
      ghost var t := Contents();
      var _ := DropExpired(key, now);
      ghost var t0 := Contents();
      var found := Find(key);
      var e := if found.Some? then found.value else Entry(Hash(map[]), None, millis);
      if !e.data.Hash? {
        Refuses(t, c, e, now, millis);
        return WrongType;
      }
      var fields, added, debt := PutFields(e.data.fields, c.pairs);
      assert Sharded();
      FieldsPresent(e.data.fields, c.pairs);
      hide Balanced, DataSize, Upsert;
      NoFields();
      Settle(key, found, e.(data := Hash(fields), lastAccessed := millis), debt);
      HsetStores(t, t0, Contents(), c, e, now, millis, fields, added);
      return Number(added);
    }

    method Hget(key: Bytes, field: Bytes, now: nat, millis: nat) returns (reply: Reply)
      requires Valid()
      modifies `shards
      ensures Valid()
      ensures KeyStep(old(Contents()), Contents(), Command.Hget(key, field), now, millis, reply)
    {
      hide Flat, Placed, AllSolid, TotalSize, SizeBytes, KeyStep;
      ghost var c, t := Command.Hget(key, field), Contents();
      var e := Find(key);
      if e.None? || Expired(e.value, now) {
        Clears(t, t, c, now, millis, Nil);
        return Nil;
      }
      if !e.value.data.Hash? {
        Stores(t, t, t, c, e.value, now, millis, WrongType);
        return WrongType;
      }
      Touch(key, e.value, millis);
      var fields := e.value.data.fields;
      reply := if field in fields then Value(fields[field]) else Nil;
      Stores(t, t, Contents(), c, e.value.(lastAccessed := millis), now, millis, reply);
    }

    /** The loop of HDEL. */
    method TakeFields(fields: map<Bytes, Bytes>, names: seq<Bytes>)
      returns (after: map<Bytes, Bytes>, removed: nat, ghost debt: int)
      requires Valid()
      modifies `currentMemory, `ledger
      ensures after == fields - SetOf(names) && removed == |fields| - |after|
      ensures Sharded() && Contents() == old(Contents()) && Balanced(debt)
      ensures debt == DataSize(Hash(fields)) - DataSize(Hash(after))
    {
      hide Flat, Placed, DataSize, SetOf;
      assert Sharded();
      after, removed, debt := fields, 0, 0;
      NothingYet(fields, {}, names);
      for i := 0 to |names|
        invariant Sharded() && Contents() == old(Contents())
        invariant after == fields - SetOf(names[..i]) && removed == |fields| - |after|
        invariant Balanced(debt) && debt == DataSize(Hash(fields)) - DataSize(Hash(after))
      {
        TakeNext(fields, names, i);
        var next, less, rest := TakeField(after, names[i], debt);
        after, removed, debt := next, removed + less, rest;
      }
    }

    method TakeField(fields: map<Bytes, Bytes>, f: Bytes, ghost debt: int)
      returns (after: map<Bytes, Bytes>, removed: nat, ghost rest: int)
      requires Balanced(debt)
      modifies `currentMemory, `ledger
      ensures Sharded() && Contents() == old(Contents())
      ensures after == fields - {f} && |after| + removed == |fields|
      ensures Balanced(rest) && rest == debt + DataSize(Hash(fields)) - DataSize(Hash(after))
    {
      hide Flat, Placed, DataSize;
      assert Sharded();
      after, removed := fields - {f}, 0;
      rest := debt + DataSize(Hash(fields)) - DataSize(Hash(after));
      if f in fields {
        FieldSize(fields, f, fields[f]);
        Smaller(fields, f);
        removed := 1;
        SubMemory(|f| + |fields[f]| + 32, debt);
      } else {
        assert after == fields;
      }
    }

    method Hdel(c: Command, now: nat, millis: nat) returns (reply: Reply)
      requires Valid() && c.Hdel?
      modifies `shards, `currentMemory, `ledger
      ensures Valid()
      ensures KeyStep(old(Contents()), Contents(), c, now, millis, reply)
    {
      hide Flat, Placed, TotalSize, KeyStep, Act, SetOf;
      var key := c.key;
      ghost var t := Contents();
      var _ := DropExpired(key, now);
      var found := Find(key);
      if found.None? {
        Misses(t, Contents(), c, now, millis, Number(0));
        return Number(0);
      }
      var e := found.value;
      if !e.data.Hash? {
        Refuses(t, c, e, now, millis);
        return WrongType;
      }
      var fields, removed, debt := TakeFields(e.data.fields, c.names);
      hide DataSize;
      assert Sharded();
      NoFields();
      var after := e.(data := Hash(fields), lastAccessed := millis);
      if fields == map[] {
        Discharge(key, after, debt);
      } else {
        Insert(key, after, debt);
      }
      HdelLeaves(t, Contents(), c, e, now, millis, fields, removed);
      return Number(removed);
    }

    method Hgetall(key: Bytes, now: nat, millis: nat) returns (reply: Reply)
      requires Valid()
      modifies `shards
      ensures Valid()
      ensures KeyStep(old(Contents()), Contents(), Command.Hgetall(key), now, millis, reply)
    {
      hide Flat, Placed, AllSolid, TotalSize, SizeBytes, KeyStep;
      ghost var c, t := Command.Hgetall(key), Contents();
      var e := Find(key);
      if e.None? || Expired(e.value, now) {
        Clears(t, t, c, now, millis, Fields(map[]));
        return Fields(map[]);
      }
      if !e.value.data.Hash? {
        Stores(t, t, t, c, e.value, now, millis, WrongType);
        return WrongType;
      }
      Touch(key, e.value, millis);
      reply := Fields(e.value.data.fields);
      Stores(t, t, Contents(), c, e.value.(lastAccessed := millis), now, millis, reply);
    }

    // ----- sets -----

    /** The loop of SADD. */
    method PutMembers(members: set<Bytes>, added: seq<Bytes>) returns (after: set<Bytes>, count: nat, ghost debt: int)
      requires Valid()
      modifies `currentMemory, `ledger
      ensures after == members + SetOf(added) && count == |after| - |members|
      ensures Sharded() && Contents() == old(Contents()) && Balanced(debt)
      ensures debt == DataSize(Set(members)) - DataSize(Set(after))
    {
      hide Flat, Placed, DataSize, SetOf;
      assert Sharded();
      after, count, debt := members, 0, 0;
      NothingYet(map[], members, added);
      for i := 0 to |added|
        invariant Sharded() && Contents() == old(Contents())
        invariant after == members + SetOf(added[..i]) && count == |after| - |members|
        invariant Balanced(debt) && debt == DataSize(Set(members)) - DataSize(Set(after))
      {
        var m := added[i];
        PutNext(members, added, i);
        MemberCount(after, m);
        if m !in after {
          MemberSize(after, m);
          AddMemory(|m| + 16, debt);
          debt := debt - |m| - 16;
          count := count + 1;
        }
        after := after + {m};
      }
    }

    method Sadd(c: Command, now: nat, millis: nat) returns (reply: Reply)
      requires Valid() && c.Sadd? && c.Proper()
      modifies `shards, `currentMemory, `ledger, `uncharged
      ensures Valid()
      ensures KeyStep(old(Contents()), Contents(), c, now, millis, reply)
      ensures uncharged == old(uncharged) + Uncharged(old(Contents()), c, now)
    {
      hide Flat, Placed, TotalSize, KeyStep, Act;
      var key := c.key;
      ghost var t := Contents();
      var _ := DropExpired(key, now);
      ghost var t0 := Contents();
      var found := Find(key);
      var e := if found.Some? then found.value else Entry(Set({}), None, millis);
      if !e.data.Set? {
        Refuses(t, c, e, now, millis);
        return WrongType;
      }
      var members, count, debt := PutMembers(e.data.members, c.added);
      hide DataSize;
      assert Sharded();
      NoFields();
      assert c.added[0] in members;
      Settle(key, found, e.(data := Set(members), lastAccessed := millis), debt);
      SaddStores(t, t0, Contents(), c, e, now, millis, members, count);
      return Number(count);
    }

    method Smembers(key: Bytes, now: nat, millis: nat) returns (reply: Reply)
      requires Valid()
      modifies `shards
      ensures Valid()
      ensures KeyStep(old(Contents()), Contents(), Command.Smembers(key), now, millis, reply)
    {
      hide Flat, Placed, AllSolid, TotalSize, SizeBytes, KeyStep;
      ghost var c, t := Command.Smembers(key), Contents();
      var e := Find(key);
      if e.None? || Expired(e.value, now) {
        Clears(t, t, c, now, millis, Members({}));
        return Members({});
      }
      if !e.value.data.Set? {
        Stores(t, t, t, c, e.value, now, millis, WrongType);
        return WrongType;
      }
      Touch(key, e.value, millis);
      reply := Members(e.value.data.members);
      Stores(t, t, Contents(), c, e.value.(lastAccessed := millis), now, millis, reply);
    }

    /** The loop of SREM. */
    method TakeMembers(members: set<Bytes>, removed: seq<Bytes>)
      returns (after: set<Bytes>, count: nat, ghost debt: int)
      requires Valid()
      modifies `currentMemory, `ledger
      ensures after == members - SetOf(removed) && count == |members| - |after|
      ensures Sharded() && Contents() == old(Contents()) && Balanced(debt)
      ensures debt == DataSize(Set(members)) - DataSize(Set(after))
    {
      hide Flat, Placed, DataSize, SetOf;
      assert Sharded();
      after, count, debt := members, 0, 0;
      NothingYet(map[], members, removed);
      for i := 0 to |removed|
        invariant Sharded() && Contents() == old(Contents())
        invariant after == members - SetOf(removed[..i]) && count == |members| - |after|
        invariant Balanced(debt) && debt == DataSize(Set(members)) - DataSize(Set(after))
      {
        var m := removed[i];
        PutNext(members, removed, i);
        MemberCount(after, m);
        if m in after {
          MemberSize(after, m);
          SubMemory(|m| + 16, debt);
          debt := debt + |m| + 16;
          count := count + 1;
        }
        after := after - {m};
      }
    }

    method Srem(c: Command, now: nat, millis: nat) returns (reply: Reply)
      requires Valid() && c.Srem?
      modifies `shards, `currentMemory, `ledger
      ensures Valid()
      ensures KeyStep(old(Contents()), Contents(), c, now, millis, reply)
    {
      hide Flat, Placed, TotalSize, KeyStep, Act, SetOf;
      var key := c.key;
      ghost var t := Contents();
      var _ := DropExpired(key, now);
      var found := Find(key);
      if found.None? {
        Misses(t, Contents(), c, now, millis, Number(0));
        return Number(0);
      }
      var e := found.value;
      if !e.data.Set? {
        Refuses(t, c, e, now, millis);
        return WrongType;
      }
      var members, count, debt := TakeMembers(e.data.members, c.removed);
      hide DataSize;
      assert Sharded();
      NoFields();
      var after := e.(data := Set(members), lastAccessed := millis);
      if members == {} {
        Discharge(key, after, debt);
      } else {
        Insert(key, after, debt);
      }
      SremLeaves(t, Contents(), c, e, now, millis, members, count);
      return Number(count);
    }

    method Sismember(key: Bytes, member: Bytes, now: nat, millis: nat) returns (reply: Reply)
      requires Valid()
      modifies `shards
      ensures Valid()
      ensures KeyStep(old(Contents()), Contents(), Command.Sismember(key, member), now, millis, reply)
    {
      hide Flat, Placed, AllSolid, TotalSize, SizeBytes, KeyStep;
      ghost var c, t := Command.Sismember(key, member), Contents();
      var e := Find(key);
      if e.None? || Expired(e.value, now) {
        Clears(t, t, c, now, millis, Number(0));
        return Number(0);
      }
      if !e.value.data.Set? {
        Stores(t, t, t, c, e.value, now, millis, WrongType);
        return WrongType;
      }
      Touch(key, e.value, millis);
      reply := Number(if member in e.value.data.members then 1 else 0);
      Stores(t, t, Contents(), c, e.value.(lastAccessed := millis), now, millis, reply);
    }

    // ----- keys -----

    /** Deletes every listed key; expired entries that are still stored are counted too. */
    method Del(keys: seq<Bytes>) returns (removed: nat)
      requires Valid()
      modifies `shards, `currentMemory, `ledger
      ensures Valid() && Contents() == old(Contents()) - SetOf(keys)
      ensures removed == |old(Contents()).Keys * SetOf(keys)|
    {
      hide Flat, Placed, SizeBytes, SetOf, Without;
      assert Sharded();
      ghost var t := Contents();
      DeleteEnds(t, keys);
      removed := 0;
      for i := 0 to |keys|
        invariant Valid() && Sharded() && Contents() == Without(t, keys, i)
        invariant removed == |t.Keys * SetOf(keys[..i])|
      {
        DeleteNext(t, keys, i);
        var found := Find(keys[i]);
        if found.Some? {
          Drop(keys[i]);
          removed := removed + 1;
        }
      }
    }

    method Expire(key: Bytes, duration: nat, now: nat, ghost millis: nat) returns (reply: Reply)
      requires Valid()
      modifies `shards, `currentMemory, `ledger
      ensures Valid()
      ensures KeyStep(old(Contents()), Contents(), Command.Expire(key, duration), now, millis, reply)
    {
      hide Flat, Placed, TotalSize, KeyStep;
      ghost var c, t := Command.Expire(key, duration), Contents();
      var _ := DropExpired(key, now);
      var e := Find(key);
      if e.None? {
        assert Contents() == t - {key};
        Clears(t, Contents(), c, now, millis, Number(0));
        return Number(0);
      }
      var after := e.value.(expiresAt := Some(now + duration));
      Insert(key, after, 0);
      Stores(t, t, Contents(), c, after, now, millis, Number(1));
      return Number(1);
    }

    /** TTL and PTTL only read. */
    method Ttl(key: Bytes, millis: bool, now: nat) returns (n: int)
      requires Valid()
      ensures n == match Seen(Contents(), key, now)
                   case None => -2
                   case Some(item) => Remaining(item.expiresAt, millis, now)
    {
      var e := Find(key);
      if e.None? {
        return -2;
      }
      match e.value.expiresAt
      case None => return -1;
      case Some(t) =>
        if now >= t {
          return -2;
        }
        return (t - now) / (if millis then NANOS_PER_MILLI else NANOS_PER_SECOND);
    }

    /** Every unexpired key that matches the pattern, once. */
    method KeysMatching(pattern: Bytes, now: nat) returns (result: seq<Bytes>)
      requires Valid()
      ensures Unique(result)
      ensures SetOf(result) == Matching(Contents(), pattern, now)
    {
      hide Unique;
      result := [];
      UniqueEmpty();
      for i := 0 to numShards
        invariant Unique(result)
        invariant SetOf(result) == set k | k in Matching(Contents(), pattern, now) && ShardIndex(k) < i
      {
        var part := ShardKeys(shards[i], pattern, now);
        MatchingInShard(shards, hash, i, pattern, now);
        UniqueConcat(result, part);
        result := result + part;
      }
    }

    // ----- the sweeper -----

    /**
     The read phase of a sweep, on one shard and as many random keys of it as the sample size or the
     shard allows: notes the keys whose entries are expired, in order, repeated ones repeatedly.
     */
    method PurgeSample(shard: nat, picks: seq<Bytes>, sampleSize: nat, now: nat)
      returns (sampled: nat, expired: seq<Bytes>)
      requires Valid() && shard < numShards
      requires |picks| == (if |shards[shard]| < sampleSize then |shards[shard]| else sampleSize)
      requires forall k :: k in picks ==> k in shards[shard]
      ensures sampled == |picks| && expired == Noted(Contents(), picks, now)
    {
      var entries := shards[shard];
      expired := [];
      if entries == map[] {
        return 0, [];
      }
      sampled := if |entries| < sampleSize then |entries| else sampleSize;
      for i := 0 to sampled
        invariant expired == Noted(Contents(), picks[..i], now)
      {
        var key := picks[i];
        assert picks[..i + 1][..i] == picks[..i];
        assert key in picks;
        FlatLookup(shards, hash, key);
        if Expired(entries[key], now) {
          expired := expired + [key];
        }
      }
      assert picks[..|picks|] == picks;
    }

    /**
     The write phase, run later and over a store that may have changed: removes the noted keys that
     are still stored and still expired, each once however often it was noted.
     */
    method PurgeRemove(expired: seq<Bytes>, now: nat)
      requires Valid()
      modifies `shards, `currentMemory, `ledger, `expiredKeys
      ensures Valid() && Contents() == old(Contents()) - Swept(old(Contents()), expired, now)
      ensures expiredKeys == old(expiredKeys) + |Swept(old(Contents()), expired, now)|
    {
      hide Flat, Placed, SizeBytes, Swept, Lingers, AfterSweep;
      assert Sharded();
      ghost var t := Contents();
      SweepEnds(t, expired, now);
      var actuallyRemoved: nat := 0;
      for i := 0 to |expired|
        invariant Valid() && Sharded() && Contents() == AfterSweep(t, expired, i, now)
        invariant expiredKeys == old(expiredKeys) && actuallyRemoved == |Swept(t, expired[..i], now)|
      {
        SweepNext(t, expired, i, now);
        var dropped := DropExpired(expired[i], now);
        if dropped {
          actuallyRemoved := actuallyRemoved + 1;
        }
      }
      expiredKeys := expiredKeys + actuallyRemoved;
    }

    // ----- eviction -----

    /** The random draws of one eviction step. */
    method DrawSamples(n: nat) returns (draws: seq<Draw>)
      requires Sharded()
      ensures |draws| == n && AllDrawn(Contents(), AsSetup(), draws)
    {
      draws := [];
      for i := 0 to n
        invariant |draws| == i && AllDrawn(Contents(), AsSetup(), draws)
      {
        var shard: nat :| shard < numShards;
        var d := DrawFrom(shard);
        draws := draws + [d];
      }
    }

    method DrawFrom(shard: nat) returns (d: Draw)
      requires Sharded() && shard < numShards
      ensures d.shard == shard && Drawn(Contents(), AsSetup(), d)
    {
      if shards[shard] == map[] {
        forall k | k in Contents()
          ensures hash(k) % numShards != shard
        {
          FlatLookup(shards, hash, k);
        }
        return Draw(shard, None);
      }
      var key :| key in shards[shard].Keys;
      FlatLookup(shards, hash, key);
      return Draw(shard, Some(key));
    }

    /** A drawn shard is empty exactly when the draw has no key; otherwise the key is stored there. */
    lemma DrawnFrom(d: Draw)
      requires Sharded() && Drawn(Contents(), AsSetup(), d)
      ensures d.shard < |shards| && (shards[d.shard] == map[] <==> d.key == None)
      ensures d.key.Some? ==>
                && d.key.value in Contents() && d.key.value in shards[d.shard]
                && shards[d.shard][d.key.value] == Contents()[d.key.value]
    {
      hide Flat;
      forall k
        ensures k in shards[d.shard] <==> k in Contents() && hash(k) % |shards| == d.shard
      {
        FlatLookup(shards, hash, k);
      }
      if d.key.Some? {
        FlatLookup(shards, hash, d.key.value);
      }
    }

    /** The loop of an eviction step: the first of the least recently accessed draws, if any met an entry. */
    method FindOldest(draws: seq<Draw>) returns (oldestKey: Option<Bytes>, ghost pick: nat)
      requires Sharded() && AllDrawn(Contents(), AsSetup(), draws)
      ensures oldestKey.None? <==> NoCandidate(Contents(), draws)
      ensures oldestKey.Some? ==>
                Chosen(Contents(), draws, pick) && draws[pick].key == oldestKey && oldestKey.value in Contents()
    {
      hide Flat, Placed, Drawn, Best;
      BestStarts(Contents(), draws);
      oldestKey, pick := None, 0;
      var oldestTime: nat := WORD - 1;
      for i := 0 to |draws|
        invariant Best(Contents(), draws, i, oldestKey, oldestTime, pick)
      {
        BestNext(Contents(), draws, i, oldestKey, oldestTime, pick);
        DrawnFrom(draws[i]);
        var entries := shards[draws[i].shard];
        if entries != map[] {
          var candidate := draws[i].key.value;
          var accessed := entries[candidate].lastAccessed;
          if accessed < oldestTime {
            oldestTime, oldestKey := accessed, Some(candidate);
            pick := i;
          }
        }
      }
      BestEnds(Contents(), draws, oldestKey, oldestTime, pick);
    }

    /**
     One eviction step on the given draws: it removes the entry that the first of the least recently
     accessed draws met, and nothing at all when no draw met an entry.
     */
    method EvictLruStep(draws: seq<Draw>) returns (evicted: bool, ghost pick: nat)
      requires Valid() && AllDrawn(Contents(), AsSetup(), draws)
      modifies `shards, `currentMemory, `ledger, `evictedKeys
      ensures Valid() && Sharded()
      ensures evicted <==> !NoCandidate(old(Contents()), draws)
      ensures evicted ==>
                && Chosen(old(Contents()), draws, pick)
                && Contents() == old(Contents()) - {draws[pick].key.value}
                && evictedKeys == old(evictedKeys) + 1
      ensures !evicted ==>
                && Contents() == old(Contents()) && currentMemory == old(currentMemory)
                && evictedKeys == old(evictedKeys)
    {
      hide Flat, Placed, Drawn, AllDrawn, NoCandidate;
      assert Sharded();
      var oldestKey;
      oldestKey, pick := FindOldest(draws);
      if oldestKey.None? {
        return false, pick;
      }
      Drop(oldestKey.value);
      evictedKeys := evictedKeys + 1;
      return true, pick;
    }

    /** One round of `EnsureCapacity`. */
    method EvictRound(ghost needed: nat) returns (evicted: bool, ghost r: Round)
      requires Valid() && !Fits(Contents(), AsSetup(), uncharged, needed)
      modifies `shards, `currentMemory, `ledger, `evictedKeys
      ensures Valid() && Sharded()
      ensures evicted ==>
                && Evicting(old(Contents()), r, AsSetup(), uncharged, needed)
                && r.Victim().Some? && Contents() == old(Contents()) - {r.Victim().value}
                && |Contents()| < |old(Contents())| && evictedKeys == old(evictedKeys) + 1
      ensures !evicted ==>
                && Ends(Contents(), AsSetup(), uncharged, needed, Some(r.draws))
                && Contents() == old(Contents()) && evictedKeys == old(evictedKeys)
    {
      hide Balanced, Flat, Placed, Fits, NoCandidate, AllDrawn;
      IsSharded();
      ghost var t := Contents();
      var draws := DrawSamples(SAMPLES);
      ghost var pick;
      evicted, pick := EvictLruStep(draws);
      r := Round(draws, pick);
      if evicted {
        ChosenIsStored(t, draws, pick);
        hide Chosen;
        Smaller(t, draws[pick].key.value);
      }
    }

    /** The counter says exactly whether the bytes fit. */
    lemma CounterFits(needed: nat)
      requires Valid()
      ensures (currentMemory + needed) % WORD <= maxMemory <==> Fits(Contents(), AsSetup(), uncharged, needed)
    {
      assert TotalSize(Contents()) - uncharged == ledger;
    }

    /**
     Evicts until `needed` more bytes fit, or until a step draws no candidate; `stuck` holds the draws
     of that step. The loop ends: every successful step removes an entry.
     */
    method EnsureCapacity(needed: nat) returns (ghost rounds: seq<Round>, ghost stuck: Option<seq<Draw>>)
      requires Valid()
      modifies `shards, `currentMemory, `ledger, `evictedKeys
      ensures Valid() && Sharded() && Contents() == Left(old(Contents()), rounds)
      ensures maxMemory == 0 ==> rounds == [] && currentMemory == old(currentMemory)
      ensures maxMemory > 0 ==>
                && Evicts(old(Contents()), rounds, AsSetup(), uncharged, needed)
                && Ends(Contents(), AsSetup(), uncharged, needed, stuck)
      ensures evictedKeys == old(evictedKeys) + |rounds|
    {
      hide Balanced, Flat, Placed, Evicts, Left, Ends, AsSetup;
      IsSharded();
      rounds, stuck := [], None;
      EvictsNothing(Contents(), AsSetup(), uncharged, needed);
      if maxMemory > 0 {
        rounds, stuck := EvictUntilFits(needed);
      }
    }

    method EvictUntilFits(needed: nat) returns (ghost rounds: seq<Round>, ghost stuck: Option<seq<Draw>>)
      requires Valid()
      modifies `shards, `currentMemory, `ledger, `evictedKeys
      ensures Valid() && Sharded() && Contents() == Left(old(Contents()), rounds)
      ensures Evicts(old(Contents()), rounds, AsSetup(), uncharged, needed)
      ensures Ends(Contents(), AsSetup(), uncharged, needed, stuck)
      ensures evictedKeys == old(evictedKeys) + |rounds|
    {
      hide Balanced, Flat, Placed, Fits, Evicting, Evicts, Left, Ends, AsSetup;
      IsSharded();
      ghost var t := Contents();
      rounds, stuck := [], None;
      EvictsNothing(t, AsSetup(), uncharged, needed);
      while (currentMemory + needed) % WORD > maxMemory
        invariant Valid() && Sharded() && Contents() == Left(t, rounds)
        invariant Evicts(t, rounds, AsSetup(), uncharged, needed)
        invariant evictedKeys == old(evictedKeys) + |rounds|
        decreases |Contents()|
      {
        CounterFits(needed);
        var evicted, r := EvictRound(needed);
        if !evicted {
          return rounds, Some(r.draws);
        }
        RoundNext(t, rounds, r, AsSetup(), uncharged, needed);
        rounds := rounds + [r];
      }
      CounterFits(needed);
      EndsFitting(Contents(), AsSetup(), uncharged, needed);
    }

    /** SET: makes room, then stores the value and charges the difference. */
    method SetString(key: Bytes, value: Bytes, expiresAt: Option<nat>, ghost now: nat, millis: nat)
      returns (ghost room: Table)
      requires Valid()
      modifies `shards, `currentMemory, `ledger, `evictedKeys
      ensures Valid() && Sharded()
      ensures MadeRoom(old(Contents()), room, AsSetup(), uncharged, |key| + |value| + ENTRY_OVERHEAD)
      ensures KeyStep(room, Contents(), Command.SetStr(key, value, expiresAt), now, millis, Status)
    {
      hide Flat, Placed, KeyStep, Balanced, MadeRoom, AllSolid;
      var e := Entry(Str(value), expiresAt, millis);
      room := MakeRoom(key, e);
      Stores(room, room, Contents(), Command.SetStr(key, value, expiresAt), e, now, millis, Status);
    }

    method MakeRoom(key: Bytes, e: Entry) returns (ghost room: Table)
      requires Valid() && Solid(e.data)
      modifies `shards, `currentMemory, `ledger, `evictedKeys
      ensures Valid() && Sharded() && Contents() == room[key := e]
      ensures MadeRoom(old(Contents()), room, AsSetup(), uncharged, |key| + DataSize(e.data) + ENTRY_OVERHEAD)
    {
      var newSize := Measure(key, e);
      hide Flat, Placed, Evicts, Ends, TotalSize, AllSolid;
      assert Sharded() && newSize == |key| + DataSize(e.data) + ENTRY_OVERHEAD;
      var _, _ := EnsureCapacity(newSize);
      room := Contents();
      Replace(key, e, newSize);
    }

    method Replace(key: Bytes, e: Entry, newSize: nat)
      requires Valid() && Solid(e.data) && newSize == |key| + DataSize(e.data) + ENTRY_OVERHEAD
      modifies `shards, `currentMemory, `ledger
      ensures Valid() && Sharded() && Contents() == old(Contents())[key := e]
    {
      hide Flat, Placed;
      assert Sharded() && newSize == SizeBytes(key, e);
      var found := Find(key);
      Insert(key, e, 0);
      if found.Some? {
        var oldSize := Measure(key, found.value);
        if newSize > oldSize {
          AddMemory(newSize - oldSize, newSize - oldSize);
        } else {
          SubMemory(oldSize - newSize, newSize - oldSize);
        }
      } else {
        AddMemory(newSize, newSize);
      }
    }

    // ----- dispatch -----

    /** Runs one command. Only SET under a memory limit may first remove other entries. */
    method Apply(c: Command, now: nat, millis: nat) returns (reply: Reply, ghost room: Table)
      requires Valid() && c.Proper()
      modifies this
      ensures Valid()
      ensures RoomFor(c, old(Contents()), room, AsSetup(), old(uncharged))
      ensures LazyStep(room, Contents(), c, now, millis, reply)
      ensures uncharged == old(uncharged) + Uncharged(old(Contents()), c, now)
    {
      hide Flat, Placed, KeyStep, Act, MadeRoom;
      assert Sharded();
      room := Contents();
      if c.SetStr? {
        room := SetString(c.key, c.value, c.expiresAt, now, millis);
        return Status, room;
      }
      if c.Keyed() {
        reply := ApplyKeyed(c, now, millis);
        return;
      }
      match c {
        case Ping(message) => reply := if message.None? then Pong else Value(message.value);
        case Echo(text) => reply := Value(text);
        case Del(keys) =>
          var n := Del(keys);
          reply := Number(n);
        case Keys(pattern) =>
          var result := KeysMatching(pattern, now);
          reply := Members(SetOf(result));
      }
    }

    method ApplyKeyed(c: Command, now: nat, millis: nat) returns (reply: Reply)
      requires Valid() && c.Proper() && c.Keyed() && !c.SetStr?
      modifies this
      ensures Valid() && Sharded()
      ensures KeyStep(old(Contents()), Contents(), c, now, millis, reply)
      ensures uncharged == old(uncharged) + Uncharged(old(Contents()), c, now)
    {
      hide Flat, Placed, KeyStep, Act, TotalSize, AllSolid;
      assert Sharded();
      match c {
        case Get(key) => reply := Get(key, now, millis);
        case Expire(key, duration) => reply := Expire(key, duration, now, millis);
        case Ttl(key, inMillis) => reply := TtlReply(key, inMillis, now, millis);
        case Lpush(_, elements) => reply := Push(c, elements, now, millis);
        case Rpush(_, elements) => reply := Push(c, elements, now, millis);
        case Lpop(_) => reply := Pop(c, now, millis);
        case Rpop(_) => reply := Pop(c, now, millis);
        case Lrange(key, start, stop) => reply := Lrange(key, start, stop, now, millis);
        case Hset(_, _) => reply := Hset(c, now, millis);
        case Hget(key, field) => reply := Hget(key, field, now, millis);
        case Hdel(_, _) => reply := Hdel(c, now, millis);
        case Hgetall(key) => reply := Hgetall(key, now, millis);
        case Sadd(_, _) => reply := Sadd(c, now, millis);
        case Smembers(key) => reply := Smembers(key, now, millis);
        case Srem(_, _) => reply := Srem(c, now, millis);
        case Sismember(key, member) => reply := Sismember(key, member, now, millis);
      }
    }

    method TtlReply(key: Bytes, inMillis: bool, now: nat, ghost millis: nat) returns (reply: Reply)
      requires Valid()
      ensures KeyStep(Contents(), Contents(), Command.Ttl(key, inMillis), now, millis, reply)
    {
      hide Flat, Placed, KeyStep, AllSolid;
      assert Sharded();
      ghost var c, t := Command.Ttl(key, inMillis), Contents();
      var n := Ttl(key, inMillis, now);
      reply := Number(n);
      if Seen(t, key, now).Some? {
        Stores(t, t, t, c, t[key], now, millis, reply);
      } else {
        Clears(t, t, c, now, millis, reply);
      }
    }

    // ----- scans -----

    /** One SCAN call; `order` is the iteration order of each shard. */
    method Scan(order: seq<seq<Bytes>>, cursor: nat, count: nat, q: Scans.Query)
      returns (next: nat, matched: seq<Bytes>)
      requires Valid() && Scans.IsOrder(order, Contents())
      requires |order| == numShards && forall i :: 0 <= i < numShards ==> SetOf(order[i]) == shards[i].Keys
      ensures Scans.ScanStep(order, Contents(), q, cursor, count, next, matched)
    {
      forall i | 0 <= i < |order|
        ensures Scans.Listed(shards[i], order[i], Contents())
      {
        forall k | k in order[i]
          ensures k in shards[i] && k in Contents() && shards[i][k] == Contents()[k]
        {
          assert k in SetOf(order[i]);
          FlatLookup(shards, hash, k);
        }
      }
      next, matched := Scans.Scan(shards, order, Contents(), cursor, count, q);
    }
  }

  // ----- the accounting law -----

  /**
   The counter is the size of everything stored, less the base costs that were never charged, modulo
   2^64; as long as the store itself is smaller than that, it is exact exactly when those base costs
   are a multiple of 2^64, such as none at all.
   */
  lemma Accounting(db: Db)
    requires db.Valid()
    ensures db.Sharded()
    ensures db.currentMemory == (TotalSize(db.Contents()) - db.uncharged) % WORD
    ensures TotalSize(db.Contents()) < WORD ==>
              (db.currentMemory == TotalSize(db.Contents()) <==> db.uncharged % WORD == 0)
  {
    if TotalSize(db.Contents()) < WORD {
      WrapIsExact(TotalSize(db.Contents()), db.uncharged);
    }
  }

  lemma WrapIsExact(total: nat, u: nat)
    requires total < WORD
    ensures (total - u) % WORD == total <==> u % WORD == 0
  {
    var q, r := u / WORD, u % WORD;
    var x: int := total - r;
    assert total - u == x + -q * WORD;
    WrapShift(x, -q);
  }

  lemma WrapShift(x: int, q: int)
    ensures (x + q * WORD) % WORD == x % WORD
  {
    var y := x + q * WORD;
    assert y == (y / WORD) * WORD + y % WORD && x == (x / WORD) * WORD + x % WORD;
  }

  /**
   The counter is not exact once a list was created: pushing one element on an empty store and
   popping it leaves the store empty and the counter |key| + 64 bytes below zero.
   */
  method Drift(key: Bytes, element: Bytes, hash: Bytes -> nat) returns (db: Db)
    ensures db.Valid() && db.Contents() == map[]
    ensures db.currentMemory == (0 - |key| - 64) % 18_446_744_073_709_551_616
  {
    hide Act, KeyStep, Flat, Placed;
    db := new Db(64, 0, hash);
    var r, _ := db.Apply(Lpush(key, [element]), 0, 0);
    ghost var t := db.Contents();
    var q, _ := db.Apply(Lpop(key), 0, 0);
    PushThenPop(t, db.Contents(), key, element, r, q);
    NoFields();
    Accounting(db);
  }

  /**
   DEL counts a key that no client can see any more: a value is set that expires, and then it is deleted
   after its time.
   */
  method DeleteCountsExpired(key: Bytes, value: Bytes, expiresAt: nat, now: nat, hash: Bytes -> nat)
    returns (reply: Reply, ghost t: Table)
    requires expiresAt <= now
    ensures Seen(t, key, now) == None && reply == Number(1)
  {
    hide Act, KeyStep, Flat, Placed, AllSolid, TotalSize, Evicts, Ends, Left;
    var db := new Db(64, 0, hash);
    var r, _ := db.Apply(Command.SetStr(key, value, Some(expiresAt)), 0, 0);
    db.IsSharded();
    t := db.Contents();
    SetStays(db.AsSetup(), t, key, value, expiresAt, r);
    var n, _ := db.Apply(Command.Del([key]), now, 0);
    reply := n;
    assert t.Keys * SetOf([key]) == {key};
  }

  lemma SetStays(s: Setup, t: Table, key: Bytes, value: Bytes, expiresAt: nat, r: Reply)
    requires KeyStep(map[], t, Command.SetStr(key, value, Some(expiresAt)), 0, 0, r)
    ensures key in t && t[key].expiresAt == Some(expiresAt)
  {
  }

  lemma PushThenPop(t: Table, t': Table, key: Bytes, element: Bytes, r: Reply, q: Reply)
    requires KeyStep(map[], t, Lpush(key, [element]), 0, 0, r)
    requires KeyStep(t, t', Lpop(key), 0, 0, q)
    ensures t' == map[]
  {
    assert Reversed([element]) + [] == [element];
    SameElsewhere(map[], t, key);
    SameElsewhere(t, t', key);
    assert key !in t';
  }

  /** What SET leaves of a table. */
  lemma SetReplaces(room: Table, t: Table, key: Bytes, value: Bytes, expiresAt: Option<nat>, now: nat, millis: nat)
    requires KeyStep(room, t, Command.SetStr(key, value, expiresAt), now, millis, Status)
    ensures t == room[key := Entry(Str(value), expiresAt, millis)]
    ensures TotalSize(t) <= TotalSize(room) + |key| + |value| + ENTRY_OVERHEAD
    ensures TotalSize(t) >= |key| + |value| + ENTRY_OVERHEAD
  {
    var e := t[key];
    SameElsewhere(room, t, key);
    assert t == room[key := e];
    TotalInsert(room, key, e);
    SumRemove(t, key, SizeBytes);
  }

  /**
   SET in a store that never created a list, hash or set, with access times below 2^64 - 1. If the new
   entry fits beside what is stored, nothing else changes. Afterwards the counter is exact, and within
   the limit unless the last eviction step drew eight times and met only empty shards.
   */
  method SetWithinLimit(db: Db, key: Bytes, value: Bytes, expiresAt: Option<nat>, ghost now: nat, millis: nat)
    returns (ghost room: Table, ghost draws: seq<Draw>)
    requires db.Valid() && db.uncharged == 0 && 0 < db.maxMemory < WORD && Timed(db.Contents())
    // the machine cannot hold more than 2^64 bytes
    requires TotalSize(db.Contents()) + |key| + |value| + ENTRY_OVERHEAD < WORD
    modifies db
    ensures db.Valid() && db.uncharged == 0 && db.currentMemory == TotalSize(db.Contents())
    ensures Within(room, old(db.Contents())) && db.Contents() == room[key := Entry(Str(value), expiresAt, millis)]
    ensures TotalSize(old(db.Contents())) + |key| + |value| + ENTRY_OVERHEAD <= db.maxMemory ==>
              room == old(db.Contents())
    ensures db.currentMemory <= db.maxMemory || (|draws| == 8 && AllEmpty(room, db.AsSetup(), draws))
  {
    hide Flat, Placed, AllSolid, KeyStep, TotalSize, MadeRoom, Fits, AllEmpty, Timed;
    assert db.Sharded();
    ghost var t := db.Contents();
    room := db.SetString(key, value, expiresAt, now, millis);
    ghost var needed := |key| + |value| + ENTRY_OVERHEAD;
    draws := RoomIsMade(t, room, db.AsSetup(), 0, needed);
    SetBounds(t, room, db.Contents(), key, value, expiresAt, now, millis, db.AsSetup());
    Accounting(db);
  }

  lemma SetBounds(t: Table, room: Table, t': Table, key: Bytes, value: Bytes, expiresAt: Option<nat>,
                  now: nat, millis: nat, s: Setup)
    requires Within(room, t) && KeyStep(room, t', Command.SetStr(key, value, expiresAt), now, millis, Status)
    requires TotalSize(t) + |key| + |value| + ENTRY_OVERHEAD < WORD
    ensures TotalSize(t') < WORD && t' == room[key := Entry(Str(value), expiresAt, millis)]
    ensures Fits(room, s, 0, |key| + |value| + ENTRY_OVERHEAD) ==> TotalSize(t') <= s.limit
    ensures TotalSize(t) + |key| + |value| + ENTRY_OVERHEAD <= s.limit ==>
              Fits(t, s, 0, |key| + |value| + ENTRY_OVERHEAD)
  {
    hide KeyStep, TotalSize, Fits, Within;
    WithinIsSmaller(room, t);
    FitsExactly(t, s, |key| + |value| + ENTRY_OVERHEAD);
    FitsExactly(room, s, |key| + |value| + ENTRY_OVERHEAD);
    SetReplaces(room, t', key, value, expiresAt, now, millis);
  }

  /** The keys of a sweep that are removed: stored, and expired at the time of its read phase. */
  ghost function Swept(t: Table, expired: seq<Bytes>, now: nat): set<Bytes> {
    set k | k in expired && Lingers(t, k, now)
  }

  ghost function AfterSweep(t: Table, expired: seq<Bytes>, i: nat, now: nat): Table
    requires i <= |expired|
  {
    t - Swept(t, expired[..i], now)
  }

  lemma SweepEnds(t: Table, expired: seq<Bytes>, now: nat)
    ensures Swept(t, expired[..0], now) == {} && AfterSweep(t, expired, 0, now) == t
    ensures expired[..|expired|] == expired
    ensures AfterSweep(t, expired, |expired|, now) == t - Swept(t, expired, now)
  {
  }

  lemma SweepNext(t: Table, expired: seq<Bytes>, i: nat, now: nat)
    requires i < |expired|
    ensures var rest := AfterSweep(t, expired, i, now);
            var hit := Lingers(rest, expired[i], now);
            && AfterSweep(t, expired, i + 1, now) == (if hit then rest - {expired[i]} else rest)
            && |Swept(t, expired[..i + 1], now)| == |Swept(t, expired[..i], now)| + if hit then 1 else 0
  {
    var done := Swept(t, expired[..i], now);
    assert expired[..i + 1] == expired[..i] + [expired[i]];
    if Lingers(t - done, expired[i], now) {
      assert Swept(t, expired[..i + 1], now) == done + {expired[i]};
    } else {
      assert Swept(t, expired[..i + 1], now) == done;
    }
  }

  lemma MatchingInShard(shards: seq<Table>, hash: Bytes -> nat, i: nat, pattern: Bytes, now: nat)
    requires Placed(shards, hash) && i < |shards|
    ensures Matching(shards[i], pattern, now) ==
            set k | k in Matching(Flat(shards, hash), pattern, now) && hash(k) % |shards| == i
  {
    var all := Matching(Flat(shards, hash), pattern, now);
    forall k
      ensures k in Matching(shards[i], pattern, now) <==> k in all && hash(k) % |shards| == i
    {
      FlatLookup(shards, hash, k);
    }
  }

  ghost function Matching(t: Table, pattern: Bytes, now: nat): set<Bytes> {
    set k | k in t && !Expired(t[k], now) && Globs.InLanguage(pattern, k)
  }

  lemma FieldCount(fields: map<Bytes, Bytes>, f: Bytes, v: Bytes)
    ensures |fields[f := v]| == |fields| + if f in fields then 0 else 1
  {
    assert fields[f := v].Keys == fields.Keys + {f};
    assert |fields[f := v].Keys| == |fields[f := v]| && |fields.Keys| == |fields|;
  }

  lemma TakeNext(fields: map<Bytes, Bytes>, names: seq<Bytes>, i: nat)
    requires i < |names|
    ensures fields - SetOf(names[..i + 1]) == fields - SetOf(names[..i]) - {names[i]}
  {
    NextMember(names, i);
  }

  lemma NothingYet(fields: map<Bytes, Bytes>, members: set<Bytes>, xs: seq<Bytes>)
    ensures fields - SetOf(xs[..0]) == fields
    ensures members + SetOf(xs[..0]) == members - SetOf(xs[..0]) == members
    ensures xs[..|xs|] == xs
  {
  }

  ghost function Without(t: Table, keys: seq<Bytes>, i: nat): Table
    requires i <= |keys|
  {
    t - SetOf(keys[..i])
  }

  lemma DeleteEnds(t: Table, keys: seq<Bytes>)
    ensures Without(t, keys, 0) == t && t.Keys * SetOf(keys[..0]) == {}
    ensures keys[..|keys|] == keys && Without(t, keys, |keys|) == t - SetOf(keys)
  {
  }

  /** What one more key of a DEL does to the table and to the count. */
  lemma DeleteNext(t: Table, keys: seq<Bytes>, i: nat)
    requires i < |keys|
    ensures var rest := Without(t, keys, i);
            && Without(t, keys, i + 1) == (if keys[i] in rest then rest - {keys[i]} else rest)
            && |t.Keys * SetOf(keys[..i + 1])| == |t.Keys * SetOf(keys[..i])| + if keys[i] in rest then 1 else 0
  {
    NextMember(keys, i);
    hide SetOf;
    RemoveNext(t, SetOf(keys[..i]), keys[i]);
    HitNext(t.Keys, SetOf(keys[..i]), keys[i]);
  }

  lemma RemoveNext(t: Table, gone: set<Bytes>, k: Bytes)
    ensures t - (gone + {k}) == t - gone - {k}
    ensures k !in t - gone ==> t - gone - {k} == t - gone
    ensures k in t - gone <==> k in t && k !in gone
  {
  }

  lemma HitNext(keys: set<Bytes>, gone: set<Bytes>, k: Bytes)
    ensures |keys * (gone + {k})| == |keys * gone| + if k in keys && k !in gone then 1 else 0
  {
    if k in keys && k !in gone {
      assert keys * (gone + {k}) == keys * gone + {k};
    } else {
      assert keys * (gone + {k}) == keys * gone;
    }
  }

  lemma PutNext(members: set<Bytes>, xs: seq<Bytes>, i: nat)
    requires i < |xs|
    ensures members + SetOf(xs[..i + 1]) == (members + SetOf(xs[..i])) + {xs[i]}
    ensures members - SetOf(xs[..i + 1]) == (members - SetOf(xs[..i])) - {xs[i]}
  {
    NextMember(xs, i);
  }

  lemma NextMember(xs: seq<Bytes>, i: nat)
    requires i < |xs|
    ensures SetOf(xs[..i + 1]) == SetOf(xs[..i]) + {xs[i]}
  {
    assert xs[..i + 1] == xs[..i] + [xs[i]];
  }

  lemma MemberCount(members: set<Bytes>, m: Bytes)
    ensures m !in members ==> |members + {m}| == |members| + 1 && members - {m} == members
    ensures m in members ==> |members - {m}| == |members| - 1 && members + {m} == members
  {
  }


  /** A visible value that is not of the kind the command works on. */
  predicate WrongKind(c: Command, d: Data) {
    || ((c.Lpop? || c.Rpop?) && !d.List?)
    || ((c.Hset? || c.Hdel?) && !d.Hash?)
    || ((c.Sadd? || c.Srem?) && !d.Set?)
  }

  lemma Refuses(t: Table, c: Command, e: Entry, now: nat, millis: nat)
    requires WrongKind(c, e.data) && Seen(t, c.key, now) == Some(ItemOf(e)) && t[c.key] == e
    ensures KeyStep(t, t, c, now, millis, WrongType)
  {
    RefusedAct(c, ItemOf(e), now);
    hide Act, KeyStep;
    Stores(t, t, t, c, e, now, millis, WrongType);
  }

  lemma RefusedAct(c: Command, item: Item, now: nat)
    requires WrongKind(c, item.data)
    ensures Act(c, Some(item), now) == (Some(item), WrongType)
  {
  }

  /** A command that takes something away from a value finds none. */
  lemma Misses(t: Table, t': Table, c: Command, now: nat, millis: nat, reply: Reply)
    requires c.Lpop? || c.Rpop? || c.Hdel? || c.Srem?
    requires reply == if c.Lpop? || c.Rpop? then Nil else Number(0)
    requires Seen(t, c.key, now) == None && c.key !in t' && (t' == t || t' == t - {c.key})
    ensures KeyStep(t, t', c, now, millis, reply)
  {
    hide KeyStep;
    assert t' == t - {c.key};
    Clears(t, t', c, now, millis, reply);
  }

  lemma HsetActs(c: Command, item: Option<Item>, now: nat, fields: map<Bytes, Bytes>, expiresAt: Option<nat>)
    requires c.Hset?
    requires item == Some(Item(Hash(fields), expiresAt)) || (item == None && fields == map[] && expiresAt == None)
    ensures var after := Upsert(fields, c.pairs);
            Act(c, item, now) == (Some(Item(Hash(after), expiresAt)), Number(|after| - |fields|))
  {
    hide Upsert;
  }

  lemma HsetStores(t: Table, t0: Table, t': Table, c: Command, e: Entry, now: nat, millis: nat,
                   fields: map<Bytes, Bytes>, added: nat)
    requires c.Hset? && e.data.Hash? && (t0 == t || t0 == t - {c.key})
    requires Seen(t, c.key, now) == Some(ItemOf(e))
             || (Seen(t, c.key, now) == None && ItemOf(e) == Item(Hash(map[]), None))
    requires fields == Upsert(e.data.fields, c.pairs) && added == |fields| - |e.data.fields|
    requires t' == t0[c.key := e.(data := Hash(fields), lastAccessed := millis)]
    ensures KeyStep(t, t', c, now, millis, Number(added))
  {
    hide Upsert, KeyStep;
    HsetActs(c, Seen(t, c.key, now), now, e.data.fields, e.expiresAt);
    hide Act;
    Stores(t, t0, t', c, e.(data := Hash(fields), lastAccessed := millis), now, millis, Number(added));
  }


  lemma SaddStores(t: Table, t0: Table, t': Table, c: Command, e: Entry, now: nat, millis: nat,
                   members: set<Bytes>, count: nat)
    requires c.Sadd? && e.data.Set? && (t0 == t || t0 == t - {c.key})
    requires Seen(t, c.key, now) == Some(ItemOf(e))
             || (Seen(t, c.key, now) == None && ItemOf(e) == Item(Set({}), None))
    requires members == e.data.members + SetOf(c.added) && count == |members| - |e.data.members|
    requires t' == t0[c.key := e.(data := Set(members), lastAccessed := millis)]
    ensures KeyStep(t, t', c, now, millis, Number(count))
  {
    hide SetOf, KeyStep;
    Stores(t, t0, t', c, e.(data := Set(members), lastAccessed := millis), now, millis, Number(count));
  }



  lemma PopLeaves(t: Table, t': Table, c: Command, e: Entry, now: nat, millis: nat, popped: Bytes, rest: seq<Bytes>)
    requires (c.Lpop? || c.Rpop?) && e.data.List? && e.data.items != [] && Seen(t, c.key, now) == Some(ItemOf(e))
    requires var items, n := e.data.items, |e.data.items| - 1;
             if c.Lpop? then popped == items[0] && rest == items[1..] else popped == items[n] && rest == items[..n]
    requires t' == if rest == [] then t - {c.key} else t[c.key := e.(data := List(rest), lastAccessed := millis)]
    ensures KeyStep(t, t', c, now, millis, Value(popped))
  {
    hide KeyStep;
    if rest == [] {
      Clears(t, t', c, now, millis, Value(popped));
    } else {
      Stores(t, t, t', c, e.(data := List(rest), lastAccessed := millis), now, millis, Value(popped));
    }
  }



  lemma HdelLeaves(t: Table, t': Table, c: Command, e: Entry, now: nat, millis: nat,
                   fields: map<Bytes, Bytes>, removed: nat)
    requires c.Hdel? && e.data.Hash? && Seen(t, c.key, now) == Some(ItemOf(e))
    requires fields == e.data.fields - SetOf(c.names) && removed == |e.data.fields| - |fields|
    requires t' == if fields == map[] then t - {c.key} else t[c.key := e.(data := Hash(fields), lastAccessed := millis)]
    ensures KeyStep(t, t', c, now, millis, Number(removed))
  {
    hide SetOf, KeyStep;
    if fields == map[] {
      Clears(t, t', c, now, millis, Number(removed));
    } else {
      Stores(t, t, t', c, e.(data := Hash(fields), lastAccessed := millis), now, millis, Number(removed));
    }
  }



  lemma SremLeaves(t: Table, t': Table, c: Command, e: Entry, now: nat, millis: nat,
                   members: set<Bytes>, removed: nat)
    requires c.Srem? && e.data.Set? && Seen(t, c.key, now) == Some(ItemOf(e))
    requires members == e.data.members - SetOf(c.removed) && removed == |e.data.members| - |members|
    requires t' == if members == {} then t - {c.key} else t[c.key := e.(data := Set(members), lastAccessed := millis)]
    ensures KeyStep(t, t', c, now, millis, Number(removed))
  {
    hide SetOf, KeyStep;
    if members == {} {
      Clears(t, t', c, now, millis, Number(removed));
    } else {
      Stores(t, t, t', c, e.(data := Set(members), lastAccessed := millis), now, millis, Number(removed));
    }
  }

  lemma FieldsPresent(fields: map<Bytes, Bytes>, pairs: seq<(Bytes, Bytes)>)
    requires pairs != []
    ensures Upsert(fields, pairs) != map[]
  {
    assert pairs[|pairs| - 1].0 in Upsert(fields, pairs);
  }

  lemma NoFields()
    ensures DataSize(Hash(map[])) == 0 && DataSize(Set({})) == 0 && TotalSize(map[]) == 0
  {
  }
}
