/**
 SCAN. A cursor packs a shard number and an offset into that shard's iteration order. Seen through
 `Rank`, its position in the concatenation of all shards, one call reads the next stretch of keys;
 chained calls therefore read every key once.
 */
module Scans {
  import opened Wrappers
  import opened ByteStrings
  import opened Store
  import Globs

  const OFFSET_LIMIT: nat := 0x1_0000_0000

  datatype Query = Query(pattern: Option<Bytes>, typeFilter: Option<string>, now: nat)

  function Lower(c: char): char {
    if 'A' <= c <= 'Z' then ((c as int) + 32) as char else c
  }

  predicate EqIgnoreAsciiCase(a: string, b: string) {
    |a| == |b| && forall i :: 0 <= i < |a| ==> Lower(a[i]) == Lower(b[i])
  }

  function TypeName(d: Data): string {
    match d
    case Str(_) => "string"
    case List(_) => "list"
    case Set(_) => "set"
    case Hash(_) => "hash"
  }

  predicate TypePasses(d: Data, filter: Option<string>) {
    filter.None? || EqIgnoreAsciiCase(filter.value, TypeName(d))
  }

  ghost predicate PatternPasses(key: Bytes, pattern: Option<Bytes>) {
    pattern.None? || Globs.InLanguage(pattern.value, key)
  }

  /** Live keys of the wanted type that match the pattern. */
  ghost predicate Passes(t: Table, key: Bytes, q: Query) {
    && key in t && !Expired(t[key], q.now)
    && TypePasses(t[key].data, q.typeFilter) && PatternPasses(key, q.pattern)
  }

  ghost function Filter(t: Table, keys: seq<Bytes>, q: Query): seq<Bytes> {
    if keys == [] then []
    else
      var last := keys[|keys| - 1];
      Filter(t, keys[..|keys| - 1], q) + if Passes(t, last, q) then [last] else []
  }

  // ----- iteration orders and cursors -----

  /** The iteration order of each shard of a table: each key once, shards without common keys. */
  ghost predicate IsOrder(order: seq<seq<Bytes>>, t: Table) {
    && Unique(Flatten(order)) && SetOf(Flatten(order)) == t.Keys
    && |order| <= OFFSET_LIMIT
    && forall i :: 0 <= i < |order| ==> |order[i]| < OFFSET_LIMIT
  }

  /** The position of a shard and an offset in the concatenation of all shards. */
  ghost function Position(order: seq<seq<Bytes>>, shard: nat, offset: nat): nat
    requires shard <= |order|
  {
    |Flatten(order[..shard])| +
    if shard == |order| then 0 else if offset <= |order[shard]| then offset else |order[shard]|
  }

  ghost function Rank(order: seq<seq<Bytes>>, cursor: nat): nat {
    var shard := cursor / OFFSET_LIMIT;
    if shard >= |order| then |Flatten(order)| else Position(order, shard, cursor % OFFSET_LIMIT)
  }

  lemma FlattenAt(order: seq<seq<Bytes>>, shard: nat)
    requires shard < |order|
    ensures Flatten(order[..shard + 1]) == Flatten(order[..shard]) + order[shard]
    ensures Flatten(order[..shard + 1]) <= Flatten(order)
  {
    hide Flatten;
    FlattenSplit(order, shard + 1);
    var head := order[..shard + 1];
    FlattenSplit(head, shard);
    assert head[..shard] == order[..shard] && head[shard..] == [order[shard]];
    FlattenOne(order[shard]);
  }

  lemma PositionBounds(order: seq<seq<Bytes>>, shard: nat, offset: nat)
    requires shard < |order|
    ensures Position(order, shard, offset) <= |Flatten(order)|
    ensures offset < |order[shard]| ==>
              && Position(order, shard, offset) < |Flatten(order)|
              && Flatten(order)[Position(order, shard, offset)] == order[shard][offset]
              && Position(order, shard, offset + 1) == Position(order, shard, offset) + 1
    ensures offset >= |order[shard]| ==> Position(order, shard + 1, 0) == Position(order, shard, offset)
    ensures forall i :: 0 <= i < |order[shard]| ==>
              && |Flatten(order[..shard])| + i < |Flatten(order)|
              && Flatten(order)[|Flatten(order[..shard])| + i] == order[shard][i]
  {
    hide Flatten;
    FlattenAt(order, shard);
    var before := |Flatten(order[..shard])|;
    forall i | 0 <= i < |order[shard]|
      ensures before + i < |Flatten(order)| && Flatten(order)[before + i] == order[shard][i]
    {
      assert Flatten(order)[before + i] == Flatten(order[..shard + 1])[before + i];
    }
  }

  lemma PositionAtEnd(order: seq<seq<Bytes>>)
    ensures Position(order, |order|, 0) == |Flatten(order)|
  {
    assert order[..|order|] == order;
  }

  function TargetOf(count: nat): nat {
    if count == 0 then 10 else count
  }

  /**
   One call: it reads the next `count` keys, fewer only at the end, and returns those that pass. An
   unfinished cursor is not 0, is larger than the one before, and stands where reading stopped.
   */
  ghost predicate ScanStep(
    order: seq<seq<Bytes>>, t: Table, q: Query, cursor: nat, count: nat, next: nat, matched: seq<Bytes>)
  {
    var all := Flatten(order);
    var start := Rank(order, cursor);
    && start <= |all|
    && var stop := if start + TargetOf(count) <= |all| then start + TargetOf(count) else |all|;
    && matched == Filter(t, all[start..stop], q)
    && (next == 0 ==> stop == |all|)
    && (next != 0 ==> next > cursor && stop == start + TargetOf(count) && Rank(order, next) == stop)
  }

  /** A cursor is the shard times 2^32 plus the offset, and stands for the keys before that place. */
  lemma CursorIsPacked(order: seq<seq<Bytes>>, shard: nat, offset: nat)
    requires shard < |order| && offset < 4_294_967_296
    ensures Rank(order, shard * 4_294_967_296 + offset) ==
            |Flatten(order[..shard])| + if offset <= |order[shard]| then offset else |order[shard]|
  {
    var cursor := shard * 4_294_967_296 + offset;
    assert cursor / OFFSET_LIMIT == shard && cursor % OFFSET_LIMIT == offset;
  }

  /** An unfinished call reads as many keys as were asked for; a count of 0 asks for 10. */
  lemma UnfinishedReads(order: seq<seq<Bytes>>, t: Table, q: Query, cursor: nat, count: nat, next: nat,
                        matched: seq<Bytes>)
    requires ScanStep(order, t, q, cursor, count, next, matched) && next != 0
    ensures Rank(order, next) == Rank(order, cursor) + if count == 0 then 10 else count
  {
  }

  /** The names of the kinds of values, in any case. */
  lemma TypeNames(d: Data)
    ensures TypePasses(d, Some("string")) <==> d.Str?
    ensures TypePasses(d, Some("list")) <==> d.List?
    ensures TypePasses(d, Some("set")) <==> d.Set?
    ensures TypePasses(d, Some("hash")) <==> d.Hash?
    ensures TypePasses(d, Some("LIST")) <==> d.List?
  {
    var name := TypeName(d);
    assert "string"[0] == 's' && "set"[0] == 's' && "list"[0] == 'l' && "hash"[0] == 'h' && "LIST"[0] == 'L';
  }

  /** A key passes if its value is visible, is of the wanted kind, and the pattern accepts it. */
  lemma PassingMeans(t: Table, key: Bytes, q: Query)
    ensures Passes(t, key, q) ==> Seen(t, key, q.now).Some?
    ensures q.pattern == None && q.typeFilter == None ==> (Passes(t, key, q) <==> Seen(t, key, q.now).Some?)
    ensures Seen(t, key, q.now).Some? ==>
              (Passes(t, key, q) <==>
                 && (q.pattern.Some? ==> Globs.InLanguage(q.pattern.value, key))
                 && (q.typeFilter.Some? ==> TypePasses(Seen(t, key, q.now).value.data, q.typeFilter)))
  {
    hide Globs.InLanguage, EqIgnoreAsciiCase;
  }

  lemma FilterStep(t: Table, all: seq<Bytes>, start: nat, stop: nat, q: Query)
    requires start <= stop < |all|
    ensures Filter(t, all[start..stop + 1], q) ==
            Filter(t, all[start..stop], q) + if Passes(t, all[stop], q) then [all[stop]] else []
  {
    assert all[start..stop + 1][..stop - start] == all[start..stop];
  }

  lemma {:induction false} FilterAppend(t: Table, xs: seq<Bytes>, ys: seq<Bytes>, q: Query)
    ensures Filter(t, xs + ys, q) == Filter(t, xs, q) + Filter(t, ys, q)
  {
    if ys == [] {
      assert xs + ys == xs;
    } else {
      var n := |ys| - 1;
      assert (xs + ys)[..|xs| + n] == xs + ys[..n];
      FilterAppend(t, xs, ys[..n], q);
    }
  }

  lemma UniqueInit(keys: seq<Bytes>)
    requires Unique(keys) && keys != []
    ensures var init, last := keys[..|keys| - 1], keys[|keys| - 1];
            Unique(init) && last !in SetOf(init) && SetOf(keys) == SetOf(init) + {last}
  {
    assert keys == keys[..|keys| - 1] + [keys[|keys| - 1]];
  }

  lemma {:induction false} FilterKeeps(t: Table, keys: seq<Bytes>, q: Query)
    requires Unique(keys)
    ensures Unique(Filter(t, keys, q))
    ensures SetOf(Filter(t, keys, q)) == set k | k in SetOf(keys) && Passes(t, k, q)
  {
    if keys == [] {
      UniqueEmpty();
    } else {
      var init, last := keys[..|keys| - 1], keys[|keys| - 1];
      UniqueInit(keys);
      FilterKeeps(t, init, q);
      var f := Filter(t, init, q);
      if Passes(t, last, q) {
        UniqueAppend(f, last);
      } else {
        assert f + [] == f;
      }
    }
  }

  // ----- chains of calls -----

  datatype Call = Call(cursor: nat, count: nat, next: nat, matched: seq<Bytes>)

  ghost predicate CallAt(order: seq<seq<Bytes>>, t: Table, q: Query, calls: seq<Call>, i: nat)
    requires i < |calls|
  {
    && ScanStep(order, t, q, calls[i].cursor, calls[i].count, calls[i].next, calls[i].matched)
    && calls[i].cursor == (if i == 0 then 0 else calls[i - 1].next)
    && (i > 0 ==> calls[i].cursor != 0)
  }

  /** Calls chained from cursor 0, each unfinished but possibly the last. */
  ghost predicate Chain(order: seq<seq<Bytes>>, t: Table, q: Query, calls: seq<Call>) {
    forall i :: 0 <= i < |calls| ==> CallAt(order, t, q, calls, i)
  }

  function Collected(calls: seq<Call>): seq<Bytes> {
    if calls == [] then []
    else Collected(calls[..|calls| - 1]) + calls[|calls| - 1].matched
  }

  /** One more call continues a chain. */
  lemma ChainStep(order: seq<seq<Bytes>>, t: Table, q: Query, calls: seq<Call>, call: Call)
    requires Chain(order, t, q, calls)
    requires ScanStep(order, t, q, call.cursor, call.count, call.next, call.matched)
    requires if calls == [] then call.cursor == 0
             else call.cursor != 0 && call.cursor == calls[|calls| - 1].next
    ensures Chain(order, t, q, calls + [call])
    ensures Collected(calls + [call]) == Collected(calls) + call.matched
  {
    hide ScanStep;
    assert (calls + [call])[..|calls|] == calls;
    forall i | 0 <= i < |calls + [call]|
      ensures CallAt(order, t, q, calls + [call], i)
    {
      if i < |calls| {
        assert CallAt(order, t, q, calls, i);
      }
    }
  }

  /** An unfinished call moves forward, and never past the end. */
  lemma ScanAdvances(order: seq<seq<Bytes>>, t: Table, q: Query, cursor: nat, count: nat, next: nat,
                     matched: seq<Bytes>)
    requires ScanStep(order, t, q, cursor, count, next, matched) && next != 0
    ensures Rank(order, cursor) < Rank(order, next) <= |Flatten(order)|
  {
  }

  lemma RankOfZero(order: seq<seq<Bytes>>)
    ensures Rank(order, 0) == 0
  {
    assert order[..0] == [];
  }

  lemma ChainPrefix(order: seq<seq<Bytes>>, t: Table, q: Query, calls: seq<Call>, n: nat)
    requires Chain(order, t, q, calls) && n <= |calls|
    ensures Chain(order, t, q, calls[..n])
  {
    hide ScanStep;
    forall i | 0 <= i < n
      ensures CallAt(order, t, q, calls[..n], i)
    {
      assert CallAt(order, t, q, calls, i);
    }
  }

  /** An unfinished chain has read everything before its cursor. */
  lemma {:induction false} ChainSoFar(order: seq<seq<Bytes>>, t: Table, q: Query, calls: seq<Call>)
    requires Chain(order, t, q, calls) && calls != []
    ensures var last := calls[|calls| - 1];
            var read := if last.next == 0 then |Flatten(order)| else Rank(order, last.next);
            read <= |Flatten(order)| && Collected(calls) == Filter(t, Flatten(order)[..read], q)
  {
    hide Flatten, Position, Filter, OFFSET_LIMIT;
    var all, n := Flatten(order), |calls| - 1;
    var last := calls[n];
    assert CallAt(order, t, q, calls, n);
    var start := Rank(order, last.cursor);
    var read := if last.next == 0 then |all| else Rank(order, last.next);
    RankOfZero(order);
    assert last.matched == Filter(t, all[start..read], q);
    if n > 0 {
      ChainPrefix(order, t, q, calls, n);
      ChainSoFar(order, t, q, calls[..n]);
      assert calls[..n][n - 1] == calls[n - 1];
    } else {
      assert all[..0] == [];
    }
    FilterAppend(t, all[..start], all[start..read], q);
    assert all[..start] + all[start..read] == all[..read];
  }

  /**
   A finished chain returns every live key that passes the filters exactly once, whatever counts
   its calls asked for.
   */
  lemma ScanIsComplete(order: seq<seq<Bytes>>, t: Table, q: Query, calls: seq<Call>)
    requires IsOrder(order, t)
    requires Chain(order, t, q, calls) && calls != [] && calls[|calls| - 1].next == 0
    ensures Unique(Collected(calls))
    ensures forall k :: k in Collected(calls) <==> Passes(t, k, q)
  {
    var all := Flatten(order);
    ChainSoFar(order, t, q, calls);
    assert all[..|all|] == all;
    FilterKeeps(t, all, q);
    forall k
      ensures k in Collected(calls) <==> Passes(t, k, q)
    {
      assert k in Collected(calls) <==> k in SetOf(Filter(t, all, q));
    }
  }

  /** The cursors of a chain increase strictly. */
  lemma {:induction false} CursorsIncrease(order: seq<seq<Bytes>>, t: Table, q: Query, calls: seq<Call>, i: nat, j: nat)
    requires Chain(order, t, q, calls) && i < j < |calls|
    ensures calls[i].cursor < calls[j].cursor
    decreases j
  {
    assert CallAt(order, t, q, calls, j) && CallAt(order, t, q, calls, j - 1);
    if i < j - 1 {
      CursorsIncrease(order, t, q, calls, i, j - 1);
    }
  }

  lemma {:induction false} RankOfCall(order: seq<seq<Bytes>>, t: Table, q: Query, calls: seq<Call>, count: nat, i: nat)
    requires Chain(order, t, q, calls) && i < |calls|
    requires forall j :: 0 <= j < |calls| ==> calls[j].count == count
    ensures Rank(order, calls[i].cursor) == i * TargetOf(count) <= |Flatten(order)|
  {
    hide Flatten, Filter, Position, OFFSET_LIMIT, TargetOf;
    assert CallAt(order, t, q, calls, i);
    RankOfZero(order);
    if i > 0 {
      RankOfCall(order, t, q, calls, count, i - 1);
      assert CallAt(order, t, q, calls, i - 1);
      assert (i - 1) * TargetOf(count) + TargetOf(count) == i * TargetOf(count);
    }
  }

  /** With a fixed count, a chain over N stored entries has at most N / count + 1 calls. */
  lemma ScanEnds(order: seq<seq<Bytes>>, t: Table, q: Query, calls: seq<Call>, count: nat)
    requires Chain(order, t, q, calls) && calls != []
    requires forall j :: 0 <= j < |calls| ==> calls[j].count == count
    ensures |calls| <= |Flatten(order)| / TargetOf(count) + 1
  {
    var n := |calls| - 1;
    RankOfCall(order, t, q, calls, count, n);
    DivideBound(n, TargetOf(count), |Flatten(order)|);
  }

  lemma {:induction false} MultiplyLess(a: nat, b: nat, c: nat)
    requires a <= b
    ensures a * c <= b * c
  {
    if c > 0 {
      MultiplyLess(a, b, c - 1);
      assert a * c == a * (c - 1) + a && b * c == b * (c - 1) + b;
    }
  }

  lemma DivideBound(n: nat, c: nat, total: nat)
    requires c > 0 && n * c <= total
    ensures n <= total / c
  {
    var q := total / c;
    assert total < q * c + c;
    assert q * c + c == (q + 1) * c;
    if q < n {
      MultiplyLess(q + 1, n, c);
    }
  }

  // ----- the loops of one call -----

  /** The filters of one key, in the order the program applies them. */
  method KeyPasses(entries: Table, key: Bytes, q: Query) returns (r: bool)
    requires key in entries
    ensures r == Passes(entries, key, q)
  {
    hide Globs.InLanguage;
    if Expired(entries[key], q.now) {
      return false;
    }
    if !TypePasses(entries[key].data, q.typeFilter) {
      return false;
    }
    match q.pattern
    case None => return true;
    case Some(pattern) =>
      if pattern == [STAR] {
        Globs.StarMatchesAll(key);
        return true;
      }
      r := Globs.GlobMatch(pattern, key);
  }

  /** Goes through one shard from `offset` on until its end or until enough keys were scanned. */
  method ScanShard(entries: Table, keys: seq<Bytes>, offset: nat, scanned: nat, target: nat, q: Query)
    returns (offset': nat, scanned': nat, matched: seq<Bytes>)
    requires forall k :: k in keys ==> k in entries
    requires offset < |keys| && scanned < target
    ensures offset' == if offset + (target - scanned) <= |keys| then offset + (target - scanned) else |keys|
    ensures scanned' == scanned + (offset' - offset)
    ensures matched == Filter(entries, keys[offset..offset'], q)
  {
    hide Passes;
    offset', scanned', matched := offset, scanned, [];
    while offset' < |keys|
      invariant offset <= offset' <= |keys| && scanned' == scanned + (offset' - offset)
      invariant scanned' < target
      invariant matched == Filter(entries, keys[offset..offset'], q)
    {
      FilterStep(entries, keys, offset, offset', q);
      var key := keys[offset'];
      offset' := offset' + 1;
      scanned' := scanned' + 1;
      var isMatch := KeyPasses(entries, key, q);
      if isMatch {
        matched := matched + [key];
      }
      if scanned' >= target {
        break;
      }
    }
  }

  lemma {:induction false} FilterAgrees(t: Table, u: Table, keys: seq<Bytes>, q: Query)
    requires forall k :: k in keys ==> k in t && k in u && t[k] == u[k]
    ensures Filter(t, keys, q) == Filter(u, keys, q)
  {
    if keys != [] {
      FilterAgrees(t, u, keys[..|keys| - 1], q);
    }
  }

  /** Where a call stands between two shards or inside one. */
  ghost predicate Scanning(order: seq<seq<Bytes>>, t: Table, q: Query, start: nat, target: nat,
                           shard: nat, offset: nat, scanned: nat, matched: seq<Bytes>) {
    && shard <= |order| && (shard < |order| ==> offset <= |order[shard]|)
    && start + scanned <= |Flatten(order)| && scanned <= target
    && (if shard == |order| then start + scanned == |Flatten(order)|
        else Position(order, shard, offset) == start + scanned)
    && matched == Filter(t, Flatten(order)[start..start + scanned], q)
  }

  lemma NextShard(order: seq<seq<Bytes>>, t: Table, q: Query, start: nat, target: nat,
                  shard: nat, offset: nat, scanned: nat, matched: seq<Bytes>)
    requires Scanning(order, t, q, start, target, shard, offset, scanned, matched)
    requires shard < |order| && offset >= |order[shard]|
    ensures Scanning(order, t, q, start, target, shard + 1, 0, scanned, matched)
  {
    hide Filter;
    PositionBounds(order, shard, offset);
    PositionAtEnd(order);
  }

  lemma WithinShard(order: seq<seq<Bytes>>, t: Table, q: Query, start: nat, target: nat, shard: nat,
                    offset: nat, scanned: nat, matched: seq<Bytes>, more: nat, found: seq<Bytes>)
    requires Scanning(order, t, q, start, target, shard, offset, scanned, matched)
    requires shard < |order| && offset + more <= |order[shard]| && scanned + more <= target
    requires found == Filter(t, order[shard][offset..offset + more], q)
    ensures Scanning(order, t, q, start, target, shard, offset + more, scanned + more, matched + found)
  {
    hide Filter, Flatten;
    var all, p := Flatten(order), Position(order, shard, offset);
    PositionBounds(order, shard, offset + more);
    var before := |Flatten(order[..shard])|;
    assert p == before + offset;
    assert all[p..p + more] == order[shard][offset..offset + more];
    FilterAppend(t, all[start..p], all[p..p + more], q);
    assert all[start..p] + all[p..p + more] == all[start..p + more];
  }

  /** The cursor a call returns. */
  lemma ScanFinishes(order: seq<seq<Bytes>>, t: Table, q: Query, cursor: nat, count: nat,
                     shard: nat, offset: nat, scanned: nat, matched: seq<Bytes>)
    requires IsOrder(order, t)
    requires Scanning(order, t, q, Rank(order, cursor), TargetOf(count), shard, offset, scanned, matched)
    requires shard == |order| || scanned == TargetOf(count)
    requires shard < |order| ==> offset < |order[shard]| || offset == 0
    requires (shard > cursor / OFFSET_LIMIT) || (shard == cursor / OFFSET_LIMIT && offset > cursor % OFFSET_LIMIT)
             || shard == |order|
    ensures ScanStep(order, t, q, cursor, count,
                     if shard == |order| then 0 else shard * OFFSET_LIMIT + offset, matched)
  {
    hide Filter, Unique, SetOf;
    if shard < |order| {
      var next := shard * OFFSET_LIMIT + offset;
      assert next / OFFSET_LIMIT == shard && next % OFFSET_LIMIT == offset;
    }
  }

  /** The keys of one shard, with the entries they have in the flat table. */
  ghost predicate Listed(entries: Table, keys: seq<Bytes>, t: Table) {
    forall k :: k in keys ==> k in entries && k in t && entries[k] == t[k]
  }

  /**
   One SCAN call over shards whose iteration order is `order`. Cursors beyond the last shard are
   finished at once; an offset beyond its shard continues with the next one.
   */
  method Scan(shards: seq<Table>, order: seq<seq<Bytes>>, ghost t: Table, cursor: nat, count: nat, q: Query)
    returns (next: nat, matched: seq<Bytes>)
    requires |shards| == |order| && IsOrder(order, t)
    requires forall i :: 0 <= i < |order| ==> Listed(shards[i], order[i], t)
    ensures ScanStep(order, t, q, cursor, count, next, matched)
  {
    hide Filter, Flatten, Rank, Unique, SetOf, ScanStep;
    var numShards := |shards|;
    var shardIdx: nat, offset: nat := cursor / OFFSET_LIMIT, cursor % OFFSET_LIMIT;
    matched := [];
    ScanStarts(order, t, q, cursor, count);
    if shardIdx >= numShards {
      return 0, [];
    }
    var scanned: nat, target: nat := 0, TargetOf(count);
    ghost var start := Rank(order, cursor);
    ghost var clipped: nat := if offset <= |order[shardIdx]| then offset else |order[shardIdx]|;
    while shardIdx < numShards && scanned < target
      invariant shardIdx <= numShards
      invariant shardIdx < numShards ==> clipped == if offset <= |order[shardIdx]| then offset else |order[shardIdx]|
      invariant Scanning(order, t, q, start, target, shardIdx, if shardIdx < numShards then clipped else 0,
                         scanned, matched)
      invariant scanned > 0 && shardIdx < numShards ==> offset < |order[shardIdx]| || offset == 0
      invariant shardIdx > cursor / OFFSET_LIMIT
                || (shardIdx == cursor / OFFSET_LIMIT
                    && if scanned > 0 then offset > cursor % OFFSET_LIMIT else offset == cursor % OFFSET_LIMIT)
      decreases numShards - shardIdx, target - scanned
    {
      var total := |order[shardIdx]|;
      if offset >= total {
        NextShard(order, t, q, start, target, shardIdx, clipped, scanned, matched);
        shardIdx, offset := shardIdx + 1, 0;
        clipped := 0;
        continue;
      }
      assert Listed(shards[shardIdx], order[shardIdx], t);
      var offset', scanned', found := ScanShard(shards[shardIdx], order[shardIdx], offset, scanned, target, q);
      FilterAgrees(shards[shardIdx], t, order[shardIdx][offset..offset'], q);
      WithinShard(order, t, q, start, target, shardIdx, offset, scanned, matched, offset' - offset, found);
      offset, scanned, matched := offset', scanned', matched + found;
      clipped := offset;
      if offset >= total {
        NextShard(order, t, q, start, target, shardIdx, offset, scanned, matched);
        shardIdx, offset := shardIdx + 1, 0;
        clipped := 0;
      }
    }
    ScanFinishes(order, t, q, cursor, count, shardIdx, if shardIdx < numShards then offset else 0, scanned, matched);
    next := if shardIdx >= numShards then 0 else shardIdx * OFFSET_LIMIT + offset;
  }

  lemma ScanStarts(order: seq<seq<Bytes>>, t: Table, q: Query, cursor: nat, count: nat)
    ensures cursor / OFFSET_LIMIT >= |order| ==> ScanStep(order, t, q, cursor, count, 0, [])
    ensures cursor / OFFSET_LIMIT < |order| ==>
              var shard, offset := cursor / OFFSET_LIMIT, cursor % OFFSET_LIMIT;
              Scanning(order, t, q, Rank(order, cursor), TargetOf(count), shard,
                       if offset <= |order[shard]| then offset else |order[shard]|, 0, [])
  {
    var all := Flatten(order);
    if cursor / OFFSET_LIMIT >= |order| {
      assert all[|all|..|all|] == [];
    } else {
      var p := Rank(order, cursor);
      PositionBounds(order, cursor / OFFSET_LIMIT, cursor % OFFSET_LIMIT);
      assert all[p..p] == [];
    }
  }
}
