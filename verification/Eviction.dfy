/**
 Approximate LRU eviction as relations on tables: the draws of one step and the entry they select,
 whole eviction runs, and the room they make for a new entry.
 */
module Eviction {
  import opened Wrappers
  import opened ByteStrings
  import opened Sums
  import opened Store

  const SAMPLES: nat := 8

  /** The memory limit (0 is unlimited) and the sharding of a store. */
  datatype Setup = Setup(limit: nat, hash: Bytes -> nat, shards: nat)

  /** One random draw: a shard, and one of its keys unless it is empty. */
  datatype Draw = Draw(shard: nat, key: Option<Bytes>)

  ghost predicate Drawn(t: Table, s: Setup, d: Draw) {
    && d.shard < s.shards
    && match d.key
       case None => forall k :: k in t ==> s.hash(k) % s.shards != d.shard
       case Some(k) => k in t && s.hash(k) % s.shards == d.shard
  }

  ghost predicate AllDrawn(t: Table, s: Setup, draws: seq<Draw>) {
    forall i :: 0 <= i < |draws| ==> Drawn(t, s, draws[i])
  }

  /** A draw that met an entry; the largest access time counts as none. */
  predicate Candidate(t: Table, d: Draw) {
    d.key.Some? && d.key.value in t && t[d.key.value].lastAccessed < WORD - 1
  }

  ghost predicate NoCandidate(t: Table, draws: seq<Draw>) {
    forall i :: 0 <= i < |draws| ==> !Candidate(t, draws[i])
  }

  function AccessOf(t: Table, d: Draw): nat
    requires Candidate(t, d)
  {
    t[d.key.value].lastAccessed
  }

  /** The draw at `w` is the first of those that met the least recently accessed entry. */
  ghost predicate Chosen(t: Table, draws: seq<Draw>, w: nat) {
    && w < |draws| && Candidate(t, draws[w])
    && forall i :: 0 <= i < |draws| && Candidate(t, draws[i]) ==>
                     && AccessOf(t, draws[w]) <= AccessOf(t, draws[i])
                     && (i < w ==> AccessOf(t, draws[w]) < AccessOf(t, draws[i]))
  }

  lemma ChosenIsStored(t: Table, draws: seq<Draw>, pick: nat)
    requires Chosen(t, draws, pick)
    ensures pick < |draws| && Candidate(t, draws[pick])
  {
  }

  /** What the loop over the draws knows after `i` of them: the entry to evict so far, if any. */
  ghost predicate Best(t: Table, draws: seq<Draw>, i: nat, key: Option<Bytes>, time: nat, pick: nat) {
    && i <= |draws|
    && if key.None? then time == WORD - 1 && NoCandidate(t, draws[..i])
       else && Chosen(t, draws[..i], pick) && key == draws[pick].key && time == AccessOf(t, draws[pick])
  }

  lemma BestStarts(t: Table, draws: seq<Draw>)
    ensures Best(t, draws, 0, None, WORD - 1, 0)
  {
  }

  /** One more draw: an entry that was accessed earlier replaces the one found so far. */
  lemma BestNext(t: Table, draws: seq<Draw>, i: nat, key: Option<Bytes>, time: nat, pick: nat)
    requires i < |draws| && Best(t, draws, i, key, time, pick)
    ensures draws[i].key.None? ==> Best(t, draws, i + 1, key, time, pick)
    ensures draws[i].key.Some? && draws[i].key.value in t ==>
              var accessed := t[draws[i].key.value].lastAccessed;
              if accessed < time then Best(t, draws, i + 1, draws[i].key, accessed, i)
              else Best(t, draws, i + 1, key, time, pick)
  {
    var here, next := draws[..i], draws[..i + 1];
    assert next == here + [draws[i]];
    assert forall j :: 0 <= j < |next| ==> next[j] == if j < i then here[j] else draws[i];
  }

  lemma BestEnds(t: Table, draws: seq<Draw>, key: Option<Bytes>, time: nat, pick: nat)
    requires Best(t, draws, |draws|, key, time, pick)
    ensures key.None? <==> NoCandidate(t, draws)
    ensures key.Some? ==> Chosen(t, draws, pick) && draws[pick].key == key && key.value in t
  {
    assert draws[..|draws|] == draws;
  }

  /** The check before an insertion, on a counter that balances the table `t`. */
  ghost predicate Fits(t: Table, s: Setup, uncharged: nat, needed: nat) {
    ((TotalSize(t) - uncharged) % WORD + needed) % WORD <= s.limit
  }

  /** Below 2^64 bytes nothing wraps around. */
  lemma FitsExactly(t: Table, s: Setup, needed: nat)
    requires TotalSize(t) + needed < WORD
    ensures Fits(t, s, 0, needed) <==> TotalSize(t) + needed <= s.limit
  {
    hide TotalSize;
  }

  // ----- eviction runs -----

  /** A successful eviction step: its draws, and the one that met the entry it removed. */
  datatype Round = Round(draws: seq<Draw>, pick: nat) {
    function Victim(): Option<Bytes> {
      if pick < |draws| then draws[pick].key else None
    }
  }

  /** What some rounds leave of a table. */
  ghost function Left(t: Table, rounds: seq<Round>): Table {
    if rounds == [] then t
    else
      var n := |rounds| - 1;
      var victim := rounds[n].Victim();
      if victim.Some? then Left(t, rounds[..n]) - {victim.value} else Left(t, rounds[..n])
  }

  ghost predicate Evicting(t: Table, r: Round, s: Setup, uncharged: nat, needed: nat) {
    && !Fits(t, s, uncharged, needed)
    && |r.draws| == SAMPLES && AllDrawn(t, s, r.draws) && Chosen(t, r.draws, r.pick)
  }

  /** Each round removed an entry of a table that did not fit. */
  ghost predicate Evicts(t: Table, rounds: seq<Round>, s: Setup, uncharged: nat, needed: nat) {
    if rounds == [] then true
    else
      var n := |rounds| - 1;
      && Evicts(t, rounds[..n], s, uncharged, needed)
      && Evicting(Left(t, rounds[..n]), rounds[n], s, uncharged, needed)
  }

  /** An eviction run ends when the bytes fit, or when a step drew no candidate. */
  ghost predicate Ends(t: Table, s: Setup, uncharged: nat, needed: nat, stuck: Option<seq<Draw>>) {
    match stuck
    case None => Fits(t, s, uncharged, needed)
    case Some(draws) =>
      && !Fits(t, s, uncharged, needed)
      && |draws| == SAMPLES && AllDrawn(t, s, draws) && NoCandidate(t, draws)
  }

  /** What the program leaves of `t` before it inserts `needed` bytes. */
  ghost predicate MadeRoom(t: Table, room: Table, s: Setup, uncharged: nat, needed: nat) {
    if s.limit == 0 then room == t
    else exists rounds, stuck ::
           && Evicts(t, rounds, s, uncharged, needed) && room == Left(t, rounds)
           && Ends(room, s, uncharged, needed, stuck)
  }

  lemma EvictsNothing(t: Table, s: Setup, uncharged: nat, needed: nat)
    ensures Evicts(t, [], s, uncharged, needed) && Left(t, []) == t
  {
  }

  lemma RoundNext(t: Table, rounds: seq<Round>, r: Round, s: Setup, uncharged: nat, needed: nat)
    requires Evicts(t, rounds, s, uncharged, needed)
    requires Evicting(Left(t, rounds), r, s, uncharged, needed)
    ensures Evicts(t, rounds + [r], s, uncharged, needed)
    ensures r.Victim().Some? && r.Victim().value in Left(t, rounds)
    ensures Left(t, rounds + [r]) == Left(t, rounds) - {r.Victim().value}
  {
    assert (rounds + [r])[..|rounds|] == rounds;
    assert Candidate(Left(t, rounds), r.draws[r.pick]);
  }

  lemma EndsFitting(t: Table, s: Setup, uncharged: nat, needed: nat)
    requires Fits(t, s, uncharged, needed)
    ensures Ends(t, s, uncharged, needed, None)
  {
  }

  ghost predicate Within(t': Table, t: Table) {
    forall k :: k in t' ==> k in t && t'[k] == t[k]
  }

  /** Every round removes one entry and changes no other. */
  lemma {:induction false} EvictsOneEach(t: Table, rounds: seq<Round>, s: Setup, uncharged: nat, needed: nat)
    requires Evicts(t, rounds, s, uncharged, needed)
    ensures Within(Left(t, rounds), t) && |Left(t, rounds)| + |rounds| == |t|
  {
    hide Fits, AllDrawn;
    if rounds != [] {
      var n := |rounds| - 1;
      EvictsOneEach(t, rounds[..n], s, uncharged, needed);
      var before := Left(t, rounds[..n]);
      assert Candidate(before, rounds[n].draws[rounds[n].pick]);
      Smaller(before, rounds[n].Victim().value);
    }
  }

  /** Entries are evicted only when it is needed. */
  lemma {:induction false} EvictsOnlyWhenNeeded(t: Table, rounds: seq<Round>, s: Setup, uncharged: nat, needed: nat)
    requires Evicts(t, rounds, s, uncharged, needed) && Fits(t, s, uncharged, needed)
    ensures rounds == []
  {
    if rounds != [] {
      EvictsOnlyWhenNeeded(t, rounds[..|rounds| - 1], s, uncharged, needed);
      assert false;
    }
  }

  /** All access times are below the largest. */
  ghost predicate Timed(t: Table) {
    forall k :: k in t ==> t[k].lastAccessed < WORD - 1
  }

  /** All draws met empty shards. */
  ghost predicate AllEmpty(t: Table, s: Setup, draws: seq<Draw>) {
    forall i :: 0 <= i < |draws| ==> draws[i].key == None && Drawn(t, s, draws[i])
  }

  /**
   The room made for an insertion: nothing is evicted when the bytes fit already, and afterwards they
   fit, or the last step drew eight times and met only empty shards.
   */
  lemma RoomIsMade(t: Table, room: Table, s: Setup, uncharged: nat, needed: nat) returns (draws: seq<Draw>)
    requires MadeRoom(t, room, s, uncharged, needed) && s.limit > 0 && Timed(t)
    ensures Within(room, t)
    ensures Fits(t, s, uncharged, needed) ==> room == t
    ensures Fits(room, s, uncharged, needed) || (|draws| == 8 && AllEmpty(room, s, draws))
  {
    var rounds, stuck :|
      && Evicts(t, rounds, s, uncharged, needed) && room == Left(t, rounds)
      && Ends(room, s, uncharged, needed, stuck);
    EvictsOneEach(t, rounds, s, uncharged, needed);
    if Fits(t, s, uncharged, needed) {
      EvictsOnlyWhenNeeded(t, rounds, s, uncharged, needed);
    }
    hide Fits;
    draws := [];
    if stuck.Some? {
      draws := stuck.value;
      forall i | 0 <= i < |draws|
        ensures draws[i].key == None
      {
        assert Drawn(room, s, draws[i]) && !Candidate(room, draws[i]);
      }
    }
  }


  lemma {:induction false} WithinIsSmaller(t': Table, t: Table)
    requires Within(t', t)
    ensures TotalSize(t') <= TotalSize(t)
    decreases |t|
  {
    if t != map[] {
      var k :| k in t;
      Smaller(t, k);
      SumRemove(t, k, SizeBytes);
      if k in t' {
        SumRemove(t', k, SizeBytes);
        WithinIsSmaller(t' - {k}, t - {k});
      } else {
        WithinIsSmaller(t', t - {k});
      }
    }
  }
}
