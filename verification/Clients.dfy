/**
 Concurrent clients as state machines. `Limits` gives the bound on memory under several SET clients,
 whose check and insertion are separate steps; `Peak` is the compare-and-swap loop behind the peak
 client count.
 */
module Limits {
  import opened Wrappers
  import opened ByteStrings
  import opened Sums

  /** Where a client stands in its SET. */
  datatype Phase =
    | Idle
    | Checking(key: Bytes, size: nat)   // about to compare the counter with the limit
    | Evicting(key: Bytes, size: nat)   // over the limit: about to remove an entry
    | Passed(key: Bytes, size: nat)     // the check passed, the entry is not inserted yet

  /** Entries by size; `memory` is the wrapping 64-bit counter. */
  datatype State = State(entries: map<Bytes, nat>, memory: nat, clients: seq<Phase>)

  datatype Step =
    | Start(i: nat, key: Bytes, size: nat)
    | Check(i: nat)
    | Evict(i: nat, victim: Bytes)
    | Insert(i: nat)

  function WeightOf(key: Bytes, size: nat): nat {
    size
  }

  ghost function Stored(s: State): nat {
    Sum(s.entries, WeightOf)
  }

  /** One step; an eviction step always removes a stored entry, which need not be one it sampled first. */
  ghost predicate Next(s: State, s': State, step: Step, limit: nat, maxSize: nat) {
    && step.i < |s.clients|
    && var me := s.clients[step.i];
    match step
    case Start(i, key, size) =>
      && me == Idle && size <= maxSize
      && s' == s.(clients := s.clients[i := Checking(key, size)])
    case Check(i) =>
      && me.Checking?
      && s' == s.(clients := s.clients[i :=
           if (s.memory + me.size) % WORD > limit then Evicting(me.key, me.size) else Passed(me.key, me.size)])
    case Evict(i, victim) =>
      && me.Evicting? && victim in s.entries
      && s' == State(s.entries - {victim}, (s.memory - s.entries[victim]) % WORD,
                     s.clients[i := Checking(me.key, me.size)])
    case Insert(i) =>
      && me.Passed?
      && var replaced := if me.key in s.entries then s.entries[me.key] else 0;
      s' == State(s.entries[me.key := me.size], (s.memory + me.size - replaced) % WORD, s.clients[i := Idle])
  }

  function Amount(p: Phase): nat {
    if p.Passed? then p.size else 0
  }

  /** The bytes of SETs that passed the check and are not inserted. */
  function InFlight(clients: seq<Phase>): nat {
    if clients == [] then 0 else InFlight(clients[..|clients| - 1]) + Amount(clients[|clients| - 1])
  }

  function SizeOf(p: Phase): nat {
    if p.Idle? then 0 else p.size
  }

  ghost predicate Bounded(s: State, limit: nat, maxSize: nat) {
    && s.clients != []
    && s.memory == Stored(s)
    && (forall i :: 0 <= i < |s.clients| ==> SizeOf(s.clients[i]) <= maxSize)
    && s.memory + InFlight(s.clients) <= limit + (|s.clients| - 1) * maxSize
  }

  lemma {:induction false} InFlightUpdate(clients: seq<Phase>, i: nat, p: Phase)
    requires i < |clients|
    ensures InFlight(clients[i := p]) == InFlight(clients) - Amount(clients[i]) + Amount(p)
    decreases |clients|
  {
    var n := |clients| - 1;
    if i < n {
      InFlightUpdate(clients[..n], i, p);
      assert clients[i := p][..n] == clients[..n][i := p];
    } else {
      assert clients[i := p][..n] == clients[..n];
    }
  }

  lemma {:induction false} InFlightBound(clients: seq<Phase>, maxSize: nat)
    requires forall i :: 0 <= i < |clients| ==> SizeOf(clients[i]) <= maxSize
    ensures InFlight(clients) <= |clients| * maxSize
  {
    if clients != [] {
      InFlightBound(clients[..|clients| - 1], maxSize);
      assert |clients| * maxSize == (|clients| - 1) * maxSize + maxSize;
    }
  }

  /** All clients but one have at most their sizes in flight. */
  lemma {:induction false} OthersInFlight(clients: seq<Phase>, i: nat, maxSize: nat)
    requires i < |clients|
    requires forall j :: 0 <= j < |clients| ==> SizeOf(clients[j]) <= maxSize
    ensures InFlight(clients) - Amount(clients[i]) <= (|clients| - 1) * maxSize
    decreases |clients|
  {
    var n := |clients| - 1;
    if i < n {
      OthersInFlight(clients[..n], i, maxSize);
      assert n * maxSize == (n - 1) * maxSize + maxSize;
    } else {
      InFlightBound(clients[..n], maxSize);
    }
  }

  /** One client moves on: what is in flight changes by what that client has in flight. */
  lemma Moves(s: State, s': State, i: nat, p: Phase, limit: nat, maxSize: nat)
    requires Bounded(s, limit, maxSize) && i < |s.clients| && s'.clients == s.clients[i := p]
    requires SizeOf(p) <= maxSize && s'.memory == Stored(s')
    requires s'.memory + Amount(p) <= s.memory + Amount(s.clients[i])
    ensures Bounded(s', limit, maxSize) && |s'.clients| == |s.clients|
  {
    hide Stored, InFlight;
    InFlightUpdate(s.clients, i, p);
  }

  /** The check passes: whatever the others have in flight, the limit holds with this client's bytes. */
  lemma Passes(s: State, s': State, i: nat, limit: nat, maxSize: nat)
    requires Bounded(s, limit, maxSize) && i < |s.clients| && s.clients[i].Checking?
    requires s.memory + s.clients[i].size <= limit
    requires s' == s.(clients := s.clients[i := Passed(s.clients[i].key, s.clients[i].size)])
    ensures Bounded(s', limit, maxSize) && |s'.clients| == |s.clients|
  {
    hide Sum, InFlight;
    OthersInFlight(s'.clients, i, maxSize);
  }

  /** While the bound holds, the counter and a client's bytes stay below 2^64. */
  lemma NoWrap(s: State, i: nat, limit: nat, maxSize: nat)
    requires Bounded(s, limit, maxSize) && i < |s.clients| && limit + |s.clients| * maxSize < WORD
    ensures s.memory + SizeOf(s.clients[i]) < WORD
  {
    hide Stored, InFlight;
    assert |s.clients| * maxSize == (|s.clients| - 1) * maxSize + maxSize;
  }

  lemma Evicted(s: State, s': State, i: nat, victim: Bytes, limit: nat, maxSize: nat)
    requires Bounded(s, limit, maxSize) && Next(s, s', Evict(i, victim), limit, maxSize) && s.memory < WORD
    ensures Bounded(s', limit, maxSize) && |s'.clients| == |s.clients|
  {
    hide InFlight, Sum;
    SumRemove(s.entries, victim, WeightOf);
    assert Stored(s') == s.memory - s.entries[victim] < WORD;
    assert SizeOf(s.clients[i]) <= maxSize;
    Moves(s, s', i, s'.clients[i], limit, maxSize);
  }

  lemma Inserted(s: State, s': State, i: nat, limit: nat, maxSize: nat)
    requires Bounded(s, limit, maxSize) && Next(s, s', Insert(i), limit, maxSize)
    requires s.memory + SizeOf(s.clients[i]) < WORD
    ensures Bounded(s', limit, maxSize) && |s'.clients| == |s.clients|
  {
    hide InFlight, Sum;
    var me := s.clients[i];
    SumUpdate(s.entries, me.key, me.size, WeightOf);
    assert Stored(s') <= s.memory + me.size < WORD;
    Moves(s, s', i, Idle, limit, maxSize);
  }

  /** No step breaks the bound. */
  lemma StepStaysBounded(s: State, s': State, step: Step, limit: nat, maxSize: nat)
    requires Bounded(s, limit, maxSize) && Next(s, s', step, limit, maxSize)
    requires limit + |s.clients| * maxSize < WORD
    ensures Bounded(s', limit, maxSize) && |s'.clients| == |s.clients|
  {
    var i := step.i;
    var me := s.clients[i];
    assert SizeOf(me) <= maxSize;
    assert step.Start? || step.Check? ==> s'.memory == Stored(s');
    NoWrap(s, i, limit, maxSize);
    hide Bounded, InFlight, Sum, Stored;
    if step.Evict? {
      Evicted(s, s', i, step.victim, limit, maxSize);
    } else if step.Insert? {
      Inserted(s, s', i, limit, maxSize);
    } else if step.Check? && s.memory + me.size <= limit {
      Passes(s, s', i, limit, maxSize);
    } else {
      Moves(s, s', i, s'.clients[i], limit, maxSize);
    }
  }

  /**
   With T clients that only SET entries of at most `maxSize` bytes, and no eviction step that fails,
   the counter and the SETs in flight never exceed the limit by more than (T - 1) * maxSize.
   */
  lemma {:induction false} MemoryBound(states: seq<State>, steps: seq<Step>, limit: nat, maxSize: nat, n: nat)
    requires limit > 0 // a limit of 0 is no limit
    requires |states| == |steps| + 1 && n <= |steps|
    requires forall i :: 0 <= i < |steps| ==> Next(states[i], states[i + 1], steps[i], limit, maxSize)
    requires var s := states[0];
             && s.clients != [] && (forall i :: 0 <= i < |s.clients| ==> s.clients[i] == Idle)
             && s.memory == Stored(s) <= limit
             && limit + |s.clients| * maxSize < WORD
    ensures |states[n].clients| == |states[0].clients|
    ensures Bounded(states[n], limit, maxSize)
    ensures states[n].memory + InFlight(states[n].clients) <= limit + (|states[0].clients| - 1) * maxSize
  {
    if n == 0 {
      BoundedAtRest(states[0], limit, maxSize);
    } else {
      hide Next, Stored, Bounded, InFlight;
      MemoryBound(states, steps, limit, maxSize, n - 1);
      assert Next(states[n - 1], states[n], steps[n - 1], limit, maxSize);
      StepStaysBounded(states[n - 1], states[n], steps[n - 1], limit, maxSize);
      BoundMeans(states[n], limit, maxSize);
    }
  }

  lemma BoundMeans(s: State, limit: nat, maxSize: nat)
    requires Bounded(s, limit, maxSize)
    ensures s.memory + InFlight(s.clients) <= limit + (|s.clients| - 1) * maxSize
  {
  }

  lemma BoundedAtRest(s: State, limit: nat, maxSize: nat)
    requires s.clients != [] && forall i :: 0 <= i < |s.clients| ==> s.clients[i] == Idle
    requires s.memory == Stored(s) <= limit
    ensures Bounded(s, limit, maxSize)
  {
    NothingInFlight(s.clients);
    hide Stored, InFlight;
    assert 0 <= (|s.clients| - 1) * maxSize;
  }

  lemma {:induction false} NothingInFlight(clients: seq<Phase>)
    requires forall i :: 0 <= i < |clients| ==> clients[i] == Idle
    ensures InFlight(clients) == 0
  {
    if clients != [] {
      NothingInFlight(clients[..|clients| - 1]);
    }
  }
}

module Peak {

  /** Where a connecting client stands in the loop that raises the peak. */
  datatype Phase =
    | Counted(curr: int)               // counted itself, has not read the peak
    | Comparing(curr: int, seen: nat)  // read or was told the peak `seen`

  /** `history` lists every value the client count has reached. */
  datatype State = State(connected: int, peak: nat, busy: map<nat, Phase>, history: seq<int>)

  datatype Step =
    | Connect(id: nat)
    | Load(id: nat)
    | Exit(id: nat)
    | Exchange(id: nat)
    | ExchangeFails(id: nat)   // the peak changed, or the weak exchange failed spuriously
    | Disconnect

  ghost predicate Next(s: State, s': State, step: Step) {
    match step
    case Connect(id) =>
      && id !in s.busy
      && var curr := s.connected + 1;
      s' == State(curr, s.peak, if curr > 0 then s.busy[id := Counted(curr)] else s.busy, s.history + [curr])
    case Load(id) =>
      && id in s.busy && s.busy[id].Counted?
      && s' == s.(busy := s.busy[id := Comparing(s.busy[id].curr, s.peak)])
    case Exit(id) =>
      && id in s.busy && s.busy[id].Comparing? && s.busy[id].curr <= s.busy[id].seen
      && s' == s.(busy := s.busy - {id})
    case Exchange(id) =>
      && id in s.busy && s.busy[id].Comparing? && s.busy[id].curr > s.busy[id].seen == s.peak
      && s' == s.(peak := s.busy[id].curr, busy := s.busy - {id})
    case ExchangeFails(id) =>
      && id in s.busy && s.busy[id].Comparing? && s.busy[id].curr > s.busy[id].seen
      && s' == s.(busy := s.busy[id := Comparing(s.busy[id].curr, s.peak)])
    case Disconnect =>
      s' == s.(connected := s.connected - 1, history := s.history + [s.connected - 1])
  }

  /** Every value reached is covered by the peak or by a client that is still raising it. */
  ghost predicate Covered(s: State, v: int) {
    v <= s.peak || exists id :: id in s.busy && v <= s.busy[id].curr
  }

  /** The peak and the counts of the busy clients were really reached. */
  ghost predicate Reached(s: State) {
    && (s.peak == 0 || s.peak in s.history)
    && forall id :: id in s.busy ==> s.busy[id].curr in s.history && s.busy[id].curr > 0
  }

  /** What a client last saw of the peak is not above it. */
  ghost predicate SeenBelow(s: State) {
    forall id :: id in s.busy && s.busy[id].Comparing? ==> s.busy[id].seen <= s.peak
  }

  ghost predicate AllCovered(s: State) {
    Covered(s, s.connected) && forall v :: v in s.history ==> Covered(s, v)
  }

  ghost predicate Inv(s: State) {
    Reached(s) && SeenBelow(s) && AllCovered(s)
  }

  /** A covered value stays covered: a client leaves the loop only when the peak has reached its count. */
  lemma StaysCovered(s: State, s': State, step: Step, v: int)
    requires Next(s, s', step) && Covered(s, v)
    requires SeenBelow(s)
    ensures Covered(s', v)
  {
    if v > s.peak {
      var id :| id in s.busy && v <= s.busy[id].curr;
      if id in s'.busy {
        assert v <= s'.busy[id].curr;
      }
    }
  }

  lemma StepKeepsReached(s: State, s': State, step: Step)
    requires Reached(s) && SeenBelow(s) && Next(s, s', step)
    ensures Reached(s') && SeenBelow(s') && s.peak <= s'.peak && s.history <= s'.history
  {
    assert forall v :: v in s.history ==> v in s'.history;
    if step.Connect? {
      assert s'.history[|s.history|] == s'.connected;
    }
  }

  lemma StepKeepsCovered(s: State, s': State, step: Step)
    requires SeenBelow(s) && AllCovered(s) && Next(s, s', step)
    ensures AllCovered(s')
  {
    StaysCovered(s, s', step, s.connected);
    assert Covered(s', s'.connected) by {
      if step.Connect? && s'.connected > 0 {
        assert s'.busy[step.id].curr == s'.connected;
      }
    }
    forall v | v in s'.history
      ensures Covered(s', v)
    {
      if v in s.history {
        StaysCovered(s, s', step, v);
      }
    }
  }

  lemma StepKeepsInv(s: State, s': State, step: Step)
    requires Inv(s) && Next(s, s', step)
    ensures Inv(s') && s.peak <= s'.peak && s.history <= s'.history
  {
    hide Reached, SeenBelow, AllCovered, Next;
    StepKeepsReached(s, s', step);
    StepKeepsCovered(s, s', step);
  }

  ghost predicate IsRun(states: seq<State>, steps: seq<Step>) {
    && |states| == |steps| + 1
    && states[0] == State(0, 0, map[], [])
    && forall i :: 0 <= i < |steps| ==> Next(states[i], states[i + 1], steps[i])
  }

  lemma {:induction false} RunKeepsInv(states: seq<State>, steps: seq<Step>, n: nat)
    requires IsRun(states, steps) && n < |states|
    ensures Inv(states[n])
  {
    hide Inv, Next;
    if n == 0 {
      StartsInv();
    } else {
      RunKeepsInv(states, steps, n - 1);
      StepKeepsInv(states[n - 1], states[n], steps[n - 1]);
    }
  }

  lemma StartsInv()
    ensures Inv(State(0, 0, map[], []))
  {
  }

  /** The peak never decreases. */
  lemma {:induction false} PeakNeverDecreases(states: seq<State>, steps: seq<Step>, i: nat, j: nat)
    requires IsRun(states, steps) && i <= j < |states|
    ensures states[i].peak <= states[j].peak
    decreases j
  {
    hide Inv, Next;
    if i < j {
      RunKeepsInv(states, steps, j - 1);
      StepKeepsInv(states[j - 1], states[j], steps[j - 1]);
      PeakNeverDecreases(states, steps, i, j - 1);
    }
  }

  /**
   In every run, with any interleaving of connects and disconnects and any spurious failures, the peak
   is 0 or a count that was really reached; and once no connect is in progress, it is the maximum of
   all counts reached.
   */
  lemma PeakIsMaximum(states: seq<State>, steps: seq<Step>, n: nat)
    requires IsRun(states, steps) && n < |states|
    ensures states[n].peak == 0 || states[n].peak in states[n].history
    ensures states[n].busy == map[] ==> forall v :: v in states[n].history ==> v <= states[n].peak
  {
    RunKeepsInv(states, steps, n);
    var s := states[n];
    if s.busy == map[] {
      forall v | v in s.history
        ensures v <= s.peak
      {
        assert Covered(s, v);
      }
    }
  }
}
