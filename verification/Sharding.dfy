/** A table split into shards by a hash of the key, and the flat table it stands for. */
module Sharding {
  import opened ByteStrings
  import opened Store

  /** Each key sits only in its own shard. */
  ghost predicate Placed(shards: seq<Table>, hash: Bytes -> nat) {
    && |shards| > 0
    && forall i, k :: 0 <= i < |shards| && k in shards[i] ==> hash(k) % |shards| == i
  }

  ghost function AllKeys(shards: seq<Table>): set<Bytes> {
    set i, k | 0 <= i < |shards| && k in shards[i] :: k
  }

  /** The flat table of the shards. */
  ghost function Flat(shards: seq<Table>, hash: Bytes -> nat): Table
    requires Placed(shards, hash)
  {
    map k | k in AllKeys(shards) :: shards[hash(k) % |shards|][k]
  }

  /** A key is in the flat table exactly when its own shard holds it, with the same entry. */
  lemma FlatLookup(shards: seq<Table>, hash: Bytes -> nat, key: Bytes)
    requires Placed(shards, hash)
    ensures key in Flat(shards, hash) <==> key in shards[hash(key) % |shards|]
    ensures key in Flat(shards, hash) ==> Flat(shards, hash)[key] == shards[hash(key) % |shards|][key]
  {
  }

  lemma FlatInsert(shards: seq<Table>, hash: Bytes -> nat, key: Bytes, e: Entry)
    requires Placed(shards, hash)
    ensures var i := hash(key) % |shards|;
            var shards' := shards[i := shards[i][key := e]];
            Placed(shards', hash) && Flat(shards', hash) == Flat(shards, hash)[key := e]
  {
    var i := hash(key) % |shards|;
    var shards' := shards[i := shards[i][key := e]];
    var before, after := Flat(shards, hash), Flat(shards', hash);
    forall k
      ensures k in after <==> k in before[key := e]
      ensures k in after ==> after[k] == before[key := e][k]
    {
      FlatLookup(shards, hash, k);
      FlatLookup(shards', hash, k);
    }
  }

  lemma FlatRemove(shards: seq<Table>, hash: Bytes -> nat, key: Bytes)
    requires Placed(shards, hash)
    ensures var i := hash(key) % |shards|;
            var shards' := shards[i := shards[i] - {key}];
            Placed(shards', hash) && Flat(shards', hash) == Flat(shards, hash) - {key}
  {
    var i := hash(key) % |shards|;
    var shards' := shards[i := shards[i] - {key}];
    var before, after := Flat(shards, hash), Flat(shards', hash);
    forall k
      ensures k in after <==> k in before - {key}
      ensures k in after ==> after[k] == (before - {key})[k]
    {
      FlatLookup(shards, hash, k);
      FlatLookup(shards', hash, k);
    }
  }

  /** Empty shards hold the empty table. */
  lemma FlatEmpty(shards: seq<Table>, hash: Bytes -> nat)
    requires |shards| > 0 && forall i :: 0 <= i < |shards| ==> shards[i] == map[]
    ensures Placed(shards, hash) && Flat(shards, hash) == map[]
  {
  }
}
