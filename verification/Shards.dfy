/**
 The shard records of the catalog: stored under the composite key `table:shard`, found again by
 a range of keys, listed by bucket.
 */
module Shards {
  import opened Arrangement
  import opened Decimals
  import opened Placement

  // ----- keys

  /** The order of stored keys. */
  predicate Less(a: string, b: string) {
    b != "" && (a == "" || a[0] < b[0] || (a[0] == b[0] && Less(a[1..], b[1..])))
  }

  function Key(table: string, shardId: string): string {
    table + ":" + shardId
  }

  /** The half-open range a table's shards are looked for in. */
  predicate InRange(table: string, key: string) {
    !Less(key, table + ":") && Less(key, table + ";\0")
  }

  lemma BareRange(key: string)
    ensures !Less(key, ":") && Less(key, ";\0") <==> ":" <= key || key == ";"
  {
    assert ":"[1..] == "" && ";\0"[1..] == "\0" && "\0"[1..] == "";
    if key != "" {
      assert key == [key[0]] + key[1..];
      assert Less(key[1..], "\0") <==> key[1..] == "";
    }
  }

  /** The range holds the keys with the table's prefix, and one key more: the name and a semicolon. */
  lemma {:induction false} RangeIsPrefix(table: string, key: string)
    ensures InRange(table, key) <==> table + ":" <= key || key == table + ";"
  {
    if table == "" {
      assert table + ":" == ":" && table + ";\0" == ";\0" && table + ";" == ";";
      BareRange(key);
    } else if key != "" && key[0] == table[0] {
      RangeIsPrefix(table[1..], key[1..]);
      assert (table + ":")[1..] == table[1..] + ":";
      assert (table + ";\0")[1..] == table[1..] + ";\0";
      assert key == [key[0]] + key[1..] && table == [table[0]] + table[1..];
    }
  }

  /** A shard id that cannot be mistaken for part of a table name. */
  predicate PlainId(id: string) {
    id != "" && ':' !in id && id[|id| - 1] != ';'
  }

  lemma ShardIdPlain(i: nat)
    ensures PlainId(ShardId(i))
  {
    var d := Decimal(i);
    assert ShardId(i)[|ShardId(i)| - 1] == d[|d| - 1];
    forall j | 0 <= j < |ShardId(i)|
      ensures ShardId(i)[j] != ':'
    {
      assert j >= 5 ==> ShardId(i)[j] == d[j - 5];
    }
  }

  /** A table's range takes in its own shards, and those of every table named `table:...`. */
  lemma KeyInRange(table: string, owner: string, shardId: string)
    requires PlainId(shardId)
    ensures InRange(table, Key(owner, shardId)) <==> owner == table || table + ":" <= owner
  {
    var key := Key(owner, shardId);
    RangeIsPrefix(table, key);
    assert key[|key| - 1] == shardId[|shardId| - 1];
    assert key != table + ";";
    if |table| < |owner| {
      assert key[..|table| + 1] == owner[..|table| + 1];
    } else if |table| == |owner| {
      assert key[..|table| + 1] == owner + ":";
      assert (owner + ":")[..|owner|] == owner && (table + ":")[..|table|] == table;
    } else {
      assert forall j :: 0 <= j < |shardId| ==> key[|owner| + 1 + j] == shardId[j] && shardId[j] != ':';
      NotAPrefix(table, owner, shardId);
    }
  }

  lemma NotAPrefix(table: string, owner: string, shardId: string)
    requires ':' !in shardId && |owner| < |table|
    ensures !(table + ":" <= Key(owner, shardId))
  {
    var key := Key(owner, shardId);
    if |table| < |key| {
      assert key[|table|] == shardId[|table| - |owner| - 1];
      assert (table + ":")[|table|] == ':';
    }
  }

  /** Between names without a colon, a range takes in one table's shards and no other's. */
  lemma ColonFreeTablesApart(table: string, owner: string, shardId: string)
    requires PlainId(shardId) && ':' !in owner
    ensures InRange(table, Key(owner, shardId)) <==> owner == table
  {
    KeyInRange(table, owner, shardId);
    assert (table + ":")[|table|] == ':';
  }

  lemma ShardIdsDiffer(i: nat, j: nat)
    requires i != j
    ensures ShardId(i) != ShardId(j)
  {
    NumberOfDecimal(i);
    NumberOfDecimal(j);
    assert ShardId(i)[5..] == Decimal(i) && ShardId(j)[5..] == Decimal(j);
  }

  // ----- listing

  ghost predicate ByBucket(s: seq<ShardMeta>) {
    forall i, j :: 0 <= i < j < |s| ==> s[i].bucket <= s[j].bucket
  }

  predicate Sooner(a: ShardMeta, b: ShardMeta) {
    a.bucket < b.bucket
  }

  /** One record more, in its place by bucket. */
  lemma ListedByBucket(s: seq<ShardMeta>, x: ShardMeta)
    requires ByBucket(s)
    ensures ByBucket(Inserted(Sooner, s, x)) && multiset(Inserted(Sooner, s, x)) == multiset(s) + multiset{x}
  {
    InsertedElements(Sooner, s, x);
    InsertedInOrder(Sooner, s, x);
    var r := Inserted(Sooner, s, x);
    forall i, j | 0 <= i < j < |r|
      ensures r[i].bucket <= r[j].bucket
    {
      assert !Sooner(r[j], r[i]);
    }
  }

  /** In order of bucket with bucket `i` at place `i`, a listing has one arrangement. */
  lemma {:induction false} OneListing(s: seq<ShardMeta>, t: seq<ShardMeta>)
    requires multiset(s) == multiset(t) && ByBucket(s)
    requires forall i :: 0 <= i < |t| ==> t[i].bucket == i
    ensures s == t
    decreases |s|
  {
    SameLength(s, t);
    if s == [] {
    } else {
      var n := |s| - 1;
      LastOfListing(s, t);
      WithoutShared(s, n, t, n);
      assert Without(s, n) == s[..n] && Without(t, n) == t[..n];
      OneListing(s[..n], t[..n]);
      assert s == s[..n] + [s[n]] && t == t[..n] + [t[n]];
    }
  }

  lemma LastOfListing(s: seq<ShardMeta>, t: seq<ShardMeta>)
    requires multiset(s) == multiset(t) && ByBucket(s) && |s| == |t| && s != []
    requires forall i :: 0 <= i < |t| ==> t[i].bucket == i
    ensures s[|s| - 1] == t[|t| - 1]
  {
    SameMembers(s, t);
    var n := |s| - 1;
    assert t[n] in s && s[n] in t;
    var k :| 0 <= k < |s| && s[k] == t[n];
    var j :| 0 <= j < |t| && t[j] == s[n];
    assert k < n ==> s[k].bucket <= s[n].bucket;
  }

  // ----- the store

  type Records = map<string, ShardMeta>

  function Put(shards: Records, meta: ShardMeta): Records {
    shards[Key(meta.tableName, meta.shardId) := meta]
  }

  function PutAll(shards: Records, metas: seq<ShardMeta>): Records {
    if metas == [] then shards else Put(PutAll(shards, metas[..|metas| - 1]), metas[|metas| - 1])
  }

  /** What a scan of the table's range meets: its keys, each once. */
  ghost predicate IsScan(shards: Records, table: string, scan: seq<string>) {
    Distinct(scan) && forall k :: k in scan <==> k in shards && InRange(table, k)
  }

  function Read(shards: Records, scan: seq<string>): seq<ShardMeta>
    requires forall k :: k in scan ==> k in shards
  {
    seq(|scan|, i requires 0 <= i < |scan| => shards[scan[i]])
  }

  class ShardStore {
    var shards: Records

    constructor ()
      ensures shards == map[]
    {
      shards := map[];
    }

    /** The record is found under its key from now on, and every other key as before. */
    method PutShard(meta: ShardMeta)
      modifies this
      ensures var key := Key(meta.tableName, meta.shardId);
              && key in shards && shards[key] == meta
              && forall k :: k != key ==>
                   (k in shards <==> k in old(shards)) && (k in shards ==> shards[k] == old(shards)[k])
    {
      shards := shards[Key(meta.tableName, meta.shardId) := meta];
    }

    /** Store the shards of a table one after the other. */
    method StoreShards(metas: seq<ShardMeta>)
      modifies this
      ensures shards == PutAll(old(shards), metas)
    {
      for i := 0 to |metas|
        invariant shards == PutAll(old(shards), metas[..i])
      {
        assert metas[..i + 1][..i] == metas[..i];
        ghost var before := shards;
        PutShard(metas[i]);
        assert shards == Put(before, metas[i]);
      }
      assert metas[..|metas|] == metas;
    }

    /** Remove the range; every key outside it keeps its record. */
    method DeleteShardsForTable(table: string)
      modifies this
      ensures forall k :: k in shards <==> k in old(shards) && !InRange(table, k)
      ensures forall k :: k in shards ==> shards[k] == old(shards)[k]
    {
      shards := map k | k in shards && !InRange(table, k) :: shards[k];
    }

    /** The records of the range in order of bucket. */
    method ShardsForTable(table: string, scan: seq<string>) returns (r: seq<ShardMeta>)
      requires IsScan(shards, table, scan)
      ensures ByBucket(r) && multiset(r) == multiset(Read(shards, scan))
    {
      var found := Read(shards, scan);
      r := [];
      for i := 0 to |found|
        invariant ByBucket(r) && multiset(r) == multiset(found[..i])
      {
        assert found[..i + 1] == found[..i] + [found[i]];
        ListedByBucket(r, found[i]);
        r := Inserted(Sooner, r, found[i]);
      }
      assert found[..|found|] == found;
    }
  }

  // ----- storing and listing

  function PlacedKeys(table: string, count: nat): seq<string> {
    seq(count, i requires 0 <= i => Key(table, ShardId(i)))
  }

  lemma PlacedKeysDistinct(table: string, count: nat)
    ensures Distinct(PlacedKeys(table, count))
  {
    var keys := PlacedKeys(table, count);
    forall i, j | 0 <= i < j < count
      ensures keys[i] != keys[j]
    {
      ShardIdsDiffer(i, j);
      assert keys[i][|table| + 1..] == ShardId(i) && keys[j][|table| + 1..] == ShardId(j);
    }
  }

  /** `after` is `before` with each record under its key, and every other key as it was. */
  ghost predicate StoredAs(before: Records, after: Records, keys: seq<string>, metas: seq<ShardMeta>) {
    && |keys| == |metas|
    && (forall i :: 0 <= i < |keys| ==> keys[i] in after && after[keys[i]] == metas[i])
    && (forall k :: k in after <==> k in before || k in keys)
    && (forall k :: k in before && k !in keys ==> after[k] == before[k])
  }

  lemma StoreOne(before: Records, after: Records, keys: seq<string>, metas: seq<ShardMeta>, key: string, meta: ShardMeta)
    requires StoredAs(before, after, keys, metas) && key !in keys
    ensures StoredAs(before, after[key := meta], keys + [key], metas + [meta])
  {
    var after', keys' := after[key := meta], keys + [key];
    forall k
      ensures k in after' <==> k in before || k in keys'
      ensures k in before && k !in keys' ==> after'[k] == before[k]
    {
      assert k in keys' <==> k in keys || k == key;
    }
  }

  /** One bucket more: one record and one key more, the key a new one. */
  lemma OneMoreBucket(before: Records, alive: seq<string>, table: string, n: nat, replication: nat)
    requires alive != []
    ensures Placed(alive, table, n + 1, replication)
            == Placed(alive, table, n, replication) + [Shard(alive, table, replication, n)]
    ensures PlacedKeys(table, n + 1) == PlacedKeys(table, n) + [Key(table, ShardId(n))]
    ensures Key(table, ShardId(n)) !in PlacedKeys(table, n)
    ensures PutAll(before, Placed(alive, table, n + 1, replication))
            == Put(PutAll(before, Placed(alive, table, n, replication)), Shard(alive, table, replication, n))
  {
    var metas, keys := Placed(alive, table, n + 1, replication), PlacedKeys(table, n + 1);
    assert metas[..n] == Placed(alive, table, n, replication);
    PlacedKeysDistinct(table, n + 1);
    forall i | 0 <= i < n
      ensures PlacedKeys(table, n)[i] != Key(table, ShardId(n))
    {
      assert keys[i] != keys[n];
    }
  }

  /** Storing a table's shards writes bucket `i` under its own key and nothing else. */
  lemma {:induction false} StoredUnderKeys(before: Records, alive: seq<string>, table: string, count: nat, replication: nat)
    requires alive != []
    ensures var metas := Placed(alive, table, count, replication);
            StoredAs(before, PutAll(before, metas), PlacedKeys(table, count), metas)
  {
    if count == 0 {
    } else {
      var n := count - 1;
      var metas := Placed(alive, table, n, replication);
      StoredUnderKeys(before, alive, table, n, replication);
      OneMoreBucket(before, alive, table, n, replication);
      StoreOne(before, PutAll(before, metas), PlacedKeys(table, n), metas,
               Key(table, ShardId(n)), Shard(alive, table, replication, n));
    }
  }

  /** After storing a table whose range was empty, a scan meets exactly its keys. */
  lemma ScanMeetsPlaced(before: Records, alive: seq<string>, table: string, count: nat, replication: nat, scan: seq<string>)
    requires alive != [] && forall k :: k in before ==> !InRange(table, k)
    requires IsScan(PutAll(before, Placed(alive, table, count, replication)), table, scan)
    ensures multiset(scan) == multiset(PlacedKeys(table, count))
  {
    StoredUnderKeys(before, alive, table, count, replication);
    PlacedKeysDistinct(table, count);
    var keys := PlacedKeys(table, count);
    forall k
      ensures k in scan <==> k in keys
    {
      if k in keys {
        var i :| 0 <= i < count && keys[i] == k;
        ShardIdPlain(i);
        KeyInRange(table, table, ShardId(i));
      }
    }
    DistinctRearranged(scan, keys);
  }

  /** Reading the keys in any order gives the records in that order. */
  lemma PlacedRead(after: Records, scan: seq<string>, keys: seq<string>, metas: seq<ShardMeta>)
    requires multiset(scan) == multiset(keys) && |keys| == |metas|
    requires forall i :: 0 <= i < |keys| ==> keys[i] in after && after[keys[i]] == metas[i]
    requires forall k :: k in scan ==> k in after
    ensures multiset(Read(after, scan)) == multiset(metas)
  {
    if keys == [] {
      SameLength(scan, keys);
    } else {
      var read := (k: string) => if k in after then after[k] else metas[0];
      assert Mapped(read, scan) == Read(after, scan);
      assert Mapped(read, keys) == metas;
      MappedRearranged(read, scan, keys);
    }
  }

  /** Storing a table's shards and listing them gives bucket `i` at place `i`, whatever else is stored. */
  lemma ListingGivesBuckets(before: Records, alive: seq<string>, table: string, count: nat, replication: nat,
                            scan: seq<string>, listing: seq<ShardMeta>)
    requires alive != [] && forall k :: k in before ==> !InRange(table, k)
    requires IsScan(PutAll(before, Placed(alive, table, count, replication)), table, scan)
    requires ByBucket(listing)
    requires multiset(listing) == multiset(Read(PutAll(before, Placed(alive, table, count, replication)), scan))
    ensures listing == Placed(alive, table, count, replication)
  {
    var shards := Placed(alive, table, count, replication);
    var after := PutAll(before, shards);
    var keys := PlacedKeys(table, count);
    ScanMeetsPlaced(before, alive, table, count, replication, scan);
    StoredUnderKeys(before, alive, table, count, replication);
    PlacedRead(after, scan, keys, shards);
    OneListing(listing, shards);
  }
}
