/**
 Round-robin placement: bucket `i` of a table goes to alive node `i mod n`, its replicas to the
 nodes that follow.
 */
module Placement {
  import opened Arrangement
  import opened Numeric
  import opened Decimals

  datatype ShardMeta = ShardMeta(
    shardId: string, tableName: string, primary: string, replicas: seq<string>, bucket: nat)

  function ShardId(index: nat): string {
    "shard" + Decimal(index)
  }

  /** The replicas met by the first `walk - 1` steps from the primary, the primary itself skipped. */
  function Replicas(alive: seq<string>, primary: nat, walk: nat): seq<string>
    requires primary < |alive|
  {
    if walk <= 1 then []
    else
      var index := (primary + (walk - 1)) % |alive|;
      Replicas(alive, primary, walk - 1) + if index != primary then [alive[index]] else []
  }

  function Shard(alive: seq<string>, table: string, replication: nat, i: nat): ShardMeta
    requires alive != []
  {
    ShardMeta(ShardId(i), table, alive[i % |alive|], Replicas(alive, i % |alive|, replication), i)
  }

  function Placed(alive: seq<string>, table: string, count: nat, replication: nat): seq<ShardMeta>
    requires alive != []
  {
    seq(count, i requires 0 <= i => Shard(alive, table, replication, i))
  }

  /** Build the shards of a table; with no node alive there is nowhere to put one. */
  method AssignShardsRoundRobin(alive: seq<string>, table: string, count: nat, replication: nat)
    returns (r: Option<seq<ShardMeta>>)
    ensures r == if alive == [] then None else Some(Placed(alive, table, count, replication))
  {
    if alive == [] {
      return None;
    }
    var n := |alive|;
    var shards: seq<ShardMeta> := [];
    for i := 0 to count
      invariant shards == Placed(alive, table, i, replication)
    {
      var primary := i % n;
      var replicas: seq<string> := [];
      var walk := 1;
      while walk < replication
        invariant 1 <= walk && (walk == 1 || walk <= replication)
        invariant replicas == Replicas(alive, primary, walk)
      {
        var index := (primary + walk) % n;
        if index != primary {
          replicas := replicas + [alive[index]];
        }
        walk := walk + 1;
      }
      shards := shards + [ShardMeta(ShardId(i), table, alive[primary], replicas, i)];
    }
    r := Some(shards);
  }

  // ----- balance

  /** How many of the first `count` buckets have node `k` of `n` as their primary. */
  function Load(n: nat, k: nat, count: nat): nat
    requires n > 0
  {
    if count == 0 then 0 else Load(n, k, count - 1) + if (count - 1) % n == k then 1 else 0
  }

  /** A node's load is the even share, plus one for the nodes the last lap reached. */
  lemma {:induction false} LoadIsEvenShare(n: nat, k: nat, count: nat)
    requires k < n
    ensures Load(n, k, count) == count / n + if k < count % n then 1 else 0
  {
    if count == 0 {
      assert 0 / n == 0 && 0 % n == 0;
    } else {
      LoadIsEvenShare(n, k, count - 1);
      NextQuotient(count - 1, n);
    }
  }

  function Primaries(shards: seq<ShardMeta>, node: string): nat {
    if shards == [] then 0
    else Primaries(shards[..|shards| - 1], node) + if shards[|shards| - 1].primary == node then 1 else 0
  }

  lemma {:induction false} PrimariesAreLoad(alive: seq<string>, table: string, count: nat, replication: nat, k: nat)
    requires Distinct(alive) && k < |alive|
    ensures Primaries(Placed(alive, table, count, replication), alive[k]) == Load(|alive|, k, count)
  {
    if count == 0 {
    } else {
      PrimariesAreLoad(alive, table, count - 1, replication, k);
      var shards := Placed(alive, table, count, replication);
      assert shards[..count - 1] == Placed(alive, table, count - 1, replication);
      var i := (count - 1) % |alive|;
      assert alive[i] == alive[k] <==> i == k;
    }
  }

  /** The primaries of any two alive nodes differ by at most one. */
  lemma PrimariesBalanced(alive: seq<string>, table: string, count: nat, replication: nat, j: nat, k: nat)
    requires Distinct(alive) && j < |alive| && k < |alive|
    ensures var shards := Placed(alive, table, count, replication);
            Primaries(shards, alive[j]) <= Primaries(shards, alive[k]) + 1
  {
    PrimariesAreLoad(alive, table, count, replication, j);
    PrimariesAreLoad(alive, table, count, replication, k);
    LoadIsEvenShare(|alive|, j, count);
    LoadIsEvenShare(|alive|, k, count);
  }

  // ----- replicas

  /** Walking on from a node of a ring. */
  lemma AroundTheRing(p: nat, r: nat, n: nat)
    requires p < n && r <= n
    ensures (p + r) % n == if p + r < n then p + r else p + r - n
  {
    if p + r < n {
      DivModUnique(p + r, n, 0, p + r);
    } else {
      DivModUnique(p + r, n, 1, p + r - n);
    }
  }

  /** No shard is a replica of itself. */
  lemma {:induction false} NoReplicaOnPrimary(alive: seq<string>, p: nat, walk: nat)
    requires Distinct(alive) && p < |alive|
    ensures alive[p] !in Replicas(alive, p, walk)
  {
    if walk <= 1 {
    } else {
      NoReplicaOnPrimary(alive, p, walk - 1);
      var index := (p + (walk - 1)) % |alive|;
      assert index != p ==> alive[index] != alive[p];
    }
  }

  /** How many replicas a walk places: every step but the ones that land on the primary. */
  lemma {:induction false} ReplicaCount(alive: seq<string>, p: nat, walk: nat)
    requires p < |alive|
    ensures |Replicas(alive, p, walk)| == if walk == 0 then 0 else walk - 1 - (walk - 1) / |alive|
  {
    var n := |alive|;
    if walk <= 1 {
      assert 0 / n == 0;
    } else {
      ReplicaCount(alive, p, walk - 1);
      NextQuotient(walk - 2, n);
      LandsOnPrimary(p, walk - 1, n);
    }
  }

  /** A walk is back where it started exactly at the multiples of the node count. */
  lemma LandsOnPrimary(p: nat, r: nat, n: nat)
    requires p < n
    ensures (p + r) % n == p <==> r % n == 0
  {
    DivMod(r, n);
    var q, m := r / n, r % n;
    AroundTheRing(p, m, n);
    if p + m < n {
      DivModUnique(p + r, n, q, p + m);
    } else {
      assert p + r == (q + 1) * n + (p + m - n);
      DivModUnique(p + r, n, q + 1, p + m - n);
    }
  }

  /** Within one lap the replicas are the following nodes, in order. */
  lemma {:induction false} FirstLap(alive: seq<string>, p: nat, walk: nat)
    requires p < |alive| && 1 <= walk <= |alive|
    ensures |Replicas(alive, p, walk)| == walk - 1
    ensures forall j :: 0 <= j < walk - 1 ==> Replicas(alive, p, walk)[j] == alive[(p + (j + 1)) % |alive|]
  {
    if walk <= 1 {
    } else {
      FirstLap(alive, p, walk - 1);
      AroundTheRing(p, walk - 1, |alive|);
    }
  }

  lemma FirstLapDistinct(alive: seq<string>, p: nat, walk: nat)
    requires Distinct(alive) && p < |alive| && 1 <= walk <= |alive|
    ensures Distinct(Replicas(alive, p, walk))
  {
    var s, n := Replicas(alive, p, walk), |alive|;
    FirstLap(alive, p, walk);
    forall i, j | 0 <= i < j < |s|
      ensures s[i] != s[j]
    {
      AroundTheRing(p, i + 1, n);
      AroundTheRing(p, j + 1, n);
      assert s[i] == alive[(p + (i + 1)) % n] && s[j] == alive[(p + (j + 1)) % n];
    }
  }

  lemma NextReplica(alive: seq<string>, p: nat, walk: nat, index: nat)
    requires p < |alive| && 1 <= walk && index == (p + walk) % |alive|
    ensures Replicas(alive, p, walk + 1) == Replicas(alive, p, walk) + if index != p then [alive[index]] else []
  {
    assert walk + 1 - 1 == walk;
  }

  /** Longer walks only add replicas. */
  lemma {:induction false} LongerWalk(alive: seq<string>, p: nat, walk: nat, longer: nat)
    requires p < |alive| && walk <= longer
    ensures Replicas(alive, p, walk) <= Replicas(alive, p, longer)
  {
    if walk < longer {
      LongerWalk(alive, p, walk, longer - 1);
    }
  }

  /** The last step of a full lap lands on the primary and the one after repeats the first replica. */
  lemma SecondLap(alive: seq<string>, p: nat)
    requires p < |alive| && |alive| > 1
    ensures Replicas(alive, p, |alive| + 1) == Replicas(alive, p, |alive|)
    ensures !Distinct(Replicas(alive, p, |alive| + 2))
  {
    var n := |alive|;
    AroundTheRing(p, n, n);
    NextReplica(alive, p, n, p);
    AroundTheRing(p, 1, n);
    SameStep(p, n);
    var index := (p + 1) % n;
    NextReplica(alive, p, n + 1, index);
    FirstLap(alive, p, n);
    var lap, s := Replicas(alive, p, n), Replicas(alive, p, n + 2);
    assert s == lap + [alive[index]];
    assert lap[0] == alive[(p + (0 + 1)) % n];
    assert s[0] == s[|s| - 1];
  }

  lemma SameStep(p: nat, n: nat)
    requires p < n && n > 1
    ensures (p + (n + 1)) % n == (p + 1) % n
    ensures (n + 1) % n == 1
  {
    AroundTheRing(p, 1, n);
    var m := (p + 1) % n;
    DivModUnique(n + 1, n, 1, 1);
    if p + 1 < n {
      DivModUnique(p + (n + 1), n, 1, m);
    } else {
      DivModUnique(p + (n + 1), n, 2, m);
    }
  }

  /** The replicas are pairwise distinct exactly when the walk stops within one lap. */
  lemma ReplicasDistinct(alive: seq<string>, p: nat, walk: nat)
    requires Distinct(alive) && p < |alive|
    ensures Distinct(Replicas(alive, p, walk)) <==> walk <= |alive| + 1 || |alive| == 1
  {
    var n := |alive|;
    if n == 1 {
      ReplicaCount(alive, p, walk);
      assert (walk - 1) / 1 == walk - 1;
    } else if walk <= n {
      FirstLapDistinct(alive, p, if walk == 0 then 1 else walk);
    } else {
      SecondLap(alive, p);
      FirstLapDistinct(alive, p, n);
      if walk > n + 1 {
        LongerWalk(alive, p, n + 2, walk);
        var s, t := Replicas(alive, p, n + 2), Replicas(alive, p, walk);
        var i, j :| 0 <= i < j < |s| && s[i] == s[j];
        assert t[i] == t[j];
      }
    }
  }

  /** Within one lap a shard has as many copies as asked for, or as there are nodes. */
  lemma CopiesWithinLap(alive: seq<string>, p: nat, replication: nat)
    requires p < |alive| && 1 <= replication <= |alive| + 1
    ensures |Replicas(alive, p, replication)| + 1 == if replication <= |alive| then replication else |alive|
  {
    var n := |alive|;
    ReplicaCount(alive, p, replication);
    if replication <= n {
      DivModUnique(replication - 1, n, 0, replication - 1);
    } else {
      DivModUnique(replication - 1, n, 1, 0);
    }
  }

  /**
   The shards as they are placed: bucket `i` on node `i mod n`, its replicas the nodes that
   follow that one, none of them that one, pairwise distinct exactly within one lap.
   */
  lemma PlacedShard(alive: seq<string>, table: string, count: nat, replication: nat, i: nat)
    requires alive != [] && Distinct(alive) && i < count
    ensures var shards, n := Placed(alive, table, count, replication), |alive|;
            && |shards| == count && shards[i].bucket == i && shards[i].tableName == table
            && shards[i].shardId[..5] == "shard" && AllDigits(shards[i].shardId[5..]) && Number(shards[i].shardId[5..]) == i
            && shards[i].primary == alive[i % n]
            && shards[i].primary !in shards[i].replicas
            && (Distinct(shards[i].replicas) <==> replication <= n + 1 || n == 1)
            && (1 <= replication <= n + 1 ==> |shards[i].replicas| + 1 == if replication <= n then replication else n)
            && (1 <= replication <= n ==>
                  forall j :: 0 <= j < replication - 1 ==> shards[i].replicas[j] == alive[(i % n + (j + 1)) % n])
  {
    var p := i % |alive|;
    NumberOfDecimal(i);
    assert ShardId(i)[..5] == "shard" && ShardId(i)[5..] == Decimal(i);
    NoReplicaOnPrimary(alive, p, replication);
    ReplicasDistinct(alive, p, replication);
    if 1 <= replication <= |alive| + 1 {
      CopiesWithinLap(alive, p, replication);
    }
    if 1 <= replication <= |alive| {
      FirstLap(alive, p, replication);
    }
  }
}
