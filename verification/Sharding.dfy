/** Splitting a run over shards by key. */
module Sharding {
  import opened Prelude
  import opened Hashing
  import opened TtlMap

  /** The operations routed to shard `s`, in arrival order. */
  function ByShard(hash: bytes -> nat, n: nat, items: seq<Item>, s: nat): (r: seq<Item>)
    requires n > 0
    decreases |items|
  {
    if items == [] then []
    else (if RouteShard(hash, items[0].op.key, n) == s then [items[0]] else []) + ByShard(hash, n, items[1..], s)
  }

  lemma {:induction false} ByShardAppend(hash: bytes -> nat, n: nat, a: seq<Item>, b: seq<Item>, s: nat)
    requires n > 0
    ensures ByShard(hash, n, a + b, s) == ByShard(hash, n, a, s) + ByShard(hash, n, b, s)
    decreases |a|
  {
    if a == [] {
      assert a + b == b;
    } else {
      assert (a + b)[0] == a[0] && (a + b)[1..] == a[1..] + b;
      ByShardAppend(hash, n, a[1..], b, s);
      var first := if RouteShard(hash, a[0].op.key, n) == s then [a[0]] else [];
      Assoc(first, ByShard(hash, n, a[1..], s), ByShard(hash, n, b, s));
    }
  }

  /** A key's operations are all in its own shard's share, in the same order. */
  lemma {:induction false} OnlyByShard(hash: bytes -> nat, n: nat, items: seq<Item>, k: bytes, s: nat)
    requires n > 0
    ensures Only(ByShard(hash, n, items, s), k) == if s == RouteShard(hash, k, n) then Only(items, k) else []
    decreases |items|
  {
    if items != [] {
      var x, rest := items[0], ByShard(hash, n, items[1..], s);
      OnlyByShard(hash, n, items[1..], k, s);
      if RouteShard(hash, x.op.key, n) == s {
        OnlyCons(x, rest, k);
      } else {
        assert [] + rest == rest;
      }
      assert x.op.key != k ==> [] + Only(items[1..], k) == Only(items[1..], k);
    }
  }

  /** Every key is kept by its own shard only, and together the shards hold `m`. */
  ghost predicate Partitions(hash: bytes -> nat, shards: seq<Keyspace>, m: Keyspace)
    requires |shards| > 0
  {
    forall k: bytes, s: nat | s < |shards| ::
      At(shards[s], k) == if s == RouteShard(hash, k, |shards|) then At(m, k) else None
  }

  /** Each shard after applying its share. */
  function RunShards(hash: bytes -> nat, shards: seq<Keyspace>, items: seq<Item>): (r: seq<Keyspace>)
    requires |shards| > 0
    ensures |r| == |shards|
  {
    seq(|shards|, s requires 0 <= s < |shards| => Run(shards[s], ByShard(hash, |shards|, items, s)).0)
  }

  function ShardReplies(hash: bytes -> nat, shards: seq<Keyspace>, items: seq<Item>, s: nat): (r: seq<Verdict>)
    requires s < |shards|
  {
    Run(shards[s], ByShard(hash, |shards|, items, s)).1
  }

  /** Bucketing by shard preserves meaning: however the shards interleave, they end up
      holding together what one unsharded map would hold after the arrival-order run. */
  lemma ShardingPreservesRun(hash: bytes -> nat, shards: seq<Keyspace>, m: Keyspace, items: seq<Item>)
    requires |shards| > 0 && Partitions(hash, shards, m)
    ensures Partitions(hash, RunShards(hash, shards, items), Run(m, items).0)
  {
    hide Run, RouteShard, RunShards;
    var shards', m' := RunShards(hash, shards, items), Run(m, items).0;
    forall k: bytes, s: nat | s < |shards|
      ensures At(shards'[s], k) == if s == RouteShard(hash, k, |shards|) then At(m', k) else None
    {
      ShardOfKey(hash, shards, m, items, k, s);
    }
  }

  /** The replies to each key's operations, in order, are those of the arrival-order run. */
  lemma ShardingPreservesReplies(hash: bytes -> nat, shards: seq<Keyspace>, m: Keyspace, items: seq<Item>, k: bytes)
    requires |shards| > 0 && Partitions(hash, shards, m)
    ensures var s := RouteShard(hash, k, |shards|);
            Pick(ByShard(hash, |shards|, items, s), ShardReplies(hash, shards, items, s), k) == Pick(items, Run(m, items).1, k)
  {
    ShardOfKey(hash, shards, m, items, k, RouteShard(hash, k, |shards|));
  }

  lemma ShardOfKey(hash: bytes -> nat, shards: seq<Keyspace>, m: Keyspace, items: seq<Item>, k: bytes, s: nat)
    requires s < |shards| && Partitions(hash, shards, m)
    ensures var n := |shards|; var own := s == RouteShard(hash, k, n);
            && At(RunShards(hash, shards, items)[s], k) == (if own then At(Run(m, items).0, k) else None)
            && (own ==> Pick(ByShard(hash, n, items, s), ShardReplies(hash, shards, items, s), k) == Pick(items, Run(m, items).1, k))
  {
    OnlyByShard(hash, |shards|, items, k, s);
    RunOfKey(shards[s], ByShard(hash, |shards|, items, s), k);
    RunOfKey(m, items, k);
    assert At(shards[s], k) == if s == RouteShard(hash, k, |shards|) then At(m, k) else None;
  }

  /** Reply for reply: a tagged reply comes out of some shard exactly when the arrival-order run gives it. */
  lemma SameReplies(hash: bytes -> nat, shards: seq<Keyspace>, m: Keyspace, items: seq<Item>, r: Verdict)
    requires |shards| > 0 && Partitions(hash, shards, m)
    ensures r in Run(m, items).1 <==> exists s: nat :: s < |shards| && r in ShardReplies(hash, shards, items, s)
  {
    var n := |shards|;
    var all := Run(m, items).1;
    if r in all {
      var i :| 0 <= i < |all| && all[i] == r;
      var k := items[i].op.key;
      var s := RouteShard(hash, k, n);
      ShardingPreservesReplies(hash, shards, m, items, k);
      PickedIsReply(items, all, k, r);
      PickedIsReply(ByShard(hash, n, items, s), ShardReplies(hash, shards, items, s), k, r);
      assert r in ShardReplies(hash, shards, items, s);
    }
    if s: nat :| s < n && r in ShardReplies(hash, shards, items, s) {
      var share, rs := ByShard(hash, n, items, s), ShardReplies(hash, shards, items, s);
      var i :| 0 <= i < |rs| && rs[i] == r;
      var k := share[i].op.key;
      SharesRouted(hash, n, items, s);
      ShardingPreservesReplies(hash, shards, m, items, k);
      PickedIsReply(share, rs, k, r);
      PickedIsReply(items, all, k, r);
    }
  }

  lemma {:induction false} SharesRouted(hash: bytes -> nat, n: nat, items: seq<Item>, s: nat)
    requires n > 0
    ensures forall x | x in ByShard(hash, n, items, s) :: RouteShard(hash, x.op.key, n) == s && x in items
    decreases |items|
  {
    if items != [] {
      SharesRouted(hash, n, items[1..], s);
    }
  }
}
