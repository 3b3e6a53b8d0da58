/** Routing by hash mask, the worker count and the per-shard budget. */
module Hashing {
  import opened Prelude

  /** Bitwise AND of two naturals. */
  function And(a: nat, b: nat): (r: nat)
    ensures r <= b
  {
    if a == 0 || b == 0 then 0 else 2 * And(a / 2, b / 2) + (a % 2) * (b % 2)
  }

  predicate IsPow2(n: nat) {
    n == 1 || (n > 1 && n % 2 == 0 && IsPow2(n / 2))
  }

  /** `hash & (worker_count - 1)` over an arbitrary 64-bit hash of the key. */
  function RouteShard(hash: bytes -> nat, key: bytes, workers: nat): (s: nat)
    requires workers > 0
    ensures s < workers
  {
    And(hash(key) % U64, workers - 1)
  }

  lemma {:induction false} MaskOfPow2(h: nat, n: nat)
    requires IsPow2(n)
    ensures And(h, n - 1) == h % n
  {
    if n > 1 {
      var m := n / 2;
      MaskOfPow2(h / 2, m);
      RemainderOfDouble(h, m);
      assert (n - 1) / 2 == m - 1 && (n - 1) % 2 == 1;
      assert And(h, n - 1) == 2 * And(h / 2, m - 1) + h % 2 by {
        if h == 0 {
          assert And(0, m - 1) == 0;
        }
      }
    }
  }

  lemma RemainderOfDouble(h: nat, m: nat)
    requires m > 0
    ensures h % (2 * m) == 2 * (h / 2 % m) + h % 2
  {
    var q := h / 2 / m;
    assert h / 2 == m * q + h / 2 % m;
    assert 2 * m * q == 2 * (m * q);
    DivModUnique(h, 2 * m, q, 2 * (h / 2 % m) + h % 2);
  }

  lemma DivModUnique(x: nat, d: nat, q: nat, r: nat)
    requires d > 0 && x == d * q + r && r < d
    ensures x % d == r
  {
    var e := x / d - q;
    assert x == d * (x / d) + x % d;
    assert d * (q + e) == d * q + d * e;
    if e >= 1 {
      MulGrows(d, e);
    } else if e <= -1 {
      MulGrows(d, -e);
    }
  }

  lemma MulGrows(d: nat, e: nat)
    requires e >= 1
    ensures d * e >= d
  {
    assert d * e == d + d * (e - 1);
  }

  lemma {:induction false} AndSelf(m: nat)
    ensures And(m, m) == m
  {
    if m != 0 {
      AndSelf(m / 2);
      assert (m % 2) * (m % 2) == m % 2;
    }
  }

  lemma {:induction false} AndPred(n: nat)
    requires n > 0 && !IsPow2(n)
    ensures And(n, n - 1) != 0
  {
    if n % 2 == 0 {
      AndPred(n / 2);
      assert (n - 1) / 2 == n / 2 - 1;
    } else {
      AndSelf(n / 2);
      assert (n - 1) / 2 == n / 2;
    }
  }

  /** The mask is the remainder, for every hash, exactly when the worker count is a power of two. */
  lemma MaskIsModulo(n: nat)
    requires 0 < n < U64
    ensures (forall h: nat :: h < U64 ==> And(h, n - 1) == h % n) <==> IsPow2(n)
  {
    if IsPow2(n) {
      forall h: nat | h < U64
        ensures And(h, n - 1) == h % n
      {
        MaskOfPow2(h, n);
      }
    } else {
      AndPred(n);
      assert And(n, n - 1) != n % n;
    }
  }

  /** A key goes to the shard its 64-bit hash names modulo the number of shards. */
  lemma RouteIsRemainder(hash: bytes -> nat, key: bytes, workers: nat)
    requires IsPow2(workers)
    ensures workers > 0 && RouteShard(hash, key, workers) == hash(key) % 0x1_0000_0000_0000_0000 % workers
  {
    MaskOfPow2(hash(key) % U64, workers);
  }

  /** Routing is a function of the hash alone: every shard is reached, exactly by the hashes of its own residue, so
      two keys share a shard if and only if their hashes agree modulo the number of shards. */
  lemma ShardsPartitionHashes(hash: bytes -> nat, a: bytes, b: bytes, workers: nat, s: nat)
    requires IsPow2(workers) && workers <= U64 && s < workers
    ensures hash(a) == s ==> RouteShard(hash, a, workers) == s
    ensures hash(a) < U64 && hash(b) < U64 ==>
              (RouteShard(hash, a, workers) == RouteShard(hash, b, workers) <==> hash(a) % workers == hash(b) % workers)
  {
    hide RouteShard, IsPow2;
    RouteIsRemainder(hash, a, workers);
    RouteIsRemainder(hash, b, workers);
    SmallRemainder(hash(a), U64);
    SmallRemainder(hash(b), U64);
    SmallRemainder(s, workers);
  }

  lemma SmallRemainder(x: nat, d: nat)
    requires d > 0
    ensures x < d ==> x % d == x
  {
  }

  // --- main.rs ---

  function NextPowerOfTwo(n: nat): (p: nat)
  {
    if n <= 1 then 1 else 2 * NextPowerOfTwo((n + 1) / 2)
  }

  /** The rounded worker count is the least power of two that is no smaller. */
  lemma {:induction false} NextPowerOfTwoLeast(n: nat, other: nat)
    ensures IsPow2(NextPowerOfTwo(n)) && n <= NextPowerOfTwo(n)
    ensures IsPow2(other) && n <= other ==> NextPowerOfTwo(n) <= other
  {
    if n > 1 {
      NextPowerOfTwoLeast((n + 1) / 2, other / 2);
    }
  }

  /** Bytes per shard for a total of `mb` mebibytes; 0 means unlimited. */
  function BudgetPerShard(mb: nat, workers: nat): (b: nat)
    requires workers > 0
  {
    if mb == 0 then 0 else mb * 1024 * 1024 / workers
  }

  /** The share is the largest one that can be given to every shard; without a limit it is 0, which stands for none. */
  lemma ShareIsLargest(mb: nat, workers: nat, share: nat)
    requires workers > 0
    ensures share == BudgetPerShard(mb, workers) <==> workers * share <= mb * 1048576 < workers * (share + 1)
  {
    var total := mb * 1048576;
    var q, r := total / workers, total % workers;
    assert total == workers * q + r && 0 <= r < workers;
    assert workers * (q + 1) == workers * q + workers;
    if workers * share <= total < workers * (share + 1) && share != q {
      if share < q {
        MulMono(workers, share + 1, q);
      } else {
        MulMono(workers, q + 1, share);
      }
    }
  }

  function Sum(xs: seq<nat>): (n: nat)
  {
    if xs == [] then 0 else xs[0] + Sum(xs[1..])
  }

  lemma {:induction false} SumBounds(xs: seq<nat>, low: nat, m: nat)
    requires forall i | 0 <= i < |xs| :: low <= xs[i] <= m
    ensures |xs| * low <= Sum(xs) <= |xs| * m
  {
    if xs != [] {
      SumBounds(xs[1..], low, m);
      assert |xs| * m == m + (|xs| - 1) * m && |xs| * low == low + (|xs| - 1) * low;
    }
  }

  /** The shard caches, each kept within nine tenths of its share, together stay within MAX_MEMORY_MB.
      The share is 0, and a shard then unlimited, exactly when there are more workers than bytes. */
  lemma CachesWithinTotal(mb: nat, caches: seq<nat>)
    requires mb > 0 && |caches| > 0
    requires BudgetPerShard(mb, |caches|) != 0 ==>
               forall i | 0 <= i < |caches| :: caches[i] <= BudgetPerShard(mb, |caches|) / 10 * 9
    ensures BudgetPerShard(mb, |caches|) == 0 <==> mb * 1024 * 1024 < |caches|
    ensures mb * 1024 * 1024 >= |caches| ==> Sum(caches) <= mb * 1024 * 1024
  {
    var n, total := |caches|, mb * 1024 * 1024;
    var b := BudgetPerShard(mb, n);
    ShareBounds(total, n);
    if b != 0 {
      SumBounds(caches, 0, b / 10 * 9);
      MulMono(n, b / 10 * 9, b);
    }
  }

  lemma ShareBounds(total: nat, n: nat)
    requires n > 0
    ensures n * (total / n) <= total
    ensures total / n == 0 <==> total < n
  {
    var q, r := total / n, total % n;
    assert total == n * q + r && 0 <= r < n;
    if q >= 1 {
      MulGrows(n, q);
    } else {
      assert n * q == 0;
    }
  }

  lemma MulMono(n: nat, a: nat, b: nat)
    requires a <= b
    ensures n * a <= n * b
  {
    assert n * b == n * a + n * (b - a);
  }
}
