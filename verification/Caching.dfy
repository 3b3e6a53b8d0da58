/** What the cache of a shard holds after whole runs, in keys and in bytes. */
module Caching {
  import opened Prelude
  import opened Hashing
  import opened Expiry
  import opened Lru
  import opened TtlMap
  import opened Wire
  import opened Shards

  /** The cache is a prefix of the touched keys, all of them held, and has the stored values. */
  predicate Backed(s: Shard) {
    && Distinct(s.recency) && Keys(s.cache) <= s.recency
    && (forall k | k in s.recency :: k in s.m)
    && (forall h | h in s.cache :: h.key in s.m && h.value == s.m[h.key].value)
  }

  /** In bytes, the cache keeps within nine tenths of the budget, if there is one. */
  predicate Within(budget: nat, s: Shard) {
    budget != 0 ==> Footprint(s.cache) <= budget / 10 * 9
  }

  /** Nothing that was touched and is still held is missing from the cache. */
  predicate Whole(s: Shard) {
    Keys(s.cache) == s.recency
  }

  // --- One operation ---

  /** A value put in front, whether written or read back, then eviction. */
  lemma PutBacked(budget: nat, s: Shard, s': Shard, k: bytes, v: bytes)
    requires Backed(s) && k in s'.m && s'.m[k].value == v
    requires forall x | x in s.m && x != k :: x in s'.m && s'.m[x] == s.m[x]
    requires s'.cache == Trim(budget, Put(s.cache, k, v)) && s'.recency == Touch(s.recency, k)
    ensures Backed(s') && Within(budget, s')
    ensures Whole(s) && (budget == 0 || Footprint(Put(s.cache, k, v)) < budget / 10 * 9) ==> Whole(s')
  {
    hide Keys, Without, Drop, Footprint, Weight;
    TrimFits(budget, Put(s.cache, k, v));
    PutOrder(s.cache, s.recency, k, v, s'.cache);
    EvictionKeepsMost(budget, Put(s.cache, k, v), s'.cache);
    if Whole(s) {
      KeysOfPut(s.cache, k, v);
    }
    hide Trim, Put;
    forall h | h in s'.cache
      ensures h.key in s'.m && h.value == s'.m[h.key].value
    {
      PutMember(s.cache, k, v, s'.cache, h);
    }
  }

  lemma DropBacked(budget: nat, s: Shard, s': Shard, k: bytes)
    requires Backed(s) && s'.m == s.m - {k} && s'.cache == Drop(s.cache, k) && s'.recency == Without(s.recency, k)
    ensures Backed(s') && (Within(budget, s) ==> Within(budget, s')) && (Whole(s) ==> Whole(s'))
  {
    hide Keys, Footprint;
    PrefixKept(s.cache, s.recency, k, []);
    DistinctWithout(s.recency, k);
    KeysOfDrop(s.cache, k);
    CachedDistinct(s.cache, s.recency);
    DropLighter(s.cache, k);
  }

  lemma DropLighter(c: seq<Hot>, k: bytes)
    requires Distinct(Keys(c))
    ensures Footprint(Drop(c, k)) <= Footprint(c)
  {
    WeightOfDrop(c, k);
    WeightIsFootprint(c);
    WeightIsFootprint(Drop(c, k));
  }

  /** A cached value that is read again. */
  lemma HitBacked(budget: nat, s: Shard, s': Shard, k: bytes)
    requires Backed(s) && Find(s.cache, k).Some? && k in s.m
    requires s'.m == s.m && s'.cache == Put(s.cache, k, s.m[k].value) && s'.recency == Touch(s.recency, k)
    ensures Backed(s') && (Within(budget, s) ==> Within(budget, s')) && (Whole(s) ==> Whole(s'))
  {
    hide Keys, Without, Drop, Footprint, Weight;
    assert Find(s.cache, k).value == s.m[k].value;
    CachedDistinct(s.cache, s.recency);
    WeightOfTouch(s.cache, k);
    PutOrder(s.cache, s.recency, k, s.m[k].value, s'.cache);
    KeysOfPut(s.cache, k, s.m[k].value);
    forall h | h in s'.cache
      ensures h.key in s'.m && h.value == s'.m[h.key].value
    {
      PutMember(s.cache, k, s.m[k].value, s'.cache, h);
    }
  }

  /** Every operation keeps the cache backed and within the budget; without a budget it leaves nothing out. */
  lemma OpCaches(budget: nat, s: Shard, op: Op, now: nat)
    requires Backed(s) && Within(budget, s)
    ensures var s' := OnOp(budget, s, op, now).0;
            Backed(s') && Within(budget, s') && (budget == 0 && Whole(s) ==> Whole(s'))
  {
    hide Backed, Within, Whole, Trim, Put, Drop, Without, Touch, Find;
    var s', k := OnOp(budget, s, op, now).0, op.key;
    match op
    case Get(_) =>
      if k !in Live(s.m, now) {
        DropBacked(budget, s, s', k);
      } else if Find(s.cache, k).Some? {
        HitBacked(budget, s, s', k);
      } else {
        PutBacked(budget, s, s', k, s.m[k].value);
      }
    case Set(_, v) => PutBacked(budget, s, s', k, v);
    case SetEx(_, v, _) => PutBacked(budget, s, s', k, v);
    case Del(_) => DropBacked(budget, s, s', k);
  }

  /** What was just written, or read back cold, is the most recent entry, if and only if there is nothing to evict or it
      fits the low mark by itself; what was read from the cache always is. */
  lemma NewestIsCached(budget: nat, s: Shard, op: Op, now: nat)
    requires Backed(s) && (op.Set? || op.SetEx? || (op.Get? && op.key in Live(s.m, now)))
    ensures var s' := OnOp(budget, s, op, now).0; var k := op.key;
            && k in s'.m && (op.Set? || op.SetEx? ==> s'.m[k].value == op.value) && (op.Get? ==> s'.m == s.m)
            && var hot := Hot(k, s'.m[k].value);
               ((s'.cache != [] && s'.cache[0] == hot) <==>
                 || (op.Get? && Find(s.cache, k).Some?)
                 || budget == 0 || Footprint(Put(s.cache, k, hot.value)) < budget / 10 * 9
                 || |k| + |hot.value| + 130 <= budget / 10 * 8)
  {
    hide Footprint, Drop, Trim, Find, Keys;
    var s' := OnOp(budget, s, op, now).0;
    NewestSurvives(budget, Put(s.cache, op.key, s'.m[op.key].value));
  }

  // --- Runs ---

  lemma {:induction false} ItemsCache(budget: nat, s: Shard, items: seq<Item>)
    requires Backed(s) && Within(budget, s)
    ensures var s' := OnItems(budget, s, items).shard;
            Backed(s') && Within(budget, s') && (budget == 0 && Whole(s) ==> Whole(s'))
  {
    hide Backed, Within, Whole, OnOp;
    if items != [] {
      var x, init := items[|items| - 1], items[..|items| - 1];
      ItemsCache(budget, s, init);
      OpCaches(budget, OnItems(budget, s, init).shard, x.op, x.now);
    }
  }

  lemma EvictCaches(budget: nat, s: Shard)
    requires Backed(s)
    ensures var s' := s.(cache := Trim(budget, s.cache));
            Backed(s') && Within(budget, s') && (budget == 0 && Whole(s) ==> Whole(s'))
  {
    hide Footprint;
    var kept := Trim(budget, s.cache);
    TrimFits(budget, s.cache);
    KeysOfPrefix(s.cache, kept);
    assert forall h | h in kept :: h in s.cache;
  }

  lemma SweepCaches(budget: nat, s: Shard, now: nat, limit: nat)
    requires Backed(s) && Within(budget, s)
    ensures var s' := OnSweep(s, now, limit);
            Backed(s') && Within(budget, s') && (Whole(s) ==> Whole(s'))
  {
    hide Keys, Footprint, OnlyKeys, OnlyHot, Weight, SweptMap;
    var s' := OnSweep(s, now, limit);
    var ks := s'.m.Keys;
    DistinctOnlyKeys(s.recency, ks);
    KeysOfOnlyHot(s.cache, ks);
    OnlyKeysPrefix(Keys(s.cache), s.recency, ks);
    WeightOfOnlyHot(s.cache, ks);
    WeightIsFootprint(s.cache);
    WeightIsFootprint(s'.cache);
    SweptValues(s.m, Popped(s.queue, now, limit));
  }

  lemma SweptValues(m: Keyspace, popped: seq<Due>)
    ensures SubMap(SweptMap(m, popped), m)
  {
  }

  /** Over any run the cache is a prefix of the touched keys, has the stored values, and keeps within the budget in
      bytes; without a budget every touched key that is still held is in it. */
  lemma {:induction false} EventsCache(budget: nat, s: Shard, events: seq<Event>)
    requires Backed(s) && Within(budget, s)
    ensures var s' := OnEvents(budget, s, events).shard;
            Backed(s') && Within(budget, s') && (budget == 0 && Whole(s) ==> Whole(s'))
    decreases |events|
  {
    hide Backed, Within, Whole, OnItems, OnSweep, Trim;
    if events != [] {
      match events[0]
      case Batch(items) =>
        ItemsCache(budget, s, items);
        EvictCaches(budget, OnItems(budget, s, items).shard);
        EventsCache(budget, OnBatch(budget, s, items).shard, events[1..]);
      case Tick(now) =>
        SweepCaches(budget, s, now, SWEEP_LIMIT);
        EventsCache(budget, OnSweep(s, now, SWEEP_LIMIT), events[1..]);
    }
  }

  function Footprints(shards: seq<Shard>): (ns: seq<nat>)
    ensures |ns| == |shards| && forall i | 0 <= i < |shards| :: ns[i] == Footprint(shards[i].cache)
  {
    seq(|shards|, i requires 0 <= i < |shards| => Footprint(shards[i].cache))
  }

  /** MAX_MEMORY_MB is kept: whatever each shard is asked to do, the keys, values and entries that all caches hold
      together stay within it, unless there are more shards than bytes. */
  lemma ShardsWithinTotal(mb: nat, before: seq<Shard>, runs: seq<seq<Event>>, after: seq<Shard>)
    requires |before| == |runs| == |after| && 0 < |before| <= mb * 1024 * 1024
    requires var b := BudgetPerShard(mb, |before|);
             forall i | 0 <= i < |before| ::
               Backed(before[i]) && Within(b, before[i]) && after[i] == OnEvents(b, before[i], runs[i]).shard
    ensures Sum(Footprints(after)) <= mb * 1024 * 1024
  {
    hide Backed, OnEvents, Footprint, BudgetPerShard;
    var b := BudgetPerShard(mb, |before|);
    forall i | 0 <= i < |before| && b != 0
      ensures Footprints(after)[i] <= b / 10 * 9
    {
      EventsCache(b, before[i], runs[i]);
    }
    CachesWithinTotal(mb, Footprints(after));
  }

  // --- The order of a run ---

  /** Operation `i` of a run writes `k`, or is a GET that hits it. */
  predicate Touches(m: Keyspace, items: seq<Item>, i: nat, k: bytes) {
    && i < |items| && items[i].op.key == k && !items[i].op.Del?
    && (items[i].op.Get? ==> k in Live(Run(m, items[..i]).0, items[i].now))
  }

  /** Operation `i` touches `k` and no later one deletes it. */
  predicate Holds(m: Keyspace, items: seq<Item>, i: nat, k: bytes) {
    Touches(m, items, i, k) && forall j | i < j < |items| :: items[j].op != Del(k)
  }

  predicate UntouchedFrom(m: Keyspace, items: seq<Item>, i: nat, k: bytes) {
    forall j: nat | i <= j < |items| :: !Touches(m, items, j, k)
  }

  lemma TouchesOld(m: Keyspace, items: seq<Item>, i: nat, k: bytes)
    requires items != [] && i < |items| - 1
    ensures Touches(m, items, i, k) <==> Touches(m, items[..|items| - 1], i, k)
  {
    assert items[..|items| - 1][..i] == items[..i];
  }

  lemma HoldsOld(m: Keyspace, items: seq<Item>, i: nat, k: bytes)
    requires items != [] && i < |items| - 1
    ensures Holds(m, items, i, k) <==> Holds(m, items[..|items| - 1], i, k) && items[|items| - 1].op != Del(k)
  {
    hide Touches;
    TouchesOld(m, items, i, k);
  }

  lemma UntouchedOld(m: Keyspace, items: seq<Item>, i: nat, k: bytes)
    requires items != [] && UntouchedFrom(m, items[..|items| - 1], i, k) && !Touches(m, items, |items| - 1, k)
    ensures UntouchedFrom(m, items, i, k)
  {
    hide Touches;
    forall j: nat | i <= j < |items|
      ensures !Touches(m, items, j, k)
    {
      if j < |items| - 1 {
        TouchesOld(m, items, j, k);
      }
    }
  }

  lemma HoldsMore(m: Keyspace, items: seq<Item>, x: bytes)
    requires items != []
    ensures var n := |items| - 1;
            (exists i: nat :: Holds(m, items, i, x)) <==>
              Touches(m, items, n, x) || (items[n].op != Del(x) && exists i: nat :: Holds(m, items[..n], i, x))
  {
    var n := |items| - 1;
    if Touches(m, items, n, x) {
      assert Holds(m, items, n, x);
    }
    if i: nat :| Holds(m, items, i, x) && i < n {
      HoldsOld(m, items, i, x);
    }
    if i: nat :| Holds(m, items[..n], i, x) {
      HoldsOld(m, items, i, x);
    }
  }

  lemma LastTouch(m: Keyspace, order: seq<bytes>, items: seq<Item>)
    requires items != []
    ensures var n := |items| - 1; var was := OrderAfter(m, order, items[..n]); var k := items[n].op.key;
            OrderAfter(m, order, items) ==
              if Touches(m, items, n, k) then [k] + Without(was, k) else if items[n].op.Del? then Without(was, k) else was
    ensures forall i: nat, k :: Touches(m, items, i, k) ==> i < |items| && k == items[i].op.key
  {
    hide Without, Live, Run;
  }

  /** The order in which a run leaves its keys is that of their last touches, latest first; and they are the keys
      touched and not deleted since. */
  lemma {:induction false} OrderIsByLastTouch(m: Keyspace, items: seq<Item>, x: bytes, y: bytes)
    ensures var order := OrderAfter(m, [], items);
            && (x in order <==> exists i: nat :: Holds(m, items, i, x))
            && (Precedes(order, x, y) ==> exists i: nat :: Holds(m, items, i, x) && UntouchedFrom(m, items, i, y))
  {
    if items != [] {
      var n, order := |items| - 1, OrderAfter(m, [], items);
      var k, was := items[n].op.key, OrderAfter(m, [], items[..n]);
      OrderIsByLastTouch(m, items[..n], x, y);
      LastTouch(m, [], items);
      HoldsMore(m, items, x);
      hide OrderAfter, Touches, Precedes, Without;
      PrecedesCons(k, Without(was, k), x, y);
      WithoutPrecedes(was, k, x, y);
      if Precedes(order, x, y) {
        if x == k && Touches(m, items, n, k) {
          HeadFirst(Without(was, k), k, y);
          assert Holds(m, items, n, x) && UntouchedFrom(m, items, n, y);
        } else {
          var i: nat :| Holds(m, items[..n], i, x) && UntouchedFrom(m, items[..n], i, y);
          HoldsInside(m, items[..n], i, x);
          HoldsOld(m, items, i, x);
          UntouchedOld(m, items, i, y);
        }
      }
    }
  }

  lemma HoldsInside(m: Keyspace, items: seq<Item>, i: nat, k: bytes)
    requires Holds(m, items, i, k)
    ensures i < |items|
  {
  }

  lemma HeadFirst(s: seq<bytes>, k: bytes, y: bytes)
    requires Precedes([k] + s, k, y) && k !in s
    ensures y != k
  {
    PrecedesCons(k, s, k, y);
    PrecedesIn(s, k, y);
  }
}
