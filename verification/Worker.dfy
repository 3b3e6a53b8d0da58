/** One shard: index, cache, TTL queue and disk, refining a plain map with expiry times. */
module Workers {
  import opened Prelude
  import opened Log
  import opened DiskFiles
  import opened DiskRuns
  import opened ShardDisk
  import opened Lru
  import opened Expiry
  import opened Recovery
  import opened TtlMap
  import opened Wire
  import opened Store
  import opened Shards

  function SaturatingSub(a: nat, b: nat): (d: nat)
    ensures d == if b <= a then a - b else 0
  {
    if a < b then 0 else a - b
  }

  class Worker {
    var index: Index
    var cache: seq<Hot>
    var cacheBytes: nat
    const budget: nat
    var expiries: seq<Due>
    const disk: Disk
    /** Keys in the order they were last written or read, most recent first. */
    ghost var recency: seq<bytes>
    /** The latest clock reading. */
    ghost var clock: nat

    ghost predicate Valid()
      reads this, disk
    {
      && disk.Valid()
      && Located(index, disk.cool.All())
      && InStep(index, cache, recency, expiries, disk.cool.All())
      && cacheBytes == Weight(cache) == Footprint(cache)
      && (budget != 0 ==> Footprint(cache) <= budget / 10 * 9)
      && Follows(index, disk.history, clock)
    }

    /** The map this shard stands for. */
    ghost function Entries(): (m: Keyspace)
      reads this, disk
      requires Valid()
    {
      EntriesOf(index, disk.cool.All())
    }

    /** The journal on disk is complete: a restart can be judged by it. */
    ghost predicate Journaled()
      reads this, disk
    {
      disk.Logged() && Narrow(disk.history)
    }

    /** The whole shard as a value. */
    ghost function View(): (s: Shard)
      reads this, disk
      requires Valid()
    {
      Shard(Entries(), cache, recency, expiries)
    }

    /** `Worker::start`: whatever the files hold, the index is the fold of the replayed journal. */
    constructor (budget: nat, coolFile: bytes, backupFile: bytes, now: nat)
      ensures fresh(disk) && this.budget == budget && clock == now && recency == [] && cache == []
      ensures disk.cool == BufFile(coolFile, []) && disk.backup == BufFile(backupFile, [])
      ensures index == Rebuilt(Replay(backupFile), now)
      ensures Valid() <==> Located(index, coolFile)
      ensures disk.history == Replay(backupFile) && disk.trace == []
      ensures EndsBy(Replay(backupFile), |coolFile|) && Narrow(Replay(backupFile)) ==>
                Valid() && (backupFile == EncodedReplay(backupFile) ==> Journaled())
    {
      hide Located, Queued, InStep, Rebuilt, Replay, EncodedReplay, FitsLog, EncodeLog, EndsBy, Narrow, Resurrects, Follows;
      var d, records := Disk.Open(coolFile, backupFile);
      this.budget := budget;
      disk := d;
      index, cache, cacheBytes, expiries := map[], [], 0, [];
      recency, clock := [], now;
      new;
      label made:
      EmptyIndex(records, now);
      for i := 0 to |records|
        invariant index == Rebuilt(records[..i], now)
        invariant Queued(index, expiries)
        invariant cache == [] && cacheBytes == 0 && recency == [] && clock == now
        invariant unchanged@made(disk)
      {
        var rec := records[i];
        RebuiltStep(records, i, now);
        match rec {
          case SetRec(key, valOff, vlen, exp) =>
            if exp == 0 || exp > now {
              QueuedInsert(index, expiries, key, Loc(valOff, vlen, exp));
              if exp != 0 {
                expiries := Push(expiries, Due(exp, key));
              }
              index := index[key := Loc(valOff, vlen, exp)];
            }
          case DelRec(key) =>
            QueuedRemove(index, expiries, key);
            index := index - {key};
        }
      }
      assert records[..|records|] == records;
      assert disk.cool.All() == coolFile;
      FreshInStep(index, expiries, coolFile);
      FreshJournal(records, now, coolFile);
    }

    // --- cache bookkeeping ---

    method CacheInsert(k: bytes, v: bytes)
      requires Distinct(Keys(cache)) && cacheBytes == Weight(cache)
      modifies this`cache, this`cacheBytes
      ensures cache == Put(old(cache), k, v) && cacheBytes == Weight(cache) == Footprint(cache)
      ensures var was := Find(old(cache), k);
              cacheBytes + (if was.Some? then |k| + |was.value| + 130 else 0) == old(cacheBytes) + |k| + |v| + 130
    {
      WeightOfDrop(cache, k);
      WeightOfPut(cache, k, v);
      var newSz := Size(|k|, |v|);
      match Find(cache, k) {
        case Some(prev) =>
          cacheBytes := SaturatingSub(cacheBytes, Size(|k|, |prev|)) + newSz;
        case None =>
          cacheBytes := cacheBytes + newSz;
      }
      cache := Put(cache, k, v);
      WeightIsFootprint(cache);
    }

    method CacheRemove(k: bytes)
      requires Distinct(Keys(cache)) && cacheBytes == Weight(cache)
      modifies this`cache, this`cacheBytes
      ensures cache == Drop(old(cache), k) && cacheBytes == Weight(cache) == Footprint(cache)
      ensures var was := Find(old(cache), k);
              cacheBytes + (if was.Some? then |k| + |was.value| + 130 else 0) == old(cacheBytes)
    {
      WeightOfDrop(cache, k);
      var found := Find(cache, k);
      cache := Drop(cache, k);
      if found.Some? {
        cacheBytes := SaturatingSub(cacheBytes, Size(|k|, |found.value|));
      }
      WeightIsFootprint(cache);
    }

    /** Lossless: eviction changes what is cached, never what is stored. */
    method EvictToBudget()
      requires cacheBytes == Weight(cache)
      modifies this`cache, this`cacheBytes
      ensures cache == Trim(budget, old(cache)) && cacheBytes == Weight(cache) == Footprint(cache)
      ensures cache <= old(cache) && (budget != 0 ==> cacheBytes <= budget / 10 * 9)
      ensures budget == 0 || old(cacheBytes) < budget / 10 * 9 ==> cache == old(cache)
      ensures budget != 0 && old(cacheBytes) >= budget / 10 * 9 ==>
                cacheBytes <= budget / 10 * 8
                && (|cache| < |old(cache)| ==> Footprint(old(cache)[..|cache| + 1]) > budget / 10 * 8)
      ensures old(Valid()) ==> Valid() && Entries() == old(Entries())
    {
      hide Located, InStep, EntriesOf, Keys, Footprint;
      EvictLoop();
      TrimFits(budget, old(cache));
      if old(Valid()) {
        StepEvict(index, old(cache), recency, expiries, disk.cool.All(), cache);
      }
    }

    method EvictLoop()
      requires cacheBytes == Weight(cache)
      modifies this`cache, this`cacheBytes
      ensures cache == Trim(budget, old(cache)) && cacheBytes == Weight(cache) == Footprint(cache)
      ensures cache <= old(cache) && (budget != 0 ==> cacheBytes <= budget / 10 * 9)
      ensures budget == 0 || old(cacheBytes) < budget / 10 * 9 ==> cache == old(cache)
      ensures budget != 0 && old(cacheBytes) >= budget / 10 * 9 ==>
                cacheBytes <= budget / 10 * 8
                && (|cache| < |old(cache)| ==> Footprint(old(cache)[..|cache| + 1]) > budget / 10 * 8)
    {
      EvictionKeepsMost(budget, cache, Trim(budget, cache));
      WeightIsFootprint(cache);
      hide Footprint;
      if budget == 0 {
        return;
      }
      var high := budget / 10 * 9;
      var low := budget / 10 * 8;
      if cacheBytes < high {
        return;
      }
      ghost var all := cache;
      assert all[..|all|] == all;
      while cacheBytes > low
        invariant cacheBytes == Weight(cache)
        invariant |cache| <= |all| && cache == all[..|cache|]
        invariant |cache| < |all| ==> Weight(all[..|cache| + 1]) > low
        decreases |cache|
      {
        // A positive weight means the cache is not empty, so `pop_lru` never returns None.
        assert cache != [];
        WeightOfLast(cache);
        var n := |cache| - 1;
        assert cache[..n] == all[..n];
        cacheBytes := SaturatingSub(cacheBytes, Size(|cache[n].key|, |cache[n].value|));
        cache := cache[..n];
      }
      LongestIsLongest(all, low, cache);
      WeightIsFootprint(cache);
    }

    // --- public ops ---

    method Set(k: bytes, v: bytes)
      requires Valid() && Storable(k, v)
      requires disk.coolLen + COOL_SET_HEADER + |k| + |v| < U64
      modifies this, disk
      ensures Valid() && clock == old(clock)
      ensures Entries() == old(Entries())[k := Entry(v, 0)]
      ensures View() == OnWrite(budget, old(View()), k, v, 0)
      ensures disk.trace == old(disk.trace) + [PutStep(k, v, 0)]
      ensures disk.coolLen == old(disk.coolLen) + COOL_SET_HEADER + |k| + |v|
      ensures disk.Files() == Next(old(disk.Files()), PutStep(k, v, 0))
      ensures old(disk.Logged()) ==> disk.Logged()
      ensures old(Journaled()) ==> Journaled()
      ensures old(disk.Logged() && disk.InOrder()) ==>
                (disk.InOrder() <==> old(SetGuard(disk.cool, disk.backup, disk.history, k, v)))
    {
      hide Located, InStep, EntriesOf, Follows, LoggedFiles, EndsBy, Narrow, Touch, Put, Weight, Footprint, Trim, LegalRun, RunSteps;
      Write(k, v, 0);
    }

    method SetEx(k: bytes, v: bytes, ttl: nat, now: nat)
      requires Valid() && Storable(k, v) && clock <= now && now + ttl < U64
      requires disk.coolLen + COOL_SET_HEADER + |k| + |v| < U64
      modifies this, disk
      ensures Valid() && clock == now
      ensures Entries() == old(Entries())[k := Entry(v, now + ttl)]
      ensures View() == OnWrite(budget, old(View()), k, v, now + ttl)
      ensures disk.trace == old(disk.trace) + [PutStep(k, v, now + ttl)]
      ensures disk.coolLen == old(disk.coolLen) + COOL_SET_HEADER + |k| + |v|
      ensures disk.Files() == Next(old(disk.Files()), PutStep(k, v, now + ttl))
      ensures old(disk.Logged()) ==> disk.Logged()
      ensures old(Journaled()) ==> Journaled()
      ensures old(disk.Logged() && disk.InOrder()) ==>
                (disk.InOrder() <==> old(SetGuard(disk.cool, disk.backup, disk.history, k, v)))
    {
      hide Located, InStep, EntriesOf, Follows, LoggedFiles, EndsBy, Narrow, Touch, Put, Weight, Footprint, Trim, LegalRun, RunSteps;
      Look(now);
      Write(k, v, now + ttl);
    }

    /** A clock reading: it changes nothing but what counts as past. */
    ghost method Look(now: nat)
      requires Valid() && clock <= now
      modifies this`clock
      ensures Valid() && clock == now && Entries() == old(Entries())
      ensures old(Journaled()) ==> Journaled()
    {
      hide Located, InStep, EntriesOf, Follows;
      FollowsLater(index, disk.history, clock, now);
      clock := now;
    }

    method Write(k: bytes, v: bytes, exp: nat)
      requires Valid() && Storable(k, v) && exp < U64
      requires disk.coolLen + COOL_SET_HEADER + |k| + |v| < U64
      modifies this`index, this`cache, this`cacheBytes, this`expiries, this`recency, disk
      ensures Valid()
      ensures Entries() == old(Entries())[k := Entry(v, exp)]
      ensures View() == OnWrite(budget, old(View()), k, v, exp)
      ensures disk.trace == old(disk.trace) + [PutStep(k, v, exp)]
      ensures disk.coolLen == old(disk.coolLen) + COOL_SET_HEADER + |k| + |v|
      ensures disk.Files() == Next(old(disk.Files()), PutStep(k, v, exp))
      ensures old(disk.Logged()) ==> disk.Logged()
      ensures old(Journaled()) ==> Journaled()
      ensures old(disk.Logged() && disk.InOrder()) ==>
                (disk.InOrder() <==> old(SetGuard(disk.cool, disk.backup, disk.history, k, v)))
    {
      hide Located, InStep, EntriesOf, Follows, Trim, Put, Drop, Touch, Without, Weight, Footprint, Keys, Find, Push, CoolSet, BackupSet, FileDel, LoggedFiles, EndsBy, Narrow, LegalRun, RunSteps;
      ghost var cool, h, was := disk.cool.All(), disk.history, index;
      ghost var hot, order, q := cache, recency, expiries;
      var off := disk.AppendSet(k, v, exp);
      var loc := Loc(off, |v|, exp);
      index := index[k := loc];
      if exp != 0 {
        expiries := Push(expiries, Due(exp, k));
      }
      InStepDistinct(was, hot, order, q, cool);
      CacheInsert(k, v);
      recency := Touch(recency, k);
      EvictToBudget();
      StepWrite(was, hot, order, q, cool, disk.cool.All(), k, v, loc, cache);
      FollowsAppend(was, h, clock, SetRec(k, off, |v|, exp));
      NarrowAppend(h, SetRec(k, off, |v|, exp));
    }

    /** Answers whether the key was physically present, expired or not. */
    method Delete(k: bytes) returns (existed: bool)
      requires Valid() && |k| < U16
      modifies this, disk
      ensures Valid() && clock == old(clock)
      ensures existed <==> k in old(Entries())
      ensures Entries() == old(Entries()) - {k}
      ensures View() == Shard(old(Entries()) - {k}, Drop(old(cache), k), Without(old(recency), k), old(expiries))
      ensures disk.trace == old(disk.trace) + if existed then [DelStep(k)] else []
      ensures disk.coolLen == old(disk.coolLen) + if existed then 3 + |k| else 0
      ensures disk.Files() == if existed then Next(old(disk.Files()), DelStep(k)) else old(disk.Files())
      ensures old(disk.Logged()) ==> disk.Logged()
      ensures old(Journaled()) ==> Journaled()
      ensures old(disk.Logged() && disk.InOrder()) ==>
                (disk.InOrder() <==> !existed || old(DelGuard(disk.cool, disk.backup, disk.history, k)))
    {
      hide Located, InStep, EntriesOf, Follows, Trim, Put, Drop, Touch, Without, Weight, Footprint, Keys, Find, Push, CoolSet, BackupSet, FileDel, LoggedFiles, EndsBy, Narrow, LegalRun, RunSteps;
      ghost var cool, h, was := disk.cool.All(), disk.history, index;
      StepRemove(index, cache, recency, expiries, cool, k);
      InStepDistinct(index, cache, recency, expiries, cool);
      EntryAt(index, cool, k);
      existed := k in index;
      index := index - {k};
      CacheRemove(k);
      recency := Without(recency, k);
      if existed {
        disk.AppendDel(k);
        StepGrow(index, cache, recency, expiries, cool, disk.cool.All());
        FollowsAppend(was, h, clock, DelRec(k));
        NarrowAppend(h, DelRec(k));
      } else {
        assert index == was;
      }
    }

    /** Exactly the live value, from the cache or the log; an expired entry is dropped. */
    method Get(k: bytes, now: nat) returns (r: Option<bytes>)
      requires Valid() && clock <= now
      modifies this, disk`cool, disk`trace
      ensures Valid() && clock == now
      ensures r == if k in Live(old(Entries()), now) then Some(old(Entries())[k].value) else None
      ensures Entries() == if k in Live(old(Entries()), now) then old(Entries()) else old(Entries()) - {k}
      ensures var (s, payload, steps) := OnGet(budget, old(View()), k, now);
              View() == s && (if r.Some? then r.value else RESP_NIL) == payload && disk.trace == old(disk.trace) + steps
      ensures disk.coolLen == old(disk.coolLen)
      ensures var cold := r.Some? && Find(old(cache), k).None?;
              && disk.Files() == (if cold then Next(old(disk.Files()), ColdRead) else old(disk.Files()))
              && (old(disk.Logged()) ==> disk.Logged())
              && (old(disk.Logged()) && (cold || old(disk.InOrder())) ==> disk.InOrder())
      ensures old(Journaled()) ==> Journaled()
    {
      hide Located, InStep, EntriesOf, Follows, Trim, Put, Drop, Touch, Without, Weight, Footprint, Keys, Find, Push, CoolSet, BackupSet, FileDel, LoggedFiles, EndsBy, Narrow, LegalRun, RunSteps;
      Look(now);
      ghost var cool, m := disk.cool.All(), Entries();
      EntryAt(index, cool, k);
      InStepDistinct(index, cache, recency, expiries, cool);
      if k !in index {
        AbsentEverywhere(index, cache, recency, expiries, cool, k);
        assert m - {k} == m;
        return None;
      }
      var loc := index[k];
      if loc.exp != 0 && loc.exp <= now {
        StepRemove(index, cache, recency, expiries, cool, k);
        FollowsExpire(index, disk.history, now, k);
        index := index - {k};
        CacheRemove(k);
        recency := Without(recency, k);
        return None;
      }
      var hit := Find(cache, k);
      if hit.Some? {
        HitIsEntry(index, cache, recency, expiries, cool, k);
        StepRead(index, cache, recency, expiries, cool, k, hit.value, Put(cache, k, hit.value));
        WeightOfTouch(cache, k);
        cache := Put(cache, k, hit.value);
        recency := Touch(recency, k);
        return hit;
      }
      r := disk.ReadAt(loc.valOff, loc.vlen);
      ghost var hot, order := cache, recency;
      CacheInsert(k, r.value);
      recency := Touch(recency, k);
      EvictToBudget();
      StepRead(index, hot, order, expiries, cool, k, r.value, cache);
    }

    /** Sweeps at most `limit` queue entries. Only keys whose current expiry is due go; every
        queue entry that was due and within the limit is gone; and a sweep that stops early
        leaves no due key behind. */
    method ExpireDue(limit: nat, now: nat)
      requires Valid() && clock <= now
      modifies this
      ensures Valid() && clock == now
      ensures View() == OnSweep(old(View()), now, limit)
      ensures Live(Entries(), now) == Live(old(Entries()), now)
      ensures SubMap(Entries(), old(Entries()))
      ensures DueCount(old(expiries), now) <= limit ==> Entries() == Live(old(Entries()), now)
      ensures cacheBytes <= old(cacheBytes)
      ensures old(Journaled()) ==> Journaled()
    {
      hide Located, InStep, EntriesOf, Follows, Weight, Footprint, Swept, Live, SubMap, DueCount;
      Look(now);
      ghost var q, ix, cool := expiries, index, disk.cool.All();
      ghost var n := 0;
      NothingSwept(ix, q);
      AllKept(ix, cache, recency, q, cool);
      for i := 0 to limit
        invariant n == i && n <= DueCount(q, now)
        invariant expiries == q[n..] && index == Swept(ix, q[..n])
        invariant Valid() && clock == now && unchanged(disk)
        invariant cacheBytes <= old(cacheBytes)
        invariant recency == OnlyKeys(old(recency), index.Keys) && cache == OnlyHot(old(cache), index.Keys)
        invariant old(Journaled()) ==> Journaled()
      {
        SweepTurn(q, n, now);
        if expiries == [] || expiries[0].t > now {
          break;
        }
        SweptStep(ix, q[..n], expiries[0]);
        OnlyKeysLess(old(recency), index.Keys, expiries[0].key);
        OnlyHotLess(old(cache), index.Keys, expiries[0].key);
        PopDue(now);
        n := n + 1;
      }
      SweepResult(ix, old(cache), old(recency), q, cool, n, now);
      SweptView(ix, q, cool, n, now, limit);
    }

    /** One turn of the sweep: pop the head and drop its key if that is still its expiry. */
    method PopDue(now: nat)
      requires Valid() && clock == now && expiries != [] && expiries[0].t <= now
      modifies this`index, this`cache, this`cacheBytes, this`expiries, this`recency
      ensures Valid() && expiries == old(expiries)[1..] && cacheBytes <= old(cacheBytes)
      ensures var d := old(expiries[0]);
              if d.key in old(index) && old(index)[d.key].exp == d.t then
                index == old(index) - {d.key} && cache == Drop(old(cache), d.key) && recency == Without(old(recency), d.key)
              else
                index == old(index) && cache == old(cache) && recency == old(recency)
      ensures old(Journaled()) ==> Journaled()
    {
      hide Located, InStep, EntriesOf, Follows, Trim, Put, Drop, Touch, Without, Weight, Footprint, Keys, Find, Push, CoolSet, BackupSet, FileDel, LoggedFiles, EndsBy, Narrow, LegalRun, RunSteps;
      ghost var cool := disk.cool.All();
      var t, key := expiries[0].t, expiries[0].key;
      StepPop(index, cache, recency, expiries, cool);
      InStepDistinct(index, cache, recency, expiries, cool);
      expiries := expiries[1..];
      if key in index && index[key].exp == t {
        FollowsExpire(index, disk.history, now, key);
        index := index - {key};
        CacheRemove(key);
        recency := Without(recency, key);
      }
    }

    method FlushOs()
      requires Valid()
      modifies disk`cool, disk`backup, disk`trace
      ensures disk.trace == old(disk.trace) + BothFlushes()
      ensures Valid() && View() == old(View()) && disk.coolLen == old(disk.coolLen)
      ensures disk.Files() == Next(Next(old(disk.Files()), FlushCool), FlushJournal)
      ensures disk.cool == old(disk.cool).Flushed() && disk.backup == old(disk.backup).Flushed()
      ensures old(disk.Logged()) ==> disk.Logged() && disk.InOrder()
      ensures old(Journaled()) ==> Journaled()
    {
      disk.Flush();
    }

    method Fsync()
      requires Valid()
      modifies disk`cool, disk`backup, disk`trace
      ensures disk.trace == old(disk.trace) + BothFlushes()
      ensures Valid() && View() == old(View()) && disk.coolLen == old(disk.coolLen)
      ensures disk.Files() == Next(Next(old(disk.Files()), FlushCool), FlushJournal)
      ensures disk.cool == old(disk.cool).Flushed() && disk.backup == old(disk.backup).Flushed()
      ensures old(disk.Logged()) ==> disk.Logged() && disk.InOrder()
      ensures old(Journaled()) ==> Journaled()
    {
      disk.Flush();
    }
  }

  lemma EmptyIndex(rs: seq<IndexRecord>, now: nat)
    ensures Rebuilt(rs[..0], now) == map[] && Queued(map[], []) && Weight([]) == 0
  {
  }

  lemma RebuiltStep(rs: seq<IndexRecord>, i: nat, now: nat)
    requires i < |rs|
    ensures Rebuilt(rs[..i + 1], now) == ReplayRec(Rebuilt(rs[..i], now), rs[i], now)
  {
    assert rs[..i + 1][..i] == rs[..i];
  }

  lemma FreshInStep(ix: Index, q: seq<Due>, cool: bytes)
    requires Queued(ix, q)
    ensures Located(ix, cool) ==> InStep(ix, [], [], q, cool)
    ensures Weight([]) == 0
  {
  }

  lemma FreshJournal(rs: seq<IndexRecord>, now: nat, cool: bytes)
    requires FitsLog(rs)
    ensures EndsBy(rs, |cool|) && Narrow(rs) ==> Located(Rebuilt(rs, now), cool)
    ensures Follows(Rebuilt(rs, now), rs, now)
  {
    if EndsBy(rs, |cool|) && Narrow(rs) {
      RebuiltLocated(rs, now, cool);
    }
    FollowsRebuilt(rs, now);
  }

  lemma NarrowAppend(rs: seq<IndexRecord>, r: IndexRecord)
    requires Narrow(rs) ==> (r.SetRec? ==> r.vlen < U16)
    ensures Narrow(rs) ==> Narrow(rs + [r])
  {
  }

  lemma FollowsExpire(ix: Index, rs: seq<IndexRecord>, now: nat, k: bytes)
    requires Follows(ix, rs, now) && k in ix && Past(ix[k].exp, now)
    ensures Follows(ix - {k}, rs, now)
  {
    FollowsDrop(ix, rs, now, ix - {k});
  }

  /** A key the index does not know is nowhere else either. */
  lemma AbsentEverywhere(ix: Index, cache: seq<Hot>, recency: seq<bytes>, q: seq<Due>, cool: bytes, k: bytes)
    requires Located(ix, cool) && InStep(ix, cache, recency, q, cool) && k !in ix
    ensures Without(recency, k) == recency && Drop(cache, k) == cache
  {
    WithoutAbsent(recency, k);
    DropAbsent(cache, k);
  }

  lemma {:induction false} DropAbsent(c: seq<Hot>, k: bytes)
    requires forall h | h in c :: h.key != k
    ensures Drop(c, k) == c
  {
    if c != [] {
      DropAbsent(c[1..], k);
      assert [c[0]] + c[1..] == c;
    }
  }

  lemma {:induction false} WithoutAbsent(s: seq<bytes>, k: bytes)
    requires k !in s
    ensures Without(s, k) == s
  {
    if s != [] {
      WithoutAbsent(s[1..], k);
      assert [s[0]] + s[1..] == s;
    }
  }

  lemma SweepTurn(q: seq<Due>, n: nat, now: nat)
    requires n <= DueCount(q, now)
    ensures q[n..] == [] || q[n..][0].t > now <==> n == DueCount(q, now)
    ensures n < |q| ==> q[n..][1..] == q[n + 1..] && q[..n + 1] == q[..n] + [q[n]]
  {
  }

  /** Before a sweep nothing is filtered out. */
  lemma AllKept(ix: Index, cache: seq<Hot>, recency: seq<bytes>, q: seq<Due>, cool: bytes)
    requires Located(ix, cool) && InStep(ix, cache, recency, q, cool)
    ensures OnlyKeys(recency, ix.Keys) == recency && OnlyHot(cache, ix.Keys) == cache
  {
    OnlyKeysAll(recency, ix.Keys);
    OnlyHotAll(cache, ix.Keys);
  }

  /** The swept index stands for the swept map. */
  lemma SweptView(ix: Index, q: seq<Due>, cool: bytes, n: nat, now: nat, limit: nat)
    requires Located(ix, cool) && n <= |q|
    requires n == if DueCount(q, now) < limit then DueCount(q, now) else limit
    ensures Located(Swept(ix, q[..n]), cool)
    ensures EntriesOf(Swept(ix, q[..n]), cool) == SweptMap(EntriesOf(ix, cool), Popped(q, now, limit))
    ensures Swept(ix, q[..n]).Keys == SweptMap(EntriesOf(ix, cool), Popped(q, now, limit)).Keys
    ensures q[n..] == AfterSweep(q, now, limit)
  {
    assert q[..n] == Popped(q, now, limit);
  }

  lemma NothingSwept(ix: Index, q: seq<Due>)
    ensures Swept(ix, q[..0]) == ix && q[0..] == q
  {
  }

  /** What popping the first `n` due queue entries does to the map. */
  lemma SweepResult(ix: Index, cache: seq<Hot>, recency: seq<bytes>, q: seq<Due>, cool: bytes, n: nat, now: nat)
    requires Located(ix, cool) && InStep(ix, cache, recency, q, cool) && n <= DueCount(q, now)
    ensures var ix' := Swept(ix, q[..n]);
            && Located(ix', cool)
            && SubMap(EntriesOf(ix', cool), EntriesOf(ix, cool))
            && Live(EntriesOf(ix', cool), now) == Live(EntriesOf(ix, cool), now)
            && (n == DueCount(q, now) ==> EntriesOf(ix', cool) == Live(EntriesOf(ix, cool), now))
  {
    var ix' := Swept(ix, q[..n]);
    forall k | k in ix && k !in ix'
      ensures Past(ix[k].exp, now)
    {
      SweptIsDue(q, n, now, Due(ix[k].exp, k));
    }
    LiveOfSubIndex(ix, ix', cool, now);
    if n == DueCount(q, now) {
      forall k | k in ix && Past(ix[k].exp, now)
        ensures k !in ix'
      {
        DueIsSwept(q, n, now, Due(ix[k].exp, k));
      }
      AllExpiredGone(ix, ix', cool, now);
    }
  }

  lemma LiveOfSubIndex(ix: Index, ix': Index, cool: bytes, now: nat)
    requires Located(ix, cool)
    requires forall k | k in ix' :: k in ix && ix'[k] == ix[k]
    requires forall k | k in ix && k !in ix' :: Past(ix[k].exp, now)
    ensures Located(ix', cool) && SubMap(EntriesOf(ix', cool), EntriesOf(ix, cool))
    ensures Live(EntriesOf(ix', cool), now) == Live(EntriesOf(ix, cool), now)
  {
    assert forall k | k in ix :: Past(ix[k].exp, now) == Expired(EntriesOf(ix, cool)[k], now);
  }

  lemma AllExpiredGone(ix: Index, ix': Index, cool: bytes, now: nat)
    requires Located(ix, cool) && Located(ix', cool)
    requires forall k | k in ix' :: k in ix && ix'[k] == ix[k]
    requires forall k | k in ix :: k in ix' <==> !Past(ix[k].exp, now)
    ensures EntriesOf(ix', cool) == Live(EntriesOf(ix, cool), now)
  {
    assert forall k | k in ix :: Past(ix[k].exp, now) == Expired(EntriesOf(ix, cool)[k], now);
  }

  lemma SweptIsDue(q: seq<Due>, n: nat, now: nat, d: Due)
    requires n <= DueCount(q, now) && d in q[..n] && forall x | x in q :: x.t != 0
    ensures d.t != 0 && d.t <= now
  {
    var i :| 0 <= i < n && q[..n][i] == d;
    assert q[i] == d && q[i] in q;
  }

  lemma DueIsSwept(q: seq<Due>, n: nat, now: nat, d: Due)
    requires ByTime(q) && n == DueCount(q, now) && d in q && d.t <= now
    ensures d in q[..n]
  {
    var i :| 0 <= i < |q| && q[i] == d;
    if i < n {
      assert q[..n][i] == d;
    } else {
      NotDueAfter(q, now, i);
    }
  }
}
