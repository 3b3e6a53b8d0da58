/** The shard's event loop: batches in, tagged replies out, durability and expiry on the tick. */
module ShardState {
  import opened Prelude
  import opened Codec
  import opened DiskFiles
  import opened DiskRuns
  import opened Expiry
  import opened Lru
  import opened Recovery
  import opened TtlMap
  import opened Wire
  import opened Shards
  import opened Caching
  import opened Store
  import opened Workers

  class State {
    const worker: Worker

    constructor (worker: Worker)
      ensures this.worker == worker
    {
      this.worker := worker;
    }

    /** The value log can take `n` more records before its u64 length wraps. */
    ghost predicate Room(n: nat)
      reads worker.disk
    {
      worker.disk.coolLen + n * MAX_RECORD < U64
    }

    /** One operation does to the shard and its files, and answers, exactly what the value model says. */
    method Apply(op: Op, now: nat) returns (payload: bytes)
      requires worker.Valid() && StorableOp(op) && worker.clock <= now < TIME_LIMIT && Room(1)
      modifies worker, worker.disk
      ensures worker.Valid() && worker.clock <= now
      ensures (worker.Entries(), payload) == Actual(old(worker.Entries()), op, now)
      ensures var (s, answer, steps) := OnOp(worker.budget, old(worker.View()), op, now);
              worker.View() == s && payload == answer && worker.disk.trace == old(worker.disk.trace) + steps
      ensures worker.disk.coolLen <= old(worker.disk.coolLen) + MAX_RECORD
      ensures old(worker.disk.Logged()) ==> worker.disk.Logged()
      ensures old(worker.Journaled()) ==> worker.Journaled()
    {
      hide Located, InStep, EntriesOf, Follows, LongestWithin, Put, Drop, Weight, Touch, Without, Trim, Push, Find,
           LoggedFiles, SetGuard, DelGuard, Ordered, Next, Narrow, LegalRun, RunSteps, Live, Actual;
      OpIsActual(worker.budget, worker.View(), op, now);
      match op {
        case Get(k) =>
          var r := worker.Get(k, now);
          payload := if r.Some? then r.value else RESP_NIL;
        case Set(k, v) =>
          worker.Set(k, v);
          payload := RESP_OK;
        case SetEx(k, v, ttl) =>
          worker.SetEx(k, v, ttl, now);
          payload := RESP_OK;
        case Del(k) =>
          var existed := worker.Delete(k);
          payload := if existed then RESP_ONE else RESP_ZERO;
          assert old(worker.disk.trace) + [] == old(worker.disk.trace);
      }
    }

    /** One message: apply each operation in order and answer it under its own id, then flush and
        evict. Against any ideal map `m` that the shard tracks, and any order in which its keys were
        touched so far, the replies agree, and it goes on tracking both. The steps on the
        files are exactly those of the value model; if their journal bytes fit the buffer, the
        journal stays behind the data after each of them. */
    method ApplyBatch(items: seq<Item>, ghost m: Keyspace, ghost start: nat) returns (replies: seq<Reply>)
      requires worker.Valid() && worker.clock <= start && Timed(items, start) && Room(|items|)
      requires Tracks(worker.Entries(), m, start)
      modifies worker, worker.disk
      ensures worker.Valid() && worker.clock <= TimeAfter(items, start)
      ensures var o := OnBatch(worker.budget, old(worker.View()), items);
              worker.View() == o.shard && replies == o.replies && worker.disk.trace == old(worker.disk.trace) + o.steps
      ensures AllAgree(items, replies, Run(m, items).1)
      ensures Tracks(worker.Entries(), Run(m, items).0, TimeAfter(items, start))
      ensures forall order | Recent(old(worker.View()), order) :: Recent(worker.View(), OrderAfter(m, order, items))
      ensures worker.disk.coolLen <= old(worker.disk.coolLen) + |items| * MAX_RECORD
      ensures old(worker.disk.Logged()) ==> worker.disk.Logged() && worker.disk.InOrder()
      ensures old(worker.Journaled()) ==> worker.Journaled()
      ensures worker.disk.backup.buf == []
      ensures var steps := OnBatch(worker.budget, old(worker.View()), items).steps;
              && Did(old(worker.disk.Files()), steps, worker.disk.Files(), Effects(items, replies))
              && (old(worker.disk.Logged() && worker.disk.InOrder())
                  && |old(worker.disk.backup.buf)| + BatchBytes(items) <= BUF_CAPACITY ==>
                    AllInOrder(old(worker.disk.Files()), steps))
    {
      hide Located, InStep, EntriesOf, Follows, Weight, Ordered, Live, Tracks, Run, LoggedFiles, Narrow, Did, AllInOrder,
           OnOp, Actual, Next, LegalRun, RunSteps, Trim, Recent, OrderAfter, AllAgree, Effects;
      replies := [];
      ghost var t, s0, f0 := start, worker.View(), worker.disk.Files();
      ghost var b, tr := worker.budget, worker.disk.trace;
      assert items[..0] == [] && tr + [] == tr;
      for i := 0 to |items|
        invariant worker.Valid() && worker.clock <= t
        invariant t == TimeAfter(items[..i], start)
        invariant OnItems(b, s0, items[..i]).shard == worker.View() && OnItems(b, s0, items[..i]).replies == replies
        invariant worker.disk.trace == tr + OnItems(b, s0, items[..i]).steps
        invariant worker.disk.coolLen <= old(worker.disk.coolLen) + i * MAX_RECORD
        invariant old(worker.disk.Logged()) ==> worker.disk.Logged()
        invariant old(worker.Journaled()) ==> worker.Journaled()
      {
        var x := items[i];
        assert t <= x.now;
        ghost var o := OnItems(b, s0, items[..i]);
        NextItem(b, s0, items, i);
        var payload := Apply(x.op, x.now);
        Assoc(tr, o.steps, OnOp(b, o.shard, x.op, x.now).2);
        replies := replies + [Reply(x.id, payload)];
        t := x.now;
      }
      assert items[..|items|] == items;
      ghost var o := OnItems(b, s0, items);
      worker.FlushOs();
      worker.EvictToBudget();
      Assoc(tr, o.steps, BothFlushes());
      BatchOutcome(b, s0, items, m, start);
      TraceDid(worker.disk.origin, tr, f0, OnBatch(b, s0, items).steps, worker.disk.Files());
      BatchInOrder(b, s0, items, f0, worker.disk.Files());
    }

    /** The timer: make the files durable, then sweep. Nothing a reader can see changes; cache and touched
        keys lose what the sweep removes, and nothing else. */
    method OnTick(now: nat)
      requires worker.Valid() && worker.clock <= now
      modifies worker, worker.disk
      ensures worker.Valid() && worker.clock == now
      ensures worker.View() == OnSweep(old(worker.View()), now, SWEEP_LIMIT)
      ensures DueCount(old(worker.expiries), now) <= 256 ==> worker.Entries() == Live(old(worker.Entries()), now)
      ensures worker.disk.trace == old(worker.disk.trace) + BothFlushes()
      ensures Live(worker.Entries(), now) == Live(old(worker.Entries()), now) && SubMap(worker.Entries(), old(worker.Entries()))
      ensures worker.disk.coolLen == old(worker.disk.coolLen)
      ensures worker.disk.Files() == Next(Next(old(worker.disk.Files()), FlushCool), FlushJournal)
      ensures worker.disk.backup.buf == []
      ensures old(worker.disk.Logged()) ==> worker.disk.Logged() && worker.disk.InOrder()
      ensures old(worker.Journaled()) ==> worker.Journaled()
    {
      worker.Fsync();
      worker.ExpireDue(SWEEP_LIMIT, now);
    }

    /** The loop while no message arrives, one tick per clock reading: when there are enough ticks for
        the queue entries that were due at the beginning, no key that had expired by then is left. */
    method IdleTicks(times: seq<nat>, ghost begin: nat)
      requires worker.Valid() && worker.clock <= begin
      requires forall i | 0 <= i < |times| :: begin <= times[i]
      requires forall i, j | 0 <= i < j < |times| :: times[i] <= times[j]
      requires DueCount(worker.expiries, begin) <= |times| * SWEEP_LIMIT
      modifies worker, worker.disk
      ensures worker.Valid() && SubMap(worker.Entries(), old(worker.Entries()))
      ensures forall k | k in worker.Entries() :: !Expired(worker.Entries()[k], begin)
      ensures forall k | k in old(worker.Entries()) && k !in worker.Entries() ::
                Expired(old(worker.Entries())[k], if times == [] then begin else times[|times| - 1])
    {
      hide Located, InStep, EntriesOf, Follows, LoggedFiles, Ordered, Next, DueCount, AfterSweep, OnSweep;
      ghost var q := worker.expiries;
      QueueIsTimed(worker.index, worker.cache, worker.recency, q, worker.disk.cool.All());
      assert times[0..] == times;
      for n := 0 to |times|
        invariant worker.Valid() && (worker.clock <= if n == 0 then begin else times[n - 1])
        invariant AfterTicks(worker.expiries, times[n..], SWEEP_LIMIT) == AfterTicks(q, times, SWEEP_LIMIT)
        invariant SubMap(worker.Entries(), old(worker.Entries()))
        invariant n == 0 ==> worker.Entries() == old(worker.Entries())
        invariant n > 0 ==> Live(worker.Entries(), times[n - 1]) == Live(old(worker.Entries()), times[n - 1])
      {
        ghost var before, s := worker.Entries(), worker.View();
        assert times[n..][0] == times[n] && times[n..][1..] == times[n + 1..];
        OnTick(times[n]);
        assert worker.expiries == AfterSweep(s.queue, times[n], SWEEP_LIMIT) by { SweepQueue(s, times[n]); }
        if n > 0 {
          LiveLater(before, old(worker.Entries()), times[n - 1], times[n]);
        }
      }
      assert times[|times|..] == [];
      TicksClearDue(q, begin, times, SWEEP_LIMIT);
      NoneDue(worker.index, worker.cache, worker.recency, worker.expiries, worker.disk.cool.All(), begin);
      if times != [] {
        GoneIsExpired(worker.Entries(), old(worker.Entries()), times[|times| - 1]);
      }
    }

    /** The whole loop, until every sender is gone: over any schedule of batches and ticks the
        shard answers as the ideal map does and goes on tracking it, and its touched keys, of which its cache is a
        prefix, are those of the run that it still holds. The steps on the files are exactly
        those of the value model; they write what the answered operations say, in order; and if no batch
        needs more journal bytes than the buffer holds, the journal is behind the data after each of them. */
    method StartWorker(events: seq<Event>, ghost m: Keyspace, ghost start: nat) returns (out: seq<Reply>)
      requires worker.Valid() && worker.clock <= start && TimedEvents(events, start) && Room(|AllItems(events)|)
      requires Tracks(worker.Entries(), m, start)
      modifies worker, worker.disk
      ensures worker.Valid() && worker.clock <= EndTime(events, start)
      ensures var o := OnEvents(worker.budget, old(worker.View()), events);
              worker.View() == o.shard && out == o.replies && worker.disk.trace == old(worker.disk.trace) + o.steps
      ensures AllAgree(AllItems(events), out, Run(m, AllItems(events)).1)
      ensures Tracks(worker.Entries(), Run(m, AllItems(events)).0, EndTime(events, start))
      ensures forall order | Recent(old(worker.View()), order) :: Recent(worker.View(), OrderAfter(m, order, AllItems(events)))
      ensures Backed(worker.View()) && Within(worker.budget, worker.View())
      ensures worker.budget == 0 && Whole(old(worker.View())) ==> Whole(worker.View())
      ensures old(worker.disk.Logged()) ==> worker.disk.Logged() && (events != [] ==> worker.disk.InOrder())
      ensures old(worker.Journaled()) ==> worker.Journaled()
      ensures var steps := OnEvents(worker.budget, old(worker.View()), events).steps;
              && Did(old(worker.disk.Files()), steps, worker.disk.Files(), Effects(AllItems(events), out))
              && (old(worker.disk.Logged() && worker.disk.InOrder()) ==>
                    && (AllInOrder(old(worker.disk.Files()), steps) <==> AllGuarded(old(worker.disk.Files()), steps))
                    && (old(worker.disk.backup.buf) == [] && WithinBuffer(events) ==> AllInOrder(old(worker.disk.Files()), steps)))
    {
      hide Located, InStep, EntriesOf, Follows, Weight, Ordered, Live, Tracks, SubMap, LoggedFiles, Narrow, Did,
           AllInOrder, AllGuarded, Next, Effects, Run, AllAgree, AllItems, EndTime, TimedEvents, Timed, TimeAfter,
           BatchBytes, WithinBuffer, Covered, Backed, Whole, Footprint, OnBatch, OnSweep, OnEvents, LegalRun, RunSteps, Recent, OrderAfter;
      out := [];
      var todo := events;
      ViewCovered(worker.index, worker.cache, worker.recency, worker.expiries, worker.disk.cool.All());
      ghost var m', t, f0, s0, b, tr := m, start, worker.disk.Files(), worker.View(), worker.budget, worker.disk.trace;
      ViewBacked(worker.index, worker.cache, worker.recency, worker.expiries, worker.disk.cool.All());
      NothingToDo(b, s0, events, tr);
      while todo != []
        invariant |todo| <= |events|
        invariant worker.Valid() && worker.clock <= t && TimedEvents(todo, t) && Tracks(worker.Entries(), m', t)
        invariant EndTime(todo, t) == EndTime(events, start)
        invariant Still(b, s0, events, worker.View(), todo, out, worker.disk.trace, tr)
        invariant Room(|AllItems(todo)|)
        invariant old(worker.disk.Logged()) ==> worker.disk.Logged() && (|todo| < |events| ==> worker.disk.InOrder())
        invariant old(worker.Journaled()) ==> worker.Journaled()
        decreases |todo|
      {
        ghost var s, trace := worker.View(), worker.disk.trace;
        NextEvent(todo, t);
        match todo[0] {
          case Batch(items) =>
            var replies := ApplyBatch(items, m', t);
            StillBatch(b, s0, events, s, todo, out, trace, tr, items);
            out := out + replies;
            t, m' := TimeAfter(items, t), Run(m', items).0;
          case Tick(now) =>
            OnTick(now);
            StillTick(b, s0, events, s, todo, out, trace, tr, now);
            TracksLater(s.m, m', t, now);
            TracksSwept(s.m, m', worker.Entries(), now);
            t := now;
        }
        todo := todo[1..];
      }
      NoMore(t);
      ViewCovered(worker.index, worker.cache, worker.recency, worker.expiries, worker.disk.cool.All());
      AllDone(b, s0, events, worker.View(), out, worker.disk.trace, tr);
      EventsOutcome(b, s0, events, m, start);
      TraceDid(worker.disk.origin, tr, f0, OnEvents(b, s0, events).steps, worker.disk.Files());
      EventsInOrder(b, s0, events, f0, worker.disk.Files());
      EventsCache(b, s0, events);
    }
  }

  // --- Facts used by the loops ---

  lemma NextItem(b: nat, s: Shard, items: seq<Item>, i: nat)
    requires i < |items|
    ensures var o := OnItems(b, s, items[..i]); var (s', payload, steps) := OnOp(b, o.shard, items[i].op, items[i].now);
            OnItems(b, s, items[..i + 1]) == Outcome(s', o.replies + [Reply(items[i].id, payload)], o.steps + steps)
  {
    assert items[..i + 1][..i] == items[..i];
  }

  /** Steps traced from one state of the files to another lead there. */
  lemma TraceDid(origin: Files, trace: seq<DiskStep>, f: Files, steps: seq<DiskStep>, f': Files)
    requires LegalRun(origin, trace) && RunSteps(origin, trace) == f
    requires LegalRun(origin, trace + steps) && RunSteps(origin, trace + steps) == f'
    ensures LegalRun(f, steps) && RunSteps(f, steps) == f'
  {
    StepsAppend(origin, trace, steps);
  }

  lemma BatchOutcome(b: nat, s: Shard, items: seq<Item>, m: Keyspace, start: nat)
    requires Tracks(s.m, m, start) && Timed(items, start)
    ensures var o := OnBatch(b, s, items);
            && AllAgree(items, o.replies, Run(m, items).1)
            && Tracks(o.shard.m, Run(m, items).0, TimeAfter(items, start))
            && forall order | Recent(s, order) :: Recent(o.shard, OrderAfter(m, order, items))
  {
    hide Tracks, Timed, AllAgree, Recent, OnItems, OrderAfter;
    var o := OnBatch(b, s, items);
    ItemsTrack(b, s, items, m, start);
    forall order | Recent(s, order)
      ensures Recent(o.shard, OrderAfter(m, order, items))
    {
      ItemsRecent(b, s, items, m, start, order);
      SameRecent(OnItems(b, s, items).shard, o.shard, OrderAfter(m, order, items));
    }
  }

  lemma BatchInOrder(b: nat, s: Shard, items: seq<Item>, f: Files, f': Files)
    requires LegalRun(f, OnBatch(b, s, items).steps) && RunSteps(f, OnBatch(b, s, items).steps) == f'
    ensures var o := OnBatch(b, s, items);
            && Did(f, o.steps, f', Effects(items, o.replies))
            && (LoggedFiles(f) && InOrder(f) && |f.backup.buf| + BatchBytes(items) <= BUF_CAPACITY ==> AllInOrder(f, o.steps))
  {
    hide LegalRun, RunSteps, LoggedFiles, InOrder, OnBatch, Effects, FitsBuffer, BatchBytes, AllInOrder;
    BatchSteps(b, s, items, |f.backup.buf|);
    if LoggedFiles(f) && InOrder(f) && |f.backup.buf| + BatchBytes(items) <= BUF_CAPACITY {
      FitsBufferInOrder(f, OnBatch(b, s, items).steps);
    }
  }

  /** What is done and what is still to do make up the whole run. */
  predicate Still(b: nat, s0: Shard, events: seq<Event>, s: Shard, todo: seq<Event>, out: seq<Reply>, trace: seq<DiskStep>,
                  tr: seq<DiskStep>)
  {
    var all, rest := OnEvents(b, s0, events), OnEvents(b, s, todo);
    rest.shard == all.shard && out + rest.replies == all.replies && trace + rest.steps == tr + all.steps
  }

  lemma NothingToDo(b: nat, s0: Shard, events: seq<Event>, tr: seq<DiskStep>)
    ensures Still(b, s0, events, s0, events, [], tr, tr)
  {
    assert [] + OnEvents(b, s0, events).replies == OnEvents(b, s0, events).replies;
  }

  lemma StillBatch(b: nat, s0: Shard, events: seq<Event>, s: Shard, todo: seq<Event>, out: seq<Reply>, trace: seq<DiskStep>,
                   tr: seq<DiskStep>, items: seq<Item>)
    requires Still(b, s0, events, s, todo, out, trace, tr) && todo != [] && todo[0] == Batch(items)
    ensures var o := OnBatch(b, s, items); Still(b, s0, events, o.shard, todo[1..], out + o.replies, trace + o.steps, tr)
  {
    hide OnBatch;
    var o := OnBatch(b, s, items);
    var rest := OnEvents(b, o.shard, todo[1..]);
    Assoc(out, o.replies, rest.replies);
    Assoc(trace, o.steps, rest.steps);
  }

  lemma StillTick(b: nat, s0: Shard, events: seq<Event>, s: Shard, todo: seq<Event>, out: seq<Reply>, trace: seq<DiskStep>,
                  tr: seq<DiskStep>, now: nat)
    requires Still(b, s0, events, s, todo, out, trace, tr) && todo != [] && todo[0] == Tick(now)
    ensures Still(b, s0, events, OnSweep(s, now, SWEEP_LIMIT), todo[1..], out, trace + BothFlushes(), tr)
  {
    hide OnSweep;
    Assoc(trace, BothFlushes(), OnEvents(b, OnSweep(s, now, SWEEP_LIMIT), todo[1..]).steps);
  }

  lemma AllDone(b: nat, s0: Shard, events: seq<Event>, s: Shard, out: seq<Reply>, trace: seq<DiskStep>, tr: seq<DiskStep>)
    requires Still(b, s0, events, s, [], out, trace, tr)
    ensures var o := OnEvents(b, s0, events); s == o.shard && out == o.replies && trace == tr + o.steps
  {
    assert OnEvents(b, s, []) == Outcome(s, [], []);
    assert out + [] == out && trace + [] == trace;
  }

  lemma EventsOutcome(b: nat, s: Shard, events: seq<Event>, m: Keyspace, start: nat)
    requires Covered(s) && Tracks(s.m, m, start) && TimedEvents(events, start)
    ensures var o, items := OnEvents(b, s, events), AllItems(events);
            && AllAgree(items, o.replies, Run(m, items).1)
            && Tracks(o.shard.m, Run(m, items).0, EndTime(events, start))
            && forall order | Recent(s, order) :: Recent(o.shard, OrderAfter(m, order, items))
  {
    hide Covered, Tracks, TimedEvents, AllAgree, Recent, OnEvents, OrderAfter;
    EventsTrack(b, s, events, m, start);
    forall order | Recent(s, order)
      ensures Recent(OnEvents(b, s, events).shard, OrderAfter(m, order, AllItems(events)))
    {
      EventsRecent(b, s, events, m, start, order);
    }
  }

  lemma EventsInOrder(b: nat, s: Shard, events: seq<Event>, f: Files, f': Files)
    requires LegalRun(f, OnEvents(b, s, events).steps) && RunSteps(f, OnEvents(b, s, events).steps) == f'
    ensures var o := OnEvents(b, s, events);
            && Did(f, o.steps, f', Effects(AllItems(events), o.replies))
            && (LoggedFiles(f) && InOrder(f) ==>
                  && (AllInOrder(f, o.steps) <==> AllGuarded(f, o.steps))
                  && (f.backup.buf == [] && WithinBuffer(events) ==> AllInOrder(f, o.steps)))
  {
    hide LegalRun, RunSteps, LoggedFiles, InOrder, OnEvents, Effects, FitsBuffer, WithinBuffer, AllInOrder, AllGuarded;
    var o := OnEvents(b, s, events);
    EventsSteps(b, s, events);
    if LoggedFiles(f) && InOrder(f) {
      InOrderIffGuarded(f, o.steps);
      if f.backup.buf == [] && WithinBuffer(events) {
        FitsBufferInOrder(f, o.steps);
      }
    }
  }

  lemma ViewCovered(ix: Index, cache: seq<Hot>, recency: seq<bytes>, q: seq<Due>, cool: bytes)
    requires Located(ix, cool) && InStep(ix, cache, recency, q, cool)
    ensures Covered(Shard(EntriesOf(ix, cool), cache, recency, q)) && Keys(cache) <= recency
  {
    assert forall i | 0 <= i < |q| :: q[i] in q;
  }

  lemma ViewBacked(ix: Index, cache: seq<Hot>, recency: seq<bytes>, q: seq<Due>, cool: bytes)
    requires Located(ix, cool) && InStep(ix, cache, recency, q, cool)
    ensures Backed(Shard(EntriesOf(ix, cool), cache, recency, q))
  {
  }

  lemma SweepQueue(s: Shard, now: nat)
    ensures OnSweep(s, now, SWEEP_LIMIT).queue == AfterSweep(s.queue, now, SWEEP_LIMIT)
  {
  }

  lemma QueueIsTimed(ix: Index, cache: seq<Hot>, recency: seq<bytes>, q: seq<Due>, cool: bytes)
    requires Located(ix, cool) && InStep(ix, cache, recency, q, cool)
    ensures ByTime(q)
  {
  }

  /** Every expiry is queued, so with nothing due in the queue nothing has expired. */
  lemma NoneDue(ix: Index, cache: seq<Hot>, recency: seq<bytes>, q: seq<Due>, cool: bytes, now: nat)
    requires Located(ix, cool) && InStep(ix, cache, recency, q, cool) && DueCount(q, now) == 0
    ensures forall k | k in EntriesOf(ix, cool) :: !Expired(EntriesOf(ix, cool)[k], now)
  {
    forall k | k in ix && ix[k].exp != 0
      ensures ix[k].exp > now
    {
      var i :| 0 <= i < |q| && q[i] == Due(ix[k].exp, k);
      assert i > 0 ==> q[0].t <= q[i].t;
    }
  }

  lemma GoneIsExpired(a: Keyspace, b: Keyspace, t: nat)
    requires Live(a, t) == Live(b, t)
    ensures forall k | k in b && k !in a :: Expired(b[k], t)
  {
    forall k | k in b && k !in a
      ensures Expired(b[k], t)
    {
      assert k !in Live(a, t);
    }
  }

  /** No silent truncation on the way out: whatever a shard in a valid state answers fits the u16 length of a
      response frame, so the client decodes exactly that answer, for a GET exactly the stored value. */
  lemma EveryReplyArrives(ix: Index, cool: bytes, op: Op, now: nat, id: nat)
    requires Located(ix, cool) && id < U32
    ensures var f := Frame(RESPONSE, id, Actual(EntriesOf(ix, cool), op, now).1);
            DecodeOne(false, EncodeFrame(f)) == Got(f, |EncodeFrame(f)|)
  {
    EntryAt(ix, cool, op.key);
    FrameRoundTrip(false, Frame(RESPONSE, id, Actual(EntriesOf(ix, cool), op, now).1));
  }
}
