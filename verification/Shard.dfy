/** A shard as a value: what each event of its loop does to map, cache, recency and TTL queue, what it answers, and
    what it does to the files; and what that comes to over whole runs. */
module Shards {
  import opened Prelude
  import opened DiskFiles
  import opened DiskRuns
  import opened Expiry
  import opened Lru
  import opened TtlMap
  import opened Wire

  /** The stored map, the cache and the touched keys (most recent first), and the TTL queue. */
  datatype Shard = Shard(m: Keyspace, cache: seq<Hot>, recency: seq<bytes>, queue: seq<Due>)

  /** What some events lead to. */
  datatype Outcome = Outcome(shard: Shard, replies: seq<Reply>, steps: seq<DiskStep>)

  const SWEEP_LIMIT: nat := 256

  /** The longest cool record the protocol can cause. */
  const MAX_RECORD: nat := 131085

  /** Far enough from the end of the u64 clock that `now + ttl` cannot wrap. */
  const TIME_LIMIT: nat := 0xFFFF_FFFF_0000_0000

  datatype Event = Batch(items: seq<Item>) | Tick(now: nat)

  /** Items as they reach a worker: storable operations and a clock that never runs back. */
  predicate Timed(items: seq<Item>, start: nat) {
    && (forall i | 0 <= i < |items| :: StorableOp(items[i].op) && start <= items[i].now < TIME_LIMIT)
    && (forall i, j | 0 <= i < j < |items| :: items[i].now <= items[j].now)
  }

  function TimeAfter(items: seq<Item>, start: nat): (t: nat)
  {
    if items == [] then start else items[|items| - 1].now
  }

  predicate TimedEvents(events: seq<Event>, start: nat)
    decreases |events|
  {
    events == [] ||
    match events[0]
    case Batch(items) => Timed(items, start) && TimedEvents(events[1..], TimeAfter(items, start))
    case Tick(now) => start <= now < TIME_LIMIT && TimedEvents(events[1..], now)
  }

  function EndTime(events: seq<Event>, start: nat): (t: nat)
    decreases |events|
  {
    if events == [] then start
    else
      match events[0]
      case Batch(items) => EndTime(events[1..], TimeAfter(items, start))
      case Tick(now) => EndTime(events[1..], now)
  }

  /** Every operation of a run, in the order the worker applies them. */
  function AllItems(events: seq<Event>): (items: seq<Item>)
    decreases |events|
  {
    if events == [] then []
    else (match events[0] case Batch(items) => items case Tick(_) => []) + AllItems(events[1..])
  }

  // --- One operation ---

  function OnWrite(budget: nat, s: Shard, k: bytes, v: bytes, exp: nat): (s': Shard)
  {
    Shard(s.m[k := Entry(v, exp)], Trim(budget, Put(s.cache, k, v)), Touch(s.recency, k),
          if exp != 0 then Push(s.queue, Due(exp, k)) else s.queue)
  }

  /** A GET promotes what is cached and reads the rest from the log; it leaves nothing of an expired key. */
  function OnGet(budget: nat, s: Shard, k: bytes, now: nat): (r: (Shard, bytes, seq<DiskStep>))
  {
    if k !in Live(s.m, now) then (Shard(s.m - {k}, Drop(s.cache, k), Without(s.recency, k), s.queue), RESP_NIL, [])
    else
      var touched := Put(s.cache, k, s.m[k].value);
      if Find(s.cache, k).Some? then (s.(cache := touched, recency := Touch(s.recency, k)), s.m[k].value, [])
      else (s.(cache := Trim(budget, touched), recency := Touch(s.recency, k)), s.m[k].value, [ColdRead])
  }

  /** New state, answer, and the steps on the files: none but one append for a SET, SETEX or DEL of a present key, and
      one cold read for a GET that hits what is not cached. */
  function OnOp(budget: nat, s: Shard, op: Op, now: nat): (r: (Shard, bytes, seq<DiskStep>))
  {
    match op
    case Get(k) => OnGet(budget, s, k, now)
    case Set(k, v) => (OnWrite(budget, s, k, v, 0), RESP_OK, [PutStep(k, v, 0)])
    case SetEx(k, v, ttl) => (OnWrite(budget, s, k, v, now + ttl), RESP_OK, [PutStep(k, v, now + ttl)])
    case Del(k) =>
      var s' := Shard(s.m - {k}, Drop(s.cache, k), Without(s.recency, k), s.queue);
      if k in s.m then (s', RESP_ONE, [DelStep(k)]) else (s', RESP_ZERO, [])
  }

  function OnItems(budget: nat, s: Shard, items: seq<Item>): (o: Outcome)
    ensures |o.replies| == |items|
  {
    if items == [] then Outcome(s, [], [])
    else
      var x := items[|items| - 1];
      var o := OnItems(budget, s, items[..|items| - 1]);
      var (s', payload, steps) := OnOp(budget, o.shard, x.op, x.now);
      Outcome(s', o.replies + [Reply(x.id, payload)], o.steps + steps)
  }

  function BothFlushes(): (steps: seq<DiskStep>)
  {
    [FlushCool, FlushJournal]
  }

  /** One message: its operations, then one flush of both files and an eviction. */
  function OnBatch(budget: nat, s: Shard, items: seq<Item>): (o: Outcome)
    ensures |o.replies| == |items|
  {
    var o := OnItems(budget, s, items);
    Outcome(o.shard.(cache := Trim(budget, o.shard.cache)), o.replies, o.steps + BothFlushes())
  }

  /** The map without the keys whose expiry is among `popped`. */
  function SweptMap(m: Keyspace, popped: seq<Due>): (m': Keyspace)
  {
    map k | k in m && Due(m[k].exp, k) !in popped :: m[k]
  }

  /** A sweep that pops at most `limit` queue entries: what it removes leaves cache and recency, too, and nothing else does. */
  function OnSweep(s: Shard, now: nat, limit: nat): (s': Shard)
  {
    var m := SweptMap(s.m, Popped(s.queue, now, limit));
    Shard(m, OnlyHot(s.cache, m.Keys), OnlyKeys(s.recency, m.Keys), AfterSweep(s.queue, now, limit))
  }

  /** The loop: a batch answers and flushes; a tick flushes and sweeps. */
  function OnEvents(budget: nat, s: Shard, events: seq<Event>): (o: Outcome)
    ensures |o.replies| == |AllItems(events)|
    decreases |events|
  {
    if events == [] then Outcome(s, [], [])
    else
      match events[0]
      case Batch(items) =>
        var o := OnBatch(budget, s, items);
        var rest := OnEvents(budget, o.shard, events[1..]);
        Outcome(rest.shard, o.replies + rest.replies, o.steps + rest.steps)
      case Tick(now) =>
        var rest := OnEvents(budget, OnSweep(s, now, SWEEP_LIMIT), events[1..]);
        Outcome(rest.shard, rest.replies, BothFlushes() + rest.steps)
  }

  lemma NoMore(t: nat)
    ensures AllItems([]) == [] && EndTime([], t) == t
  {
  }

  lemma NextEvent(todo: seq<Event>, t: nat)
    requires todo != [] && TimedEvents(todo, t)
    ensures todo[0].Batch? ==>
              && AllItems(todo) == todo[0].items + AllItems(todo[1..]) && Timed(todo[0].items, t)
              && TimedEvents(todo[1..], TimeAfter(todo[0].items, t))
              && EndTime(todo, t) == EndTime(todo[1..], TimeAfter(todo[0].items, t))
    ensures todo[0].Tick? ==>
              && AllItems(todo) == AllItems(todo[1..]) && t <= todo[0].now < TIME_LIMIT
              && TimedEvents(todo[1..], todo[0].now) && EndTime(todo, t) == EndTime(todo[1..], todo[0].now)
    ensures WithinBuffer(todo) ==> WithinBuffer(todo[1..]) && (todo[0].Batch? ==> BatchBytes(todo[0].items) <= BUF_CAPACITY)
  {
    assert [] + AllItems(todo[1..]) == AllItems(todo[1..]);
  }

  // --- The map and the answers ---

  /** On the stored map an operation does, and answers, what `Actual` says. */
  lemma OpIsActual(budget: nat, s: Shard, op: Op, now: nat)
    ensures var (s', payload, _) := OnOp(budget, s, op, now); (s'.m, payload) == Actual(s.m, op, now)
  {
    if op.Get? {
      assert op.key !in s.m ==> s.m - {op.key} == s.m;
    }
  }

  lemma NextReply(items: seq<Item>, i: nat, m: Keyspace, p: Keyspace, t: nat, replies: seq<Reply>, r: Reply)
    requires i < |items| && t <= items[i].now && r.id == items[i].id
    requires AllAgree(items[..i], replies, Run(m, items[..i]).1)
    requires Tracks(p, Run(m, items[..i]).0, t)
    requires r.payload == Actual(p, items[i].op, items[i].now).1
    ensures AllAgree(items[..i + 1], replies + [r], Run(m, items[..i + 1]).1)
    ensures Tracks(Actual(p, items[i].op, items[i].now).0, Run(m, items[..i + 1]).0, items[i].now)
  {
    var x := items[i];
    var (m1, rs) := Run(m, items[..i]);
    assert items[..i + 1] == items[..i] + [x];
    RunAppend(m, items[..i], [x]);
    RunOne(m1, x);
    TracksLater(p, m1, t, x.now);
    StepTracks(p, m1, x.op, x.now);
    AgreeAppend(items[..i], replies, rs, [x], [r], Run(m1, [x]).1);
  }

  /** A batch answers as the ideal map does, and goes on tracking it. */
  lemma {:induction false} ItemsTrack(budget: nat, s: Shard, items: seq<Item>, m: Keyspace, start: nat)
    requires Tracks(s.m, m, start) && Timed(items, start)
    ensures var o := OnItems(budget, s, items);
            && AllAgree(items, o.replies, Run(m, items).1)
            && Tracks(o.shard.m, Run(m, items).0, TimeAfter(items, start))
  {
    hide OnOp, Tracks, AllAgree, Actual;
    if items == [] {
      assert AllAgree([], [], Run(m, []).1) by { NoneAgree(m); }
    } else {
      var n := |items| - 1;
      var init, x := items[..n], items[n];
      ItemsTrack(budget, s, init, m, start);
      var o := OnItems(budget, s, init);
      OpIsActual(budget, o.shard, x.op, x.now);
      assert items[..n + 1] == items;
      NextReply(items, n, m, o.shard.m, TimeAfter(init, start), o.replies, Reply(x.id, OnOp(budget, o.shard, x.op, x.now).1));
    }
  }

  lemma NoneAgree(m: Keyspace)
    ensures AllAgree([], [], Run(m, []).1)
  {
  }

  lemma SweepTracks(s: Shard, m: Keyspace, t: nat, now: nat, limit: nat)
    requires Tracks(s.m, m, t) && t <= now
    requires Live(OnSweep(s, now, limit).m, now) == Live(s.m, now)
    ensures Tracks(OnSweep(s, now, limit).m, m, now)
  {
    TracksLater(s.m, m, t, now);
    TracksSwept(s.m, m, OnSweep(s, now, limit).m, now);
  }

  /** What a queue holds: every entry a real expiry, in order of time, and every expiry of the map. */
  predicate Covered(s: Shard) {
    && ByTime(s.queue) && (forall i | 0 <= i < |s.queue| :: s.queue[i].t != 0)
    && (forall k | k in s.m && s.m[k].exp != 0 :: Due(s.m[k].exp, k) in s.queue)
  }

  /** A sweep takes only what has expired. */
  lemma SweepIsInvisible(s: Shard, now: nat, limit: nat)
    requires Covered(s)
    ensures Live(OnSweep(s, now, limit).m, now) == Live(s.m, now) && SubMap(OnSweep(s, now, limit).m, s.m)
  {
    var popped := Popped(s.queue, now, limit);
    forall k | k in s.m && Due(s.m[k].exp, k) in popped
      ensures Expired(s.m[k], now)
    {
      var i :| 0 <= i < |popped| && popped[i] == Due(s.m[k].exp, k);
      assert popped[i] == s.queue[i];
    }
  }

  /** A tick takes 256 queue entries, or all that are due if they are fewer; with no more than 256 due, nothing
      that has expired is left. */
  lemma TickCollects(s: Shard, now: nat)
    requires Covered(s)
    ensures var s' := OnSweep(s, now, SWEEP_LIMIT); var n := DueCount(s.queue, now);
            && |s'.queue| == |s.queue| - (if n < 256 then n else 256)
            && (n <= 256 ==> s'.m == Live(s.m, now))
  {
    var popped, n := Popped(s.queue, now, SWEEP_LIMIT), DueCount(s.queue, now);
    SweepIsInvisible(s, now, SWEEP_LIMIT);
    if n <= 256 {
      forall k | k in s.m && Expired(s.m[k], now)
        ensures Due(s.m[k].exp, k) in popped
      {
        var i :| 0 <= i < |s.queue| && s.queue[i] == Due(s.m[k].exp, k);
        if n <= i {
          NotDueAfter(s.queue, now, i);
        }
        assert popped[i] == s.queue[i];
      }
    }
  }

  lemma {:induction false} CoveredPush(h: seq<Due>, e: Due)
    requires ByTime(h) && (forall i | 0 <= i < |h| :: h[i].t != 0) && e.t != 0
    ensures ByTime(Push(h, e)) && forall i | 0 <= i < |Push(h, e)| :: Push(h, e)[i].t != 0
  {
    PushSorted(h, e);
    forall i | 0 <= i < |Push(h, e)|
      ensures Push(h, e)[i].t != 0
    {
      assert Push(h, e)[i] in Push(h, e);
    }
  }

  lemma OpCovered(budget: nat, s: Shard, op: Op, now: nat)
    requires Covered(s)
    ensures Covered(OnOp(budget, s, op, now).0)
  {
    hide Trim, Put, Drop, Find, Touch, Without, Push, Live;
    if op.SetEx? && now + op.ttl != 0 {
      CoveredPush(s.queue, Due(now + op.ttl, op.key));
    }
  }

  lemma {:induction false} ItemsCovered(budget: nat, s: Shard, items: seq<Item>)
    requires Covered(s)
    ensures Covered(OnItems(budget, s, items).shard)
  {
    hide OnOp, Covered;
    if items != [] {
      ItemsCovered(budget, s, items[..|items| - 1]);
      OpCovered(budget, OnItems(budget, s, items[..|items| - 1]).shard, items[|items| - 1].op, items[|items| - 1].now);
    }
  }

  lemma SweepCovered(s: Shard, now: nat, limit: nat)
    requires Covered(s)
    ensures Covered(OnSweep(s, now, limit))
  {
    hide DueCount, AfterSweep, Popped, OnlyHot, OnlyKeys;
    var popped, rest := Popped(s.queue, now, limit), AfterSweep(s.queue, now, limit);
    SuffixInTime(s.queue, popped, rest);
    forall k | k in s.m && s.m[k].exp != 0 && Due(s.m[k].exp, k) !in popped
      ensures Due(s.m[k].exp, k) in rest
    {
      InRest(popped, rest, Due(s.m[k].exp, k));
    }
  }

  lemma SuffixInTime(h: seq<Due>, a: seq<Due>, b: seq<Due>)
    requires h == a + b && ByTime(h) && forall i | 0 <= i < |h| :: h[i].t != 0
    ensures ByTime(b) && forall i | 0 <= i < |b| :: b[i].t != 0
  {
    assert forall i | 0 <= i < |b| :: b[i] == h[|a| + i];
  }

  lemma InRest<T>(a: seq<T>, b: seq<T>, x: T)
    requires x in a + b && x !in a
    ensures x in b
  {
  }

  /** Over any run the shard answers as the ideal map does, and goes on tracking it. */
  lemma {:induction false} EventsTrack(budget: nat, s: Shard, events: seq<Event>, m: Keyspace, start: nat)
    requires Covered(s) && Tracks(s.m, m, start) && TimedEvents(events, start)
    ensures var o, items := OnEvents(budget, s, events), AllItems(events);
            && AllAgree(items, o.replies, Run(m, items).1)
            && Tracks(o.shard.m, Run(m, items).0, EndTime(events, start))
            && Covered(o.shard)
    decreases |events|
  {
    hide OnItems, OnSweep, Covered, Tracks, AllAgree, Timed, TimeAfter, TimedEvents, EndTime, Run;
    if events == [] {
      NoneAgree(m);
      NoMore(start);
      RunNone(m);
    } else {
      var rest := events[1..];
      NextEvent(events, start);
      match events[0]
      case Batch(items) =>
        var o := OnBatch(budget, s, items);
        ItemsTrack(budget, s, items, m, start);
        ItemsCovered(budget, s, items);
        SameMap(OnItems(budget, s, items).shard, o.shard);
        EventsTrack(budget, o.shard, rest, Run(m, items).0, TimeAfter(items, start));
        MoreReplies(m, items, o.replies, AllItems(rest), OnEvents(budget, o.shard, rest).replies);
      case Tick(now) =>
        SweepIsInvisible(s, now, SWEEP_LIMIT);
        SweepTracks(s, m, start, now, SWEEP_LIMIT);
        SweepCovered(s, now, SWEEP_LIMIT);
        EventsTrack(budget, OnSweep(s, now, SWEEP_LIMIT), rest, m, now);
    }
  }

  lemma RunNone(m: Keyspace)
    ensures Run(m, []) == (m, [])
  {
  }

  lemma SameMap(s: Shard, s': Shard)
    requires Covered(s) && s'.m == s.m && s'.queue == s.queue
    ensures Covered(s')
  {
  }

  lemma MoreReplies(m: Keyspace, done: seq<Item>, out: seq<Reply>, items: seq<Item>, replies: seq<Reply>)
    requires AllAgree(done, out, Run(m, done).1)
    requires AllAgree(items, replies, Run(Run(m, done).0, items).1)
    ensures AllAgree(done + items, out + replies, Run(m, done + items).1)
    ensures Run(m, done + items).0 == Run(Run(m, done).0, items).0
    ensures |out| == |done| && |replies| == |items|
  {
    RunAppend(m, done, items);
    var (m1, rs) := Run(m, done);
    AgreeAppend(done, out, rs, items, replies, Run(m1, items).1);
  }

  // --- What operations leave on file ---

  /** What one operation, answered by `payload`, writes. */
  function Effect(op: Op, now: nat, payload: bytes): (ws: seq<Write>)
  {
    match op
    case Get(_) => []
    case Set(k, v) => [Wrote(k, v, 0)]
    case SetEx(k, v, ttl) => [Wrote(k, v, now + ttl)]
    case Del(k) => if payload == RESP_ONE then [Erased(k)] else []
  }

  function Effects(items: seq<Item>, replies: seq<Reply>): (ws: seq<Write>)
    requires |items| == |replies|
  {
    if items == [] then []
    else
      var n := |items| - 1;
      Effects(items[..n], replies[..n]) + Effect(items[n].op, items[n].now, replies[n].payload)
  }

  lemma {:induction false} EffectsAppend(a: seq<Item>, ra: seq<Reply>, b: seq<Item>, rb: seq<Reply>)
    requires |a| == |ra| && |b| == |rb|
    ensures Effects(a + b, ra + rb) == Effects(a, ra) + Effects(b, rb)
    decreases |b|
  {
    hide Effect;
    if b == [] {
      assert a + b == a && ra + rb == ra;
    } else {
      var n := |b| - 1;
      assert (a + b)[..|a + b| - 1] == a + b[..n] && (ra + rb)[..|a + b| - 1] == ra + rb[..n];
      assert (a + b)[|a + b| - 1] == b[n] && (ra + rb)[|a + b| - 1] == rb[n];
      EffectsAppend(a, ra, b[..n], rb[..n]);
      Assoc(Effects(a, ra), Effects(b[..n], rb[..n]), Effect(b[n].op, b[n].now, rb[n].payload));
    }
  }

  /** Journal bytes an operation may need. */
  function OpBytes(op: Op): (n: nat)
  {
    match op
    case Get(_) => 0
    case Del(k) => 3 + |k|
    case _ => 23 + |op.key|
  }

  function BatchBytes(items: seq<Item>): (n: nat)
  {
    if items == [] then 0 else BatchBytes(items[..|items| - 1]) + OpBytes(items[|items| - 1].op)
  }

  lemma {:induction false} BatchBytesMonotone(items: seq<Item>, i: nat)
    requires i <= |items|
    ensures BatchBytes(items[..i]) <= BatchBytes(items)
  {
    if i < |items| {
      BatchBytesMonotone(items[..|items| - 1], i);
      assert items[..|items| - 1][..i] == items[..i];
    } else {
      assert items[..i] == items;
    }
  }

  /** No batch needs more journal bytes than the buffer holds. */
  predicate WithinBuffer(events: seq<Event>) {
    forall i | 0 <= i < |events| && events[i].Batch? :: BatchBytes(events[i].items) <= BUF_CAPACITY
  }

  // --- The steps on the files ---

  /** One operation's step writes what its answer says, and never flushes the journal. */
  lemma OpSteps(budget: nat, s: Shard, op: Op, now: nat)
    ensures var (_, payload, steps) := OnOp(budget, s, op, now);
            && Appended(steps) == Effect(op, now, payload) && Unflushed(steps) && TotalBytes(steps) <= OpBytes(op)
            && (!op.Del? || payload == RESP_ONE ==> TotalBytes(steps) == OpBytes(op))
  {
    var (_, payload, steps) := OnOp(budget, s, op, now);
    hide Trim, Put, Drop, Find, Live;
    if steps != [] {
      assert steps == [steps[0]] && steps[..0] == [];
    }
  }

  lemma {:induction false} ItemsSteps(budget: nat, s: Shard, items: seq<Item>)
    ensures var o := OnItems(budget, s, items);
            && Appended(o.steps) == Effects(items, o.replies)
            && Unflushed(o.steps) && TotalBytes(o.steps) <= BatchBytes(items)
            && ((forall i | 0 <= i < |items| && items[i].op.Del? :: o.replies[i].payload == RESP_ONE) ==>
                  TotalBytes(o.steps) == BatchBytes(items))
  {
    if items != [] {
      var n := |items| - 1;
      var init, x := items[..n], items[n];
      ItemsSteps(budget, s, init);
      var o := OnItems(budget, s, init);
      var (s', payload, steps) := OnOp(budget, o.shard, x.op, x.now);
      OpSteps(budget, o.shard, x.op, x.now);
      hide OnOp, Effect, OpBytes, Appended, TotalBytes;
      AppendedAppend(o.steps, steps);
      TotalAppend(o.steps, steps);
      assert (o.replies + [Reply(x.id, payload)])[..n] == o.replies;
    }
  }

  lemma BatchSteps(budget: nat, s: Shard, items: seq<Item>, n: nat)
    ensures var o := OnBatch(budget, s, items);
            && Appended(o.steps) == Effects(items, o.replies)
            && (n + BatchBytes(items) <= BUF_CAPACITY ==> FitsBuffer(n, o.steps) && Fill(n, o.steps) == 0)
  {
    var o := OnItems(budget, s, items);
    ItemsSteps(budget, s, items);
    hide OnItems, Effects, FitsBuffer, Fill, TotalBytes;
    AppendedAppend(o.steps, BothFlushes());
    NothingFlushed();
    assert Appended(o.steps) + [] == Appended(o.steps);
    if n + BatchBytes(items) <= BUF_CAPACITY {
      FlushedFits(n, o.steps);
    }
  }

  lemma NothingFlushed()
    ensures Appended(BothFlushes()) == []
  {
    assert BothFlushes()[..1] == [FlushCool] && [FlushCool][..0] == [];
    assert Appended([FlushCool]) == [];
  }

  /** One more part of a run that was flushed at the end of each part so far. */
  lemma PartFits(did: seq<DiskStep>, step: seq<DiskStep>)
    requires FitsBuffer(0, did) && Fill(0, did) == 0 && FitsBuffer(0, step) && Fill(0, step) == 0
    ensures FitsBuffer(0, did + step) && Fill(0, did + step) == 0
  {
    FillAppend(0, did, step);
  }

  /** Over any run the steps write what the answers say, in order; and if no batch needs more
      journal bytes than the buffer holds, neither does what lies between two flushes. */
  lemma {:induction false} EventsSteps(budget: nat, s: Shard, events: seq<Event>)
    ensures var o := OnEvents(budget, s, events);
            && Appended(o.steps) == Effects(AllItems(events), o.replies)
            && (WithinBuffer(events) ==> FitsBuffer(0, o.steps) && Fill(0, o.steps) == 0)
    decreases |events|
  {
    hide OnBatch, OnSweep, Effects, FitsBuffer, Fill, BatchBytes, Appended;
    if events == [] {
      NoSteps();
    } else {
      var rest := events[1..];
      match events[0]
      case Batch(items) =>
        var o := OnBatch(budget, s, items);
        var more := OnEvents(budget, o.shard, rest);
        BatchSteps(budget, s, items, 0);
        EventsSteps(budget, o.shard, rest);
        AppendedAppend(o.steps, more.steps);
        EffectsAppend(items, o.replies, AllItems(rest), more.replies);
        if WithinBuffer(events) {
          PartFits(o.steps, more.steps);
        }
      case Tick(now) =>
        var s' := OnSweep(s, now, SWEEP_LIMIT);
        var more := OnEvents(budget, s', rest);
        EventsSteps(budget, s', rest);
        AppendedAppend(BothFlushes(), more.steps);
        NothingFlushed();
        assert [] + Appended(more.steps) == Appended(more.steps);
        assert [] + AllItems(rest) == AllItems(rest);
        if WithinBuffer(events) {
          TickFits();
          PartFits(BothFlushes(), more.steps);
        }
    }
  }

  lemma NoSteps()
    ensures Appended([]) == [] && Effects([], []) == [] && FitsBuffer(0, []) && Fill(0, []) == 0
  {
  }

  lemma TickFits()
    ensures FitsBuffer(0, BothFlushes()) && Fill(0, BothFlushes()) == 0
  {
    assert BothFlushes()[..1] == [FlushCool] && [FlushCool][..0] == [];
    assert FitsBuffer(0, [FlushCool]) && Fill(0, [FlushCool]) == 0;
  }

  // --- The recency of a run ---

  /** Who was touched last after one operation, judged by the ideal map: a SET, a SETEX and a GET that
      hits touch their key, a DEL takes it out. */
  function NextOrder(m: Keyspace, order: seq<bytes>, op: Op, now: nat): (order': seq<bytes>)
  {
    match op
    case Get(k) => if k in Live(m, now) then Touch(order, k) else order
    case Set(k, _) => Touch(order, k)
    case SetEx(k, _, _) => Touch(order, k)
    case Del(k) => Without(order, k)
  }

  /** And after a run. */
  function OrderAfter(m: Keyspace, order: seq<bytes>, items: seq<Item>): (order': seq<bytes>)
  {
    if items == [] then order
    else
      var init, x := items[..|items| - 1], items[|items| - 1];
      NextOrder(Run(m, init).0, OrderAfter(m, order, init), x.op, x.now)
  }

  lemma {:induction false} OrderAppend(m: Keyspace, order: seq<bytes>, a: seq<Item>, b: seq<Item>)
    ensures OrderAfter(m, order, a + b) == OrderAfter(Run(m, a).0, OrderAfter(m, order, a), b)
    decreases |b|
  {
    hide Run, NextOrder;
    if b == [] {
      assert a + b == a;
    } else {
      var init := b[..|b| - 1];
      assert (a + b)[..|a + b| - 1] == a + init && (a + b)[|a + b| - 1] == b[|b| - 1];
      OrderAppend(m, order, a, init);
      RunAppend(m, a, init);
    }
  }

  /** The touched keys of a shard are those of the run that it still holds. */
  predicate Recent(s: Shard, order: seq<bytes>) {
    s.recency == OnlyKeys(order, s.m.Keys)
  }

  lemma OpRecent(budget: nat, s: Shard, op: Op, now: nat, m: Keyspace, order: seq<bytes>)
    requires Tracks(s.m, m, now) && Recent(s, order)
    ensures Recent(OnOp(budget, s, op, now).0, NextOrder(m, order, op, now))
  {
    hide Trim, Put, Drop, Find, Without, Push, OnlyKeys;
    var s', k := OnOp(budget, s, op, now).0, op.key;
    var ks, ks' := s.m.Keys, s'.m.Keys;
    assert k in Live(m, now) <==> k in Live(s.m, now);
    if op.Del? || (op.Get? && k !in Live(m, now)) {
      assert ks' == ks - {k};
      OnlyKeysLess(order, ks, k);
      if op.Del? {
        OnlyKeysWithout(order, ks, ks', k);
        OnlyKeysAll(Without(s.recency, k), ks');
      }
    } else {
      assert ks' == ks + {k};
      OnlyKeysWithout(order, ks, ks', k);
      OnlyKeysAll(Without(s.recency, k), ks');
      OnlyKeysCons(k, Without(order, k), ks');
    }
  }

  lemma {:induction false} ItemsRecent(budget: nat, s: Shard, items: seq<Item>, m: Keyspace, start: nat, order: seq<bytes>)
    requires Tracks(s.m, m, start) && Timed(items, start) && Recent(s, order)
    ensures Recent(OnItems(budget, s, items).shard, OrderAfter(m, order, items))
  {
    hide OnOp, Tracks, Recent, NextOrder, Run;
    if items != [] {
      var n := |items| - 1;
      var init, x := items[..n], items[n];
      ItemsRecent(budget, s, init, m, start, order);
      ItemsTrack(budget, s, init, m, start);
      var o := OnItems(budget, s, init);
      TracksLater(o.shard.m, Run(m, init).0, TimeAfter(init, start), x.now);
      OpRecent(budget, o.shard, x.op, x.now, Run(m, init).0, OrderAfter(m, order, init));
    }
  }

  lemma SweepRecent(s: Shard, now: nat, limit: nat, order: seq<bytes>)
    requires Recent(s, order)
    ensures Recent(OnSweep(s, now, limit), order)
  {
    OnlyKeysTwice(order, s.m.Keys, OnSweep(s, now, limit).m.Keys);
  }

  /** LRU over runs: the touched keys of a shard are always those of the run, most recent first, that it still
      holds, through hits, misses, cold reads, evictions, expiry and sweeps. */
  lemma {:induction false} EventsRecent(budget: nat, s: Shard, events: seq<Event>, m: Keyspace, start: nat, order: seq<bytes>)
    requires Covered(s) && Tracks(s.m, m, start) && TimedEvents(events, start) && Recent(s, order)
    ensures Recent(OnEvents(budget, s, events).shard, OrderAfter(m, order, AllItems(events)))
    decreases |events|
  {
    hide OnItems, OnSweep, Covered, Tracks, AllAgree, Timed, TimeAfter, TimedEvents, EndTime, Run, Recent, OrderAfter;
    if events == [] {
      OrderNone(m, order);
    } else {
      var rest := events[1..];
      NextEvent(events, start);
      match events[0]
      case Batch(items) =>
        var o := OnBatch(budget, s, items);
        ItemsTrack(budget, s, items, m, start);
        ItemsCovered(budget, s, items);
        SameMap(OnItems(budget, s, items).shard, o.shard);
        ItemsRecent(budget, s, items, m, start, order);
        SameRecent(OnItems(budget, s, items).shard, o.shard, OrderAfter(m, order, items));
        EventsRecent(budget, o.shard, rest, Run(m, items).0, TimeAfter(items, start), OrderAfter(m, order, items));
        OrderAppend(m, order, items, AllItems(rest));
      case Tick(now) =>
        SweepIsInvisible(s, now, SWEEP_LIMIT);
        SweepTracks(s, m, start, now, SWEEP_LIMIT);
        SweepCovered(s, now, SWEEP_LIMIT);
        SweepRecent(s, now, SWEEP_LIMIT, order);
        EventsRecent(budget, OnSweep(s, now, SWEEP_LIMIT), rest, m, now, order);
    }
  }

  lemma OrderNone(m: Keyspace, order: seq<bytes>)
    ensures OrderAfter(m, order, []) == order
  {
  }

  lemma SameRecent(s: Shard, s': Shard, order: seq<bytes>)
    requires Recent(s, order) && s'.m == s.m && s'.recency == s.recency
    ensures Recent(s', order)
  {
  }
}
