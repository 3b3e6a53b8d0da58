/** What the answers of a connection mean together, with any other connections on the same shards: one map and
    one operation after another. */
module Sequential {
  import opened Prelude
  import opened Codec
  import opened Wire
  import opened Hashing
  import opened TtlMap
  import opened Sharding
  import opened RustClient
  import opened Server
  import opened Multiplex

  // --- The log as a run ---

  /** Positions in the log, by the shard of their operation. */
  function OnShard(hash: bytes -> nat, n: nat, log: seq<Deed>, ps: seq<nat>, l: nat): (r: seq<nat>)
    requires n > 0 && forall j | 0 <= j < |ps| :: ps[j] < |log|
    ensures forall j | 0 <= j < |r| :: r[j] < |log| && RouteShard(hash, log[r[j]].op.key, n) == l
  {
    if ps == [] then []
    else
      var i := ps[|ps| - 1];
      OnShard(hash, n, log, ps[..|ps| - 1], l) + if RouteShard(hash, log[i].op.key, n) == l then [i] else []
  }

  function Upto(n: nat): (ps: seq<nat>)
    ensures |ps| == n && forall i | 0 <= i < n :: ps[i] == i
  {
    seq(n, i requires 0 <= i < n => i)
  }

  /** The operations at some positions; each is identified by its position. */
  function ItemsAt(log: seq<Deed>, ps: seq<nat>): (xs: seq<Item>)
    requires forall j | 0 <= j < |ps| :: ps[j] < |log|
    ensures |xs| == |ps|
  {
    seq(|ps|, j requires 0 <= j < |ps| => Item(ps[j], log[ps[j]].op, log[ps[j]].now))
  }

  /** What was answered there. */
  function AnswersAt(log: seq<Deed>, ps: seq<nat>): (rs: seq<Reply>)
    requires forall j | 0 <= j < |ps| :: ps[j] < |log|
    ensures |rs| == |ps|
  {
    seq(|ps|, j requires 0 <= j < |ps| => Reply(ps[j], log[ps[j]].got))
  }

  /** This connection's calls among some positions. */
  function MineAt(log: seq<Deed>, ps: seq<nat>): (cs: seq<nat>)
    requires forall j | 0 <= j < |ps| :: ps[j] < |log|
  {
    if ps == [] then []
    else
      var d := log[ps[|ps| - 1]];
      MineAt(log, ps[..|ps| - 1]) + if d.call.Some? then [d.call.value] else []
  }

  /** A shard that started as `start` looks like the ideal run of `items`, and has answered like it. */
  predicate Traces(start: Keyspace, content: Keyspace, clock: nat, items: seq<Item>, answers: seq<Reply>) {
    && Tracks(content, Run(start, items).0, clock)
    && AllAgree(items, answers, Run(start, items).1)
  }

  /** A shard has applied its share of the log, in the log's order, and in it this connection's calls as its lane says. */
  predicate LaneTraces(hash: bytes -> nat, start: seq<Keyspace>, s: Sys, l: nat)
    requires l < |start| == |s.shards| == |s.clocks| <= |s.lanes|
  {
    var ps := OnShard(hash, |start|, s.log, Upto(|s.log|), l);
    && Traces(start[l], s.shards[l], s.clocks[l], ItemsAt(s.log, ps), AnswersAt(s.log, ps))
    && MineAt(s.log, ps) == s.lanes[l].done
  }

  predicate Sequenced(hash: bytes -> nat, start: seq<Keyspace>, s: Sys) {
    && 0 < |start| == |s.shards| == |s.clocks| <= |s.lanes|
    && forall l | 0 <= l < |start| :: LaneTraces(hash, start, s, l)
  }

  lemma TraceStep(start: Keyspace, content: Keyspace, clock: nat, items: seq<Item>, answers: seq<Reply>, x: Item)
    requires Traces(start, content, clock, items, answers) && clock <= x.now
    ensures var (content', got) := Actual(content, x.op, x.now);
            Traces(start, content', x.now, items + [x], answers + [Reply(x.id, got)])
  {
    hide Tracks, Ideal, Actual, StaleDel;
    var (m, rs) := Run(start, items);
    TracksLater(content, m, clock, x.now);
    StepTracks(content, m, x.op, x.now);
    RunAppend(start, items, [x]);
    RunOne(m, x);
    var got := Reply(x.id, Actual(content, x.op, x.now).1);
    assert Agrees(x, got, VerdictOn(m, x));
    AgreeAppend(items, answers, rs, [x], [got], [VerdictOn(m, x)]);
  }

  lemma TraceTick(start: Keyspace, content: Keyspace, clock: nat, items: seq<Item>, answers: seq<Reply>, content': Keyspace, now: nat)
    requires Traces(start, content, clock, items, answers) && clock <= now
    requires Live(content', now) == Live(content, now) && SubMap(content', content)
    ensures Traces(start, content', now, items, answers)
  {
    hide Run, Tracks, Live, SubMap;
    TracksLater(content, Run(start, items).0, clock, now);
    TracksSwept(content, Run(start, items).0, content', now);
  }

  // --- One more deed ---

  lemma {:induction false} OnShardGrows(hash: bytes -> nat, n: nat, log: seq<Deed>, d: Deed, ps: seq<nat>, l: nat)
    requires n > 0 && forall j | 0 <= j < |ps| :: ps[j] < |log|
    ensures OnShard(hash, n, log + [d], ps, l) == OnShard(hash, n, log, ps, l)
  {
    hide RouteShard;
    if ps != [] {
      OnShardGrows(hash, n, log, d, ps[..|ps| - 1], l);
      assert (log + [d])[ps[|ps| - 1]] == log[ps[|ps| - 1]];
    }
  }

  lemma {:induction false} MineGrows(log: seq<Deed>, d: Deed, ps: seq<nat>)
    requires forall j | 0 <= j < |ps| :: ps[j] < |log|
    ensures MineAt(log + [d], ps) == MineAt(log, ps)
  {
    if ps != [] {
      MineGrows(log, d, ps[..|ps| - 1]);
      assert (log + [d])[ps[|ps| - 1]] == log[ps[|ps| - 1]];
    }
  }

  /** A new deed adds to its own shard's share and to no other. */
  lemma ShareGrows(hash: bytes -> nat, n: nat, log: seq<Deed>, d: Deed, l: nat)
    requires n > 0
    ensures var ps := OnShard(hash, n, log, Upto(|log|), l); var ps' := OnShard(hash, n, log + [d], Upto(|log + [d]|), l);
            if RouteShard(hash, d.op.key, n) == l then
              && ps' == ps + [|log|]
              && ItemsAt(log + [d], ps') == ItemsAt(log, ps) + [Item(|log|, d.op, d.now)]
              && AnswersAt(log + [d], ps') == AnswersAt(log, ps) + [Reply(|log|, d.got)]
              && MineAt(log + [d], ps') == MineAt(log, ps) + (if d.call.Some? then [d.call.value] else [])
            else
              && ps' == ps && ItemsAt(log + [d], ps') == ItemsAt(log, ps) && AnswersAt(log + [d], ps') == AnswersAt(log, ps)
              && MineAt(log + [d], ps') == MineAt(log, ps)
  {
    hide RouteShard;
    var ps, all, log' := OnShard(hash, n, log, Upto(|log|), l), Upto(|log + [d]|), log + [d];
    assert all[..|all| - 1] == Upto(|log|) && all[|all| - 1] == |log|;
    OnShardGrows(hash, n, log, d, Upto(|log|), l);
    assert log'[|log|] == d;
    assert OnShard(hash, n, log', all, l) == ps + if RouteShard(hash, d.op.key, n) == l then [|log|] else [];
    hide OnShard;
    SameAtOld(log, d, ps);
    if RouteShard(hash, d.op.key, n) == l {
      NewLast(log', ps, |log|);
      NewLastMine(log', ps, |log|);
    } else {
      assert ps + [] == ps;
    }
  }

  lemma SameAtOld(log: seq<Deed>, d: Deed, ps: seq<nat>)
    requires forall j | 0 <= j < |ps| :: ps[j] < |log|
    ensures ItemsAt(log + [d], ps) == ItemsAt(log, ps) && AnswersAt(log + [d], ps) == AnswersAt(log, ps)
    ensures MineAt(log + [d], ps) == MineAt(log, ps)
  {
    MineGrows(log, d, ps);
  }

  lemma NewLast(log: seq<Deed>, ps: seq<nat>, p: nat)
    requires (forall j | 0 <= j < |ps| :: ps[j] < |log|) && p < |log|
    ensures forall j | 0 <= j < |ps + [p]| :: (ps + [p])[j] < |log|
    ensures ItemsAt(log, ps + [p]) == ItemsAt(log, ps) + [Item(p, log[p].op, log[p].now)]
    ensures AnswersAt(log, ps + [p]) == AnswersAt(log, ps) + [Reply(p, log[p].got)]
  {
  }

  lemma NewLastMine(log: seq<Deed>, ps: seq<nat>, p: nat)
    requires (forall j | 0 <= j < |ps| :: ps[j] < |log|) && p < |log|
    ensures MineAt(log, ps + [p]) == MineAt(log, ps) + (if log[p].call.Some? then [log[p].call.value] else [])
  {
    assert (ps + [p])[..|ps|] == ps;
  }

  /** A shard applies an operation, for this connection or another. */
  lemma DeedSequenced(hash: bytes -> nat, start: seq<Keyspace>, s: Sys, s': Sys, l: nat, d: Deed)
    requires Sequenced(hash, start, s) && l < |start| && l == RouteShard(hash, d.op.key, |start|) && s.clocks[l] <= d.now
    requires d.got == Actual(s.shards[l], d.op, d.now).1 && s'.log == s.log + [d]
    requires s'.shards == s.shards[l := Actual(s.shards[l], d.op, d.now).0] && s'.clocks == s.clocks[l := d.now]
    requires |s'.lanes| == |s.lanes| && forall i | 0 <= i < |start| ::
               s'.lanes[i].done == s.lanes[i].done + if i == l && d.call.Some? then [d.call.value] else []
    ensures Sequenced(hash, start, s')
  {
    hide Traces, Actual, OnShard, RouteShard, ItemsAt, AnswersAt, MineAt;
    forall i | 0 <= i < |start|
      ensures LaneTraces(hash, start, s', i)
    {
      assert LaneTraces(hash, start, s, i);
      ShareGrows(hash, |start|, s.log, d, i);
      if i == l {
        var ps := OnShard(hash, |start|, s.log, Upto(|s.log|), l);
        TraceStep(start[l], s.shards[l], s.clocks[l], ItemsAt(s.log, ps), AnswersAt(s.log, ps), Item(|s.log|, d.op, d.now));
      }
    }
  }

  lemma TickSequenced(hash: bytes -> nat, start: seq<Keyspace>, s: Sys, l: nat, content: Keyspace, now: nat)
    requires Sequenced(hash, start, s) && l < |s.shards| && s.clocks[l] <= now
    requires Live(content, now) == Live(s.shards[l], now) && SubMap(content, s.shards[l])
    ensures Sequenced(hash, start, s.(shards := s.shards[l := content], clocks := s.clocks[l := now]))
  {
    hide Traces, Live, SubMap, OnShard, ItemsAt, AnswersAt, MineAt;
    var s' := s.(shards := s.shards[l := content], clocks := s.clocks[l := now]);
    forall i | 0 <= i < |start|
      ensures LaneTraces(hash, start, s', i)
    {
      assert LaneTraces(hash, start, s, i);
      if i == l {
        var ps := OnShard(hash, |start|, s.log, Upto(|s.log|), l);
        TraceTick(start[l], s.shards[l], s.clocks[l], ItemsAt(s.log, ps), AnswersAt(s.log, ps), content, now);
      }
    }
  }

  lemma SameSequenced(hash: bytes -> nat, start: seq<Keyspace>, s: Sys, s': Sys)
    requires Sequenced(hash, start, s) && s'.log == s.log && s'.shards == s.shards && s'.clocks == s.clocks
    requires |s'.lanes| == |s.lanes| && forall i | 0 <= i < |start| :: s'.lanes[i].done == s.lanes[i].done
    ensures Sequenced(hash, start, s')
  {
    hide Traces, OnShard, ItemsAt, AnswersAt, MineAt;
    forall i | 0 <= i < |start|
      ensures LaneTraces(hash, start, s', i)
    {
      assert LaneTraces(hash, start, s, i);
    }
  }

  lemma WorkSequenced(hash: bytes -> nat, start: seq<Keyspace>, s: Sys, l: nat, now: nat)
    requires Inv(hash, s) && Sequenced(hash, start, s) && l < |s.shards| && s.lanes[l].queue != [] && s.clocks[l] <= now
    ensures Sequenced(hash, start, WorkNext(s, l, now))
  {
    hide Slotted, Sized, Piped, Once, Right, Wired, Answered, AllCarriable, Small, Truthful, Sequenced, LaneTraces, Actual, PlanOf;
    SequencedShape(hash, start, s);
    InLane(hash, s, l);
    var j := s.lanes[l].queue[0];
    DeedSequenced(hash, start, s, WorkNext(s, l, now), l, Deed(j.op, now, Actual(s.shards[l], j.op, now).1, Some(j.call)));
  }

  lemma SequencedShape(hash: bytes -> nat, start: seq<Keyspace>, s: Sys)
    requires Sequenced(hash, start, s)
    ensures 0 < |start| == |s.shards| == |s.clocks| <= |s.lanes|
  {
  }

  /** Every step of any participant, this connection's or not, keeps each shard equivalent to the ideal run of what it has applied. */
  lemma StepSequenced(hash: bytes -> nat, start: seq<Keyspace>, s: Sys, step: Step)
    requires Inv(hash, s) && Enabled(hash, s, step) && Sequenced(hash, start, s)
    ensures Sequenced(hash, start, Next(hash, s, step))
  {
    hide Slotted, Sized, Piped, Once, Right, Carries, Answered, AllCarriable, Small, Truthful, Sequenced, LaneTraces, Actual, LaneOf,
         Live, SubMap, Take, Finish, Occupied, PlanOf, StorableOp, DecodeOne, EncodeFrame, Sound;
    SequencedShape(hash, start, s);
    var s' := Next(hash, s, step);
    match step
    case TakeSlot(payload) =>
      SlotForPermit(s);
      SameSequenced(hash, start, s, s');
    case ReadFrame =>
      FirstFrame(s);
      SameSequenced(hash, start, s, s');
    case Work(l, now) =>
      WorkSequenced(hash, start, s, l, now);
    case Tick(l, content, now) =>
      TickSequenced(hash, start, s, l, content, now);
    case Elsewhere(l, op, now) =>
      DeedSequenced(hash, start, s, s', l, Deed(op, now, Actual(s.shards[l], op, now).1, None));
    case Deliver =>
      HeadIsWaitedFor(hash, s);
      SameSequenced(hash, start, s, s');
    case _ =>
      SameSequenced(hash, start, s, s');
  }

  lemma {:induction false} RunSequenced(hash: bytes -> nat, start: seq<Keyspace>, s: Sys, steps: seq<Step>)
    requires Inv(hash, s) && Sequenced(hash, start, s)
    ensures Sequenced(hash, start, After(hash, s, steps))
    decreases |steps|
  {
    hide Inv, Sequenced, Enabled;
    if steps != [] {
      if Enabled(hash, s, steps[0]) {
        StepKeepsInv(hash, s, steps[0]);
        StepSequenced(hash, start, s, steps[0]);
        RunSequenced(hash, start, Next(hash, s, steps[0]), steps[1..]);
      } else {
        RunSequenced(hash, start, s, steps[1..]);
      }
    }
  }

  lemma InitSequenced(hash: bytes -> nat, max: nat, start: seq<Keyspace>)
    requires |start| > 0
    ensures Sequenced(hash, start, Init(max, start))
  {
    hide RouteShard;
    assert Upto(0) == [];
  }

  // --- Any order that keeps each shard's own ---

  /** `order` lists positions of the log, those of each shard as the log has them. */
  predicate Orders(hash: bytes -> nat, n: nat, log: seq<Deed>, order: seq<nat>)
    requires n > 0
  {
    && (forall j | 0 <= j < |order| :: order[j] < |log|)
    && forall l | 0 <= l < n :: OnShard(hash, n, log, order, l) == OnShard(hash, n, log, Upto(|log|), l)
  }

  lemma {:induction false} SharesAreLanes(hash: bytes -> nat, n: nat, log: seq<Deed>, ps: seq<nat>, l: nat)
    requires l < n && forall j | 0 <= j < |ps| :: ps[j] < |log|
    ensures ByShard(hash, n, ItemsAt(log, ps), l) == ItemsAt(log, OnShard(hash, n, log, ps, l))
  {
    hide RouteShard;
    if ps != [] {
      var init, i := ps[..|ps| - 1], ps[|ps| - 1];
      SharesAreLanes(hash, n, log, init, l);
      var x := Item(i, log[i].op, log[i].now);
      assert ItemsAt(log, ps) == ItemsAt(log, init) + [x];
      ByShardAppend(hash, n, ItemsAt(log, init), [x], l);
      assert [x][1..] == [];
      assert ByShard(hash, n, [x], l) == if RouteShard(hash, log[i].op.key, n) == l then [x] else [];
      var f := OnShard(hash, n, log, init, l);
      assert ItemsAt(log, f + [i]) == ItemsAt(log, f) + [x];
    }
  }

  lemma {:induction false} RunIds(m: Keyspace, items: seq<Item>)
    ensures forall i | 0 <= i < |items| :: Run(m, items).1[i].id == items[i].id
    decreases |items|
  {
    if items != [] {
      RunIds(Ideal(m, items[0].op, items[0].now).0, items[1..]);
    }
  }

  /** One answer, at its place in any such order. */
  lemma AnswerInOrder(hash: bytes -> nat, start: seq<Keyspace>, m: Keyspace, s: Sys, order: seq<nat>, i: nat)
    requires Sequenced(hash, start, s) && Partitions(hash, start, m) && Orders(hash, |start|, s.log, order) && i < |order|
    ensures Agrees(ItemsAt(s.log, order)[i], AnswersAt(s.log, order)[i], Run(m, ItemsAt(s.log, order)).1[i])
  {
    hide Agrees, Partitions, OnShard, Live;
    var n, items := |start|, ItemsAt(s.log, order);
    var r := Run(m, items).1[i];
    RunIds(m, items);
    SameReplies(hash, start, m, items, r);
    var l: nat :| l < n && r in ShardReplies(hash, start, items, l);
    SharesAreLanes(hash, n, s.log, order, l);
    AnswerInLane(hash, start, s, l, order[i], r);
  }

  lemma AnswerInLane(hash: bytes -> nat, start: seq<Keyspace>, s: Sys, l: nat, p: nat, r: Verdict)
    requires Sequenced(hash, start, s) && l < |start| && r.id == p < |s.log|
    requires r in Run(start[l], ItemsAt(s.log, OnShard(hash, |start|, s.log, Upto(|s.log|), l))).1
    ensures Agrees(Item(p, s.log[p].op, s.log[p].now), Reply(p, s.log[p].got), r)
  {
    hide OnShard, Run, Tracks;
    var ps := OnShard(hash, |start|, s.log, Upto(|s.log|), l);
    var items := ItemsAt(s.log, ps);
    assert LaneTraces(hash, start, s, l);
    var j :| 0 <= j < |items| && Run(start[l], items).1[j] == r;
    assert Agrees(items[j], AnswersAt(s.log, ps)[j], r);
  }

  /** The shards' content, looked at through any key, is that of the single map. */
  lemma ContentInOrder(hash: bytes -> nat, start: seq<Keyspace>, m: Keyspace, s: Sys, order: seq<nat>, k: bytes, now: nat)
    requires Sequenced(hash, start, s) && Partitions(hash, start, m) && Orders(hash, |start|, s.log, order)
    requires s.clocks[RouteShard(hash, k, |start|)] <= now
    ensures At(Live(s.shards[RouteShard(hash, k, |start|)], now), k) == At(Live(Run(m, ItemsAt(s.log, order)).0, now), k)
  {
    hide Partitions, Run, RouteShard, OnShard, Live, AllAgree;
    var n, l, items := |start|, RouteShard(hash, k, |start|), ItemsAt(s.log, order);
    SharesAreLanes(hash, n, s.log, order, l);
    ShardOfKey(hash, start, m, items, k, l);
    assert LaneTraces(hash, start, s, l);
    var own := Run(start[l], ItemsAt(s.log, OnShard(hash, n, s.log, Upto(|s.log|), l))).0;
    LiveLater(s.shards[l], own, s.clocks[l], now);
    LiveAt(own, Run(m, items).0, k, now);
  }

  lemma LiveAt(a: Keyspace, b: Keyspace, k: bytes, now: nat)
    requires At(a, k) == At(b, k)
    ensures At(Live(a, now), k) == At(Live(b, now), k)
  {
    assert k in a <==> k in b;
    assert k in a ==> a[k] == b[k];
  }

  /** The shards hold together what `m` holds, as far as a reader can see now or later. */
  ghost predicate ShowTogether(hash: bytes -> nat, shards: seq<Keyspace>, clocks: seq<nat>, m: Keyspace)
    requires 0 < |shards| == |clocks|
  {
    forall k: bytes, now: nat | clocks[RouteShard(hash, k, |shards|)] <= now ::
      At(Live(shards[RouteShard(hash, k, |shards|)], now), k) == At(Live(m, now), k)
  }

  /** In any order that keeps each shard's own, one unsharded map gives the same answers and ends with the same content. */
  lemma AnyOrderWillDo(hash: bytes -> nat, start: seq<Keyspace>, m: Keyspace, s: Sys, order: seq<nat>)
    requires Sequenced(hash, start, s) && Partitions(hash, start, m) && Orders(hash, |start|, s.log, order)
    ensures AllAgree(ItemsAt(s.log, order), AnswersAt(s.log, order), Run(m, ItemsAt(s.log, order)).1)
    ensures ShowTogether(hash, s.shards, s.clocks, Run(m, ItemsAt(s.log, order)).0)
  {
    hide Agrees, Partitions, OnShard, Run, Live, RouteShard, LaneTraces;
    var items := ItemsAt(s.log, order);
    forall i | 0 <= i < |items|
      ensures Agrees(items[i], AnswersAt(s.log, order)[i], Run(m, items).1[i])
    {
      AnswerInOrder(hash, start, m, s, order, i);
    }
    forall k: bytes, now: nat | s.clocks[RouteShard(hash, k, |start|)] <= now
      ensures At(Live(s.shards[RouteShard(hash, k, |start|)], now), k) == At(Live(Run(m, items).0, now), k)
    {
      ContentInOrder(hash, start, m, s, order, k, now);
    }
  }

  /** Every run, with any other connections on the same shards, under any interleaving: all answers
      given are those of one unsharded map that applies the operations one after another, in the
      order in which the shards applied them (a DEL of an expired key may answer "1"), and the
      shards hold together what that map holds. */
  lemma RunsAreLinear(hash: bytes -> nat, max: nat, start: seq<Keyspace>, m: Keyspace, steps: seq<Step>)
    requires |start| > 0 && max < U32 && AllCarriable(start) && Partitions(hash, start, m)
    ensures Inv(hash, Init(max, start)) && |After(hash, Init(max, start), steps).shards| == |start|
    ensures var s := After(hash, Init(max, start), steps); var all := Upto(|s.log|);
            && AllAgree(ItemsAt(s.log, all), AnswersAt(s.log, all), Run(m, ItemsAt(s.log, all)).1)
            && |s.clocks| == |start| && ShowTogether(hash, s.shards, s.clocks, Run(m, ItemsAt(s.log, all)).0)
  {
    assert Init(max, start).shards == start;
    hide Inv, Init, Run, Partitions, Agrees, OnShard, ShowTogether, AllCarriable, LaneTraces;
    InitHolds(hash, max, start);
    InitSequenced(hash, max, start);
    RunSequenced(hash, start, Init(max, start), steps);
    var s := After(hash, Init(max, start), steps);
    AnyOrderWillDo(hash, start, m, s, Upto(|s.log|));
  }

  // --- Real time ---

  predicate Known(calls: seq<Call>, log: seq<Deed>) {
    forall i | 0 <= i < |log| && log[i].call.Some? :: log[i].call.value < |calls|
  }

  /** Answers, and where they were given, are never revised. */
  predicate Keeps(s: Sys, s': Sys) {
    && s.calls <= s'.calls && s.log <= s'.log
    && forall c | c in s.results :: c in s'.results && (c in s.at ==> c in s'.at && s'.at[c] == s.at[c])
  }

  lemma SameKeeps(s: Sys, s': Sys)
    requires Known(s.calls, s.log) && s.calls <= s'.calls && s'.log == s.log && s'.results == s.results && s'.at == s.at
    ensures Keeps(s, s') && Known(s'.calls, s'.log)
  {
  }

  lemma DeedKeeps(s: Sys, s': Sys, d: Deed)
    requires Known(s.calls, s.log) && s'.calls == s.calls && s'.log == s.log + [d]
    requires d.call == None ==> s'.results == s.results && s'.at == s.at
    requires d.call.Some? ==> d.call.value < |s.calls| && d.call.value !in s.results
    requires d.call.Some? ==> s'.results == s.results[d.call.value := d.got] && s'.at == s.at[d.call.value := |s.log|]
    ensures Keeps(s, s') && Known(s'.calls, s'.log)
  {
  }

  lemma StepKeeps(hash: bytes -> nat, s: Sys, step: Step)
    requires Inv(hash, s) && Enabled(hash, s, step) && Known(s.calls, s.log)
    ensures Keeps(s, Next(hash, s, step)) && Known(Next(hash, s, step).calls, Next(hash, s, step).log)
  {
    hide Slotted, Sized, Piped, Once, Right, Carries, Labelled, InFlight, Handed, AllCarriable, Small, Truthful, Actual, LaneOf,
         Live, SubMap, Take, Finish, Occupied, PlanOf, StorableOp, DecodeOne, EncodeFrame, Sound, Known, Keeps, Recorded;
    var s' := Next(hash, s, step);
    match step
    case TakeSlot(payload) =>
      SlotForPermit(s);
      SameKeeps(s, s');
    case ReadFrame =>
      FirstFrame(s);
      HeadUnanswered(hash, s);
      ReadKeeps(hash, s);
    case Work(l, now) =>
      InLane(hash, s, l);
      var j := s.lanes[l].queue[0];
      NotDoneUnanswered(hash, |s.shards|, s.calls, s.lanes, s.results, j.call, l);
      DeedKeeps(s, s', Deed(j.op, now, Actual(s.shards[l], j.op, now).1, Some(j.call)));
    case Elsewhere(l, op, now) =>
      DeedKeeps(s, s', Deed(op, now, Actual(s.shards[l], op, now).1, None));
    case Deliver =>
      HeadIsWaitedFor(hash, s);
      SameKeeps(s, s');
    case _ =>
      SameKeeps(s, s');
  }

  lemma ReadKeeps(hash: bytes -> nat, s: Sys)
    requires DecodeOne(true, s.inbox).Got? && s.stream != [] && |s.shards| > 0 && |s.lanes| == |s.shards| + 1
    requires Known(s.calls, s.log) && s.stream[0] !in s.results
    ensures Keeps(s, ReadNext(hash, s)) && Known(ReadNext(hash, s).calls, ReadNext(hash, s).log)
  {
    hide PlanOf, DecodeOne;
  }

  lemma {:induction false} RunKeeps(hash: bytes -> nat, s: Sys, steps: seq<Step>)
    requires Inv(hash, s) && Known(s.calls, s.log)
    ensures Keeps(s, After(hash, s, steps)) && Known(After(hash, s, steps).calls, After(hash, s, steps).log)
    decreases |steps|
  {
    hide Inv, Enabled, Known;
    if steps != [] {
      if Enabled(hash, s, steps[0]) {
        StepKeepsInv(hash, s, steps[0]);
        StepKeeps(hash, s, steps[0]);
        RunKeeps(hash, Next(hash, s, steps[0]), steps[1..]);
      } else {
        RunKeeps(hash, s, steps[1..]);
      }
    }
  }

  /** The order of application respects real time: a call that has its answer before another one takes its slot precedes it in the log. */
  lemma RealTimeOrder(hash: bytes -> nat, s: Sys, steps: seq<Step>, c: nat, d: nat)
    requires Inv(hash, s) && Known(s.calls, s.log)
    requires c in s.delivered && |s.calls| <= d
    ensures var s' := After(hash, s, steps);
            d in s'.delivered && LaneOf(hash, |s.shards|, s'.calls, c) < |s.shards| && LaneOf(hash, |s.shards|, s'.calls, d) < |s.shards| ==>
              && c in s'.at && d in s'.at && s'.at[c] < s'.at[d] < |s'.log|
              && s'.log[s'.at[c]].call == Some(c) && s'.log[s'.at[d]].call == Some(d)
  {
    assert |s.shards| > 0;
    hide PlanOf, After, Inv, Enabled, Known;
    var s' := After(hash, s, steps);
    RunKeeps(hash, s, steps);
    if d in s'.delivered && LaneOf(hash, |s.shards|, s'.calls, c) < |s.shards| && LaneOf(hash, |s.shards|, s'.calls, d) < |s.shards| {
      WhereAnswered(hash, s, c);
      WhereAnswered(hash, s', d);
      assert s'.calls[c] == s.calls[c];
      LaterInLog(s, s', c, d);
    }
  }

  lemma LaterInLog(s: Sys, s': Sys, c: nat, d: nat)
    requires Keeps(s, s') && Known(s.calls, s.log) && |s.calls| <= d
    requires c in s.results && c in s.at && s.at[c] < |s.log| && s.log[s.at[c]].call == Some(c)
    requires d in s'.at && s'.at[d] < |s'.log| && s'.log[s'.at[d]].call == Some(d)
    ensures c in s'.at && s'.at[c] < s'.at[d] && s'.log[s'.at[c]].call == Some(c)
  {
    assert forall i | 0 <= i < |s.log| :: s'.log[i] == s.log[i];
  }

  lemma WhereAnswered(hash: bytes -> nat, s: Sys, c: nat)
    requires Inv(hash, s) && c in s.delivered
    ensures |s.shards| > 0 && c < |s.calls| && c in s.results
    ensures LaneOf(hash, |s.shards|, s.calls, c) < |s.shards| ==>
              c in s.at && s.at[c] < |s.log| && s.log[s.at[c]].call == Some(c)
  {
    hide Slotted, Piped, Once, Labelled, InFlight, Wired, Right, AllCarriable, Small, PlanOf;
  }

  lemma InitKnown(max: nat, shards: seq<Keyspace>)
    ensures Known(Init(max, shards).calls, Init(max, shards).log)
  {
  }

  /** In every run: of two calls of which one had its answer before the other took its slot, the shards applied that one first. */
  lemma RunsRespectTime(hash: bytes -> nat, max: nat, start: seq<Keyspace>, before: seq<Step>, later: seq<Step>, c: nat, d: nat)
    requires |start| > 0 && max < U32 && AllCarriable(start)
    ensures Inv(hash, Init(max, start)) && |After(hash, Init(max, start), before).shards| == |start|
    ensures var s := After(hash, Init(max, start), before); var s' := After(hash, s, later);
            c in s.delivered && |s.calls| <= d && d in s'.delivered
            && LaneOf(hash, |start|, s'.calls, c) < |start| && LaneOf(hash, |start|, s'.calls, d) < |start| ==>
              && c in s'.at && d in s'.at && s'.at[c] < s'.at[d] < |s'.log|
              && s'.log[s'.at[c]].call == Some(c) && s'.log[s'.at[d]].call == Some(d)
  {
    InitKnown(max, start);
    assert Init(max, start).shards == start;
    hide Inv, Init, After, Known, LaneOf, AllCarriable, Keeps;
    InitHolds(hash, max, start);
    RunKeeps(hash, Init(max, start), before);
    var s := After(hash, Init(max, start), before);
    if c in s.delivered && |s.calls| <= d {
      RealTimeOrder(hash, s, later, c, d);
    }
  }

  /** Any point of a run divides the log in time, for all connections alike: what had been answered to a call
      of this connection by then lies before it, and what is applied for a call that takes its slot only
      later lies behind it. So of two calls of any two connections on the same shards, of which one
      had its answer before the other took its slot, the first was applied first. */
  lemma PointsDivideLog(hash: bytes -> nat, s: Sys, steps: seq<Step>, c: nat, d: nat)
    requires Inv(hash, s) && Known(s.calls, s.log)
    ensures var s' := After(hash, s, steps);
            && s.log <= s'.log
            && (c in s.delivered && LaneOf(hash, |s.shards|, s.calls, c) < |s.shards| ==>
                  c in s'.at && s'.at[c] < |s.log| && s'.log[s'.at[c]].call == Some(c))
            && (|s.calls| <= d && d in s'.delivered && LaneOf(hash, |s.shards|, s'.calls, d) < |s.shards| ==>
                  d in s'.at && |s.log| <= s'.at[d] < |s'.log| && s'.log[s'.at[d]].call == Some(d))
  {
    hide PlanOf, After, Inv, Enabled;
    var s' := After(hash, s, steps);
    RunKeeps(hash, s, steps);
    assert forall i | 0 <= i < |s.log| :: s'.log[i] == s.log[i];
    if c in s.delivered {
      WhereAnswered(hash, s, c);
    }
    if d in s'.delivered {
      WhereAnswered(hash, s', d);
    }
  }
}
