/** The order in which a connection's frames were written, and why its calls may be read in that order. */
module WrittenOrder {
  import opened Prelude
  import opened Hashing
  import opened TtlMap
  import opened Sharding
  import opened Multiplex
  import opened Sequential

  function Keeping(cs: seq<nat>, keep: set<nat>): (r: seq<nat>)
  {
    if cs == [] then []
    else Keeping(cs[..|cs| - 1], keep) + if cs[|cs| - 1] in keep then [cs[|cs| - 1]] else []
  }

  /** The calls that a shard has applied. */
  function AppliedCalls(hash: bytes -> nat, s: Sys): (done: set<nat>)
    requires |s.shards| > 0
  {
    set c | c in s.results && c < |s.calls| && LaneOf(hash, |s.shards|, s.calls, c) < |s.shards|
  }

  /** The applied calls of this connection, in the order their frames were written. */
  function Completed(hash: bytes -> nat, s: Sys): (cs: seq<nat>)
    requires |s.shards| > 0
  {
    Keeping(s.sent, AppliedCalls(hash, s))
  }

  lemma {:induction false} KeepingAppend(a: seq<nat>, b: seq<nat>, keep: set<nat>)
    ensures Keeping(a + b, keep) == Keeping(a, keep) + Keeping(b, keep)
    decreases |b|
  {
    if b == [] {
      assert a + b == a;
    } else {
      var init := b[..|b| - 1];
      assert (a + b)[..|a + b| - 1] == a + init && (a + b)[|a + b| - 1] == b[|b| - 1];
      KeepingAppend(a, init, keep);
    }
  }

  lemma {:induction false} KeepingMember(cs: seq<nat>, keep: set<nat>, c: nat)
    ensures c in Keeping(cs, keep) <==> c in cs && c in keep
  {
    if cs != [] {
      var init := cs[..|cs| - 1];
      assert cs == init + [cs[|cs| - 1]];
      KeepingMember(init, keep, c);
    }
  }

  lemma {:induction false} KeepingAll(cs: seq<nat>, keep: set<nat>)
    requires forall i | 0 <= i < |cs| :: cs[i] in keep
    ensures Keeping(cs, keep) == cs
  {
    if cs != [] {
      KeepingAll(cs[..|cs| - 1], keep);
      assert cs == cs[..|cs| - 1] + [cs[|cs| - 1]];
    }
  }

  lemma {:induction false} KeepingNone(cs: seq<nat>, keep: set<nat>)
    requires forall i | 0 <= i < |cs| :: cs[i] !in keep
    ensures Keeping(cs, keep) == []
  {
    if cs != [] {
      KeepingNone(cs[..|cs| - 1], keep);
    }
  }

  lemma {:induction false} KeepingFilter(hash: bytes -> nat, n: nat, calls: seq<Call>, cs: seq<nat>, keep: set<nat>, l: nat)
    requires n > 0
    ensures Filter(hash, n, calls, Keeping(cs, keep), l) == Keeping(Filter(hash, n, calls, cs, l), keep)
  {
    hide LaneOf;
    if cs != [] {
      var init, c := cs[..|cs| - 1], cs[|cs| - 1];
      KeepingFilter(hash, n, calls, init, keep, l);
      var mine := if LaneOf(hash, n, calls, c) == l then [c] else [];
      KeepingAppend(Filter(hash, n, calls, init, l), mine, keep);
      FilterAppend(hash, n, calls, Keeping(init, keep), if c in keep then [c] else [], l);
      FilterOne(hash, n, calls, c, l);
      assert [c][..0] == [];
      assert Keeping([c], keep) == if c in keep then [c] else [];
    }
  }

  /** A shard has applied exactly the completed calls of its lane, in the order written. */
  lemma LaneOfCompleted(hash: bytes -> nat, s: Sys, l: nat)
    requires Inv(hash, s) && l < |s.shards|
    ensures Filter(hash, |s.shards|, s.calls, Completed(hash, s), l) == s.lanes[l].done
  {
    hide Slotted, Sized, Truthful, LaneOf, Filter, Labelled, InFlight, Handed, Keeping, AppliedCalls, Right, Wired, Labels, AllCarriable, Small;
    var n, lane, keep := |s.shards|, s.lanes[l], AppliedCalls(hash, s);
    var tail := Filter(hash, n, s.calls, s.stream, l);
    var rest := Labels(lane.queue) + Labels(lane.group) + tail;
    Assoc(lane.done, Labels(lane.queue), Labels(lane.group));
    Assoc(lane.done, Labels(lane.queue) + Labels(lane.group), tail);
    assert Filter(hash, n, s.calls, s.sent, l) == lane.done + rest;
    KeepingFilter(hash, n, s.calls, s.sent, keep, l);
    KeepingAppend(lane.done, rest, keep);
    forall i | 0 <= i < |lane.done|
      ensures lane.done[i] in keep
    {
      DoneIsApplied(hash, s, lane.done[i], l);
    }
    forall i | 0 <= i < |rest|
      ensures rest[i] !in keep
    {
      RestNotApplied(hash, s, rest, rest[i], l);
    }
    KeepingAll(lane.done, keep);
    KeepingNone(rest, keep);
  }

  lemma DoneIsApplied(hash: bytes -> nat, s: Sys, c: nat, l: nat)
    requires Inv(hash, s) && l < |s.shards| && c in s.lanes[l].done
    ensures c in AppliedCalls(hash, s)
  {
    hide Slotted, Sized, Piped, Once, Labelled, InFlight, Handed, Right, Wired, Truthful, LaneOf, AllCarriable, Small;
    DoneInLane(hash, s, c, l);
  }

  lemma RestNotApplied(hash: bytes -> nat, s: Sys, rest: seq<nat>, c: nat, l: nat)
    requires Inv(hash, s) && l < |s.shards| && c in rest
    requires Filter(hash, |s.shards|, s.calls, s.sent, l) == s.lanes[l].done + rest
    ensures c !in AppliedCalls(hash, s)
  {
    hide Slotted, Sized, Piped, Labelled, InFlight, Handed, LaneOf, Filter, Truthful, Right, Wired, AllCarriable, Small;
    FilterMember(hash, |s.shards|, s.calls, s.sent, l, c);
    assert multiset(s.lanes[l].done + rest)[c] == multiset(s.lanes[l].done)[c] + multiset(rest)[c];
    assert multiset(rest)[c] > 0;
    assert multiset(s.lanes[l].done)[c] == 0;
  }

  /** What a caller was handed is among the completed calls. */
  lemma DeliveredIsCompleted(hash: bytes -> nat, s: Sys, c: nat)
    requires Inv(hash, s) && c in s.delivered && LaneOf(hash, |s.shards|, s.calls, c) < |s.shards|
    ensures c in Completed(hash, s) && c in s.results && s.delivered[c] == s.results[c]
  {
    hide Slotted, Sized, Filter, LaneOf, Labelled, InFlight, Truthful, Right, Wired, AllCarriable, Small, Piped, Once;
    var l := LaneOf(hash, |s.shards|, s.calls, c);
    DoneInLane(hash, s, c, l);
    KeepingMember(s.sent, AppliedCalls(hash, s), c);
  }

  // --- Merging the shards' shares ---

  function Longs(ls: seq<seq<nat>>): (n: nat)
  {
    if ls == [] then 0 else |ls[0]| + Longs(ls[1..])
  }

  lemma {:induction false} LongsShrinks(ls: seq<seq<nat>>, l: nat, x: seq<nat>)
    requires l < |ls|
    ensures Longs(ls[l := x]) + |ls[l]| == Longs(ls) + |x|
  {
    if l == 0 {
      assert ls[0 := x][1..] == ls[1..];
    } else {
      LongsShrinks(ls[1..], l - 1, x);
      assert ls[l := x][1..] == ls[1..][l - 1 := x];
    }
  }

  /** Per-shard sequences of log positions in which this connection's calls are as in `cs`. */
  predicate Mergeable(hash: bytes -> nat, n: nat, calls: seq<Call>, log: seq<Deed>, shares: seq<seq<nat>>, cs: seq<nat>) {
    && 0 < n == |shares|
    && (forall l, j | 0 <= l < n && 0 <= j < |shares[l]| ::
          shares[l][j] < |log| && RouteShard(hash, log[shares[l][j]].op.key, n) == l)
    && (forall j | 0 <= j < |cs| :: LaneOf(hash, n, calls, cs[j]) < n)
    && (forall l | 0 <= l < n :: MineAt(log, shares[l]) == Filter(hash, n, calls, cs, l))
  }

  predicate Merged(hash: bytes -> nat, n: nat, log: seq<Deed>, shares: seq<seq<nat>>, cs: seq<nat>, order: seq<nat>)
    requires 0 < n == |shares|
  {
    && (forall j | 0 <= j < |order| :: order[j] < |log|)
    && (forall l | 0 <= l < n :: OnShard(hash, n, log, order, l) == shares[l])
    && MineAt(log, order) == cs
  }

  /** The last deed of shard `l` may come last of all: it is another connection's, or the last of `cs`. */
  predicate MayBeLast(hash: bytes -> nat, n: nat, calls: seq<Call>, log: seq<Deed>, share: seq<nat>, cs: seq<nat>, l: nat, cs': seq<nat>)
    requires n > 0
  {
    && share != [] && share[|share| - 1] < |log|
    && if log[share[|share| - 1]].call.None? then cs' == cs
       else cs != [] && cs' == cs[..|cs| - 1] && LaneOf(hash, n, calls, cs[|cs| - 1]) == l
  }

  /** Such sequences have a common order that has this connection's calls as `cs` does. */
  lemma {:induction false} Merge(hash: bytes -> nat, n: nat, calls: seq<Call>, log: seq<Deed>, shares: seq<seq<nat>>, cs: seq<nat>)
    returns (order: seq<nat>)
    requires Mergeable(hash, n, calls, log, shares, cs)
    ensures Merged(hash, n, log, shares, cs, order)
    decreases Longs(shares)
  {
    hide LaneOf, RouteShard;
    order := [];
    if exists l :: 0 <= l < n && shares[l] != [] && log[shares[l][|shares[l]| - 1]].call.None? {
      var l :| 0 <= l < n && shares[l] != [] && log[shares[l][|shares[l]| - 1]].call.None?;
      order := MergeLast(hash, n, calls, log, shares, cs, l, cs);
    } else if cs != [] {
      var l := LaneOf(hash, n, calls, cs[|cs| - 1]);
      NotEmpty(hash, n, calls, log, shares[l], cs, l);
      order := MergeLast(hash, n, calls, log, shares, cs, l, cs[..|cs| - 1]);
    } else {
      forall l | 0 <= l < n
        ensures shares[l] == []
      {
        assert Filter(hash, n, calls, cs, l) == [];
      }
    }
  }

  lemma NotEmpty(hash: bytes -> nat, n: nat, calls: seq<Call>, log: seq<Deed>, share: seq<nat>, cs: seq<nat>, l: nat)
    requires n > 0 && cs != [] && LaneOf(hash, n, calls, cs[|cs| - 1]) == l && forall j | 0 <= j < |share| :: share[j] < |log|
    requires MineAt(log, share) == Filter(hash, n, calls, cs, l)
    ensures share != []
  {
    hide LaneOf;
  }

  lemma {:induction false} MergeLast(hash: bytes -> nat, n: nat, calls: seq<Call>, log: seq<Deed>, shares: seq<seq<nat>>,
                                     cs: seq<nat>, l: nat, cs': seq<nat>) returns (order: seq<nat>)
    requires Mergeable(hash, n, calls, log, shares, cs) && l < n && MayBeLast(hash, n, calls, log, shares[l], cs, l, cs')
    ensures Merged(hash, n, log, shares, cs, order)
    decreases Longs(shares), 0
  {
    var i, init := shares[l][|shares[l]| - 1], shares[l][..|shares[l]| - 1];
    hide LaneOf, RouteShard, Mergeable, Filter, Merged, MineAt, OnShard;
    LongsShrinks(shares, l, init);
    WithoutLast(hash, n, calls, log, shares, cs, l, cs');
    var order' := Merge(hash, n, calls, log, shares[l := init], cs');
    order := order' + [i];
    MergedSnoc(hash, n, log, shares, l, cs', order', i);
  }

  lemma MergedSnoc(hash: bytes -> nat, n: nat, log: seq<Deed>, shares: seq<seq<nat>>, l: nat, cs': seq<nat>, order': seq<nat>, i: nat)
    requires 0 < n == |shares| && l < n && i < |log| && RouteShard(hash, log[i].op.key, n) == l
    requires shares[l] != [] && i == shares[l][|shares[l]| - 1]
    requires Merged(hash, n, log, shares[l := shares[l][..|shares[l]| - 1]], cs', order')
    ensures Merged(hash, n, log, shares, cs' + (if log[i].call.Some? then [log[i].call.value] else []), order' + [i])
  {
    hide RouteShard;
    var order := order' + [i];
    assert order[..|order| - 1] == order' && order[|order| - 1] == i;
    forall k | 0 <= k < n
      ensures OnShard(hash, n, log, order, k) == shares[k]
    {
      assert OnShard(hash, n, log, order', k) == shares[l := shares[l][..|shares[l]| - 1]][k];
      assert k == l ==> shares[l] == shares[l][..|shares[l]| - 1] + [i];
      assert OnShard(hash, n, log, order', k) + [] == OnShard(hash, n, log, order', k);
    }
  }

  lemma WithoutLast(hash: bytes -> nat, n: nat, calls: seq<Call>, log: seq<Deed>, shares: seq<seq<nat>>, cs: seq<nat>, l: nat, cs': seq<nat>)
    requires Mergeable(hash, n, calls, log, shares, cs) && l < n && MayBeLast(hash, n, calls, log, shares[l], cs, l, cs')
    ensures Mergeable(hash, n, calls, log, shares[l := shares[l][..|shares[l]| - 1]], cs')
    ensures var i := shares[l][|shares[l]| - 1];
            && i < |log| && RouteShard(hash, log[i].op.key, n) == l
            && cs == cs' + (if log[i].call.Some? then [log[i].call.value] else [])
  {
    hide LaneOf, RouteShard, Filter, MineAt;
    var share, shares' := shares[l], shares[l := shares[l][..|shares[l]| - 1]];
    LastCall(hash, n, calls, log, share, cs, l, cs');
    forall i | 0 <= i < n
      ensures MineAt(log, shares'[i]) == Filter(hash, n, calls, cs', i)
    {
      assert MineAt(log, shares[i]) == Filter(hash, n, calls, cs, i);
      if cs' != cs && i != l {
        OtherLane(hash, n, calls, cs, i);
      }
    }
  }

  lemma OtherLane(hash: bytes -> nat, n: nat, calls: seq<Call>, cs: seq<nat>, l: nat)
    requires n > 0 && cs != [] && LaneOf(hash, n, calls, cs[|cs| - 1]) != l
    ensures Filter(hash, n, calls, cs, l) == Filter(hash, n, calls, cs[..|cs| - 1], l)
  {
    hide LaneOf;
    var f := Filter(hash, n, calls, cs[..|cs| - 1], l);
    assert f + [] == f;
  }

  lemma LastsEqual<T>(a: seq<T>, x: T, b: seq<T>, y: T)
    requires a + [x] == b + [y]
    ensures a == b && x == y
  {
    assert (a + [x])[..|a|] == a && (b + [y])[..|b|] == b;
    assert (a + [x])[|a|] == x && (b + [y])[|b|] == y;
  }

  lemma LastCall(hash: bytes -> nat, n: nat, calls: seq<Call>, log: seq<Deed>, share: seq<nat>, cs: seq<nat>, l: nat, cs': seq<nat>)
    requires n > 0 && MayBeLast(hash, n, calls, log, share, cs, l, cs') && forall j | 0 <= j < |share| :: share[j] < |log|
    requires MineAt(log, share) == Filter(hash, n, calls, cs, l)
    ensures MineAt(log, share[..|share| - 1]) == Filter(hash, n, calls, cs', l)
    ensures var d := log[share[|share| - 1]]; cs == cs' + (if d.call.Some? then [d.call.value] else [])
  {
    hide LaneOf;
    var d, a := log[share[|share| - 1]], MineAt(log, share[..|share| - 1]);
    if d.call.Some? {
      var b, c := Filter(hash, n, calls, cs', l), cs[|cs| - 1];
      LastsEqual(a, d.call.value, b, c);
      assert cs == cs' + [c];
    } else {
      assert a + [] == a;
    }
  }

  lemma SharesMerge(hash: bytes -> nat, start: seq<Keyspace>, s: Sys) returns (shares: seq<seq<nat>>)
    requires Inv(hash, s) && Sequenced(hash, start, s)
    ensures |shares| == |start| && forall l | 0 <= l < |start| :: shares[l] == OnShard(hash, |start|, s.log, Upto(|s.log|), l)
    ensures Mergeable(hash, |start|, s.calls, s.log, shares, Completed(hash, s))
  {
    hide Slotted, Sized, Flowing, Right, Wired, Answered, AllCarriable, Small, Truthful, Traces, RouteShard, LaneOf, Filter;
    shares := seq(|start|, l requires 0 <= l < |start| => OnShard(hash, |start|, s.log, Upto(|s.log|), l));
    forall l | 0 <= l < |start|
      ensures MineAt(s.log, shares[l]) == Filter(hash, |start|, s.calls, Completed(hash, s), l)
    {
      assert LaneTraces(hash, start, s, l);
      LaneOfCompleted(hash, s, l);
    }
    forall j | 0 <= j < |Completed(hash, s)|
      ensures LaneOf(hash, |start|, s.calls, Completed(hash, s)[j]) < |start|
    {
      KeepingMember(s.sent, AppliedCalls(hash, s), Completed(hash, s)[j]);
      assert Completed(hash, s)[j] in Keeping(s.sent, AppliedCalls(hash, s));
    }
  }

  /** Every run, with any other connections: there is an order of all operations applied, this
      connection's completed calls in the order their frames were written and each shard's as it
      applied them, in which one unsharded map gives all the same answers and ends with the same content. */
  lemma RunsKeepWrittenOrder(hash: bytes -> nat, max: nat, start: seq<Keyspace>, m: Keyspace, steps: seq<Step>)
    returns (order: seq<nat>)
    requires |start| > 0 && max < U32 && AllCarriable(start) && Partitions(hash, start, m)
    ensures Inv(hash, Init(max, start)) && |After(hash, Init(max, start), steps).shards| == |start|
    ensures var s := After(hash, Init(max, start), steps);
            && Orders(hash, |start|, s.log, order) && MineAt(s.log, order) == Completed(hash, s)
            && AllAgree(ItemsAt(s.log, order), AnswersAt(s.log, order), Run(m, ItemsAt(s.log, order)).1)
            && |s.clocks| == |start| && ShowTogether(hash, s.shards, s.clocks, Run(m, ItemsAt(s.log, order)).0)
  {
    assert Init(max, start).shards == start;
    hide Inv, Init, Run, Partitions, AllAgree, OnShard, ShowTogether, AllCarriable, RouteShard, MineAt, Completed, LaneOf, Filter,
         Mergeable, LaneTraces;
    InitHolds(hash, max, start);
    InitSequenced(hash, max, start);
    RunSequenced(hash, start, Init(max, start), steps);
    var s := After(hash, Init(max, start), steps);
    var shares := SharesMerge(hash, start, s);
    order := Merge(hash, |start|, s.calls, s.log, shares, Completed(hash, s));
    AnyOrderWillDo(hash, start, m, s, order);
  }
}
