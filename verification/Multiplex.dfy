/** One connection end to end, as a transition system over bytes: callers, request bytes, the server's decoder and
    reader, shard queues, workers, reply channel, response bytes and the client's read loop, interleaved in any way. */
module Multiplex {
  import opened Prelude
  import opened Codec
  import opened Wire
  import opened Hashing
  import opened TtlMap
  import opened RustClient
  import opened Server

  /** A call's payload and the slot id it was given. Calls are numbered in the order they took their slots;
      these numbers, wherever they appear below, are labels that no participant sees. */
  datatype Call = Call(payload: bytes, id: nat)

  /** An operation on its way to a worker, under its request id. */
  datatype Job = Job(id: nat, op: Op, call: nat)

  /** Operations bucketed by the reader, dispatched to the worker, and applied, per shard. */
  datatype Lane = Lane(group: seq<Job>, queue: seq<Job>, done: seq<nat>)

  /** A reply on its way back. */
  datatype Token = Token(id: nat, payload: bytes, call: nat)

  /** An operation that a shard applied, what it answered, and which of this connection's calls it was, if any. */
  datatype Deed = Deed(op: Op, now: nat, got: bytes, call: Option<nat>)

  datatype Sys = Sys(
    pool: Pool,
    waiting: nat,                  // callers that hold a permit and no slot yet
    finished: nat,                 // callers that have their answer and still hold the permit
    calls: seq<Call>,
    unsent: set<nat>,              // calls that have a slot but whose frame is not written
    sent: seq<nat>,                // calls in the order their frames were written
    up: bytes,                     // request bytes on the way
    inbox: bytes,                  // request bytes the server has received and not decoded
    stream: seq<nat>,              // the calls whose frames those bytes are
    lanes: seq<Lane>,              // one per shard, and a last one for what the reader answers itself
    replies: seq<Token>,           // the reply channel
    down: bytes,                   // response bytes on the way
    heard: bytes,                  // response bytes the client has received and not read
    flying: seq<Token>,            // the replies those bytes are
    results: map<nat, bytes>,      // the answer each completed call got
    at: map<nat, nat>,             // where in the log it was applied
    delivered: map<nat, bytes>,    // what its caller was handed
    shards: seq<Keyspace>,
    clocks: seq<nat>,              // each shard's latest clock reading
    log: seq<Deed>)                // everything the shards applied, for any connection, in that order

  datatype Step =
    | Acquire
    | TakeSlot(payload: bytes)
    | WriteFrame(call: nat)
    | Uplink(n: nat)                                    // so many bytes reach the server
    | ReadFrame
    | Dispatch(shard: nat)
    | Work(shard: nat, now: nat)
    | Tick(shard: nat, content: Keyspace, now: nat)     // the shard's timer sweeps expired entries
    | Elsewhere(shard: nat, op: Op, now: nat)           // the shard serves another connection
    | WriteReply
    | Downlink(n: nat)                                  // so many bytes reach the client
    | Deliver
    | Release

  function FrameOf(c: Call): (f: Frame)
  {
    Frame(REQUEST, c.id, c.payload)
  }

  /** What the server's planner makes of a call. */
  function PlanFor(hash: bytes -> nat, n: nat, c: Call): (p: Plan)
    requires n > 0
    ensures p.ToShard? ==> p.shard == RouteShard(hash, p.op.key, n) < n
  {
    PlanOf(hash, n, FrameOf(c))
  }

  /** The lane a call travels in: that of its shard, or the last one. */
  function LaneOf(hash: bytes -> nat, n: nat, calls: seq<Call>, c: nat): (l: nat)
    requires n > 0
    ensures l <= n
  {
    if c < |calls| && PlanFor(hash, n, calls[c]).ToShard? then PlanFor(hash, n, calls[c]).shard else n
  }

  /** The calls of one lane, in order. */
  function Filter(hash: bytes -> nat, n: nat, calls: seq<Call>, cs: seq<nat>, l: nat): (r: seq<nat>)
    requires n > 0
  {
    if cs == [] then []
    else
      var c := cs[|cs| - 1];
      Filter(hash, n, calls, cs[..|cs| - 1], l) + if LaneOf(hash, n, calls, c) == l then [c] else []
  }

  function Labels(jobs: seq<Job>): (cs: seq<nat>)
    ensures |cs| == |jobs|
  {
    seq(|jobs|, i requires 0 <= i < |jobs| => jobs[i].call)
  }

  /** What has entered a lane so far. */
  function Pipe(lane: Lane): (cs: seq<nat>)
  {
    lane.done + Labels(lane.queue) + Labels(lane.group)
  }

  function CallsOf(ts: seq<Token>): (cs: seq<nat>)
    ensures |cs| == |ts| && forall i | 0 <= i < |ts| :: cs[i] == ts[i].call
  {
    seq(|ts|, i requires 0 <= i < |ts| => ts[i].call)
  }

  /** The replies on their way back, oldest first. */
  function Pending(s: Sys): (ts: seq<Token>)
  {
    s.flying + s.replies
  }

  function Framed(calls: seq<Call>, cs: seq<nat>): (fs: seq<Frame>)
    ensures |fs| == |cs|
  {
    seq(|cs|, i requires 0 <= i < |cs| => if cs[i] < |calls| then FrameOf(calls[cs[i]]) else Frame(REQUEST, 0, []))
  }

  function Response(t: Token): (f: Frame)
  {
    Frame(RESPONSE, t.id, t.payload)
  }

  function Responses(ts: seq<Token>): (fs: seq<Frame>)
    ensures |fs| == |ts|
  {
    seq(|ts|, i requires 0 <= i < |ts| => Response(ts[i]))
  }

  function Init(max: nat, shards: seq<Keyspace>): (s: Sys)
  {
    Sys(Fresh(max), 0, 0, [], {}, [], [], [], [], seq(|shards| + 1, _ => Lane([], [], [])), [], [], [], [],
        map[], map[], map[], shards, seq(|shards|, _ => 0), [])
  }

  /** What a participant may do. A payload must fit the u16 length of a frame; nothing else is asked of it. */
  predicate Enabled(hash: bytes -> nat, s: Sys, step: Step) {
    && |s.lanes| == |s.clocks| + 1 == |s.shards| + 1 && |s.shards| > 0
    && match step
       case Acquire => s.waiting + Occupied(s.pool.senders) + s.finished < |s.pool.senders|
       case TakeSlot(payload) => s.waiting > 0 && |payload| < U16
       case WriteFrame(c) => c in s.unsent
       case Uplink(n) => n <= |s.up|
       case ReadFrame => !DecodeOne(true, s.inbox).NeedMore?
       case Dispatch(l) => l < |s.shards| && s.lanes[l].group != []
       case Work(l, now) => l < |s.shards| && s.lanes[l].queue != [] && s.clocks[l] <= now
       case Tick(l, content, now) =>
         l < |s.shards| && s.clocks[l] <= now && Live(content, now) == Live(s.shards[l], now) && SubMap(content, s.shards[l])
       case Elsewhere(l, op, now) =>
         l < |s.shards| && s.clocks[l] <= now && StorableOp(op) && l == RouteShard(hash, op.key, |s.shards|)
       case WriteReply => s.replies != []
       case Downlink(n) => n <= |s.down|
       case Deliver => !DecodeOne(false, s.heard).NeedMore?
       case Release => s.finished > 0
  }

  // --- The invariant ---

  /** Permits, slots and unanswered calls match one to one. */
  predicate Slotted(pool: Pool, waiting: nat, finished: nat, calls: seq<Call>, delivered: map<nat, bytes>) {
    && Sound(pool) && |pool.senders| < U32
    && waiting + Occupied(pool.senders) + finished <= |pool.senders|
    && (forall c | 0 <= c < |calls| :: calls[c].id < |pool.senders|)
    && (forall c | 0 <= c < |calls| && c !in delivered :: pool.senders[calls[c].id] == Some(c))
    && (forall id | 0 <= id < |pool.senders| && pool.senders[id].Some? ::
          var c := pool.senders[id].value;
          c < |calls| && calls[c].id == id && c !in delivered)
  }

  predicate Sized(calls: seq<Call>) {
    forall c | 0 <= c < |calls| :: |calls[c].payload| < U16 && calls[c].id < U32
  }

  predicate Shaped(s: Sys) {
    && |s.shards| > 0 && |s.lanes| == |s.shards| + 1 && |s.clocks| == |s.shards|
    && s.lanes[|s.shards|].group == [] && s.lanes[|s.shards|].queue == []
    && (forall c | c in s.unsent :: c < |s.calls|)
    && (forall c | c in s.sent :: c < |s.calls|)
    && (forall c | c in s.stream :: c < |s.calls|)
  }

  /** Every call's frame is written once, or not yet. */
  ghost predicate Once(n: nat, unsent: set<nat>, sent: seq<nat>) {
    forall c: nat :: multiset(sent)[c] == if c < n && c !in unsent then 1 else 0
  }

  /** Each lane carries the written calls that belong to it, in the order written. */
  predicate Piped(hash: bytes -> nat, n: nat, calls: seq<Call>, lanes: seq<Lane>, stream: seq<nat>, sent: seq<nat>)
    requires n > 0
  {
    forall l | 0 <= l < |lanes| ::
      Pipe(lanes[l]) + Filter(hash, n, calls, stream, l) == Filter(hash, n, calls, sent, l)
  }

  ghost predicate Flowing(hash: bytes -> nat, s: Sys) {
    Shaped(s) && Once(|s.calls|, s.unsent, s.sent) && Piped(hash, |s.shards|, s.calls, s.lanes, s.stream, s.sent)
  }

  /** A queued operation is the one its call asked for, under its call's id. */
  predicate JobsRight(hash: bytes -> nat, n: nat, calls: seq<Call>, l: nat, jobs: seq<Job>)
    requires n > 0
  {
    forall i | 0 <= i < |jobs| ::
      var j := jobs[i];
      j.call < |calls| && j.id == calls[j.call].id && PlanFor(hash, n, calls[j.call]) == ToShard(l, j.op)
  }

  predicate Right(hash: bytes -> nat, n: nat, calls: seq<Call>, lanes: seq<Lane>)
    requires n > 0
  {
    forall l | 0 <= l < |lanes| ::
      JobsRight(hash, n, calls, l, lanes[l].group) && JobsRight(hash, n, calls, l, lanes[l].queue)
  }

  /** The bytes in both directions are the frames of the calls and replies under way. */
  predicate Wired(calls: seq<Call>, stream: seq<nat>, inbox: bytes, up: bytes, flying: seq<Token>, heard: bytes, down: bytes) {
    Carries(Framed(calls, stream), inbox, up) && Carries(Responses(flying), heard, down)
  }

  /** A call has an answer exactly when its lane says it was applied. */
  ghost predicate Recorded(hash: bytes -> nat, n: nat, calls: seq<Call>, lanes: seq<Lane>, results: map<nat, bytes>)
    requires n > 0
  {
    forall c: nat :: c in results <==>
      c < |calls| && LaneOf(hash, n, calls, c) < |lanes| && c in lanes[LaneOf(hash, n, calls, c)].done
  }

  /** A reply in flight carries the answer and the slot id of its own call. */
  predicate Labelled(calls: seq<Call>, tokens: seq<Token>, results: map<nat, bytes>) {
    forall i | 0 <= i < |tokens| ::
      var t := tokens[i];
      t.call in results && t.payload == results[t.call] && t.call < |calls| && t.id == calls[t.call].id
  }

  /** Each answer is in flight once, or it has been handed over. */
  ghost predicate InFlight(tokens: seq<Token>, results: map<nat, bytes>, delivered: map<nat, bytes>) {
    forall c: nat :: multiset(CallsOf(tokens))[c] == if c in results && c !in delivered then 1 else 0
  }

  predicate Handed(results: map<nat, bytes>, delivered: map<nat, bytes>) {
    forall c | c in delivered :: c in results && delivered[c] == results[c]
  }

  ghost predicate Answered(hash: bytes -> nat, n: nat, calls: seq<Call>, lanes: seq<Lane>, tokens: seq<Token>,
                           results: map<nat, bytes>, delivered: map<nat, bytes>)
    requires n > 0
  {
    && Recorded(hash, n, calls, lanes, results)
    && Labelled(calls, tokens, results) && InFlight(tokens, results, delivered) && Handed(results, delivered)
  }

  /** What is stored, and what is answered, fits a response frame. */
  predicate Carriable(m: Keyspace) {
    forall k | k in m :: |m[k].value| < U16
  }

  predicate AllCarriable(shards: seq<Keyspace>) {
    forall l | 0 <= l < |shards| :: Carriable(shards[l])
  }

  predicate Small(results: map<nat, bytes>) {
    forall c | c in results :: |results[c]| < U16
  }

  /** The answer is the refusal the reader planned, or what a shard answered to the very operation that was sent. */
  predicate Truthful(hash: bytes -> nat, n: nat, calls: seq<Call>, results: map<nat, bytes>, at: map<nat, nat>, log: seq<Deed>)
    requires n > 0
  {
    forall c | c in results && c < |calls| ::
      match PlanFor(hash, n, calls[c])
      case Immediate(payload) => results[c] == payload
      case ToShard(_, op) =>
        && c in at && at[c] < |log|
        && var d := log[at[c]]; (d.call == Some(c) && d.op == op && d.got == results[c])
  }

  ghost predicate Inv(hash: bytes -> nat, s: Sys) {
    && Slotted(s.pool, s.waiting, s.finished, s.calls, s.delivered) && Sized(s.calls)
    && Flowing(hash, s) && Right(hash, |s.shards|, s.calls, s.lanes)
    && Wired(s.calls, s.stream, s.inbox, s.up, s.flying, s.heard, s.down)
    && Answered(hash, |s.shards|, s.calls, s.lanes, Pending(s), s.results, s.delivered)
    && AllCarriable(s.shards) && Small(s.results)
    && Truthful(hash, |s.shards|, s.calls, s.results, s.at, s.log)
  }

  // --- Facts about lanes ---

  lemma {:induction false} FilterMember(hash: bytes -> nat, n: nat, calls: seq<Call>, cs: seq<nat>, l: nat, c: nat)
    requires n > 0
    ensures multiset(Filter(hash, n, calls, cs, l))[c] == if LaneOf(hash, n, calls, c) == l then multiset(cs)[c] else 0
  {
    hide LaneOf;
    if cs != [] {
      var init := cs[..|cs| - 1];
      assert cs == init + [cs[|cs| - 1]];
      FilterMember(hash, n, calls, init, l, c);
    }
  }

  lemma {:induction false} FilterAppend(hash: bytes -> nat, n: nat, calls: seq<Call>, a: seq<nat>, b: seq<nat>, l: nat)
    requires n > 0
    ensures Filter(hash, n, calls, a + b, l) == Filter(hash, n, calls, a, l) + Filter(hash, n, calls, b, l)
    decreases |b|
  {
    hide LaneOf;
    if b == [] {
      assert a + b == a;
    } else {
      var init := b[..|b| - 1];
      assert (a + b)[..|a + b| - 1] == a + init && (a + b)[|a + b| - 1] == b[|b| - 1];
      FilterAppend(hash, n, calls, a, init, l);
    }
  }

  lemma FilterOne(hash: bytes -> nat, n: nat, calls: seq<Call>, c: nat, l: nat)
    requires n > 0
    ensures Filter(hash, n, calls, [c], l) == if LaneOf(hash, n, calls, c) == l then [c] else []
  {
    hide LaneOf;
    assert [c][..0] == [];
  }

  /** A new call does not move the older ones. */
  lemma {:induction false} FilterGrows(hash: bytes -> nat, n: nat, calls: seq<Call>, x: Call, cs: seq<nat>, l: nat)
    requires n > 0
    requires forall i | 0 <= i < |cs| :: cs[i] < |calls|
    ensures Filter(hash, n, calls + [x], cs, l) == Filter(hash, n, calls, cs, l)
  {
    hide PlanFor;
    if cs != [] {
      FilterGrows(hash, n, calls, x, cs[..|cs| - 1], l);
      assert (calls + [x])[cs[|cs| - 1]] == calls[cs[|cs| - 1]];
    }
  }

  lemma LabelsAppend(a: seq<Job>, b: seq<Job>)
    ensures Labels(a + b) == Labels(a) + Labels(b)
  {
  }

  /** Where call `c` is within a lane. */
  lemma LaneCounts(hash: bytes -> nat, s: Sys, l: nat, c: nat)
    requires Flowing(hash, s) && l < |s.lanes|
    ensures var lane := s.lanes[l];
            multiset(lane.done)[c] + multiset(Labels(lane.queue))[c] + multiset(Labels(lane.group))[c]
              + (if LaneOf(hash, |s.shards|, s.calls, c) == l then multiset(s.stream)[c] else 0)
            == if LaneOf(hash, |s.shards|, s.calls, c) == l then multiset(s.sent)[c] else 0
  {
    hide LaneOf, Filter, Labels;
    var lane := s.lanes[l];
    FilterMember(hash, |s.shards|, s.calls, s.stream, l, c);
    FilterMember(hash, |s.shards|, s.calls, s.sent, l, c);
    assert multiset(Pipe(lane) + Filter(hash, |s.shards|, s.calls, s.stream, l))[c]
        == multiset(Filter(hash, |s.shards|, s.calls, s.sent, l))[c];
  }

  /** The oldest operation in a queue: it is the one its call asked for, it belongs there, and it was not applied before. */
  lemma InLane(hash: bytes -> nat, s: Sys, l: nat)
    requires Flowing(hash, s) && Right(hash, |s.shards|, s.calls, s.lanes) && l < |s.shards| && s.lanes[l].queue != []
    ensures var j := s.lanes[l].queue[0];
            && j.call < |s.calls| && j.id == s.calls[j.call].id && PlanFor(hash, |s.shards|, s.calls[j.call]) == ToShard(l, j.op)
            && LaneOf(hash, |s.shards|, s.calls, j.call) == l && j.call !in s.lanes[l].done
  {
    hide Filter, PlanFor;
    var jobs := s.lanes[l].queue;
    var c := jobs[0].call;
    assert JobsRight(hash, |s.shards|, s.calls, l, jobs);
    LaneCounts(hash, s, l, c);
    assert Labels(jobs)[0] == c;
    assert multiset(Labels(jobs))[c] > 0;
    assert multiset(s.lanes[l].done)[c] == 0;
  }

  /** What a lane has applied belongs to that lane, once. */
  lemma DoneInLane(hash: bytes -> nat, s: Sys, c: nat, l: nat)
    requires Flowing(hash, s) && l < |s.lanes| && c in s.lanes[l].done
    ensures LaneOf(hash, |s.shards|, s.calls, c) == l && c < |s.calls| && c in s.sent
    ensures multiset(s.lanes[l].done)[c] == 1
  {
    hide LaneOf, Piped;
    LaneCounts(hash, s, l, c);
    assert multiset(s.lanes[l].done)[c] > 0;
    assert c in s.sent;
  }

  // --- The steps ---

  function TakeNext(s: Sys, payload: bytes): (s': Sys)
    requires Sound(s.pool) && s.waiting > 0 && s.pool.free != []
  {
    TakeKeepsSound(s.pool, |s.calls|);
    var id := s.pool.free[|s.pool.free| - 1];
    s.(waiting := s.waiting - 1, pool := Take(s.pool, |s.calls|),
       calls := s.calls + [Call(payload, id)], unsent := s.unsent + {|s.calls|})
  }

  function WriteNext(s: Sys, c: nat): (s': Sys)
    requires c < |s.calls| && s.calls[c].id < U32
  {
    s.(unsent := s.unsent - {c}, sent := s.sent + [c], stream := s.stream + [c], up := s.up + EncodeFrame(FrameOf(s.calls[c])))
  }

  /** The reader takes one decoded frame and buckets its operation, or answers it there and then. */
  function ReadNext(hash: bytes -> nat, s: Sys): (s': Sys)
    requires DecodeOne(true, s.inbox).Got? && s.stream != [] && |s.shards| > 0 && |s.lanes| == |s.shards| + 1
  {
    var r := DecodeOne(true, s.inbox);
    var f, c := r.frame, s.stream[0];
    var s1 := s.(inbox := s.inbox[r.used..], stream := s.stream[1..]);
    match PlanOf(hash, |s.shards|, f)
    case ToShard(l, op) =>
      var lane := s.lanes[l];
      s1.(lanes := s.lanes[l := lane.(group := lane.group + [Job(f.reqId, op, c)])])
    case Immediate(payload) =>
      var lane := s.lanes[|s.shards|];
      s1.(lanes := s.lanes[|s.shards| := lane.(done := lane.done + [c])], results := s.results[c := payload],
          replies := s.replies + [Token(f.reqId, payload, c)])
  }

  function DispatchNext(s: Sys, l: nat): (s': Sys)
    requires l < |s.lanes|
  {
    var lane := s.lanes[l];
    s.(lanes := s.lanes[l := lane.(queue := lane.queue + lane.group, group := [])])
  }

  /** A worker applies the oldest operation it has been sent and pushes the tagged reply. */
  function WorkNext(s: Sys, l: nat, now: nat): (s': Sys)
    requires l < |s.lanes| && l < |s.shards| && l < |s.clocks| && s.lanes[l].queue != []
  {
    var lane := s.lanes[l];
    var j := lane.queue[0];
    var (m, payload) := Actual(s.shards[l], j.op, now);
    s.(lanes := s.lanes[l := lane.(queue := lane.queue[1..], done := lane.done + [j.call])],
       shards := s.shards[l := m], clocks := s.clocks[l := now],
       results := s.results[j.call := payload], at := s.at[j.call := |s.log|],
       log := s.log + [Deed(j.op, now, payload, Some(j.call))],
       replies := s.replies + [Token(j.id, payload, j.call)])
  }

  function ElsewhereNext(s: Sys, l: nat, op: Op, now: nat): (s': Sys)
    requires l < |s.shards| == |s.clocks|
  {
    var (m, payload) := Actual(s.shards[l], op, now);
    s.(shards := s.shards[l := m], clocks := s.clocks[l := now], log := s.log + [Deed(op, now, payload, None)])
  }

  /** The writer task encodes the next reply. */
  function ReplyNext(s: Sys): (s': Sys)
    requires s.replies != [] && s.replies[0].id < U32
  {
    var t := s.replies[0];
    s.(replies := s.replies[1..], flying := s.flying + [t], down := s.down + EncodeFrame(Response(t)))
  }

  /** The read loop takes the next response; it knows its id and body, nothing else. */
  function DeliverNext(s: Sys): (s': Sys)
    requires DecodeOne(false, s.heard).Got? && DecodeOne(false, s.heard).frame.reqId < |s.pool.senders| && s.flying != []
  {
    var r := DecodeOne(false, s.heard);
    var id := r.frame.reqId;
    var s1 := s.(heard := s.heard[r.used..], flying := s.flying[1..], pool := Finish(s.pool, id));
    match s.pool.senders[id]
    case None => s1
    case Some(c) => s1.(delivered := s.delivered[c := r.frame.payload], finished := s.finished + 1)
  }

  ghost function Next(hash: bytes -> nat, s: Sys, step: Step): (s': Sys)
    requires Inv(hash, s) && Enabled(hash, s, step)
  {
    hide Actual, LaneOf, Filter, Sound, Occupied, Piped, Once, Recorded, InFlight, Truthful, Right, Small, AllCarriable, DecodeOne;
    match step
    case Acquire => s.(waiting := s.waiting + 1)
    case TakeSlot(payload) => SlotForPermit(s); TakeNext(s, payload)
    case WriteFrame(c) => WriteNext(s, c)
    case Uplink(n) => s.(inbox := s.inbox + s.up[..n], up := s.up[n..])
    case ReadFrame => FirstFrame(s); ReadNext(hash, s)
    case Dispatch(l) => DispatchNext(s, l)
    case Work(l, now) => WorkNext(s, l, now)
    case Tick(l, content, now) => s.(shards := s.shards[l := content], clocks := s.clocks[l := now])
    case Elsewhere(l, op, now) => ElsewhereNext(s, l, op, now)
    case WriteReply => FirstReply(hash, s); ReplyNext(s)
    case Downlink(n) => s.(heard := s.heard + s.down[..n], down := s.down[n..])
    case Deliver => HeadIsWaitedFor(hash, s); DeliverNext(s)
    case Release => s.(finished := s.finished - 1)
  }

  /** `expect("permit guarantees a free slot")` cannot fire: a caller that holds a permit and no slot finds one. */
  lemma SlotForPermit(s: Sys)
    requires Slotted(s.pool, s.waiting, s.finished, s.calls, s.delivered) && s.waiting > 0
    ensures Sound(s.pool) && s.pool.free != []
  {
    PermitMeansFreeSlot(s.pool);
  }

  /** Whatever the server can decode is the frame of the oldest undecoded call: never an error, never another frame. */
  lemma FirstFrame(s: Sys)
    requires Shaped(s) && Wired(s.calls, s.stream, s.inbox, s.up, s.flying, s.heard, s.down)
    requires !DecodeOne(true, s.inbox).NeedMore?
    ensures var r := DecodeOne(true, s.inbox);
            && s.stream != [] && s.stream[0] < |s.calls| && r.Got? && r.frame == FrameOf(s.calls[s.stream[0]])
            && Carries(Framed(s.calls, s.stream[1..]), s.inbox[r.used..], s.up)
  {
    hide Carries, DecodeOne;
    CarriesDecode(true, Framed(s.calls, s.stream), s.inbox, s.up);
    assert s.stream[0] in s.stream;
    assert Framed(s.calls, s.stream)[1..] == Framed(s.calls, s.stream[1..]);
  }

  lemma FirstReply(hash: bytes -> nat, s: Sys)
    requires Sized(s.calls) && s.replies != [] && Labelled(s.calls, Pending(s), s.results) && Small(s.results)
    ensures Sendable(Response(s.replies[0]))
  {
    assert Pending(s)[|s.flying|] == s.replies[0];
  }

  /** Whatever the client can decode is the oldest reply on its way, and its id is that of the very
      call that waits for this answer: indexing the slots never panics. */
  lemma HeadIsWaitedFor(hash: bytes -> nat, s: Sys)
    requires Inv(hash, s) && !DecodeOne(false, s.heard).NeedMore?
    ensures var r := DecodeOne(false, s.heard);
            && r.Got? && s.flying != [] && r.frame == Response(s.flying[0])
            && Carries(Responses(s.flying[1..]), s.heard[r.used..], s.down)
    ensures var t := s.flying[0];
            && t.call < |s.calls| && t.call in s.results && t.call !in s.delivered
            && t.id < |s.pool.senders| && s.pool.senders[t.id] == Some(t.call) && t.payload == s.results[t.call]
  {
    hide Sound, Occupied, Flowing, Truthful, Recorded, Handed, Carries, DecodeOne, Right;
    CarriesDecode(false, Responses(s.flying), s.heard, s.down);
    assert Responses(s.flying)[1..] == Responses(s.flying[1..]);
    var t := s.flying[0];
    assert Pending(s)[0] == t;
    assert CallsOf(Pending(s))[0] == t.call;
    assert multiset(CallsOf(Pending(s)))[t.call] > 0;
  }

  // --- Every step keeps the invariant ---

  lemma {:induction false} InitHolds(hash: bytes -> nat, max: nat, shards: seq<Keyspace>)
    requires |shards| > 0 && max < U32 && AllCarriable(shards)
    ensures Inv(hash, Init(max, shards))
  {
    InitSlotted(max, shards);
    InitFlowing(hash, max, shards);
    InitQuiet(hash, max, shards);
    hide Slotted, Flowing, Right, Wired, Answered, AllCarriable, Truthful;
  }

  lemma InitSlotted(max: nat, shards: seq<Keyspace>)
    requires max < U32
    ensures var s := Init(max, shards); Slotted(s.pool, s.waiting, s.finished, s.calls, s.delivered)
  {
    FreshIsSound(max);
    hide Sound, Occupied;
  }

  lemma InitFlowing(hash: bytes -> nat, max: nat, shards: seq<Keyspace>)
    requires |shards| > 0
    ensures Flowing(hash, Init(max, shards))
  {
    hide LaneOf, Fresh;
  }

  /** Nothing is under way at the start. */
  lemma InitQuiet(hash: bytes -> nat, max: nat, shards: seq<Keyspace>)
    requires |shards| > 0
    ensures var s := Init(max, shards);
            && Right(hash, |s.shards|, s.calls, s.lanes) && Truthful(hash, |s.shards|, s.calls, s.results, s.at, s.log)
            && Wired(s.calls, s.stream, s.inbox, s.up, s.flying, s.heard, s.down)
            && Answered(hash, |s.shards|, s.calls, s.lanes, Pending(s), s.results, s.delivered)
  {
    hide PlanFor, Fresh;
  }

  // A caller takes a slot.

  lemma TakeSlots(s: Sys, payload: bytes)
    requires Slotted(s.pool, s.waiting, s.finished, s.calls, s.delivered) && s.waiting > 0 && s.pool.free != []
    requires |s.calls| !in s.delivered
    ensures var s' := TakeNext(s, payload);
            Slotted(s'.pool, s'.waiting, s'.finished, s'.calls, s'.delivered) && s'.calls[|s.calls|].id < U32
  {
    hide Sound, Occupied;
    assert Sound(s.pool) by { SlotForPermit(s); }
    TakeKeepsSound(s.pool, |s.calls|);
    FreeIsUnused(s.pool, s.pool.free[|s.pool.free| - 1]);
  }

  lemma FreeIsUnused(p: Pool, id: nat)
    requires Sound(p) && id in p.free
    ensures id < |p.senders| && p.senders[id].None?
  {
  }

  lemma TakeFlows(hash: bytes -> nat, s: Sys, payload: bytes)
    requires Flowing(hash, s) && Sound(s.pool) && s.waiting > 0 && s.pool.free != []
    ensures Flowing(hash, TakeNext(s, payload))
  {
    hide Sound, Filter, LaneOf, Pipe;
    var n, x := |s.calls|, TakeNext(s, payload).calls[|s.calls|];
    assert n !in s.sent;
    assert multiset(s.sent)[n] == 0;
    forall l | 0 <= l < |s.lanes|
      ensures Filter(hash, |s.shards|, s.calls + [x], s.stream, l) == Filter(hash, |s.shards|, s.calls, s.stream, l)
      ensures Filter(hash, |s.shards|, s.calls + [x], s.sent, l) == Filter(hash, |s.shards|, s.calls, s.sent, l)
    {
      assert forall i | 0 <= i < |s.stream| :: s.stream[i] in s.stream;
      assert forall i | 0 <= i < |s.sent| :: s.sent[i] in s.sent;
      FilterGrows(hash, |s.shards|, s.calls, x, s.stream, l);
      FilterGrows(hash, |s.shards|, s.calls, x, s.sent, l);
    }
  }

  lemma TakeAnswers(hash: bytes -> nat, n: nat, calls: seq<Call>, x: Call, lanes: seq<Lane>, tokens: seq<Token>,
                    results: map<nat, bytes>, delivered: map<nat, bytes>)
    requires n > 0 && Answered(hash, n, calls, lanes, tokens, results, delivered)
    requires forall l | 0 <= l < |lanes| :: |calls| !in lanes[l].done
    ensures Answered(hash, n, calls + [x], lanes, tokens, results, delivered)
    ensures |calls| !in results && |calls| !in delivered
  {
    hide PlanFor, InFlight;
    forall c: nat | c < |calls|
      ensures LaneOf(hash, n, calls + [x], c) == LaneOf(hash, n, calls, c)
    {
      assert (calls + [x])[c] == calls[c];
    }
  }

  lemma TakeRest(hash: bytes -> nat, n: nat, calls: seq<Call>, x: Call, lanes: seq<Lane>, stream: seq<nat>,
                 results: map<nat, bytes>, at: map<nat, nat>, log: seq<Deed>)
    requires n > 0 && Right(hash, n, calls, lanes) && Truthful(hash, n, calls, results, at, log) && |calls| !in results
    requires forall c | c in stream :: c < |calls|
    ensures Right(hash, n, calls + [x], lanes) && Truthful(hash, n, calls + [x], results, at, log)
    ensures Framed(calls + [x], stream) == Framed(calls, stream)
  {
    hide PlanFor;
    assert forall c | 0 <= c < |calls| :: (calls + [x])[c] == calls[c];
    forall l | 0 <= l < |lanes|
      ensures JobsRight(hash, n, calls + [x], l, lanes[l].group) && JobsRight(hash, n, calls + [x], l, lanes[l].queue)
    {
      assert JobsRight(hash, n, calls, l, lanes[l].group) && JobsRight(hash, n, calls, l, lanes[l].queue);
    }
    assert forall i | 0 <= i < |stream| :: stream[i] in stream;
  }

  lemma NewIsNotDone(hash: bytes -> nat, s: Sys)
    requires Flowing(hash, s)
    ensures forall l | 0 <= l < |s.lanes| :: |s.calls| !in s.lanes[l].done
  {
    hide Flowing;
    forall l | 0 <= l < |s.lanes|
      ensures |s.calls| !in s.lanes[l].done
    {
      if |s.calls| in s.lanes[l].done {
        DoneInLane(hash, s, |s.calls|, l);
      }
    }
  }

  lemma TakeSized(calls: seq<Call>, x: Call)
    requires Sized(calls) && |x.payload| < U16 && x.id < U32
    ensures Sized(calls + [x])
  {
  }

  lemma TakeKeepsInv(hash: bytes -> nat, s: Sys, payload: bytes)
    requires Inv(hash, s) && Sound(s.pool) && s.waiting > 0 && s.pool.free != [] && |payload| < U16
    ensures Inv(hash, TakeNext(s, payload))
  {
    var s' := TakeNext(s, payload);
    var x := s'.calls[|s.calls|];
    assert forall c | c in s.stream :: c < |s.calls|;
    NewIsNotDone(hash, s);
    TakeFlows(hash, s, payload);
    SamePending(s, s');
    hide Sound, Occupied, Take, Slotted, Sized, Flowing, Truthful, Right, Answered, Carries, Framed, Responses, Pending, Small, AllCarriable;
    TakeAnswers(hash, |s.shards|, s.calls, x, s.lanes, Pending(s), s.results, s.delivered);
    TakeSlots(s, payload);
    TakeSized(s.calls, x);
    TakeRest(hash, |s.shards|, s.calls, x, s.lanes, s.stream, s.results, s.at, s.log);
  }

  lemma SamePending(s: Sys, s': Sys)
    requires s'.flying == s.flying && s'.replies == s.replies
    ensures Pending(s') == Pending(s)
  {
  }

  // Its frame is written.

  lemma WriteKeepsInv(hash: bytes -> nat, s: Sys, c: nat)
    requires Inv(hash, s) && c in s.unsent
    ensures Inv(hash, WriteNext(s, c))
  {
    hide Slotted, Truthful, Right, Answered, Filter, Once, Carries, EncodeFrame, Responses, Pipe, Small, AllCarriable;
    WriteOnce(|s.calls|, s.unsent, s.sent, c);
    var n, s' := |s.shards|, WriteNext(s, c);
    forall l | 0 <= l < |s.lanes|
      ensures Pipe(s.lanes[l]) + Filter(hash, n, s.calls, s.stream + [c], l) == Filter(hash, n, s.calls, s.sent + [c], l)
    {
      FilterAppend(hash, n, s.calls, s.stream, [c], l);
      FilterAppend(hash, n, s.calls, s.sent, [c], l);
      Assoc(Pipe(s.lanes[l]), Filter(hash, n, s.calls, s.stream, l), Filter(hash, n, s.calls, [c], l));
    }
    var f := FrameOf(s.calls[c]);
    CarriesWrite(Framed(s.calls, s.stream), s.inbox, s.up, f);
    assert Framed(s.calls, s.stream + [c]) == Framed(s.calls, s.stream) + [f];
  }

  lemma WriteOnce(n: nat, unsent: set<nat>, sent: seq<nat>, c: nat)
    requires Once(n, unsent, sent) && c in unsent && c < n
    ensures Once(n, unsent - {c}, sent + [c])
  {
    assert multiset(sent + [c]) == multiset(sent) + multiset{c};
  }

  // The reader takes a frame.

  /** The pipeline equation of a lane, with the head of the stream taken apart. */
  lemma StreamHead(hash: bytes -> nat, s: Sys, l: nat)
    requires Flowing(hash, s) && s.stream != [] && l < |s.lanes|
    ensures var n := |s.shards|;
            var first := if LaneOf(hash, n, s.calls, s.stream[0]) == l then [s.stream[0]] else [];
            Pipe(s.lanes[l]) + (first + Filter(hash, n, s.calls, s.stream[1..], l)) == Filter(hash, n, s.calls, s.sent, l)
  {
    hide LaneOf, Filter, Pipe;
    var c, rest := s.stream[0], s.stream[1..];
    assert s.stream == [c] + rest;
    FilterAppend(hash, |s.shards|, s.calls, [c], rest, l);
    FilterOne(hash, |s.shards|, s.calls, c, l);
  }

  /** One more call at the end of one lane, at the expense of the stream. */
  lemma ReadPipes(hash: bytes -> nat, s: Sys, l: nat, lane: Lane)
    requires Flowing(hash, s) && s.stream != [] && l < |s.lanes| && LaneOf(hash, |s.shards|, s.calls, s.stream[0]) == l
    requires Pipe(lane) == Pipe(s.lanes[l]) + [s.stream[0]]
    ensures Piped(hash, |s.shards|, s.calls, s.lanes[l := lane], s.stream[1..], s.sent)
  {
    hide LaneOf, Filter, Pipe, Once;
    var n, c, rest := |s.shards|, s.stream[0], s.stream[1..];
    forall i | 0 <= i < |s.lanes|
      ensures Pipe(s.lanes[l := lane][i]) + Filter(hash, n, s.calls, rest, i) == Filter(hash, n, s.calls, s.sent, i)
    {
      StreamHead(hash, s, i);
      var f := Filter(hash, n, s.calls, rest, i);
      if i == l {
        Assoc(Pipe(s.lanes[l]), [c], f);
      } else {
        assert [] + f == f;
      }
    }
  }

  lemma HeadUnanswered(hash: bytes -> nat, s: Sys)
    requires Flowing(hash, s) && s.stream != []
    requires Recorded(hash, |s.shards|, s.calls, s.lanes, s.results)
    ensures s.stream[0] !in s.results
  {
    hide Filter, LaneOf, Piped;
    var c := s.stream[0];
    var l := LaneOf(hash, |s.shards|, s.calls, c);
    LaneCounts(hash, s, l, c);
    assert multiset(s.stream)[c] >= 1;
    assert multiset(s.lanes[l].done)[c] == 0;
  }

  lemma ReadRouted(hash: bytes -> nat, s: Sys, c: nat, l: nat, op: Op)
    requires Inv(hash, s) && DecodeOne(true, s.inbox).Got? && s.stream != [] && c == s.stream[0] < |s.calls|
    requires DecodeOne(true, s.inbox).frame == FrameOf(s.calls[c])
    requires Carries(Framed(s.calls, s.stream[1..]), s.inbox[DecodeOne(true, s.inbox).used..], s.up)
    requires PlanFor(hash, |s.shards|, s.calls[c]) == ToShard(l, op)
    ensures Inv(hash, ReadNext(hash, s))
  {
    hide Slotted, Once, Piped, PlanOf, Filter, Carries, Recorded, InFlight, Labelled, Handed, Truthful, Small, AllCarriable, DecodeOne;
    var s', lane := ReadNext(hash, s), s.lanes[l];
    var j := Job(s.calls[c].id, op, c);
    var lane' := lane.(group := lane.group + [j]);
    assert s'.lanes == s.lanes[l := lane'];
    LabelsAppend(lane.group, [j]);
    Assoc(lane.done + Labels(lane.queue), Labels(lane.group), [c]);
    assert Labels([j]) == [c];
    ReadPipes(hash, s, l, lane');
    assert forall x | x in s.stream[1..] :: x in s.stream;
    RecordedFrame(hash, |s.shards|, s.calls, s.lanes, s'.lanes, s.results);
    RightAt(hash, |s.shards|, s.calls, s.lanes, l, lane');
    SamePending(s, s');
  }

  lemma RightAt(hash: bytes -> nat, n: nat, calls: seq<Call>, lanes: seq<Lane>, l: nat, lane: Lane)
    requires n > 0 && Right(hash, n, calls, lanes) && l < |lanes|
    requires JobsRight(hash, n, calls, l, lane.group) && JobsRight(hash, n, calls, l, lane.queue)
    ensures Right(hash, n, calls, lanes[l := lane])
  {
    hide JobsRight;
  }

  lemma ReadRefused(hash: bytes -> nat, s: Sys, c: nat, payload: bytes)
    requires Inv(hash, s) && DecodeOne(true, s.inbox).Got? && s.stream != [] && c == s.stream[0] < |s.calls|
    requires DecodeOne(true, s.inbox).frame == FrameOf(s.calls[c])
    requires Carries(Framed(s.calls, s.stream[1..]), s.inbox[DecodeOne(true, s.inbox).used..], s.up)
    requires PlanFor(hash, |s.shards|, s.calls[c]) == Immediate(payload)
    ensures Inv(hash, ReadNext(hash, s))
  {
    hide Slotted, Once, Piped, PlanOf, Filter, Carries, Recorded, InFlight, Labelled, Handed, AllCarriable, DecodeOne;
    var s', n := ReadNext(hash, s), |s.shards|;
    var lane := s.lanes[n];
    var lane' := lane.(done := lane.done + [c]);
    assert Labels([]) == [];
    assert Pipe(lane') == Pipe(lane) + [c];
    ReadPipes(hash, s, n, lane');
    assert forall x | x in s.stream[1..] :: x in s.stream;
    HeadUnanswered(hash, s);
    AnswerAdded(hash, n, s.calls, s.lanes, s'.lanes, Pending(s), s.results, s.delivered, c, payload);
    Assoc(s.flying, s.replies, [Token(s.calls[c].id, payload, c)]);
    RightAt(hash, n, s.calls, s.lanes, n, lane');
    ImmediateFits(hash, n, FrameOf(s.calls[c]));
  }

  lemma ReadKeepsInv(hash: bytes -> nat, s: Sys)
    requires Inv(hash, s) && !DecodeOne(true, s.inbox).NeedMore?
    requires DecodeOne(true, s.inbox).Got? && s.stream != []
    ensures Inv(hash, ReadNext(hash, s))
  {
    hide Slotted, Once, Piped, Carries, Recorded, InFlight, Labelled, Handed, Truthful, Small, AllCarriable, DecodeOne, PlanOf, Right;
    FirstFrame(s);
    var c := s.stream[0];
    match PlanFor(hash, |s.shards|, s.calls[c])
    case ToShard(l, op) => ReadRouted(hash, s, c, l, op);
    case Immediate(payload) => ReadRefused(hash, s, c, payload);
  }

  lemma RecordedFrame(hash: bytes -> nat, n: nat, calls: seq<Call>, lanes: seq<Lane>, lanes': seq<Lane>, results: map<nat, bytes>)
    requires n > 0 && Recorded(hash, n, calls, lanes, results)
    requires |lanes'| == |lanes| && forall i | 0 <= i < |lanes| :: lanes'[i].done == lanes[i].done
    ensures Recorded(hash, n, calls, lanes', results)
  {
    hide LaneOf;
  }

  /** A call that had no answer gets one: its lane records it, its token is in flight. */
  lemma AnswerAdded(hash: bytes -> nat, n: nat, calls: seq<Call>, lanes: seq<Lane>, lanes': seq<Lane>, tokens: seq<Token>,
                    results: map<nat, bytes>, delivered: map<nat, bytes>, c: nat, payload: bytes)
    requires n > 0 && Answered(hash, n, calls, lanes, tokens, results, delivered) && c < |calls| && c !in results
    requires |lanes'| == |lanes| && LaneOf(hash, n, calls, c) < |lanes|
    requires forall i | 0 <= i < |lanes| ::
               lanes'[i].done == lanes[i].done + if i == LaneOf(hash, n, calls, c) then [c] else []
    ensures Answered(hash, n, calls, lanes', tokens + [Token(calls[c].id, payload, c)], results[c := payload], delivered)
  {
    hide LaneOf, CallsOf;
    RecordedAdd(hash, n, calls, lanes, lanes', results, c, payload);
    InFlightAdd(tokens, results, delivered, Token(calls[c].id, payload, c));
  }

  lemma RecordedAdd(hash: bytes -> nat, n: nat, calls: seq<Call>, lanes: seq<Lane>, lanes': seq<Lane>,
                    results: map<nat, bytes>, c: nat, payload: bytes)
    requires n > 0 && Recorded(hash, n, calls, lanes, results) && c < |calls|
    requires |lanes'| == |lanes| && LaneOf(hash, n, calls, c) < |lanes|
    requires forall i | 0 <= i < |lanes| ::
               lanes'[i].done == lanes[i].done + if i == LaneOf(hash, n, calls, c) then [c] else []
    ensures Recorded(hash, n, calls, lanes', results[c := payload])
  {
    hide LaneOf;
    forall x: nat | x != c && x < |calls| && LaneOf(hash, n, calls, x) < |lanes|
      ensures x in lanes'[LaneOf(hash, n, calls, x)].done <==> x in lanes[LaneOf(hash, n, calls, x)].done
    {
    }
  }

  lemma InFlightAdd(tokens: seq<Token>, results: map<nat, bytes>, delivered: map<nat, bytes>, t: Token)
    requires InFlight(tokens, results, delivered) && Handed(results, delivered) && t.call !in results
    ensures InFlight(tokens + [t], results[t.call := t.payload], delivered)
  {
    assert CallsOf(tokens + [t]) == CallsOf(tokens) + [t.call];
    assert t.call !in delivered;
  }

  // Operations reach a worker, which applies them.

  lemma PipedAt(hash: bytes -> nat, n: nat, calls: seq<Call>, lanes: seq<Lane>, stream: seq<nat>, sent: seq<nat>, l: nat, lane: Lane)
    requires n > 0 && Piped(hash, n, calls, lanes, stream, sent) && l < |lanes| && Pipe(lane) == Pipe(lanes[l])
    ensures Piped(hash, n, calls, lanes[l := lane], stream, sent)
  {
    hide Pipe, Filter;
  }

  lemma DispatchKeepsInv(hash: bytes -> nat, s: Sys, l: nat)
    requires Inv(hash, s) && l < |s.shards|
    ensures Inv(hash, DispatchNext(s, l))
  {
    hide Slotted, Labelled, InFlight, Handed, Truthful, LaneOf, Filter, Once, Recorded, Piped, Wired, Small, AllCarriable, PlanFor;
    var s', lane := DispatchNext(s, l), s.lanes[l];
    RecordedFrame(hash, |s.shards|, s.calls, s.lanes, s'.lanes, s.results);
    LabelsAppend(lane.queue, lane.group);
    Assoc(lane.done, Labels(lane.queue), Labels(lane.group));
    assert Labels([]) == [];
    PipedAt(hash, |s.shards|, s.calls, s.lanes, s.stream, s.sent, l, s'.lanes[l]);
    RightAt(hash, |s.shards|, s.calls, s.lanes, l, s'.lanes[l]);
    SamePending(s, s');
  }

  lemma WorkLanes(hash: bytes -> nat, s: Sys, l: nat, lane: Lane)
    requires Flowing(hash, s) && Right(hash, |s.shards|, s.calls, s.lanes) && l < |s.shards| && s.lanes[l].queue != []
    requires lane == Lane(s.lanes[l].group, s.lanes[l].queue[1..], s.lanes[l].done + [s.lanes[l].queue[0].call])
    ensures Piped(hash, |s.shards|, s.calls, s.lanes[l := lane], s.stream, s.sent)
    ensures Right(hash, |s.shards|, s.calls, s.lanes[l := lane])
  {
    hide Piped, Once, Filter, PlanFor;
    var q, c := s.lanes[l].queue, s.lanes[l].queue[0].call;
    assert q == [q[0]] + q[1..];
    LabelsAppend([q[0]], q[1..]);
    assert Labels([q[0]]) == [c];
    Assoc(s.lanes[l].done, [c], Labels(q[1..]));
    PipedAt(hash, |s.shards|, s.calls, s.lanes, s.stream, s.sent, l, lane);
    RightAt(hash, |s.shards|, s.calls, s.lanes, l, lane);
  }

  lemma ActualFits(m: Keyspace, op: Op, now: nat)
    requires Carriable(m) && StorableOp(op)
    ensures Carriable(Actual(m, op, now).0) && |Actual(m, op, now).1| < U16
  {
  }

  lemma WorkTruth(hash: bytes -> nat, n: nat, calls: seq<Call>, results: map<nat, bytes>, at: map<nat, nat>, log: seq<Deed>,
                  c: nat, l: nat, d: Deed)
    requires n > 0 && Truthful(hash, n, calls, results, at, log) && c < |calls|
    requires PlanFor(hash, n, calls[c]) == ToShard(l, d.op) && d.call == Some(c)
    ensures Truthful(hash, n, calls, results[c := d.got], at[c := |log|], log + [d])
  {
    hide PlanFor;
  }

  lemma TruthGrows(hash: bytes -> nat, n: nat, calls: seq<Call>, results: map<nat, bytes>, at: map<nat, nat>, log: seq<Deed>, d: Deed)
    requires n > 0 && Truthful(hash, n, calls, results, at, log)
    ensures Truthful(hash, n, calls, results, at, log + [d])
  {
    hide PlanFor;
  }

  lemma WorkAnswers(hash: bytes -> nat, s: Sys, l: nat, lane: Lane, j: Job, payload: bytes)
    requires Flowing(hash, s) && Right(hash, |s.shards|, s.calls, s.lanes)
    requires Answered(hash, |s.shards|, s.calls, s.lanes, Pending(s), s.results, s.delivered)
    requires l < |s.shards| && s.lanes[l].queue != [] && j == s.lanes[l].queue[0] && lane.done == s.lanes[l].done + [j.call]
    ensures Answered(hash, |s.shards|, s.calls, s.lanes[l := lane],
                     s.flying + (s.replies + [Token(j.id, payload, j.call)]), s.results[j.call := payload], s.delivered)
  {
    hide Piped, Once, Right, PlanFor, LaneOf, Labelled, InFlight, Handed, Recorded;
    InLane(hash, s, l);
    NotDoneUnanswered(hash, |s.shards|, s.calls, s.lanes, s.results, j.call, l);
    AnswerAdded(hash, |s.shards|, s.calls, s.lanes, s.lanes[l := lane], Pending(s), s.results, s.delivered, j.call, payload);
    Assoc(s.flying, s.replies, [Token(j.id, payload, j.call)]);
  }

  lemma WorkContent(hash: bytes -> nat, s: Sys, l: nat, j: Job, now: nat)
    requires Flowing(hash, s) && Right(hash, |s.shards|, s.calls, s.lanes) && Sized(s.calls)
    requires AllCarriable(s.shards) && Small(s.results) && Truthful(hash, |s.shards|, s.calls, s.results, s.at, s.log)
    requires l < |s.shards| && s.lanes[l].queue != [] && j == s.lanes[l].queue[0]
    ensures var (m, payload) := Actual(s.shards[l], j.op, now);
            && AllCarriable(s.shards[l := m]) && Small(s.results[j.call := payload])
            && Truthful(hash, |s.shards|, s.calls, s.results[j.call := payload], s.at[j.call := |s.log|],
                        s.log + [Deed(j.op, now, payload, Some(j.call))])
  {
    hide Piped, Once, Right, Actual, PlanFor, LaneOf, Truthful, Carriable, Sized, StorableOp;
    InLane(hash, s, l);
    var payload := Actual(s.shards[l], j.op, now).1;
    WorkTruth(hash, |s.shards|, s.calls, s.results, s.at, s.log, j.call, l, Deed(j.op, now, payload, Some(j.call)));
    JobFits(hash, |s.shards|, s.calls, j.call, l, j.op);
    ActualFits(s.shards[l], j.op, now);
  }

  lemma WorkKeepsInv(hash: bytes -> nat, s: Sys, l: nat, now: nat)
    requires Inv(hash, s) && l < |s.shards| && s.lanes[l].queue != []
    ensures Inv(hash, WorkNext(s, l, now))
  {
    hide Slotted, Sized, Piped, Once, Actual, Truthful, Right, Wired, Answered, AllCarriable, Small, LaneOf, Filter, Labels, PlanFor;
    var j := s.lanes[l].queue[0];
    var lane := Lane(s.lanes[l].group, s.lanes[l].queue[1..], s.lanes[l].done + [j.call]);
    WorkLanes(hash, s, l, lane);
    WorkAnswers(hash, s, l, lane, j, Actual(s.shards[l], j.op, now).1);
    WorkContent(hash, s, l, j, now);
    assert WorkNext(s, l, now).lanes == s.lanes[l := lane];
  }

  lemma NotDoneUnanswered(hash: bytes -> nat, n: nat, calls: seq<Call>, lanes: seq<Lane>, results: map<nat, bytes>, c: nat, l: nat)
    requires n > 0 && Recorded(hash, n, calls, lanes, results) && LaneOf(hash, n, calls, c) == l < |lanes| && c !in lanes[l].done
    ensures c !in results
  {
  }

  lemma JobFits(hash: bytes -> nat, n: nat, calls: seq<Call>, c: nat, l: nat, op: Op)
    requires n > 0 && Sized(calls) && c < |calls| && PlanFor(hash, n, calls[c]) == ToShard(l, op)
    ensures StorableOp(op)
  {
    PlannedFits(hash, n, FrameOf(calls[c]));
  }

  lemma ElsewhereKeepsInv(hash: bytes -> nat, s: Sys, l: nat, op: Op, now: nat)
    requires Inv(hash, s) && l < |s.shards| && StorableOp(op)
    ensures Inv(hash, ElsewhereNext(s, l, op, now))
  {
    hide Slotted, Piped, Once, Actual, Recorded, InFlight, Labelled, Handed, Truthful, Right, Carries, Carriable, StorableOp;
    ActualFits(s.shards[l], op, now);
    TruthGrows(hash, |s.shards|, s.calls, s.results, s.at, s.log, Deed(op, now, Actual(s.shards[l], op, now).1, None));
    SamePending(s, ElsewhereNext(s, l, op, now));
  }

  // Replies travel back.

  lemma ReplyKeepsInv(hash: bytes -> nat, s: Sys)
    requires Inv(hash, s) && s.replies != [] && s.replies[0].id < U32
    ensures Inv(hash, ReplyNext(s))
  {
    hide Slotted, Piped, Once, Recorded, InFlight, Handed, Truthful, Right, Carries, AllCarriable, EncodeFrame;
    FirstReply(hash, s);
    var t := s.replies[0];
    assert s.replies == [t] + s.replies[1..];
    Assoc(s.flying, [t], s.replies[1..]);
    assert Pending(ReplyNext(s)) == Pending(s);
    CarriesWrite(Responses(s.flying), s.heard, s.down, Response(t));
    assert Responses(s.flying + [t]) == Responses(s.flying) + [Response(t)];
  }

  lemma DeliverSlots(s: Sys, id: nat, c: nat)
    requires Slotted(s.pool, s.waiting, s.finished, s.calls, s.delivered)
    requires id < |s.pool.senders| && s.pool.senders[id] == Some(c) && c in s.results
    ensures Slotted(Finish(s.pool, id), s.waiting, s.finished + 1, s.calls, s.delivered[c := s.results[c]])
  {
    FinishKeepsSound(s.pool, id);
    OccupiedUpdate(s.pool.senders, id, None);
  }

  lemma DeliverFlight(tokens: seq<Token>, results: map<nat, bytes>, delivered: map<nat, bytes>)
    requires InFlight(tokens, results, delivered) && tokens != [] && tokens[0].call !in delivered
    ensures InFlight(tokens[1..], results, delivered[tokens[0].call := tokens[0].payload])
  {
    var c := tokens[0].call;
    assert CallsOf(tokens) == [c] + CallsOf(tokens[1..]);
    assert multiset(CallsOf(tokens)) == multiset{c} + multiset(CallsOf(tokens[1..]));
  }

  lemma DeliverKeepsInv(hash: bytes -> nat, s: Sys)
    requires Inv(hash, s) && !DecodeOne(false, s.heard).NeedMore?
    requires DecodeOne(false, s.heard).Got? && DecodeOne(false, s.heard).frame.reqId < |s.pool.senders| && s.flying != []
    ensures Inv(hash, DeliverNext(s))
    ensures var c := s.flying[0].call; c in s.results && DeliverNext(s).delivered == s.delivered[c := s.results[c]]
  {
    hide Slotted, Once, Piped, Truthful, Right, Sound, Occupied, Recorded, InFlight, Finish, Carries, DecodeOne, Small, AllCarriable;
    HeadIsWaitedFor(hash, s);
    DeliverSlots(s, s.flying[0].id, s.flying[0].call);
    DeliverFlight(Pending(s), s.results, s.delivered);
    assert Pending(DeliverNext(s)) == Pending(s)[1..];
  }

  lemma BytesKeepInv(hash: bytes -> nat, s: Sys, n: nat)
    requires Inv(hash, s)
    ensures n <= |s.up| ==> Inv(hash, s.(inbox := s.inbox + s.up[..n], up := s.up[n..]))
    ensures n <= |s.down| ==> Inv(hash, s.(heard := s.heard + s.down[..n], down := s.down[n..]))
  {
    hide Slotted, Once, Piped, Truthful, Right, Recorded, InFlight, Labelled, Handed, Carries, Small, AllCarriable;
    if n <= |s.up| {
      CarriesArrival(Framed(s.calls, s.stream), s.inbox, s.up, n);
    }
    if n <= |s.down| {
      CarriesArrival(Responses(s.flying), s.heard, s.down, n);
    }
  }

  lemma SweptCarriable(shards: seq<Keyspace>, l: nat, content: Keyspace)
    requires AllCarriable(shards) && l < |shards| && SubMap(content, shards[l])
    ensures AllCarriable(shards[l := content])
  {
  }

  /** Every enabled step of any participant keeps the invariant; frames are only ever added to what was written, and deeds to the log. */
  lemma StepKeepsInv(hash: bytes -> nat, s: Sys, step: Step)
    requires Inv(hash, s) && Enabled(hash, s, step)
    ensures Inv(hash, Next(hash, s, step))
    ensures var s' := Next(hash, s, step); |s'.shards| == |s.shards| && s.sent <= s'.sent && s.log <= s'.log
  {
    hide Once, Piped, Recorded, Labelled, InFlight, Handed, Truthful, Right, Sound, Occupied, Actual, LaneOf, Live, SubMap,
         Carries, DecodeOne, EncodeFrame, Small, AllCarriable, StorableOp, PlanOf, Finish, Take;
    match step
    case TakeSlot(payload) =>
      SlotForPermit(s);
      TakeKeepsInv(hash, s, payload);
    case WriteFrame(c) =>
      WriteKeepsInv(hash, s, c);
    case Uplink(n) =>
      BytesKeepInv(hash, s, n);
    case ReadFrame =>
      FirstFrame(s);
      ReadKeepsInv(hash, s);
    case Dispatch(l) =>
      DispatchKeepsInv(hash, s, l);
    case Work(l, now) =>
      WorkKeepsInv(hash, s, l, now);
    case Tick(l, content, now) =>
      SweptCarriable(s.shards, l, content);
    case Elsewhere(l, op, now) =>
      ElsewhereKeepsInv(hash, s, l, op, now);
    case WriteReply =>
      FirstReply(hash, s);
      ReplyKeepsInv(hash, s);
    case Downlink(n) =>
      BytesKeepInv(hash, s, n);
    case Deliver =>
      HeadIsWaitedFor(hash, s);
      DeliverKeepsInv(hash, s);
    case _ =>
  }

  // --- Whole runs ---

  /** Any schedule; a step that is not enabled is skipped. */
  ghost function After(hash: bytes -> nat, s: Sys, steps: seq<Step>): (s': Sys)
    requires Inv(hash, s)
    ensures Inv(hash, s') && |s'.shards| == |s.shards| && s.sent <= s'.sent && s.log <= s'.log
    decreases |steps|
  {
    hide Inv, Enabled;
    if steps == [] then s
    else if !Enabled(hash, s, steps[0]) then After(hash, s, steps[1..])
    else
      StepKeepsInv(hash, s, steps[0]);
      After(hash, Next(hash, s, steps[0]), steps[1..])
  }

  /** Request/response matching, over every run of the whole system: whatever reached a caller
      is the refusal the planner gives its own payload, or what its key's shard answered to the operation its own payload encodes. */
  lemma EachCallGetsItsOwnAnswer(hash: bytes -> nat, max: nat, shards: seq<Keyspace>, steps: seq<Step>, c: nat)
    requires |shards| > 0 && max < U32 && AllCarriable(shards)
    ensures Inv(hash, Init(max, shards)) && |After(hash, Init(max, shards), steps).shards| == |shards|
    ensures var s := After(hash, Init(max, shards), steps);
            c in s.delivered ==>
              && c < |s.calls|
              && match PlanOf(hash, |shards|, Frame(REQUEST, s.calls[c].id, s.calls[c].payload))
                 case Immediate(payload) => s.delivered[c] == payload
                 case ToShard(_, op) =>
                   && c in s.at && s.at[c] < |s.log|
                   && var d := s.log[s.at[c]]; (d.call == Some(c) && d.op == op && d.got == s.delivered[c])
  {
    assert Init(max, shards).shards == shards;
    hide Init, Inv, After, PlanOf;
    InitHolds(hash, max, shards);
    var s := After(hash, Init(max, shards), steps);
    if c in s.delivered {
      OwnAnswer(hash, s, c);
    }
  }

  lemma OwnAnswer(hash: bytes -> nat, s: Sys, c: nat)
    requires Inv(hash, s) && c in s.delivered
    ensures c < |s.calls|
    ensures match PlanOf(hash, |s.shards|, Frame(REQUEST, s.calls[c].id, s.calls[c].payload))
            case Immediate(payload) => s.delivered[c] == payload
            case ToShard(_, op) =>
              && c in s.at && s.at[c] < |s.log|
              && var d := s.log[s.at[c]]; (d.call == Some(c) && d.op == op && d.got == s.delivered[c])
  {
    hide PlanOf, Slotted, Piped, Once, Labelled, InFlight, LaneOf, Wired, Right, AllCarriable, Small;
    assert c in s.results && c < |s.calls|;
    assert PlanFor(hash, |s.shards|, s.calls[c]) == PlanOf(hash, |s.shards|, Frame(REQUEST, s.calls[c].id, s.calls[c].payload));
  }

  /** The same by the bytes of the payload: a call that encodes an operation receives what its shard answered to
      that operation, and a call that encodes none receives something that begins with "ERR ". */
  lemma EachCallIsToldWhatHappened(hash: bytes -> nat, max: nat, shards: seq<Keyspace>, steps: seq<Step>, c: nat, op: Op)
    requires |shards| > 0 && max < U32 && AllCarriable(shards)
    ensures Inv(hash, Init(max, shards))
    ensures var s := After(hash, Init(max, shards), steps);
            c in s.delivered ==>
              && c < |s.calls|
              && (Encodes(op, s.calls[c].payload) ==>
                    c in s.at && s.at[c] < |s.log|
                    && var d := s.log[s.at[c]]; (d.call == Some(c) && d.op == op && d.got == s.delivered[c]))
              && ((forall o :: !Encodes(o, s.calls[c].payload)) ==> Ascii("ERR ") <= s.delivered[c])
  {
    EachCallGetsItsOwnAnswer(hash, max, shards, steps, c);
    hide Init, Inv, After, PlanOf, Encodes, Ascii, AllCarriable;
    var s := After(hash, Init(max, shards), steps);
    if c in s.delivered {
      var f := Frame(REQUEST, s.calls[c].id, s.calls[c].payload);
      OnlyRequestsReachShards(hash, |shards|, f, op, RouteShard(hash, op.key, |shards|));
      RefusedWhen(hash, |shards|, f);
    }
  }

  /** How many places call `c` is in: unwritten, on the wire, bucketed, queued, or its reply on the way back. */
  function Places(hash: bytes -> nat, s: Sys, c: nat): (n: nat)
    requires |s.shards| > 0 && LaneOf(hash, |s.shards|, s.calls, c) < |s.lanes|
  {
    var lane := s.lanes[LaneOf(hash, |s.shards|, s.calls, c)];
    (if c in s.unsent then 1 else 0) + multiset(s.stream)[c] + multiset(Labels(lane.group))[c] + multiset(Labels(lane.queue))[c]
      + multiset(CallsOf(Pending(s)))[c]
  }

  /** Conservation: an occupied slot has exactly one token in flight; every other call has none. */
  lemma OneTokenEach(hash: bytes -> nat, s: Sys, c: nat)
    requires Inv(hash, s)
    ensures Places(hash, s, c) == if c < |s.calls| && c !in s.delivered then 1 else 0
    ensures forall id | 0 <= id < |s.pool.senders| ::
              s.pool.senders[id] == Some(c) <==> c < |s.calls| && s.calls[c].id == id && c !in s.delivered
  {
    hide PlanFor, Filter, Sound, Occupied, Truthful, Right, Wired, Labels, Pending;
    var l := LaneOf(hash, |s.shards|, s.calls, c);
    LaneCounts(hash, s, l, c);
    assert multiset(s.lanes[l].done)[c] <= 1;
    assert c in s.results <==> c < |s.calls| && multiset(s.lanes[l].done)[c] == 1;
  }

  // --- Payloads that do not fit ---

  /** What the server makes of the bytes `call` writes for a payload: one frame with that payload if and
      only if it fits the u16 length. A longer payload is not one request, so the guard on `TakeSlot` is exact. */
  lemma OneRequestPerCall(id: nat, payload: bytes)
    requires id < U32
    ensures var f := Frame(REQUEST, id, payload);
            Drain(true, EncodeFrame(f)) == Stream([f], None, []) <==> |payload| < U16
  {
    var f := Frame(REQUEST, id, payload);
    var s := EncodeFrame(f);
    if |payload| < U16 {
      DecodeOfEncode(true, f, []);
      assert s + [] == s;
    } else if Drain(true, s) == Stream([f], None, []) {
      DecodedIsEncoding(true, s);
    }
  }

  /** A public call that does not fit: `del` of a 65536-byte key is read as `del` of the empty key under its
      id, and the key's own bytes are left to be read as further frames. */
  lemma OverlongCallMisread(hash: bytes -> nat, workers: nat, id: nat, k: bytes)
    requires workers > 0 && id < U32 && |k| == U16
    ensures var s := EncodeFrame(RequestFrame(id, Del(k))); var r := DecodeOne(true, s);
            && r.Got? && r.frame.reqId == id && s[r.used..] == k
            && PlanOf(hash, workers, r.frame) == ToShard(RouteShard(hash, [], workers), Del([]))
  {
    var head: bytes := [OP_DEL] + Be16(0);
    var p := EncodeOp(Del(k));
    assert Be16(AsU16(|k|)) == Be16(0) && AsU16(|p|) == 3;
    assert p == head + k;
    var f := Frame(REQUEST, id, head);
    var s := EncodeFrame(RequestFrame(id, Del(k)));
    Assoc([REQUEST] + Be32(id) + Be16(3), head, k);
    assert s == EncodeFrame(f) + k;
    DecodeOfEncode(true, f, k);
    Cut2(EncodeFrame(f), k);
    ParseOfEncode(Del([]));
    assert EncodeOp(Del([])) == head;
  }

  /** A `del` whose payload is 65536 bytes long is announced as empty: it is refused, and what is read next is a
      request under an id spelled by its key length and key, past the slots of any pool of fewer than 65533 * 65536. */
  lemma OverlongCallRefused(hash: bytes -> nat, workers: nat, id: nat, k: bytes, p: Pool)
    requires workers > 0 && id < U32 && |k| == 65533 && |p.senders| < 65533 * U16
    ensures var s := EncodeFrame(RequestFrame(id, Del(k))); var r := DecodeOne(true, s);
            && r.Got? && r.frame.reqId == id && PlanOf(hash, workers, r.frame) == Immediate(Ascii("ERR ") + Ascii("empty request payload"))
            && s[r.used..] == EncodeOp(Del(k))
            && var next := DecodeOne(true, s[r.used..]);
               (next.Got? ==> next.frame.header == REQUEST && Respond(p, next.frame.reqId).None?)
  {
    var payload := EncodeOp(Del(k));
    assert |payload| == U16 && AsU16(|payload|) == 0;
    var f := Frame(REQUEST, id, []);
    var s := EncodeFrame(RequestFrame(id, Del(k)));
    assert [REQUEST] + Be32(id) + Be16(0) + [] == [REQUEST] + Be32(id) + Be16(0);
    assert s == EncodeFrame(f) + payload;
    DecodeOfEncode(true, f, payload);
    Cut2(EncodeFrame(f), payload);
    assert payload[0] == OP_DEL == REQUEST;
    TailOfCons(OP_DEL, Be16(65533), k, []);
    assert payload[1..] == Be16(65533) + k + [];
    assert payload[1..5] == payload[1..][..4];
    assert (Be16(65533) + k + [])[..4][..2] == Be16(65533);
    Inverse16(65533, []);
  }
}
