/** A Node client on a connection: every run of it is a run of `Multiplex`, so all that holds of those runs
    holds of its own calls, numbered in the order they asked for a slot. */
module NodeMatching {
  import opened Prelude
  import opened Codec
  import opened Wire
  import opened TtlMap
  import opened RustClient
  import opened Sharding
  import opened Server
  import opened Multiplex
  import opened Sequential
  import NodeClient

  /** The client after the handshake, the payloads of the calls that asked so far, and the rest of the
      system; what `net` says of slots, calls and answers handed over is not used, the client has its own. */
  datatype Node = Node(client: NodeClient.Client, payloads: seq<bytes>, net: Sys)

  datatype Turn =
    | Send(payload: bytes)     // `_send` up to its first suspension
    | Resume(id: nat)          // the rest of it: the caller parks under its slot and writes its frame
    | Receive                  // one frame in the parse loop
    | Others(step: Step)       // the wire, the server, the shards, other connections

  /** Who holds which slot, parked or not yet resumed. */
  function Holders(granted: map<nat, nat>, pending: seq<Option<nat>>): (hs: seq<Option<nat>>)
    ensures |hs| == |pending|
  {
    seq(|pending|, id requires 0 <= id < |pending| => NodeClient.Holder(granted, pending, id))
  }

  function CallsIn(slots: seq<nat>, payloads: seq<bytes>): (calls: seq<Call>)
    requires |slots| <= |payloads|
    ensures |calls| == |slots|
  {
    seq(|slots|, x requires 0 <= x < |slots| => Call(payloads[x], slots[x]))
  }

  /** The same system as `Multiplex` sees it: a slot is taken when it is handed over, and permits are not needed. */
  function View(n: Node): (s: Sys)
    requires |n.client.slots| <= |n.payloads|
  {
    n.net.(pool := Pool(Holders(n.client.granted, n.client.pending), n.client.free), waiting := 0, finished := 0, calls := CallsIn(n.client.slots, n.payloads),
           unsent := n.client.granted.Values, delivered := n.client.delivered)
  }

  predicate Asked(c: NodeClient.Client, payloads: seq<bytes>) {
    && NodeClient.Inv(c) && !c.handshake && |payloads| == c.asked
    && forall i | 0 <= i < |payloads| :: |payloads[i]| < U16
  }

  ghost predicate NodeInv(hash: bytes -> nat, n: Node) {
    Asked(n.client, n.payloads) && Inv(hash, View(n))
  }

  /** The client as it is once the handshake has been answered. */
  function Connected(max: nat, greeting: Frame, shards: seq<Keyspace>): (n: Node)
  {
    Node(NodeClient.OnFrame(NodeClient.Start(max), greeting), [], Init(max, shards))
  }

  predicate May(hash: bytes -> nat, n: Node, t: Turn)
    requires |n.client.slots| <= |n.payloads|
  {
    match t
    case Send(payload) => |payload| < U16
    case Resume(id) => id in n.client.granted
    case Receive => !DecodeOne(false, n.net.heard).NeedMore?
    case Others(step) =>
      && !step.Acquire? && !step.TakeSlot? && !step.WriteFrame? && !step.Deliver? && !step.Release?
      && Enabled(hash, View(n), step)
  }

  function SendNext(n: Node, payload: bytes): (n': Node)
  {
    n.(client := NodeClient.Step(n.client, NodeClient.Send), payloads := n.payloads + [payload])
  }

  function ResumeNext(n: Node, id: nat): (n': Node)
    requires id in n.client.granted && n.client.granted[id] < |n.payloads| && id < U32
    requires |n.payloads[n.client.granted[id]]| < U16
  {
    var call := n.client.granted[id];
    n.(client := NodeClient.Step(n.client, NodeClient.Resume(id)),
       net := n.net.(sent := n.net.sent + [call], stream := n.net.stream + [call],
                     up := n.net.up + EncodeFrame(Frame(REQUEST, id, n.payloads[call]))))
  }

  function ReceiveNext(n: Node): (n': Node)
    requires DecodeOne(false, n.net.heard).Got? && n.net.flying != []
  {
    var r := DecodeOne(false, n.net.heard);
    n.(client := NodeClient.Step(n.client, NodeClient.Response(r.frame)),
       net := n.net.(heard := n.net.heard[r.used..], flying := n.net.flying[1..]))
  }

  ghost function NodeNext(hash: bytes -> nat, n: Node, t: Turn): (n': Node)
    requires NodeInv(hash, n) && May(hash, n, t)
  {
    hide Inv, Enabled, DecodeOne, NodeClient.Step, NodeClient.Inv, EncodeFrame, Holders;
    match t
    case Send(payload) => SendNext(n, payload)
    case Resume(id) => Resumable(hash, n, id); ResumeNext(n, id)
    case Receive => HeadIsWaitedFor(hash, View(n)); ReceiveNext(n)
    case Others(step) => n.(net := Next(hash, View(n), step))
  }

  lemma Resumable(hash: bytes -> nat, n: Node, id: nat)
    requires NodeInv(hash, n) && id in n.client.granted
    ensures n.client.granted[id] < |n.payloads| && id < U32 && |n.payloads[n.client.granted[id]]| < U16
    ensures n.client.granted[id] < |View(n).calls| && View(n).calls[n.client.granted[id]] == Call(n.payloads[n.client.granted[id]], id)
  {
    hide Inv, Holders, NodeClient.Partitioned, NodeClient.Matched;
    GrantedIsCall(n.client, n.payloads, id);
    IdsFit(hash, View(n), n.client.granted[id]);
  }

  /** What a turn of the Node client is, in steps of `Multiplex`. */
  function Moves(n: Node, t: Turn): (steps: seq<Step>)
    requires Asked(n.client, n.payloads)
  {
    match t
    case Send(payload) => if n.client.free != [] then [Acquire, TakeSlot(payload)] else []
    case Resume(id) => if id in n.client.granted then [WriteFrame(n.client.granted[id])] else []
    case Receive =>
      [Deliver, Release] + if n.client.waiters != [] then [Acquire, TakeSlot(n.payloads[|n.client.slots|])] else []
    case Others(step) => [step]
  }

  // --- The pools agree ---

  lemma GrantedIsCall(c: NodeClient.Client, payloads: seq<bytes>, id: nat)
    requires Asked(c, payloads) && id in c.granted
    ensures var call := c.granted[id];
            && call < |c.slots| && c.slots[call] == id && call !in c.delivered && id < |c.pending| && c.pending[id].None?
            && NodeClient.Holder(c.granted, c.pending, id) == Some(call)
            && forall i | i in c.granted && c.granted[i] == call :: i == id
  {
    assert forall i | i in c.granted :: NodeClient.Holder(c.granted, c.pending, i) == Some(c.granted[i]);
  }

  lemma IdsFit(hash: bytes -> nat, s: Sys, call: nat)
    requires Inv(hash, s) && call < |s.calls|
    ensures Sendable(FrameOf(s.calls[call]))
  {
    hide Slotted, Flowing, Right, Wired, Answered, Truthful, Small, AllCarriable;
  }

  /** Handing a free slot to the next call in line is taking it. */
  lemma HandOver(c: NodeClient.Client, c': NodeClient.Client, payloads: seq<bytes>, id: nat)
    requires |c.slots| < |payloads| && id < |c.pending| && id !in c.granted
    requires c'.granted == c.granted[id := |c.slots|] && c'.slots == c.slots + [id] && c'.pending == c.pending
    ensures Holders(c'.granted, c'.pending) == Holders(c.granted, c.pending)[id := Some(|c.slots|)]
    ensures c'.granted.Values == c.granted.Values + {|c.slots|}
    ensures CallsIn(c'.slots, payloads) == CallsIn(c.slots, payloads) + [Call(payloads[|c.slots|], id)]
  {
    assert id in c'.granted && c'.granted[id] == |c.slots|;
    forall v | v in c.granted.Values
      ensures v in c'.granted.Values
    {
      var i :| i in c.granted && c.granted[i] == v;
      assert i in c'.granted && c'.granted[i] == v;
    }
  }

  /** A parked caller that is answered leaves its slot. */
  lemma Vacate(c: NodeClient.Client, id: nat)
    requires id < |c.pending| && id !in c.granted
    ensures Holders(c.granted, c.pending[id := None]) == Holders(c.granted, c.pending)[id := None]
  {
  }

  /** A caller that parks was handed its slot before: nothing changes hands. */
  lemma ParkSame(c: NodeClient.Client, payloads: seq<bytes>, id: nat)
    requires Asked(c, payloads) && id in c.granted
    ensures var c' := NodeClient.Park(c, id);
            Holders(c'.granted, c'.pending) == Holders(c.granted, c.pending) && c'.granted.Values == c.granted.Values - {c.granted[id]}
  {
    GrantedIsCall(c, payloads, id);
    hide NodeClient.Partitioned, NodeClient.Matched;
    var c', call := NodeClient.Park(c, id), c.granted[id];
    forall v | v in c.granted.Values && v != call
      ensures v in c'.granted.Values
    {
      var i :| i in c.granted && c.granted[i] == v;
      assert i in c'.granted && c'.granted[i] == v;
    }
    forall v | v in c'.granted.Values
      ensures v in c.granted.Values && v != call
    {
      var i :| i in c'.granted && c'.granted[i] == v;
      assert i in c.granted && i != id;
    }
  }

  // --- Every turn is a run of steps ---

  lemma OneStep(hash: bytes -> nat, s: Sys, step: Step)
    requires Inv(hash, s) && Enabled(hash, s, step)
    ensures Inv(hash, Next(hash, s, step)) && After(hash, s, [step]) == Next(hash, s, step)
  {
    hide Inv, Enabled, Next;
    StepKeepsInv(hash, s, step);
    assert [step][1..] == [];
    assert After(hash, Next(hash, s, step), []) == Next(hash, s, step);
  }

  lemma {:induction false} AfterAppend(hash: bytes -> nat, s: Sys, a: seq<Step>, b: seq<Step>)
    requires Inv(hash, s)
    ensures After(hash, s, a + b) == After(hash, After(hash, s, a), b)
    decreases |a|
  {
    hide Inv, Enabled, Next;
    if a == [] {
      assert a + b == b;
    } else {
      assert (a + b)[0] == a[0] && (a + b)[1..] == a[1..] + b;
      if Enabled(hash, s, a[0]) {
        StepKeepsInv(hash, s, a[0]);
        AfterAppend(hash, Next(hash, s, a[0]), a[1..], b);
      } else {
        AfterAppend(hash, s, a[1..], b);
      }
    }
  }

  lemma TwoSteps(hash: bytes -> nat, s: Sys, a: Step, b: Step)
    requires Inv(hash, s) && Enabled(hash, s, a)
    ensures Inv(hash, Next(hash, s, a))
    ensures Enabled(hash, Next(hash, s, a), b) ==>
              Inv(hash, Next(hash, Next(hash, s, a), b)) && After(hash, s, [a, b]) == Next(hash, Next(hash, s, a), b)
  {
    hide Inv, Enabled, Next, After;
    OneStep(hash, s, a);
    if Enabled(hash, Next(hash, s, a), b) {
      OneStep(hash, Next(hash, s, a), b);
      AfterAppend(hash, s, [a], [b]);
      assert [a] + [b] == [a, b];
    }
  }

  lemma TakenNext(hash: bytes -> nat, s: Sys, payload: bytes)
    requires Inv(hash, s) && s.waiting == s.finished == 0 && s.pool.free != [] && |payload| < U16
    ensures Sound(s.pool)
    ensures Inv(hash, TakeNext(s.(waiting := 1), payload))
    ensures After(hash, s, [Acquire, TakeSlot(payload)]) == TakeNext(s.(waiting := 1), payload)
  {
    assert Enabled(hash, s, Acquire) by {
      hide Right, Answered, Truthful, Wired, Small, AllCarriable;
      PermitMeansFreeSlot(s.pool);
    }
    var s1 := s.(waiting := 1);
    assert Next(hash, s, Acquire) == s1 by { hide Inv, Enabled; }
    assert Enabled(hash, s1, TakeSlot(payload)) by { hide Inv; }
    TwoSteps(hash, s, Acquire, TakeSlot(payload));
    assert Sound(s.pool) by { hide Right, Answered, Truthful, Wired, Small, AllCarriable, Flowing, Sound, Occupied; }
    assert Next(hash, s1, TakeSlot(payload)) == TakeNext(s1, payload) by { hide Inv, Enabled, TakeNext; }
  }

  /** The next call in line gets the slot on top of the free list, in `c'`. */
  lemma HandedNext(hash: bytes -> nat, n: Node, c': NodeClient.Client)
    requires |n.client.slots| < |n.payloads| && Inv(hash, View(n)) && |n.payloads[|n.client.slots|]| < U16
    requires var c := n.client; var id := |c.free| - 1;
             && c.free != [] && c.free[id] < |c.pending| && c.free[id] !in c.granted
             && c'.free == c.free[..id] && c'.granted == c.granted[c.free[id] := |c.slots|]
             && c'.slots == c.slots + [c.free[id]] && c'.pending == c.pending && c'.delivered == c.delivered
    ensures After(hash, View(n), [Acquire, TakeSlot(n.payloads[|n.client.slots|])]) == View(n.(client := c'))
    ensures Inv(hash, View(n.(client := c')))
  {
    hide Inv, After, Sound, Holders, CallsIn;
    var c, s, payload := n.client, View(n), n.payloads[|n.client.slots|];
    TakenNext(hash, s, payload);
    HandOver(c, c', n.payloads, c.free[|c.free| - 1]);
    TakeKeepsSound(s.pool, |c.slots|);
  }

  // The turns.

  lemma SendIsMoves(hash: bytes -> nat, n: Node, payload: bytes)
    requires NodeInv(hash, n) && |payload| < U16
    ensures Asked(SendNext(n, payload).client, SendNext(n, payload).payloads)
    ensures Inv(hash, View(SendNext(n, payload)))
    ensures After(hash, View(n), Moves(n, Send(payload))) == View(SendNext(n, payload))
  {
    hide Inv, Holders, NodeClient.Partitioned, NodeClient.Matched, Enabled;
    var c := n.client;
    var n1 := n.(payloads := n.payloads + [payload]);
    NodeClient.AcquireKeepsInv(c);
    assert CallsIn(c.slots, n1.payloads) == CallsIn(c.slots, n.payloads);
    assert View(n1) == View(n);
    if c.free != [] {
      FreeIsUnheld(c);
      HandedNext(hash, n1, NodeClient.Acquire(c));
    } else {
      assert View(SendNext(n, payload)) == View(n);
    }
  }

  lemma FreeIsUnheld(c: NodeClient.Client)
    requires NodeClient.Inv(c) && c.free != []
    ensures c.free[|c.free| - 1] < |c.pending| && c.free[|c.free| - 1] !in c.granted
  {
    assert c.free[|c.free| - 1] in c.free;
  }

  lemma ResumeIsMove(hash: bytes -> nat, n: Node, id: nat)
    requires NodeInv(hash, n) && id in n.client.granted
    requires n.client.granted[id] < |n.payloads| && id < U32 && |n.payloads[n.client.granted[id]]| < U16
    ensures Asked(ResumeNext(n, id).client, ResumeNext(n, id).payloads)
    ensures Inv(hash, View(ResumeNext(n, id)))
    ensures After(hash, View(n), Moves(n, Resume(id))) == View(ResumeNext(n, id))
  {
    hide Inv, After, Holders, NodeClient.Partitioned, NodeClient.Matched, CallsIn, EncodeFrame;
    var c, s, call := n.client, View(n), n.client.granted[id];
    NodeClient.ParkKeepsInv(c, id);
    Resumable(hash, n, id);
    ParkSame(c, n.payloads, id);
    GrantedIsCall(c, n.payloads, id);
    assert Enabled(hash, s, WriteFrame(call)) by { InShape(hash, s); }
    OneStep(hash, s, WriteFrame(call));
    assert Next(hash, s, WriteFrame(call)) == WriteNext(s, call) by { hide Enabled; }
    assert FrameOf(s.calls[call]) == Frame(REQUEST, id, n.payloads[call]);
  }

  lemma InShape(hash: bytes -> nat, s: Sys)
    requires Inv(hash, s)
    ensures |s.lanes| == |s.clocks| + 1 == |s.shards| + 1 && |s.shards| > 0
  {
    hide Slotted, Piped, Once, Right, Wired, Answered, Truthful, Small, AllCarriable;
  }

  /** The other participants touch neither slots nor calls nor what was handed over. */
  lemma OthersLeaveClient(hash: bytes -> nat, s: Sys, step: Step)
    requires Inv(hash, s) && Enabled(hash, s, step)
    requires !step.Acquire? && !step.TakeSlot? && !step.WriteFrame? && !step.Deliver? && !step.Release?
    ensures var s' := Next(hash, s, step);
            && s'.pool == s.pool && s'.waiting == s.waiting && s'.finished == s.finished
            && s'.calls == s.calls && s'.unsent == s.unsent && s'.delivered == s.delivered
  {
    hide Slotted, Piped, Once, Right, Recorded, InFlight, Handed, Truthful, AllCarriable, Small, PlanOf, Actual, DecodeOne, EncodeFrame, Carries,
         Live, SubMap, StorableOp;
    match step
    case ReadFrame => FirstFrame(s);
    case _ =>
  }

  lemma OthersIsMove(hash: bytes -> nat, n: Node, step: Step)
    requires NodeInv(hash, n) && May(hash, n, Others(step))
    ensures View(n.(net := Next(hash, View(n), step))) == Next(hash, View(n), step)
    ensures Inv(hash, Next(hash, View(n), step)) && After(hash, View(n), [step]) == Next(hash, View(n), step)
  {
    hide Inv, Enabled, Next, After, Holders, NodeClient.Partitioned, NodeClient.Matched;
    OneStep(hash, View(n), step);
    OthersLeaveClient(hash, View(n), step);
  }

  /** The oldest reply on its way is that of a caller which has parked. */
  lemma HeadIsParked(hash: bytes -> nat, n: Node)
    requires NodeInv(hash, n) && !DecodeOne(false, n.net.heard).NeedMore?
    ensures var r := DecodeOne(false, n.net.heard);
            && r.Got? && n.net.flying != [] && r.frame == Response(n.net.flying[0])
            && r.frame.reqId < |n.client.pending| && r.frame.reqId !in n.client.granted
            && n.client.pending[r.frame.reqId] == Some(n.net.flying[0].call)
  {
    hide DecodeOne, NodeClient.Partitioned, NodeClient.Matched, Slotted, Sized, Right, Wired, Truthful, Small, AllCarriable, Labelled, InFlight, Handed, LaneOf;
    var s := View(n);
    HeadIsWaitedFor(hash, s);
    var t := n.net.flying[0];
    DoneInLane(hash, s, t.call, LaneOf(hash, |s.shards|, s.calls, t.call));
    assert multiset(s.sent)[t.call] > 0;
    assert t.call !in s.unsent;
    assert forall i | i in n.client.granted :: n.client.granted[i] in s.unsent;
  }

  lemma DeliveredNext(hash: bytes -> nat, n: Node, mid: Node)
    requires NodeInv(hash, n) && !DecodeOne(false, n.net.heard).NeedMore?
    requires DecodeOne(false, n.net.heard).Got? && n.net.flying != []
    requires var r := DecodeOne(false, n.net.heard); var c := n.client;
             && r.frame.reqId < |c.pending| && r.frame.reqId !in c.granted && c.pending[r.frame.reqId].Some?
             && mid.client == c.(pending := c.pending[r.frame.reqId := None], free := c.free + [r.frame.reqId],
                                 delivered := c.delivered[c.pending[r.frame.reqId].value := r.frame.payload])
             && mid.net == n.net.(heard := n.net.heard[r.used..], flying := n.net.flying[1..]) && mid.payloads == n.payloads
    ensures After(hash, View(n), [Deliver, Release]) == View(mid) && Inv(hash, View(mid))
  {
    hide DecodeOne, Inv, After, NodeClient.Partitioned, NodeClient.Matched, CallsIn;
    var s := View(n);
    Vacate(n.client, DecodeOne(false, n.net.heard).frame.reqId);
    InShape(hash, s);
    TwoSteps(hash, s, Deliver, Release);
  }

  lemma ReceiveIsMoves(hash: bytes -> nat, n: Node)
    requires NodeInv(hash, n) && !DecodeOne(false, n.net.heard).NeedMore?
    requires DecodeOne(false, n.net.heard).Got? && n.net.flying != []
    ensures Asked(ReceiveNext(n).client, ReceiveNext(n).payloads)
    ensures Inv(hash, View(ReceiveNext(n)))
    ensures After(hash, View(n), Moves(n, Receive)) == View(ReceiveNext(n))
  {
    hide DecodeOne, Inv, After, NodeClient.Partitioned, NodeClient.Matched, Holders, CallsIn, Enabled;
    var r, c := DecodeOne(false, n.net.heard), n.client;
    var id := r.frame.reqId;
    HeadIsParked(hash, n);
    NodeClient.OnFrameKeepsInv(c, r.frame);
    var mid := n.(client := c.(pending := c.pending[id := None], free := c.free + [id],
                               delivered := c.delivered[c.pending[id].value := r.frame.payload]),
                  net := n.net.(heard := n.net.heard[r.used..], flying := n.net.flying[1..]));
    DeliveredNext(hash, n, mid);
    if c.waiters == [] {
      assert mid == ReceiveNext(n);
      assert [Deliver, Release] + [] == [Deliver, Release];
    } else {
      HandedNext(hash, mid, ReceiveNext(n).client);
      AfterAppend(hash, View(n), [Deliver, Release], [Acquire, TakeSlot(n.payloads[|c.slots|])]);
    }
  }

  /** Every turn keeps the invariant, and is exactly its moves. */
  lemma TurnIsMoves(hash: bytes -> nat, n: Node, t: Turn)
    requires NodeInv(hash, n) && May(hash, n, t)
    ensures NodeInv(hash, NodeNext(hash, n, t))
    ensures View(NodeNext(hash, n, t)) == After(hash, View(n), Moves(n, t))
  {
    hide Inv, After, NodeClient.Partitioned, NodeClient.Matched, SendNext, ResumeNext, ReceiveNext, Holders, CallsIn, DecodeOne, Enabled;
    match t
    case Send(payload) => SendIsMoves(hash, n, payload);
    case Resume(id) =>
      Resumable(hash, n, id);
      ResumeIsMove(hash, n, id);
    case Receive =>
      HeadIsWaitedFor(hash, View(n));
      ReceiveIsMoves(hash, n);
    case Others(step) => OthersIsMove(hash, n, step);
  }

  // --- Whole runs ---

  /** Any schedule; a turn that nobody may take is skipped. */
  ghost function NodeAfter(hash: bytes -> nat, n: Node, turns: seq<Turn>): (n': Node)
    requires NodeInv(hash, n)
    ensures NodeInv(hash, n')
    decreases |turns|
  {
    hide Inv, NodeClient.Partitioned, NodeClient.Matched, May, NodeNext;
    if turns == [] then n
    else if !May(hash, n, turns[0]) then NodeAfter(hash, n, turns[1..])
    else
      TurnIsMoves(hash, n, turns[0]);
      NodeAfter(hash, NodeNext(hash, n, turns[0]), turns[1..])
  }

  lemma ConnectedHolds(hash: bytes -> nat, max: nat, greeting: Frame, shards: seq<Keyspace>)
    requires |shards| > 0 && max < U32 && AllCarriable(shards)
    ensures Inv(hash, Init(max, shards)) && NodeInv(hash, Connected(max, greeting, shards))
    ensures View(Connected(max, greeting, shards)) == Init(max, shards)
  {
    hide Inv, AllCarriable;
    InitHolds(hash, max, shards);
    NodeClient.StartHolds(max);
    NodeClient.OnFrameKeepsInv(NodeClient.Start(max), greeting);
    var s, t := View(Connected(max, greeting, shards)), Init(max, shards);
    assert s.pool == t.pool;
    assert s.calls == t.calls && s.unsent == t.unsent;
  }

  /** Every run of the Node client is a run of the whole system as `Multiplex` has it. */
  lemma {:induction false} NodeRunIsRun(hash: bytes -> nat, n: Node, turns: seq<Turn>) returns (moves: seq<Step>)
    requires NodeInv(hash, n)
    ensures View(NodeAfter(hash, n, turns)) == After(hash, View(n), moves)
    decreases |turns|
  {
    hide Inv, NodeClient.Partitioned, NodeClient.Matched, May, NodeNext, Moves, Holders, CallsIn;
    if turns == [] {
      moves := [];
    } else if !May(hash, n, turns[0]) {
      moves := NodeRunIsRun(hash, n, turns[1..]);
    } else {
      TurnIsMoves(hash, n, turns[0]);
      var rest := NodeRunIsRun(hash, NodeNext(hash, n, turns[0]), turns[1..]);
      moves := Moves(n, turns[0]) + rest;
      AfterAppend(hash, View(n), Moves(n, turns[0]), rest);
    }
  }

  /** From the handshake on, over every run: whatever call `c` of the client is handed is the refusal its own payload
      gets, or what its key's shard answered to the operation its own payload encodes. */
  lemma NodeCallsGetTheirOwnAnswers(hash: bytes -> nat, max: nat, greeting: Frame, shards: seq<Keyspace>, turns: seq<Turn>, c: nat)
    requires |shards| > 0 && max < U32 && AllCarriable(shards)
    ensures NodeInv(hash, Connected(max, greeting, shards))
    ensures var n := NodeAfter(hash, Connected(max, greeting, shards), turns);
            c in n.client.delivered ==>
              && c < |n.client.slots| <= |n.payloads|
              && match PlanOf(hash, |shards|, Frame(REQUEST, n.client.slots[c], n.payloads[c]))
                 case Immediate(payload) => n.client.delivered[c] == payload
                 case ToShard(_, op) =>
                   && c in n.net.at && n.net.at[c] < |n.net.log|
                   && var d := n.net.log[n.net.at[c]]; (d.call == Some(c) && d.op == op && d.got == n.client.delivered[c])
  {
    hide Inv, Init, Connected, After, NodeAfter, PlanOf, AllCarriable, NodeClient.Partitioned, NodeClient.Matched, Holders;
    ConnectedHolds(hash, max, greeting, shards);
    var moves := NodeRunIsRun(hash, Connected(max, greeting, shards), turns);
    EachCallGetsItsOwnAnswer(hash, max, shards, moves, c);
  }

  /** And all answers of such a run, to this client and to any others, are those of one unsharded map. */
  lemma NodeRunsAreLinear(hash: bytes -> nat, max: nat, greeting: Frame, start: seq<Keyspace>, m: Keyspace, turns: seq<Turn>)
    requires |start| > 0 && max < U32 && AllCarriable(start) && Partitions(hash, start, m)
    ensures NodeInv(hash, Connected(max, greeting, start))
    ensures var s := NodeAfter(hash, Connected(max, greeting, start), turns).net; var all := Upto(|s.log|);
            && AllAgree(ItemsAt(s.log, all), AnswersAt(s.log, all), Run(m, ItemsAt(s.log, all)).1)
            && |s.shards| == |s.clocks| == |start| && ShowTogether(hash, s.shards, s.clocks, Run(m, ItemsAt(s.log, all)).0)
  {
    hide Inv, Init, Connected, After, NodeAfter, AllCarriable, NodeClient.Partitioned, NodeClient.Matched, Holders, CallsIn,
         Partitions, AllAgree, ShowTogether, Run;
    ConnectedHolds(hash, max, greeting, start);
    var moves := NodeRunIsRun(hash, Connected(max, greeting, start), turns);
    RunsAreLinear(hash, max, start, m, moves);
  }
}
