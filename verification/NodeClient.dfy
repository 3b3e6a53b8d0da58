/** The Node client: a slot pool that hands a freed slot straight to the oldest waiter, and an
    incremental frame parser that ignores responses nobody waits for. */
module NodeClient {
  import opened Prelude
  import opened Codec

  /** Calls are numbered in the order they asked for a slot. */
  datatype Client = Client(
    free: seq<nat>,
    granted: map<nat, nat>,          // slot ids given to a call that has not resumed yet
    pending: seq<Option<nat>>,       // slot id -> the call parked there
    waiters: seq<nat>,               // calls queued for a slot
    handshake: bool,                 // the handshake reply is still awaited
    asked: nat,
    slots: seq<nat>,                 // the slot ids handed out so far, by call
    delivered: map<nat, bytes>,      // the answers handed to their calls
    greeting: Option<bytes>)

  /** One turn of the event loop. */
  datatype Event = Send | Resume(id: nat) | Response(frame: Frame)

  function Start(max: nat): (c: Client)
  {
    Client(seq(max, i requires 0 <= i < max => i), map[], seq(max, _ => None), [], true, 0, [], map[], None)
  }

  /** `_acquire`: take a free slot, or queue up. */
  function Acquire(c: Client): (c': Client)
  {
    if c.free != [] then
      var id := c.free[|c.free| - 1];
      c.(free := c.free[..|c.free| - 1], granted := c.granted[id := c.asked], asked := c.asked + 1, slots := c.slots + [id])
    else
      c.(waiters := c.waiters + [c.asked], asked := c.asked + 1)
  }

  /** The rest of `_send`, once the awaited slot id is there. */
  function Park(c: Client, id: nat): (c': Client)
  {
    if id in c.granted && id < |c.pending| then
      c.(granted := c.granted - {id}, pending := c.pending[id := Some(c.granted[id])])
    else c
  }

  /** `_release`: to the oldest waiter, or back to the free list. */
  function Release(c: Client, id: nat): (c': Client)
  {
    if c.waiters != [] then
      c.(waiters := c.waiters[1..], granted := c.granted[id := c.waiters[0]], slots := c.slots + [id])
    else c.(free := c.free + [id])
  }

  /** One decoded frame: the handshake reply, an awaited response, or nothing. */
  function OnFrame(c: Client, f: Frame): (c': Client)
  {
    if c.handshake then c.(handshake := false, greeting := Some(f.payload))
    else if f.reqId < |c.pending| && c.pending[f.reqId].Some? then
      var call := c.pending[f.reqId].value;
      Release(c.(pending := c.pending[f.reqId := None]), f.reqId).(delivered := c.delivered[call := f.payload])
    else c
  }

  function Step(c: Client, e: Event): (c': Client)
  {
    match e
    case Send => Acquire(c)
    case Resume(id) => Park(c, id)
    case Response(f) => OnFrame(c, f)
  }

  function Steps(c: Client, es: seq<Event>): (c': Client)
    decreases |es|
  {
    if es == [] then c else Steps(Step(c, es[0]), es[1..])
  }

  function OnFrames(c: Client, fs: seq<Frame>): (c': Client)
    decreases |fs|
  {
    if fs == [] then c else OnFrames(OnFrame(c, fs[0]), fs[1..])
  }

  // --- The invariant ---

  /** Who holds slot `id`. */
  function Holder(granted: map<nat, nat>, pending: seq<Option<nat>>, id: nat): (h: Option<nat>)
  {
    if id in granted then Some(granted[id]) else if id < |pending| then pending[id] else None
  }

  /** Every id is free, handed over or parked, and only one of the three; `loose` ids are between two of them. */
  predicate Partitioned(free: seq<nat>, granted: map<nat, nat>, pending: seq<Option<nat>>, loose: set<nat>) {
    && Distinct(free)
    && (forall id | id in free :: id < |pending| && Holder(granted, pending, id).None? && id !in loose)
    && (forall id | id in loose :: id < |pending| && Holder(granted, pending, id).None?)
    && (forall id | id in granted :: id < |pending| && pending[id].None?)
    && (forall id | 0 <= id < |pending| && Holder(granted, pending, id).None? :: id in free || id in loose)
  }

  /** Slots are handed out in the order asked for; nobody waits while a slot is free. */
  predicate Fair(c: Client) {
    && (c.free != [] ==> c.waiters == [])
    && |c.slots| + |c.waiters| == c.asked
    && (forall i | 0 <= i < |c.waiters| :: c.waiters[i] == |c.slots| + i)
  }

  /** A call that was given a slot holds that slot until it is answered, and no slot is held by anyone else. */
  predicate Matched(granted: map<nat, nat>, pending: seq<Option<nat>>, slots: seq<nat>, delivered: map<nat, bytes>) {
    && (forall id | 0 <= id < |pending| && Holder(granted, pending, id).Some? ::
          var x := Holder(granted, pending, id).value;
          x < |slots| && slots[x] == id && x !in delivered)
    && (forall x | 0 <= x < |slots| && x !in delivered ::
          slots[x] < |pending| && Holder(granted, pending, slots[x]) == Some(x))
    && (forall x | x in delivered :: x < |slots|)
  }

  predicate Inv(c: Client) {
    && Partitioned(c.free, c.granted, c.pending, {}) && Fair(c)
    && Matched(c.granted, c.pending, c.slots, c.delivered)
  }

  lemma StartHolds(max: nat)
    ensures Inv(Start(max))
  {
    var c := Start(max);
    forall id | 0 <= id < max
      ensures id in c.free
    {
      assert c.free[id] == id;
    }
  }

  lemma Popped(free: seq<nat>, granted: map<nat, nat>, pending: seq<Option<nat>>)
    requires Partitioned(free, granted, pending, {}) && free != []
    ensures Partitioned(free[..|free| - 1], granted, pending, {free[|free| - 1]})
  {
    hide Holder;
    var rest, id := free[..|free| - 1], free[|free| - 1];
    assert free == rest + [id];
    assert id in free;
    forall x | x in rest
      ensures x in free && x != id
    {
    }
  }

  lemma Pushed(free: seq<nat>, granted: map<nat, nat>, pending: seq<Option<nat>>, id: nat)
    requires Partitioned(free, granted, pending, {id})
    ensures Partitioned(free + [id], granted, pending, {})
  {
    hide Holder;
    assert id in {id};
  }

  lemma Granted(free: seq<nat>, granted: map<nat, nat>, pending: seq<Option<nat>>, slots: seq<nat>, delivered: map<nat, bytes>, id: nat)
    requires Partitioned(free, granted, pending, {id}) && Matched(granted, pending, slots, delivered)
    ensures Partitioned(free, granted[id := |slots|], pending, {})
    ensures Matched(granted[id := |slots|], pending, slots + [id], delivered)
  {
    var granted' := granted[id := |slots|];
    assert id in {id};
    assert forall i: nat | i != id :: Holder(granted', pending, i) == Holder(granted, pending, i);
    assert Holder(granted', pending, id) == Some(|slots|);
    hide Holder;
    forall x | 0 <= x < |slots| && x !in delivered
      ensures slots[x] != id
    {
    }
  }

  lemma Vacated(free: seq<nat>, granted: map<nat, nat>, pending: seq<Option<nat>>, slots: seq<nat>, delivered: map<nat, bytes>,
                id: nat, payload: bytes)
    requires Partitioned(free, granted, pending, {}) && Matched(granted, pending, slots, delivered)
    requires id < |pending| && pending[id].Some?
    ensures Partitioned(free, granted, pending[id := None], {id})
    ensures Matched(granted, pending[id := None], slots, delivered[pending[id].value := payload])
  {
    var pending', call := pending[id := None], pending[id].value;
    assert id !in granted;
    assert Holder(granted, pending, id) == Some(call) && Holder(granted, pending', id) == None;
    assert forall i: nat | i != id :: Holder(granted, pending', i) == Holder(granted, pending, i);
    hide Holder;
    forall x | 0 <= x < |slots| && x !in delivered && x != call
      ensures slots[x] != id
    {
    }
  }

  lemma FreeIsFree(c: Client)
    requires Inv(c) && c.free != []
    ensures var id := c.free[|c.free| - 1]; id in c.free && id !in c.free[..|c.free| - 1] && c.waiters == []
  {
  }

  lemma AcquireKeepsInv(c: Client)
    requires Inv(c)
    ensures Inv(Acquire(c))
  {
    hide Partitioned, Matched;
    if c.free != [] {
      Popped(c.free, c.granted, c.pending);
      Granted(c.free[..|c.free| - 1], c.granted, c.pending, c.slots, c.delivered, c.free[|c.free| - 1]);
    }
  }

  lemma ParkKeepsInv(c: Client, id: nat)
    requires Inv(c)
    ensures Inv(Park(c, id))
  {
    var c' := Park(c, id);
    assert forall i: nat :: Holder(c'.granted, c'.pending, i) == Holder(c.granted, c.pending, i);
  }

  lemma ReleaseKeepsInv(c: Client, id: nat)
    requires Partitioned(c.free, c.granted, c.pending, {id}) && Fair(c) && Matched(c.granted, c.pending, c.slots, c.delivered)
    ensures Inv(Release(c, id))
  {
    hide Partitioned, Matched;
    if c.waiters != [] {
      Granted(c.free, c.granted, c.pending, c.slots, c.delivered, id);
    } else {
      Pushed(c.free, c.granted, c.pending, id);
    }
  }

  lemma OnFrameKeepsInv(c: Client, f: Frame)
    requires Inv(c)
    ensures Inv(OnFrame(c, f))
  {
    hide Partitioned, Matched;
    var id := f.reqId;
    if !c.handshake && id < |c.pending| && c.pending[id].Some? {
      Vacated(c.free, c.granted, c.pending, c.slots, c.delivered, id, f.payload);
      ReleaseKeepsInv(c.(pending := c.pending[id := None], delivered := c.delivered[c.pending[id].value := f.payload]), id);
    }
  }

  lemma StepKeepsInv(c: Client, e: Event)
    requires Inv(c)
    ensures Inv(Step(c, e)) && |Step(c, e).pending| == |c.pending|
  {
    hide Inv;
    match e
    case Send => AcquireKeepsInv(c);
    case Resume(id) => ParkKeepsInv(c, id);
    case Response(f) => OnFrameKeepsInv(c, f);
  }

  /** Over every run of the client, whatever the server sends: the slots stay partitioned, callers are
      served in the order they asked, and each call holds its slot until its answer. */
  lemma {:induction false} RunKeepsInv(c: Client, es: seq<Event>)
    requires Inv(c)
    ensures Inv(Steps(c, es)) && |Steps(c, es).pending| == |c.pending|
    decreases |es|
  {
    hide Inv, Step;
    if es != [] {
      StepKeepsInv(c, es[0]);
      RunKeepsInv(Step(c, es[0]), es[1..]);
    }
  }

  /** From a fresh client on, then, over every run. */
  lemma EveryRunIsSound(max: nat, es: seq<Event>)
    ensures var c := Steps(Start(max), es);
            && |c.pending| == max && Partitioned(c.free, c.granted, c.pending, {}) && Fair(c)
            && Matched(c.granted, c.pending, c.slots, c.delivered)
  {
    hide Partitioned, Fair, Matched, Step;
    StartHolds(max);
    RunKeepsInv(Start(max), es);
  }

  /** A response changes something exactly when its slot is parked on: an unsolicited or repeated one cannot free a slot. */
  lemma UnsolicitedIsIgnored(c: Client, f: Frame)
    requires Inv(c) && !c.handshake
    ensures OnFrame(c, f) == c <==> !(f.reqId < |c.pending| && c.pending[f.reqId].Some?)
    ensures OnFrame(OnFrame(c, f), f) == OnFrame(c, f)
  {
    if f.reqId < |c.pending| && c.pending[f.reqId].Some? {
      assert OnFrame(c, f).pending[f.reqId].None?;
    }
  }

  /** A parked call keeps its place, and is handed the first response that bears its id. */
  lemma {:induction false} AnswerReachesItsCall(c: Client, es: seq<Event>, id: nat, f: Frame)
    requires Inv(c) && !c.handshake && id < |c.pending| && c.pending[id].Some? && f.reqId == id
    requires forall i | 0 <= i < |es| && es[i].Response? :: es[i].frame.reqId != id
    ensures var c' := Steps(c, es); var call := c.pending[id].value;
            && !c'.handshake && call !in c'.delivered
            && call in OnFrame(c', f).delivered && OnFrame(c', f).delivered == c'.delivered[call := f.payload]
    ensures id < |Steps(c, es).pending| && Steps(c, es).pending[id] == c.pending[id]
    decreases |es|
  {
    hide Inv;
    if es == [] {
      ParkedIsUnanswered(c, id);
    } else {
      StepKeepsInv(c, es[0]);
      ParkedStays(c, es[0], id);
      AnswerReachesItsCall(Step(c, es[0]), es[1..], id, f);
    }
  }

  lemma ParkedIsUnanswered(c: Client, id: nat)
    requires Inv(c) && id < |c.pending| && c.pending[id].Some?
    ensures id !in c.granted && c.pending[id].value !in c.delivered
  {
    assert id !in c.granted;
    assert Holder(c.granted, c.pending, id) == c.pending[id];
  }

  lemma ParkedStays(c: Client, e: Event, id: nat)
    requires Inv(c) && !c.handshake && id < |c.pending| && c.pending[id].Some?
    requires e.Response? ==> e.frame.reqId != id
    ensures var c' := Step(c, e); !c'.handshake && id < |c'.pending| && c'.pending[id] == c.pending[id]
  {
    ParkedIsUnanswered(c, id);
  }

  // --- Chunks ---

  lemma OnFramesSnoc(c: Client, fs: seq<Frame>, f: Frame)
    ensures OnFrames(c, fs + [f]) == OnFrame(OnFrames(c, fs), f)
  {
    OnFramesAppend(c, fs, [f]);
    assert [f][1..] == [];
  }

  lemma {:induction false} OnFramesAppend(c: Client, a: seq<Frame>, b: seq<Frame>)
    ensures OnFrames(c, a + b) == OnFrames(OnFrames(c, a), b)
    decreases |a|
  {
    if a == [] {
      assert a + b == b;
    } else {
      assert (a + b)[0] == a[0] && (a + b)[1..] == a[1..] + b;
      OnFramesAppend(OnFrame(c, a[0]), a[1..], b);
    }
  }

  /** The client's state and its unparsed bytes after a chunk. */
  function OnData(c: Client, buf: bytes, chunk: bytes): (r: (Client, bytes))
  {
    var st := Drain(false, buf + chunk);
    (OnFrames(c, st.frames), st.rest)
  }

  function OnAllData(c: Client, buf: bytes, chunks: seq<bytes>): (r: (Client, bytes))
    decreases |chunks|
  {
    if chunks == [] then (c, buf)
    else
      var (c1, buf1) := OnData(c, buf, chunks[0]);
      OnAllData(c1, buf1, chunks[1..])
  }

  /** This parser refuses nothing. */
  lemma {:induction false} LenientNeverFails(src: bytes)
    ensures Drain(false, src).error.None?
    decreases |src|
  {
    var r := DecodeOne(false, src);
    NeverTooLarge(false, src);
    if r.Got? {
      LenientNeverFails(src[r.used..]);
    }
  }

  lemma {:induction false} DataIsOneChunk(c: Client, seen: bytes, chunks: seq<bytes>)
    ensures var st := Drain(false, seen); var all := Drain(false, seen + Concat(chunks));
            OnAllData(OnFrames(c, st.frames), st.rest, chunks) == (OnFrames(c, all.frames), all.rest)
    decreases |chunks|
  {
    hide Drain, OnFrame;
    var st := Drain(false, seen);
    if chunks == [] {
      assert seen + Concat(chunks) == seen;
    } else {
      LenientNeverFails(seen);
      DrainSplit(false, seen, chunks[0]);
      OnFramesAppend(c, st.frames, Drain(false, st.rest + chunks[0]).frames);
      DataIsOneChunk(c, seen + chunks[0], chunks[1..]);
      Assoc(seen, chunks[0], Concat(chunks[1..]));
    }
  }

  /** However the socket cuts the bytes, the client ends up in the same state: same slots, same answers to the same calls. */
  lemma ChunksInvisible(c: Client, xs: seq<bytes>, ys: seq<bytes>)
    requires Concat(xs) == Concat(ys)
    ensures OnAllData(c, [], xs) == OnAllData(c, [], ys)
  {
    DataIsOneChunk(c, [], xs);
    DataIsOneChunk(c, [], ys);
    assert [] + Concat(xs) == [] + Concat(ys);
  }

  // --- The object ---

  class DatasetClient {
    var free: seq<nat>
    var pending: seq<Option<nat>>
    var waiters: seq<nat>
    var buf: bytes
    var handshake: bool
    var granted: map<nat, nat>
    ghost var asked: nat
    ghost var slots: seq<nat>
    ghost var delivered: map<nat, bytes>
    ghost var greeting: Option<bytes>

    ghost function Model(): (c: Client)
      reads this
    {
      Client(free, granted, pending, waiters, handshake, asked, slots, delivered, greeting)
    }

    constructor (max: nat)
      ensures Model() == Start(max) && buf == [] && Inv(Model())
    {
      free := seq(max, i requires 0 <= i < max => i);
      pending := seq(max, _ => None);
      waiters, buf, handshake, granted := [], [], true, map[];
      asked, slots, delivered, greeting := 0, [], map[], None;
      StartHolds(max);
    }

    /** `call` is the caller's number: it asks after `asked` others. It is handed a free slot, or it is
        the last to wait; it overtakes nobody. */
    method AcquireSlot(call: nat)
      requires Inv(Model()) && call == asked
      modifies this
      ensures Model() == Acquire(old(Model())) && buf == old(buf) && Inv(Model())
      ensures old(free) != [] ==> old(waiters) == [] && exists id :: id in old(free) && id !in free && id in granted && granted[id] == call
      ensures old(free) == [] ==> waiters == old(waiters) + [call] && granted == old(granted)
    {
      AcquireKeepsInv(Model());
      if free != [] {
        FreeIsFree(Model());
        var id := free[|free| - 1];
        free := free[..|free| - 1];
        granted := granted[id := call];
        slots := slots + [id];
      } else {
        waiters := waiters + [call];
      }
      asked := asked + 1;
    }

    /** A slot that was just vacated goes to the caller that has waited longest, or back to the free list. */
    method ReleaseSlot(id: nat)
      requires Partitioned(free, granted, pending, {id}) && Fair(Model()) && Matched(granted, pending, slots, delivered)
      modifies this`free, this`waiters, this`granted, this`slots
      ensures Model() == Release(old(Model()), id) && Inv(Model())
      ensures old(waiters) != [] ==>
                id in granted && granted[id] == old(waiters)[0] && free == old(free)
                && forall i | 0 <= i < |waiters| :: old(waiters)[0] < waiters[i]
      ensures old(waiters) == [] ==> free == old(free) + [id] && granted == old(granted)
    {
      ReleaseKeepsInv(Model(), id);
      if waiters != [] {
        var waiter := waiters[0];
        waiters := waiters[1..];
        granted := granted[id := waiter];
        slots := slots + [id];
      } else {
        free := free + [id];
      }
    }

    /** The caller resumes with its slot id, parks itself and writes its frame. A payload that the u16
        length cannot announce throws after the parking: nothing is written and the slot stays taken. */
    method SendFrame(id: nat, payload: bytes) returns (written: Option<bytes>)
      requires Inv(Model()) && id in granted && id < U32
      modifies this
      ensures Model() == Park(old(Model()), id) && buf == old(buf) && Inv(Model())
      ensures id < |pending| && pending[id] == Some(old(granted)[id])
      ensures written.Some? <==> |payload| < U16
      ensures written.Some? ==> DecodeOne(true, written.value) == Got(Frame(REQUEST, id, payload), |written.value|)
    {
      ParkKeepsInv(Model(), id);
      var call := granted[id];
      granted := granted - {id};
      pending := pending[id := Some(call)];
      if |payload| >= U16 {
        return None;
      }
      FrameRoundTrip(true, Frame(REQUEST, id, payload));
      written := Some(EncodeFrame(Frame(REQUEST, id, payload)));
    }

    /** The body of the parse loop, for one frame. */
    method Receive(id: nat, payload: bytes, ghost f: Frame)
      requires Inv(Model()) && f.reqId == id && f.payload == payload
      modifies this
      ensures Model() == OnFrame(old(Model()), f) && buf == old(buf)
      ensures Inv(Model())
    {
      hide Partitioned, Matched;
      OnFrameKeepsInv(Model(), f);
      if handshake {
        handshake := false;
        greeting := Some(payload);
      } else if id < |pending| && pending[id].Some? {
        var slot := pending[id].value;
        Vacated(free, granted, pending, slots, delivered, id, payload);
        pending := pending[id := None];
        delivered := delivered[slot := payload];
        ReleaseSlot(id);
      }
    }

    /** A chunk from the socket: parse what is whole, keep the rest. */
    method Data(chunk: bytes)
      requires Inv(Model())
      modifies this
      ensures (Model(), buf) == OnData(old(Model()), old(buf), chunk)
      ensures Inv(Model())
    {
      buf := buf + chunk;
      ghost var c0, all := Model(), buf;
      ghost var frames: seq<Frame> := [];
      assert Model() == OnFrames(c0, frames);
      hide Inv, Drain, OnFrame, OnFrames, De16, De32;
      assert Drain(false, all).frames == [] + Drain(false, buf).frames;
      while |buf| >= FRAME_HEAD_LEN
        invariant Inv(Model()) && Model() == OnFrames(c0, frames)
        invariant Drain(false, all).frames == frames + Drain(false, buf).frames
        invariant Drain(false, all).rest == Drain(false, buf).rest
        decreases |buf|
      {
        var len := De16(buf[5..7]);
        if |buf| < FRAME_HEAD_LEN + len {
          break;
        }
        var id := De32(buf[1..5]);
        var payload := buf[FRAME_HEAD_LEN..FRAME_HEAD_LEN + len];
        ghost var f := Frame(buf[0], id, payload);
        DrainFrame(buf, f, len);
        Assoc(frames, [f], Drain(false, buf[FRAME_HEAD_LEN + len..]).frames);
        OnFramesSnoc(c0, frames, f);
        frames := frames + [f];
        buf := buf[FRAME_HEAD_LEN + len..];
        Receive(id, payload, f);
      }
      DrainStops(buf);
      assert frames + [] == frames;
    }
  }

  lemma DrainFrame(src: bytes, f: Frame, len: nat)
    requires |src| >= FRAME_HEAD_LEN && len == De16(src[5..7]) && |src| >= FRAME_HEAD_LEN + len
    requires f == Frame(src[0], De32(src[1..5]), src[FRAME_HEAD_LEN..FRAME_HEAD_LEN + len])
    ensures Drain(false, src).frames == [f] + Drain(false, src[FRAME_HEAD_LEN + len..]).frames
    ensures Drain(false, src).rest == Drain(false, src[FRAME_HEAD_LEN + len..]).rest
  {
    hide De16, De32;
    NeverTooLarge(false, src);
  }

  lemma DrainStops(src: bytes)
    requires |src| < FRAME_HEAD_LEN || |src| < FRAME_HEAD_LEN + De16(src[5..7])
    ensures Drain(false, src) == Stream([], None, src)
  {
  }
}
