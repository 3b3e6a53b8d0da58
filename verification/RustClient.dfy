/** The Rust client's slot pool: `req_id` is the index of a slot, and a semaphore bounds the callers. */
module RustClient {
  import opened Prelude

  /** `senders[id]` holds the call waiting under `id`; `free` is a stack of unused ids. */
  datatype Pool = Pool(senders: seq<Option<nat>>, free: seq<nat>)

  function Occupied(senders: seq<Option<nat>>): (n: nat)
    ensures n <= |senders|
  {
    if senders == [] then 0 else (if senders[0].Some? then 1 else 0) + Occupied(senders[1..])
  }

  /** Free ids and in-flight ids partition the slots, and no id is listed twice. */
  predicate Sound(p: Pool) {
    && Distinct(p.free)
    && (forall id | id in p.free :: id < |p.senders| && p.senders[id].None?)
    && |p.free| + Occupied(p.senders) == |p.senders|
  }

  /** What `connect` builds: a slot for every call allowed in flight, and `0..max_inflight as u32` free ids. */
  function Fresh(max: nat): (p: Pool)
  {
    Pool(seq(max, _ => None), seq(AsU32(max), i requires 0 <= i < AsU32(max) => i))
  }

  /** The locked section of `call`: pop an id and park the caller under it. */
  function Take(p: Pool, call: nat): (p': Pool)
    requires p.free != [] && p.free[|p.free| - 1] < |p.senders|
  {
    var id := p.free[|p.free| - 1];
    Pool(p.senders[id := Some(call)], p.free[..|p.free| - 1])
  }

  /** The locked section of `read_loop`: take whoever waits under `id` and free it, unconditionally. */
  function Finish(p: Pool, id: nat): (p': Pool)
    requires id < |p.senders|
  {
    Pool(p.senders[id := None], p.free + [id])
  }

  lemma {:induction false} OccupiedUpdate(s: seq<Option<nat>>, i: nat, x: Option<nat>)
    requires i < |s|
    ensures Occupied(s[i := x]) + (if s[i].Some? then 1 else 0) == Occupied(s) + if x.Some? then 1 else 0
  {
    if i == 0 {
      assert s[0 := x][1..] == s[1..];
    } else {
      OccupiedUpdate(s[1..], i - 1, x);
      assert s[i := x][1..] == s[1..][i - 1 := x];
    }
  }

  lemma {:induction false} NoneOccupied(s: seq<Option<nat>>)
    requires forall i | 0 <= i < |s| :: s[i].None?
    ensures Occupied(s) == 0
  {
    if s != [] {
      NoneOccupied(s[1..]);
    }
  }

  /** A new pool is sound if and only if the number of slots survives the cast to u32. */
  lemma FreshIsSound(max: nat)
    ensures Sound(Fresh(max)) <==> max < U32
    ensures Occupied(Fresh(max).senders) == 0
  {
    NoneOccupied(Fresh(max).senders);
  }

  /** With 2^32 slots no id is free at all, although nothing is in flight: the first call with a permit panics. */
  lemma CastLosesAllIds()
    ensures var p := Fresh(U32); p.free == [] && Occupied(p.senders) == 0 < |p.senders|
  {
    FreshIsSound(U32);
  }

  /** A caller that finds a free id leaves the pool sound. */
  lemma TakeKeepsSound(p: Pool, call: nat)
    requires Sound(p) && p.free != []
    ensures p.free[|p.free| - 1] in p.free && Sound(Take(p, call))
    ensures Occupied(Take(p, call).senders) == Occupied(p.senders) + 1
  {
    var id := p.free[|p.free| - 1];
    assert id in p.free;
    OccupiedUpdate(p.senders, id, Some(call));
    var rest := p.free[..|p.free| - 1];
    forall x | x in rest
      ensures x in p.free && x != id
    {
      var i :| 0 <= i < |rest| && rest[i] == x;
      assert p.free[i] == x;
    }
  }

  /** The permit argument: while fewer slots are occupied than exist, `expect` cannot fire. */
  lemma PermitMeansFreeSlot(p: Pool)
    requires Sound(p)
    ensures p.free != [] <==> Occupied(p.senders) < |p.senders|
  {
  }

  /** What the read loop makes of a response under `id`; indexing past the slots panics. */
  function Respond(p: Pool, id: nat): (r: Option<Pool>)
  {
    if id < |p.senders| then Some(Finish(p, id)) else None
  }

  /** Any response at all leaves a sound pool behind if and only if somebody was waiting under its
      id: the pool relies on one response per request, and on its id being one of its own. */
  lemma FinishKeepsSound(p: Pool, id: nat)
    requires Sound(p)
    ensures (Respond(p, id).Some? && Sound(Respond(p, id).value)) <==> (id < |p.senders| && p.senders[id].Some?)
  {
    if id < |p.senders| {
      OccupiedUpdate(p.senders, id, None);
      if p.senders[id].Some? {
        assert id !in p.free;
      }
    }
  }

  /** The slot table shared by the callers and the read loop. */
  class Slots {
    var senders: seq<Option<nat>>
    var free: seq<nat>

    function Model(): (p: Pool)
      reads this
    {
      Pool(senders, free)
    }

    constructor (max: nat)
      ensures Model() == Fresh(max)
      ensures Sound(Model()) <==> max < U32
    {
      senders := seq(max, _ => None);
      free := seq(AsU32(max), i requires 0 <= i < AsU32(max) => i);
      FreshIsSound(max);
    }

    /** The caller holds a permit, so fewer slots are occupied than exist. */
    method TakeSlot(call: nat) returns (id: nat)
      requires Sound(Model()) && Occupied(senders) < |senders|
      modifies this
      ensures Sound(Model()) && Occupied(senders) == old(Occupied(senders)) + 1
      ensures id < |old(senders)| && old(senders)[id].None? && id !in free
      ensures senders == old(senders)[id := Some(call)] && free + [id] == old(free)
    {
      PermitMeansFreeSlot(Model());
      TakeKeepsSound(Model(), call);
      id := free[|free| - 1];
      free := free[..|free| - 1];
      senders := senders[id := Some(call)];
    }

    /** A response under `id`: frees it and hands its waiter back, if there is one. Past the last slot
        the read loop panics, and nothing has changed. */
    method FinishSlot(id: nat) returns (panicked: bool, sender: Option<nat>)
      requires Sound(Model())
      modifies this
      ensures panicked <==> id >= |old(senders)|
      ensures panicked ==> sender == None && Model() == old(Model())
      ensures !panicked ==> sender == old(senders)[id] && Respond(old(Model()), id) == Some(Model())
      ensures !panicked ==> (Sound(Model()) <==> sender.Some?)
    {
      FinishKeepsSound(Model(), id);
      if id >= |senders| {
        return true, None;
      }
      panicked, sender := false, senders[id];
      senders := senders[id := None];
      free := free + [id];
    }
  }
}
