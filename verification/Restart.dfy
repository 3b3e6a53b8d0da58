/** Stopping a shard and starting it again from its files. */
module Restart {
  import opened Prelude
  import opened Log
  import opened DiskFiles
  import opened DiskRuns
  import opened Recovery
  import opened TtlMap
  import opened Wire
  import opened Shards
  import opened Store
  import opened Workers

  /** After an orderly stop the new shard has exactly the live view the old one had, at any later
      time and with any budget, if and only if each shadowed key is one that view already shows.
      The new shard's journal is complete again, whatever was shadowed, so this holds for every
      restart of a shard, not just the first. */
  method CleanRestart(w: Worker, budget: nat, now: nat) returns (w': Worker)
    requires w.Valid() && w.Journaled() && w.clock <= now
    modifies w.disk
    ensures fresh(w') && fresh(w'.disk) && w'.Valid() && w'.Journaled()
    ensures w'.disk.history == old(w.disk.history) && w'.clock == now
    ensures Live(w'.Entries(), now) == Live(old(w.Entries()), now) <==>
            (forall k | Resurrects(old(w.disk.history), now, k) :: k in Live(old(w.Entries()), now))
  {
    hide Located, InStep, EntriesOf, Rebuilt, Replay, Resurrects, EndsBy, EncodeLog, FitsLog, EncodedReplay, Narrow, Follows;
    ghost var h, ix, cool := w.disk.history, w.index, w.disk.cool.All();
    w.FlushOs();
    assert w.disk.cool.os == cool && w.disk.backup.os == EncodeLog(h);
    ReplayOfLog(h);
    CompleteFile(h);
    w' := new Worker(budget, w.disk.cool.os, w.disk.backup.os, now);
    assert w'.disk.cool.All() == cool;
    RestartRecovers(ix, h, cool, w.clock, now);
  }

  lemma CompleteFile(h: seq<IndexRecord>)
    requires FitsLog(h)
    ensures EncodedReplay(EncodeLog(h)) == EncodeLog(h)
  {
    ReplayOfLog(h);
  }

  /** A process crash loses the buffers, at any point where the journal on file is behind the data.
      The new shard holds exactly what a prefix of the writes, in the order they were made, amounts
      to at `now`: every key with the very bytes that its own SET wrote. */
  method CrashRestart(ghost f: Files, coolFile: bytes, backupFile: bytes, budget: nat, now: nat) returns (w': Worker)
    requires LoggedFiles(f) && Narrow(f.history) && CrashPoint(f, coolFile, backupFile)
    ensures fresh(w') && fresh(w'.disk) && w'.Valid() && w'.clock == now
    ensures w'.disk.history == Replay(backupFile) <= f.history
    ensures w'.Entries() == Recovered(WrittenTo(f)[..|Replay(backupFile)|], now)
    ensures backupFile == EncodedReplay(backupFile) ==> w'.Journaled()
  {
    hide InStep, EntriesOf, Located, Rebuilt, Replay, EncodeLog, FitsLog, EncodedReplay, Follows, Narrow, Recovered, WrittenTo;
    CrashKeepsPrefix(f, coolFile, backupFile, now);
    w' := new Worker(budget, coolFile, backupFile, now);
    assert w'.disk.cool.All() == coolFile;
  }

  /** A crash after any number `i` of the steps of a run that stayed in order, as the event loop's runs do
      when their batches fit the buffer: a restart is possible there, and the prefix of writes
      that it recovers is one of all that was written before the run and by it; it includes everything
      written before any flush that the run had completed by step `j`. */
  lemma CrashDuringRun(f: Files, did: seq<DiskStep>, f': Files, ws: seq<Write>, j: nat, i: nat)
    requires LoggedFiles(f) && Did(f, did, f', ws) && AllInOrder(f, did) && Narrow(f'.history) && j <= i <= |did|
    ensures var g, h := RunSteps(f, did[..j]), RunSteps(f, did[..i]); var n := |Replay(h.backup.os)|;
            && LoggedFiles(h) && Narrow(h.history) && CrashPoint(h, h.cool.os, h.backup.os)
            && n <= |WrittenTo(h)| && WrittenTo(h) <= WrittenTo(f) + ws
            && LoggedFiles(g) && (g.backup.buf == [] ==> |WrittenTo(g)| <= n)
  {
    hide LoggedFiles, Next, Legal, InOrder, Guarded, Replay, EndsBy, Narrow, EncodeLog, FitsLog;
    StartsInOrder(f, did);
    InOrderIffGuarded(f, did);
    CrashAnywhere(f, did, j, i);
    var h := RunSteps(f, did[..i]);
    LoggedFits(f, did);
    NarrowPrefix(f'.history, h.history);
    LoggedEncodes(h);
    ReplayOfPrefix(h.history, h.backup.os);
    assert did == did[..i] + did[i..];
    AppendedAppend(did[..i], did[i..]);
    Assoc(WrittenTo(f), Appended(did[..i]), Appended(did[i..]));
  }

  lemma {:induction false} StartsInOrder(f: Files, steps: seq<DiskStep>)
    requires AllInOrder(f, steps)
    ensures InOrder(f)
  {
    if steps != [] {
      StartsInOrder(f, steps[..|steps| - 1]);
    }
  }

  lemma LoggedFits(f: Files, steps: seq<DiskStep>)
    requires LoggedFiles(f)
    ensures FitsLog(RunSteps(f, steps).history)
  {
    RunLogged(f, steps);
  }

  lemma LoggedEncodes(f: Files)
    requires LoggedFiles(f)
    ensures FitsLog(f.history) && f.backup.os <= EncodeLog(f.history) && EndsBy(f.history, |f.cool.All()|)
    ensures |WrittenTo(f)| == |f.history|
  {
  }

  /** The condition for an exact restart after a run, told by the operations: a key comes back if and only
      if an expired SET of it shadows an older live one, among all that was written before the run and
      all that its answered operations wrote. */
  lemma ShadowedByRun(f: Files, did: seq<DiskStep>, f': Files, ws: seq<Write>, now: nat, k: bytes)
    requires LoggedFiles(f) && Did(f, did, f', ws)
    ensures Resurrects(f'.history, now, k) <==> Shadowed(WrittenTo(f) + ws, now, k)
  {
    hide Resurrects, Shadowed, Next, Legal;
    WrittenByRun(f, did);
    ShadowedIsResurrected(f'.history, f'.cool.All(), now, k);
  }

  /** A DEL writes nothing for a key that the shard no longer holds, so it does not keep an older value
      from coming back: SET, SETEX, expiry, GET, DEL, restart. */
  lemma DelUndoneByRestart(budget: nat, k: bytes, v: bytes, w: bytes, t: nat, ttl: nat, later: nat)
    requires 0 < t && t + ttl <= later
    ensures var items := [Item(0, Set(k, v), t), Item(1, SetEx(k, w, ttl), t), Item(2, Get(k), later), Item(3, Del(k), later)];
            var o := OnItems(budget, Shard(map[], [], [], []), items);
            && o.replies == [Reply(0, RESP_OK), Reply(1, RESP_OK), Reply(2, RESP_NIL), Reply(3, RESP_ZERO)]
            && Run(map[], items).0 == map[]
            && Recovered(Effects(items, o.replies), later) == map[k := Entry(v, 0)]
  {
    hide OnOp;
    var a, b, c, d := Item(0, Set(k, v), t), Item(1, SetEx(k, w, ttl), t), Item(2, Get(k), later), Item(3, Del(k), later);
    var s := Shard(map[], [], [], []);
    OneMoreItem(budget, s, [], a);
    OneMoreItem(budget, s, [a], b);
    OneMoreItem(budget, s, [a, b], c);
    OneMoreItem(budget, s, [a, b, c], d);
    assert [] + [a] == [a] && [a] + [b] == [a, b] && [a, b] + [c] == [a, b, c] && [a, b, c] + [d] == [a, b, c, d];
    ActualOf4(k, v, w, t, ttl, later);
    var o := OnItems(budget, s, [a, b, c, d]);
    EffectsOf4(a, b, c, d, o.replies);
    IdealOf4(a, b, c, d);
    var x, y := Wrote(k, v, 0), Wrote(k, w, t + ttl);
    assert [x, y][..1] == [x] && [x][..0] == [];
    assert Recovered([x], later) == map[k := Entry(v, 0)];
  }

  lemma OneMoreItem(budget: nat, s: Shard, items: seq<Item>, x: Item)
    ensures var o, o' := OnItems(budget, s, items), OnItems(budget, s, items + [x]);
            var (m, payload) := Actual(o.shard.m, x.op, x.now);
            o'.shard.m == m && o'.replies == o.replies + [Reply(x.id, payload)]
  {
    hide OnOp;
    assert (items + [x])[..|items|] == items;
    OpIsActual(budget, OnItems(budget, s, items).shard, x.op, x.now);
  }

  lemma ActualOf4(k: bytes, v: bytes, w: bytes, t: nat, ttl: nat, later: nat)
    requires 0 < t && t + ttl <= later
    ensures Actual(map[], Set(k, v), t) == (map[k := Entry(v, 0)], RESP_OK)
    ensures Actual(map[k := Entry(v, 0)], SetEx(k, w, ttl), t) == (map[k := Entry(w, t + ttl)], RESP_OK)
    ensures Actual(map[k := Entry(w, t + ttl)], Get(k), later) == (map[], RESP_NIL)
    ensures Actual(map[], Del(k), later) == (map[], RESP_ZERO)
  {
    assert map[k := Entry(v, 0)][k := Entry(w, t + ttl)] == map[k := Entry(w, t + ttl)];
    assert map[k := Entry(w, t + ttl)] - {k} == map[];
  }

  lemma {:induction false} EffectsOf4(a: Item, b: Item, c: Item, d: Item, rs: seq<Reply>)
    requires |rs| == 4 && c.op.Get? && d.op.Del? && rs[3].payload != RESP_ONE
    ensures Effects([a, b, c, d], rs) == Effect(a.op, a.now, rs[0].payload) + Effect(b.op, b.now, rs[1].payload)
  {
    hide Effect;
    assert [a, b, c, d][..3] == [a, b, c] && [a, b, c][..2] == [a, b] && [a, b][..1] == [a] && [a][..0] == [];
    assert rs[..3][..2] == rs[..2] && rs[..2][..1] == rs[..1] && rs[..1][..0] == [];
    assert Effects([a], rs[..1]) == [] + Effect(a.op, a.now, rs[0].payload) == Effect(a.op, a.now, rs[0].payload);
    var two := Effect(a.op, a.now, rs[0].payload) + Effect(b.op, b.now, rs[1].payload);
    assert Effects([a, b], rs[..2]) == two;
    assert Effect(c.op, c.now, rs[2].payload) == [] && Effect(d.op, d.now, rs[3].payload) == [] by { NoEffect(c, d, rs); }
    assert two + [] == two;
  }

  lemma NoEffect(c: Item, d: Item, rs: seq<Reply>)
    requires |rs| == 4 && c.op.Get? && d.op.Del? && rs[3].payload != RESP_ONE
    ensures Effect(c.op, c.now, rs[2].payload) == [] && Effect(d.op, d.now, rs[3].payload) == []
  {
  }

  lemma IdealOf4(a: Item, b: Item, c: Item, d: Item)
    requires a.op.Set? && b.op.SetEx? && c.op.Get? && d.op.Del? && a.op.key == b.op.key == d.op.key
    ensures Run(map[], [a, b, c, d]).0 == map[]
  {
    assert [a, b, c, d][1..] == [b, c, d] && [b, c, d][1..] == [c, d] && [c, d][1..] == [d] && [d][1..] == [];
    assert Run(map[], [a, b, c, d]).0 == Run(Ideal(map[], a.op, a.now).0, [b, c, d]).0;
    var m1 := Ideal(map[], a.op, a.now).0;
    var m2 := Ideal(m1, b.op, b.now).0;
    var m3 := Ideal(m2, c.op, c.now).0;
    assert Run(m1, [b, c, d]).0 == Run(m2, [c, d]).0 == Run(m3, [d]).0 == Ideal(m3, d.op, d.now).0;
  }
}
