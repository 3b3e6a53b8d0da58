/** The five representations a shard keeps in step, as predicates and lemmas on values. */
module Store {
  import opened Prelude
  import opened Log
  import opened DiskFiles
  import opened DiskRuns
  import opened Lru
  import opened Expiry
  import opened Recovery
  import opened TtlMap
  import opened Wire

  function Slice(cool: bytes, l: Loc): (v: bytes)
    requires l.valOff + l.vlen <= |cool|
  {
    cool[l.valOff..l.valOff + l.vlen]
  }

  /** Every location is inside the value log, and no wider than the protocol can carry. */
  predicate Located(ix: Index, cool: bytes) {
    forall k | k in ix :: |k| < U16 && ix[k].vlen < U16 && ix[k].valOff + ix[k].vlen <= |cool|
  }

  /** The map the shard stands for: each indexed key with the bytes its location names. */
  function EntriesOf(ix: Index, cool: bytes): (m: Keyspace)
    requires Located(ix, cool)
  {
    map k | k in ix :: Entry(Slice(cool, ix[k]), ix[k].exp)
  }

  /** The cache is a prefix of the recency order of indexed keys, and holds what the log holds. */
  predicate Cached(ix: Index, cache: seq<Hot>, recency: seq<bytes>, cool: bytes)
    requires Located(ix, cool)
  {
    && Distinct(recency) && Keys(cache) <= recency
    && (forall k | k in recency :: k in ix)
    && (forall h | h in cache :: h.key in ix && h.value == Slice(cool, ix[h.key]))
  }

  /** Every expiry in the index is queued. */
  predicate Queued(ix: Index, q: seq<Due>) {
    && ByTime(q)
    && (forall k | k in ix && ix[k].exp != 0 :: Due(ix[k].exp, k) in q)
    && (forall d | d in q :: d.t != 0)
  }

  /** The index without the keys whose current expiry is among `popped`. */
  function Swept(ix: Index, popped: seq<Due>): (ix': Index)
  {
    map k | k in ix && Due(ix[k].exp, k) !in popped :: ix[k]
  }

  // --- Later appends disturb nothing ---

  lemma SliceStable(cool: bytes, cool': bytes, l: Loc)
    requires cool <= cool' && l.valOff + l.vlen <= |cool|
    ensures Slice(cool', l) == Slice(cool, l)
  {
    assert cool == cool'[..|cool|];
  }

  lemma AppendsDisturbNothing(ix: Index, cool: bytes, cool': bytes)
    requires Located(ix, cool) && cool <= cool'
    ensures Located(ix, cool') && EntriesOf(ix, cool') == EntriesOf(ix, cool)
  {
    forall k | k in ix
      ensures Slice(cool', ix[k]) == Slice(cool, ix[k])
    {
      SliceStable(cool, cool', ix[k]);
    }
  }

  lemma EntriesInsert(ix: Index, cool: bytes, cool': bytes, k: bytes, v: bytes, l: Loc)
    requires Located(ix, cool) && cool <= cool' && Storable(k, v)
    requires l.vlen == |v| && l.valOff + l.vlen <= |cool'| && Slice(cool', l) == v
    ensures Located(ix[k := l], cool')
    ensures EntriesOf(ix[k := l], cool') == EntriesOf(ix, cool)[k := Entry(v, l.exp)]
  {
    AppendsDisturbNothing(ix, cool, cool');
  }

  lemma EntriesRemove(ix: Index, cool: bytes, k: bytes)
    requires Located(ix, cool)
    ensures Located(ix - {k}, cool) && EntriesOf(ix - {k}, cool) == EntriesOf(ix, cool) - {k}
  {
  }

  // --- The cache ---

  lemma CachedGrow(ix: Index, cache: seq<Hot>, recency: seq<bytes>, cool: bytes, cool': bytes)
    requires Located(ix, cool) && Located(ix, cool') && cool <= cool' && Cached(ix, cache, recency, cool)
    ensures Cached(ix, cache, recency, cool')
  {
    forall h | h in cache
      ensures h.value == Slice(cool', ix[h.key])
    {
      SliceStable(cool, cool', ix[h.key]);
    }
  }

  /** A value put in front, whether written or read back, then any eviction. */
  lemma CachedPut(ix: Index, cache: seq<Hot>, recency: seq<bytes>, cool: bytes, k: bytes, v: bytes, l: Loc, kept: seq<Hot>)
    requires Located(ix, cool) && Located(ix[k := l], cool) && Cached(ix, cache, recency, cool)
    requires l.valOff + l.vlen <= |cool| && v == Slice(cool, l)
    requires kept <= Put(cache, k, v)
    ensures Cached(ix[k := l], kept, Touch(recency, k), cool)
  {
    PutOrder(cache, recency, k, v, kept);
    forall h | h in kept
      ensures h.key in ix[k := l] && h.value == Slice(cool, ix[k := l][h.key])
    {
      PutMember(cache, k, v, kept, h);
    }
  }

  lemma CachedRemove(ix: Index, cache: seq<Hot>, recency: seq<bytes>, cool: bytes, k: bytes)
    requires Located(ix, cool) && Cached(ix, cache, recency, cool)
    ensures Located(ix - {k}, cool) && Cached(ix - {k}, Drop(cache, k), Without(recency, k), cool)
  {
    PrefixKept(cache, recency, k, []);
    DistinctWithout(recency, k);
  }

  /** A cached value is what the reader would have found in the log. */
  lemma CachedHit(ix: Index, cache: seq<Hot>, recency: seq<bytes>, cool: bytes, k: bytes)
    requires Located(ix, cool) && Cached(ix, cache, recency, cool) && Find(cache, k).Some?
    ensures k in ix && Find(cache, k).value == Slice(cool, ix[k])
  {
    assert Hot(k, Find(cache, k).value) in cache;
  }

  // --- The TTL queue ---

  lemma QueuedInsert(ix: Index, q: seq<Due>, k: bytes, l: Loc)
    requires Queued(ix, q)
    ensures Queued(ix[k := l], if l.exp != 0 then Push(q, Due(l.exp, k)) else q)
  {
    PushSorted(q, Due(l.exp, k));
  }

  lemma QueuedRemove(ix: Index, q: seq<Due>, k: bytes)
    requires Queued(ix, q)
    ensures Queued(ix - {k}, q)
  {
  }

  lemma QueuedPop(ix: Index, q: seq<Due>, k: bytes)
    requires Queued(ix, q) && q != [] && k == q[0].key
    ensures Queued(if k in ix && ix[k].exp == q[0].t then ix - {k} else ix, q[1..])
  {
    assert q == [q[0]] + q[1..];
    assert forall i | 0 <= i < |q[1..]| :: q[1..][i] == q[i + 1];
  }

  lemma SweptStep(ix: Index, popped: seq<Due>, d: Due)
    ensures var s := Swept(ix, popped);
            Swept(ix, popped + [d]) == if d.key in s && s[d.key].exp == d.t then s - {d.key} else s
  {
    var s := Swept(ix, popped);
    assert forall x :: x in popped + [d] <==> x in popped || x == d;
  }

  // --- The representations in step ---

  /** Cache, recency order and TTL queue all agree with the index. */
  predicate InStep(ix: Index, cache: seq<Hot>, recency: seq<bytes>, q: seq<Due>, cool: bytes)
    requires Located(ix, cool)
  {
    Cached(ix, cache, recency, cool) && Queued(ix, q)
  }

  lemma InStepDistinct(ix: Index, cache: seq<Hot>, recency: seq<bytes>, q: seq<Due>, cool: bytes)
    requires Located(ix, cool) && InStep(ix, cache, recency, q, cool)
    ensures Distinct(Keys(cache))
  {
    CachedDistinct(cache, recency);
  }

  lemma StepGrow(ix: Index, cache: seq<Hot>, recency: seq<bytes>, q: seq<Due>, cool: bytes, cool': bytes)
    requires Located(ix, cool) && InStep(ix, cache, recency, q, cool) && cool <= cool'
    ensures Located(ix, cool') && InStep(ix, cache, recency, q, cool')
    ensures EntriesOf(ix, cool') == EntriesOf(ix, cool)
  {
    AppendsDisturbNothing(ix, cool, cool');
    CachedGrow(ix, cache, recency, cool, cool');
  }

  lemma StepWrite(ix: Index, cache: seq<Hot>, recency: seq<bytes>, q: seq<Due>, cool: bytes,
                  cool': bytes, k: bytes, v: bytes, l: Loc, kept: seq<Hot>)
    requires Located(ix, cool) && InStep(ix, cache, recency, q, cool)
    requires cool <= cool' && Storable(k, v) && l.vlen == |v| && l.valOff + l.vlen <= |cool'|
    requires cool'[l.valOff..l.valOff + l.vlen] == v && kept <= Put(cache, k, v)
    ensures var ix' := ix[k := l]; var q' := if l.exp != 0 then Push(q, Due(l.exp, k)) else q;
            && Located(ix', cool') && InStep(ix', kept, Touch(recency, k), q', cool')
            && EntriesOf(ix', cool') == EntriesOf(ix, cool)[k := Entry(v, l.exp)]
  {
    EntriesInsert(ix, cool, cool', k, v, l);
    StepGrow(ix, cache, recency, q, cool, cool');
    CachedPut(ix, cache, recency, cool', k, v, l, kept);
    QueuedInsert(ix, q, k, l);
  }

  lemma StepRead(ix: Index, cache: seq<Hot>, recency: seq<bytes>, q: seq<Due>, cool: bytes, k: bytes, v: bytes, kept: seq<Hot>)
    requires Located(ix, cool) && InStep(ix, cache, recency, q, cool)
    requires k in ix && v == EntriesOf(ix, cool)[k].value && kept <= Put(cache, k, v)
    ensures InStep(ix, kept, Touch(recency, k), q, cool)
  {
    assert ix[k := ix[k]] == ix;
    CachedPut(ix, cache, recency, cool, k, v, ix[k], kept);
  }

  lemma StepRemove(ix: Index, cache: seq<Hot>, recency: seq<bytes>, q: seq<Due>, cool: bytes, k: bytes)
    requires Located(ix, cool) && InStep(ix, cache, recency, q, cool)
    ensures Located(ix - {k}, cool) && InStep(ix - {k}, Drop(cache, k), Without(recency, k), q, cool)
    ensures EntriesOf(ix - {k}, cool) == EntriesOf(ix, cool) - {k}
  {
    EntriesRemove(ix, cool, k);
    CachedRemove(ix, cache, recency, cool, k);
    QueuedRemove(ix, q, k);
  }

  lemma StepPop(ix: Index, cache: seq<Hot>, recency: seq<bytes>, q: seq<Due>, cool: bytes)
    requires Located(ix, cool) && InStep(ix, cache, recency, q, cool) && q != []
    ensures var d := q[0];
            if d.key in ix && ix[d.key].exp == d.t then
              Located(ix - {d.key}, cool) && InStep(ix - {d.key}, Drop(cache, d.key), Without(recency, d.key), q[1..], cool)
            else
              InStep(ix, cache, recency, q[1..], cool)
    ensures q[0].t != 0
  {
    var d := q[0];
    assert d in q;
    QueuedPop(ix, q, d.key);
    CachedRemove(ix, cache, recency, cool, d.key);
  }

  lemma StepEvict(ix: Index, cache: seq<Hot>, recency: seq<bytes>, q: seq<Due>, cool: bytes, kept: seq<Hot>)
    requires Located(ix, cool) && InStep(ix, cache, recency, q, cool) && kept <= cache
    ensures InStep(ix, kept, recency, q, cool)
  {
    KeysOfPrefix(cache, kept);
    assert forall h | h in kept :: h in cache;
  }

  lemma EntryAt(ix: Index, cool: bytes, k: bytes)
    requires Located(ix, cool)
    ensures k in ix <==> k in EntriesOf(ix, cool)
    ensures k in ix ==> |k| < U16 && ix[k].vlen < U16 && ix[k].valOff + ix[k].vlen <= |cool|
    ensures k in ix ==> EntriesOf(ix, cool)[k] == Entry(cool[ix[k].valOff..ix[k].valOff + ix[k].vlen], ix[k].exp)
  {
  }

  lemma HitIsEntry(ix: Index, cache: seq<Hot>, recency: seq<bytes>, q: seq<Due>, cool: bytes, k: bytes)
    requires Located(ix, cool) && InStep(ix, cache, recency, q, cool) && k in ix && Find(cache, k).Some?
    ensures k in EntriesOf(ix, cool) && Find(cache, k).value == EntriesOf(ix, cool)[k].value
  {
    CachedHit(ix, cache, recency, cool, k);
  }

  // --- Restart ---

  lemma EntriesOfLive(ix: Index, cool: bytes, now: nat)
    requires Located(ix, cool)
    ensures Located(LiveIndex(ix, now), cool)
    ensures EntriesOf(LiveIndex(ix, now), cool) == Live(EntriesOf(ix, cool), now)
  {
    assert forall k | k in ix :: Past(ix[k].exp, now) == Expired(EntriesOf(ix, cool)[k], now);
  }

  /** From a complete journal, a restart at `now` brings back exactly the live view the shard
      had, if and only if each shadowed key is one that live view already shows. */
  lemma RestartRecovers(ix: Index, rs: seq<IndexRecord>, cool: bytes, clock: nat, now: nat)
    requires Located(ix, cool) && Located(Rebuilt(rs, now), cool)
    requires Follows(ix, rs, clock) && clock <= now
    ensures Live(EntriesOf(Rebuilt(rs, now), cool), now) == Live(EntriesOf(ix, cool), now) <==>
            (forall k | Resurrects(rs, now, k) :: k in Live(EntriesOf(ix, cool), now))
  {
    hide Follows, Resurrects, Rebuilt;
    var a := Rebuilt(rs, now);
    RebuiltIsLive(rs, now);
    EntriesOfLive(a, cool, now);
    EntriesOfLive(ix, cool, now);
    RecoveryExact(ix, rs, clock, now);
    if k: bytes :| Resurrects(rs, now, k) && k !in LiveIndex(ix, now) {
      RecoveredKey(ix, rs, clock, now, k);
      assert k in EntriesOf(a, cool) && k !in EntriesOf(LiveIndex(ix, now), cool);
    }
  }

  lemma {:induction false} RebuiltIsLive(rs: seq<IndexRecord>, now: nat)
    ensures LiveIndex(Rebuilt(rs, now), now) == Rebuilt(rs, now)
    decreases |rs|
  {
    if rs != [] {
      RebuiltIsLive(rs[..|rs| - 1], now);
    }
    assert forall k | k in Rebuilt(rs, now) :: !Past(Rebuilt(rs, now)[k].exp, now);
  }

  /** A journal whose values are all in place rebuilds an index that is all in place. */
  lemma {:induction false} RebuiltLocated(rs: seq<IndexRecord>, now: nat, cool: bytes)
    requires FitsLog(rs) && Narrow(rs) && EndsBy(rs, |cool|)
    ensures Located(Rebuilt(rs, now), cool)
    decreases |rs|
  {
    if rs != [] {
      var init := rs[..|rs| - 1];
      assert forall i | 0 <= i < |init| :: init[i] == rs[i];
      RebuiltLocated(init, now, cool);
      assert FitsRec(rs[|rs| - 1]);
    }
  }

  // --- What the files alone say ---

  /** What startup at `now` makes of a list of writes: a SET that has expired is skipped. */
  function Recovered(ws: seq<Write>, now: nat): (m: Keyspace)
  {
    if ws == [] then map[]
    else RecoverOne(Recovered(ws[..|ws| - 1], now), ws[|ws| - 1], now)
  }

  function RecoverOne(m: Keyspace, w: Write, now: nat): (m': Keyspace)
  {
    match w
    case Wrote(k, v, exp) => if Past(exp, now) then m else m[k := Entry(v, exp)]
    case Erased(k) => m - {k}
  }

  lemma RebuiltOne(ix: Index, cool: bytes, r: IndexRecord, now: nat)
    requires Located(ix, cool) && FitsRec(r) && (r.SetRec? ==> r.vlen < U16 && r.valOff + r.vlen <= |cool|)
    ensures Located(ReplayRec(ix, r, now), cool)
    ensures EntriesOf(ReplayRec(ix, r, now), cool) == RecoverOne(EntriesOf(ix, cool), WriteOf(r, cool), now)
  {
  }

  /** A shard rebuilt from a journal holds, for every key, the very bytes that were written with the record it comes from. */
  lemma {:induction false} RebuiltIsRecovered(rs: seq<IndexRecord>, cool: bytes, now: nat)
    requires EndsBy(rs, |cool|) && Located(Rebuilt(rs, now), cool) && Narrow(rs) && FitsLog(rs)
    ensures EntriesOf(Rebuilt(rs, now), cool) == Recovered(Written(rs, cool), now)
    decreases |rs|
  {
    if rs != [] {
      var init, r := rs[..|rs| - 1], rs[|rs| - 1];
      NarrowPrefix(rs, init);
      assert FitsRec(r) && (r.SetRec? ==> r.vlen < U16 && r.valOff + r.vlen <= |cool|);
      assert Written(rs, cool)[|rs| - 1] == WriteOf(r, cool);
      hide EntriesOf, Located, RecoverOne, ReplayRec, WriteOf, Written, Narrow, FitsLog, EndsBy;
      WrittenPrefix(rs, init, cool);
      RebuiltLocated(init, now, cool);
      RebuiltOne(Rebuilt(init, now), cool, r, now);
      RebuiltIsRecovered(init, cool, now);
    }
  }

  lemma NarrowPrefix(h: seq<IndexRecord>, p: seq<IndexRecord>)
    requires Narrow(h) && FitsLog(h) && p <= h
    ensures Narrow(p) && FitsLog(p)
  {
    assert forall i | 0 <= i < |p| :: p[i] == h[i];
  }

  /** After a crash: the files hold a prefix of what was written, whole. */
  lemma CrashKeepsPrefix(f: Files, coolFile: bytes, backupFile: bytes, now: nat)
    requires LoggedFiles(f) && Narrow(f.history) && CrashPoint(f, coolFile, backupFile)
    ensures var p := Replay(backupFile);
            && p <= f.history && FitsLog(p) && Narrow(p) && Located(Rebuilt(p, now), coolFile)
            && EntriesOf(Rebuilt(p, now), coolFile) == Recovered(WrittenTo(f)[..|p|], now)
  {
    hide EntriesOf, Located, Recovered, Rebuilt, Written, Narrow, FitsLog, EndsBy, Replay, EncodeLog;
    var p := Replay(backupFile);
    ReplayOfPrefix(f.history, backupFile);
    NarrowPrefix(f.history, p);
    RebuiltLocated(p, now, coolFile);
    RebuiltIsRecovered(p, coolFile, now);
    WrittenStable(p, coolFile, f.cool.All());
    WrittenPrefix(f.history, p, f.cool.All());
  }

  // --- Shadowing, told by what was written ---

  /** Write `i` is an unexpired SET of `k` followed by nothing of `k` but expired SETs. */
  predicate Lingers(ws: seq<Write>, now: nat, k: bytes, i: nat) {
    && i < |ws| && ws[i].Wrote? && ws[i].key == k && !Past(ws[i].exp, now)
    && forall m | i < m < |ws| && ws[m].key == k :: ws[m].Wrote? && Past(ws[m].exp, now)
  }

  predicate Shadowed(ws: seq<Write>, now: nat, k: bytes) {
    exists i: nat, j: nat :: i < j < |ws| && ws[j].key == k && Lingers(ws, now, k, i)
  }

  /** Whether a key comes back at a restart can be told from the writes alone. */
  lemma ShadowedIsResurrected(rs: seq<IndexRecord>, cool: bytes, now: nat, k: bytes)
    requires EndsBy(rs, |cool|)
    ensures Shadowed(Written(rs, cool), now, k) <==> Resurrects(rs, now, k)
  {
    var ws := Written(rs, cool);
    assert forall m | 0 <= m < |rs| :: ws[m] == WriteOf(rs[m], cool);
    forall i: nat | i < |rs|
      ensures Lingers(ws, now, k, i) <==> Survivor(rs, now, k, i)
    {
      SameLater(rs, ws, cool, now, k, i);
    }
    if i: nat, j: nat :| i < j < |ws| && ws[j].key == k && Lingers(ws, now, k, i) {
      assert rs[j].key == k && Survivor(rs, now, k, i);
    }
    if i: nat, j: nat :| i < j < |rs| && rs[j].key == k && Survivor(rs, now, k, i) {
      assert ws[j].key == k && Lingers(ws, now, k, i);
    }
  }

  lemma SameLater(rs: seq<IndexRecord>, ws: seq<Write>, cool: bytes, now: nat, k: bytes, i: nat)
    requires EndsBy(rs, |cool|) && |ws| == |rs| && i < |rs|
    requires forall m | 0 <= m < |rs| :: ws[m] == WriteOf(rs[m], cool)
    ensures Lingers(ws, now, k, i) <==> Survivor(rs, now, k, i)
  {
    assert forall m | 0 <= m < |rs| :: ws[m].key == rs[m].key && (ws[m].Wrote? <==> rs[m].SetRec?)
                                       && (rs[m].SetRec? ==> ws[m].exp == rs[m].exp);
  }

  // --- A journal ahead of its data ---

  /** Later appends cannot change what a location reads if and only if it is empty or lies inside the log already. */
  lemma PinnedIffInside(cool: bytes, l: Loc)
    ensures (forall a: bytes, b: bytes | l.valOff + l.vlen <= |cool + a| && l.valOff + l.vlen <= |cool + b| ::
               Slice(cool + a, l) == Slice(cool + b, l))
            <==> l.vlen == 0 || l.valOff + l.vlen <= |cool|
  {
    if l.vlen == 0 || l.valOff + l.vlen <= |cool| {
      forall a: bytes, b: bytes | l.valOff + l.vlen <= |cool + a| && l.valOff + l.vlen <= |cool + b|
        ensures Slice(cool + a, l) == Slice(cool + b, l)
      {
        if l.vlen > 0 {
          SliceStable(cool, cool + a, l);
          SliceStable(cool, cool + b, l);
        }
      }
    } else {
      var n := l.valOff + l.vlen - |cool|;
      var a: bytes, b: bytes := seq(n, _ => 0), seq(n, _ => 1);
      var x, y := Slice(cool + a, l), Slice(cool + b, l);
      assert x[l.vlen - 1] == 0 && y[l.vlen - 1] == 1;
    }
  }

  /** What follows from a journal that got ahead: a restart from those files indexes a value that is not there, and
      once something else is appended the old key reads the first byte of that record. */
  lemma GarbledAfterCrash(k: bytes, other: bytes, v: bytes, exp: nat, now: nat)
    requires |k| == 8192 && exp < U64
    ensures var empty := BufFile([], []);
            var cool, backup := CoolSet(empty, k, [7], 0).os, BackupSet(empty, k, COOL_SET_HEADER + |k|, 1, 0).os;
            var ix, later := Rebuilt(Replay(backup), now), CoolSet(BufFile(cool, []), other, v, exp).All();
            && ix == map[k := Loc(|cool|, 1, 0)] && !Located(ix, cool)
            && |cool| < |later| && Slice(later, ix[k]) == [Log.OP_SET]
  {
    OrderBroken(k);
    var empty := BufFile([], []);
    var cool := CoolSet(empty, k, [7], 0).os;
    var r := SetRec(k, |cool|, 1, 0);
    assert [r][..0] == [];
    assert Rebuilt([r], now) == map[k := Loc(|cool|, 1, 0)];
    CoolSetGrows(BufFile(cool, []), other, v, exp);
    assert BufFile(cool, []).All() == cool;
    var s := CoolBytes(other, v, exp);
    assert s[0] == Log.OP_SET;
    assert (cool + s)[|cool|..|cool| + 1] == [s[0]];
  }
}
