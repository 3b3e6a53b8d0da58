/** Rebuilding the in-memory index from the journal, and when that recovers the live view. */
module Recovery {
  import opened Prelude
  import opened Log

  /** Where a value lies in `cool.log`, and when it expires (0 = never). */
  datatype Loc = Loc(valOff: nat, vlen: nat, exp: nat)

  type Index = map<bytes, Loc>

  function LocOf(r: IndexRecord): (l: Loc)
    requires r.SetRec?
  {
    Loc(r.valOff, r.vlen, r.exp)
  }

  function ApplyRec(ix: Index, r: IndexRecord): (ix': Index)
  {
    if r.SetRec? then ix[r.key := LocOf(r)] else ix - {r.key}
  }

  /** The index a shard builds as it writes these records. */
  function Applied(rs: seq<IndexRecord>): (ix: Index)
  {
    if rs == [] then map[] else ApplyRec(Applied(rs[..|rs| - 1]), rs[|rs| - 1])
  }

  /** One record at startup: a SET that has already expired is skipped. */
  function ReplayRec(ix: Index, r: IndexRecord, now: nat): (ix': Index)
  {
    if r.SetRec? && Past(r.exp, now) then ix else ApplyRec(ix, r)
  }

  /** The index `Worker::start` rebuilds at `now`. */
  function Rebuilt(rs: seq<IndexRecord>, now: nat): (ix: Index)
  {
    if rs == [] then map[] else ReplayRec(Rebuilt(rs[..|rs| - 1], now), rs[|rs| - 1], now)
  }

  function LiveIndex(ix: Index, now: nat): (l: Index)
  {
    map k | k in ix && !Past(ix[k].exp, now) :: ix[k]
  }

  /** The value startup settles on for `k`: an unexpired SET followed by nothing but expired SETs of `k`. */
  predicate Survivor(rs: seq<IndexRecord>, now: nat, k: bytes, i: nat) {
    && i < |rs| && rs[i].SetRec? && rs[i].key == k && !Past(rs[i].exp, now)
    && forall m | i < m < |rs| && rs[m].key == k :: rs[m].SetRec? && Past(rs[m].exp, now)
  }

  /** The last word on `k` is a SET. */
  predicate LastSet(rs: seq<IndexRecord>, k: bytes, i: nat) {
    && i < |rs| && rs[i].SetRec? && rs[i].key == k
    && forall m | i < m < |rs| :: rs[m].key != k
  }

  /** A SET that has expired at `now` shadows an older unexpired SET of the same key, with no DEL since. */
  predicate Resurrects(rs: seq<IndexRecord>, now: nat, k: bytes) {
    exists i: nat, j: nat :: i < j < |rs| && rs[j].key == k && Survivor(rs, now, k, i)
  }

  lemma {:induction false} RebuiltKey(rs: seq<IndexRecord>, now: nat, k: bytes)
    ensures k in Rebuilt(rs, now) ==> exists i: nat :: Survivor(rs, now, k, i)
    ensures forall i: nat | Survivor(rs, now, k, i) :: k in Rebuilt(rs, now) && Rebuilt(rs, now)[k] == LocOf(rs[i])
    decreases |rs|
  {
    if rs != [] {
      var n := |rs| - 1;
      var init, r := rs[..n], rs[n];
      RebuiltKey(init, now, k);
      if r.key == k && r.SetRec? && !Past(r.exp, now) {
        assert Survivor(rs, now, k, n);
      } else if r.key != k || r.SetRec? {
        forall i: nat
          ensures Survivor(rs, now, k, i) <==> i < n && Survivor(init, now, k, i)
        {
          assert forall m: nat | m < n :: init[m] == rs[m];
        }
      }
    }
  }

  lemma {:induction false} AppliedKey(rs: seq<IndexRecord>, k: bytes)
    ensures k in Applied(rs) ==> exists i: nat :: LastSet(rs, k, i)
    ensures forall i: nat | LastSet(rs, k, i) :: k in Applied(rs) && Applied(rs)[k] == LocOf(rs[i])
    decreases |rs|
  {
    if rs != [] {
      var n := |rs| - 1;
      var init, r := rs[..n], rs[n];
      AppliedKey(init, k);
      if r.key == k {
        assert r.SetRec? ==> LastSet(rs, k, n);
      } else {
        forall i: nat
          ensures LastSet(rs, k, i) <==> i < n && LastSet(init, k, i)
        {
          assert forall m: nat | m < n :: init[m] == rs[m];
        }
      }
    }
  }

  lemma {:induction false} LastOn(rs: seq<IndexRecord>, k: bytes, j: nat) returns (l: nat)
    requires j < |rs| && rs[j].key == k
    ensures j <= l < |rs| && rs[l].key == k
    ensures forall m | l < m < |rs| :: rs[m].key != k
    decreases |rs| - j
  {
    l := j;
    if m :| j < m < |rs| && rs[m].key == k {
      l := LastOn(rs, k, m);
    }
  }

  predicate SameAt(a: Index, b: Index, k: bytes) {
    (k in a <==> k in b) && (k in a ==> a[k] == b[k])
  }

  lemma EqualMaps(a: Index, b: Index)
    requires forall k: bytes :: SameAt(a, b, k)
    ensures a == b
  {
    forall k: bytes
      ensures k in a <==> k in b
    {
      assert SameAt(a, b, k);
    }
    forall k | k in a
      ensures a[k] == b[k]
    {
      assert SameAt(a, b, k);
    }
  }

  // --- What an index may say about its journal ---

  /** Record `i` is a SET of `k` after which the journal has nothing of `k` but SETs that were past at `clock`. */
  predicate Backs(rs: seq<IndexRecord>, clock: nat, k: bytes, i: nat) {
    && i < |rs| && rs[i].SetRec? && rs[i].key == k
    && forall m | i < m < |rs| && rs[m].key == k :: rs[m].SetRec? && Past(rs[m].exp, clock)
  }

  /** `ix` is what the journal says, up to SETs that were past at `clock`: an entry may be one that a
      restart brought back, and a key may be missing that has expired. */
  ghost predicate Follows(ix: Index, rs: seq<IndexRecord>, clock: nat) {
    && (forall k | k in ix :: exists i: nat :: Backs(rs, clock, k, i) && ix[k] == LocOf(rs[i]))
    && (forall k: bytes, i: nat | k !in ix && LastSet(rs, k, i) :: Past(rs[i].exp, clock))
  }

  lemma FollowsLater(ix: Index, rs: seq<IndexRecord>, clock: nat, now: nat)
    requires Follows(ix, rs, clock) && clock <= now
    ensures Follows(ix, rs, now)
  {
    forall k | k in ix
      ensures exists i: nat :: Backs(rs, now, k, i) && ix[k] == LocOf(rs[i])
    {
      var i: nat :| Backs(rs, clock, k, i) && ix[k] == LocOf(rs[i]);
      assert Backs(rs, now, k, i);
    }
  }

  lemma FollowsAppend(ix: Index, rs: seq<IndexRecord>, clock: nat, r: IndexRecord)
    requires Follows(ix, rs, clock)
    ensures Follows(ApplyRec(ix, r), rs + [r], clock)
  {
    var ix', rs' := ApplyRec(ix, r), rs + [r];
    forall k | k in ix'
      ensures exists i: nat :: Backs(rs', clock, k, i) && ix'[k] == LocOf(rs'[i])
    {
      if k == r.key {
        assert Backs(rs', clock, k, |rs|);
      } else {
        var i: nat :| Backs(rs, clock, k, i) && ix[k] == LocOf(rs[i]);
        assert Backs(rs', clock, k, i);
      }
    }
    forall k: bytes, i: nat | k !in ix' && LastSet(rs', k, i)
      ensures Past(rs'[i].exp, clock)
    {
      assert rs'[|rs|] == r;
      if k != r.key {
        assert forall m: nat | m < |rs| :: rs'[m] == rs[m];
        assert i < |rs| && LastSet(rs, k, i);
      }
    }
  }

  /** Keys whose entry has expired may be dropped without a word to the journal. */
  lemma FollowsDrop(ix: Index, rs: seq<IndexRecord>, now: nat, ix': Index)
    requires Follows(ix, rs, now)
    requires forall k | k in ix' :: k in ix && ix'[k] == ix[k]
    requires forall k | k in ix && k !in ix' :: Past(ix[k].exp, now)
    ensures Follows(ix', rs, now)
  {
    forall k | k in ix'
      ensures exists i: nat :: Backs(rs, now, k, i) && ix'[k] == LocOf(rs[i])
    {
      assert k in ix;
    }
    forall k: bytes, i: nat | k !in ix' && LastSet(rs, k, i)
      ensures Past(rs[i].exp, now)
    {
      if k in ix {
        var j: nat :| Backs(rs, now, k, j) && ix[k] == LocOf(rs[j]);
        assert i == j || j < i;
      }
    }
  }

  /** Whatever the journal holds, the index rebuilt from it follows it. */
  lemma FollowsRebuilt(rs: seq<IndexRecord>, now: nat)
    ensures Follows(Rebuilt(rs, now), rs, now)
  {
    var ix := Rebuilt(rs, now);
    forall k | k in ix
      ensures exists i: nat :: Backs(rs, now, k, i) && ix[k] == LocOf(rs[i])
    {
      RebuiltKey(rs, now, k);
      var i: nat :| Survivor(rs, now, k, i);
      assert Backs(rs, now, k, i);
    }
    forall k: bytes, i: nat | k !in ix && LastSet(rs, k, i)
      ensures Past(rs[i].exp, now)
    {
      RebuiltKey(rs, now, k);
      assert !Past(rs[i].exp, now) ==> Survivor(rs, now, k, i);
    }
  }

  lemma FollowsApplied(rs: seq<IndexRecord>, clock: nat)
    ensures Follows(Applied(rs), rs, clock)
  {
    var ix := Applied(rs);
    forall k | k in ix
      ensures exists i: nat :: Backs(rs, clock, k, i) && ix[k] == LocOf(rs[i])
    {
      AppliedKey(rs, k);
      var i: nat :| LastSet(rs, k, i);
      assert Backs(rs, clock, k, i);
    }
    forall k: bytes, i: nat | LastSet(rs, k, i)
      ensures k in ix
    {
      AppliedKey(rs, k);
    }
  }

  // --- When a restart is exact ---

  /** One key: a restart at `now` agrees with the index on it, unless it brings back a value that
      the index does not show; and only shadowed keys come back like that. */
  lemma RecoveredKey(ix: Index, rs: seq<IndexRecord>, clock: nat, now: nat, k: bytes)
    requires Follows(ix, rs, clock) && clock <= now
    ensures k in LiveIndex(ix, now) ==> k in Rebuilt(rs, now) && Rebuilt(rs, now)[k] == ix[k]
    ensures k !in LiveIndex(ix, now) ==> (k in Rebuilt(rs, now) <==> Resurrects(rs, now, k))
  {
    RebuiltKey(rs, now, k);
    if k in ix {
      var i: nat :| Backs(rs, clock, k, i) && ix[k] == LocOf(rs[i]);
      if k in LiveIndex(ix, now) {
        assert Survivor(rs, now, k, i);
      } else if j: nat :| Survivor(rs, now, k, j) {
        assert j < i;
        assert Resurrects(rs, now, k);
      }
    } else if j: nat :| Survivor(rs, now, k, j) {
      var l := LastOn(rs, k, j);
      assert LastSet(rs, k, l);
      assert j < l;
      assert Resurrects(rs, now, k);
    }
  }

  /** Restart recovers exactly the live index, for every journal, every index that follows it and every
      startup time, if and only if each shadowed key is one the index already shows. */
  lemma RecoveryExact(ix: Index, rs: seq<IndexRecord>, clock: nat, now: nat)
    requires Follows(ix, rs, clock) && clock <= now
    ensures Rebuilt(rs, now) == LiveIndex(ix, now) <==> forall k | Resurrects(rs, now, k) :: k in LiveIndex(ix, now)
  {
    var a, b := Rebuilt(rs, now), LiveIndex(ix, now);
    if a == b {
      forall k | Resurrects(rs, now, k)
        ensures k in b
      {
        RecoveredKey(ix, rs, clock, now, k);
      }
    }
    if forall k | Resurrects(rs, now, k) :: k in b {
      forall k: bytes
        ensures SameAt(a, b, k)
      {
        RecoveredKey(ix, rs, clock, now, k);
      }
      EqualMaps(a, b);
    }
  }

  /** A shard that has built its index by applying the journal never shows a shadowed key, so
      for it a restart is exact if and only if nothing is shadowed. */
  lemma RecoveryOfApplied(rs: seq<IndexRecord>, now: nat)
    ensures Rebuilt(rs, now) == LiveIndex(Applied(rs), now) <==> forall k: bytes :: !Resurrects(rs, now, k)
  {
    FollowsApplied(rs, now);
    RecoveryExact(Applied(rs), rs, now, now);
    forall k | Resurrects(rs, now, k)
      ensures k !in LiveIndex(Applied(rs), now)
    {
      var i: nat, j: nat :| i < j < |rs| && rs[j].key == k && Survivor(rs, now, k, i);
      var l := LastOn(rs, k, j);
      AppliedKey(rs, k);
      assert LastSet(rs, k, l);
    }
  }

  /** The excluded case: SET, SETEX, expiry, restart brings the first value back. */
  lemma ShadowedSetReturns(k: bytes, first: nat, second: nat, exp: nat, now: nat)
    requires 0 < exp <= now
    ensures var rs := [SetRec(k, first, 1, 0), SetRec(k, second, 1, exp)];
            Rebuilt(rs, now) == map[k := Loc(first, 1, 0)] && LiveIndex(Applied(rs), now) == map[]
  {
    var a, b := SetRec(k, first, 1, 0), SetRec(k, second, 1, exp);
    assert [a, b][..1] == [a] && [a][..0] == [];
    assert Rebuilt([a], now) == map[k := Loc(first, 1, 0)];
    assert Applied([a]) == map[k := Loc(first, 1, 0)];
  }
}
