/** The TTL queue: a priority queue by expiry time, then key. */
module Expiry {
  import opened Prelude

  datatype Due = Due(t: nat, key: bytes)

  /** Byte-wise lexicographic order. */
  predicate LexLeq(a: bytes, b: bytes)
    decreases |a|
  {
    a == [] || (b != [] && (a[0] < b[0] || (a[0] == b[0] && LexLeq(a[1..], b[1..]))))
  }

  predicate Before(a: Due, b: Due) {
    a.t < b.t || (a.t == b.t && LexLeq(a.key, b.key))
  }

  predicate ByTime(h: seq<Due>) {
    forall i, j | 0 <= i < j < |h| :: h[i].t <= h[j].t
  }

  /** The heap is kept as the sequence in which it would be emptied. */
  function Push(h: seq<Due>, e: Due): (r: seq<Due>)
    ensures multiset(r) == multiset(h) + multiset{e}
    ensures forall x :: x in r <==> x in h || x == e
  {
    if h == [] || Before(e, h[0]) then [e] + h
    else
      var r := [h[0]] + Push(h[1..], e);
      assert h == [h[0]] + h[1..];
      r
  }

  lemma {:induction false} PushSorted(h: seq<Due>, e: Due)
    requires ByTime(h)
    ensures ByTime(Push(h, e))
  {
    if h != [] && !Before(e, h[0]) {
      assert ByTime(h[1..]) by {
        forall i, j | 0 <= i < j < |h[1..]|
          ensures h[1..][i].t <= h[1..][j].t
        {
          assert h[i + 1].t <= h[j + 1].t;
        }
      }
      PushSorted(h[1..], e);
      var rest := Push(h[1..], e);
      forall j | 0 <= j < |rest|
        ensures h[0].t <= rest[j].t
      {
        assert rest[j] in rest;
        if rest[j] in h[1..] {
          var i :| 0 <= i < |h[1..]| && h[1..][i] == rest[j];
          assert h[i + 1] == rest[j];
        }
      }
    }
  }

  /** How many entries are due. */
  function DueCount(h: seq<Due>, now: nat): (n: nat)
    ensures n <= |h|
    ensures forall i | 0 <= i < n :: h[i].t <= now
    ensures n < |h| ==> h[n].t > now
  {
    if h == [] || h[0].t > now then 0 else 1 + DueCount(h[1..], now)
  }

  lemma NotDueAfter(q: seq<Due>, now: nat, i: nat)
    requires ByTime(q) && DueCount(q, now) <= i < |q|
    ensures q[i].t > now
  {
    var n := DueCount(q, now);
    assert n < i ==> q[n].t <= q[i].t;
  }

  lemma {:induction false} DueCountOfDrop(h: seq<Due>, n: nat, now: nat)
    requires n <= DueCount(h, now)
    ensures DueCount(h[n..], now) == DueCount(h, now) - n
  {
    if n == 0 {
      assert h[0..] == h;
    } else {
      DueCountOfDrop(h[1..], n - 1, now);
      assert h[n..] == h[1..][n - 1..];
    }
  }

  /** What one sweep pops. */
  function Popped(h: seq<Due>, now: nat, limit: nat): (popped: seq<Due>)
    ensures |popped| <= |h| && forall i | 0 <= i < |popped| :: popped[i] == h[i] && h[i].t <= now
    ensures h == popped + AfterSweep(h, now, limit)
  {
    var n := DueCount(h, now);
    h[..if n < limit then n else limit]
  }

  /** The queue after one sweep that pops at most `budget` entries. */
  function AfterSweep(h: seq<Due>, now: nat, budget: nat): (r: seq<Due>)
  {
    var n := DueCount(h, now);
    h[if n < budget then n else budget..]
  }

  function AfterTicks(h: seq<Due>, clock: seq<nat>, budget: nat): (r: seq<Due>)
  {
    if clock == [] then h else AfterTicks(AfterSweep(h, clock[0], budget), clock[1..], budget)
  }

  /** Progress: with D entries due when the ticks begin and nothing pushed, D/budget
      ticks (rounded up) clear them, whatever falls due meanwhile. */
  lemma {:induction false} TicksClearDue(h: seq<Due>, now: nat, clock: seq<nat>, budget: nat)
    requires ByTime(h) && forall i | 0 <= i < |clock| :: now <= clock[i]
    requires DueCount(h, now) <= |clock| * budget
    ensures DueCount(AfterTicks(h, clock, budget), now) == 0
    decreases |clock|
  {
    hide ByTime, DueCount, AfterSweep;
    if clock == [] {
      assert DueCount(h, now) == 0;
    } else {
      var rest := clock[1..];
      SweepProgress(h, now, clock[0], budget);
      OneTickLess(DueCount(h, now), |clock|, |rest|, budget);
      assert forall i | 0 <= i < |rest| :: rest[i] == clock[i + 1];
      TicksClearDue(AfterSweep(h, clock[0], budget), now, rest, budget);
    }
  }

  lemma OneTickLess(d: nat, ticks: nat, rest: nat, budget: nat)
    requires d <= ticks * budget && ticks == rest + 1
    ensures (if d < budget then 0 else d - budget) <= rest * budget
  {
    assert ticks * budget == rest * budget + budget;
  }

  lemma SweepProgress(h: seq<Due>, now: nat, later: nat, budget: nat)
    requires ByTime(h) && now <= later
    ensures var h' := AfterSweep(h, later, budget);
            && ByTime(h')
            && DueCount(h', now) == if DueCount(h, now) < budget then 0 else DueCount(h, now) - budget
  {
    var n, d := DueCount(h, later), DueCount(h, now);
    var gone := if n < budget then n else budget;
    hide DueCount;
    DueEarlier(h, now, later);
    assert forall i | 0 <= i < |h[gone..]| :: h[gone..][i] == h[i + gone];
    if gone <= d {
      DueCountOfDrop(h, gone, now);
    } else if gone < |h| {
      assert h[d].t <= h[gone].t;
    }
  }

  lemma {:induction false} DueEarlier(h: seq<Due>, now: nat, later: nat)
    requires now <= later
    ensures DueCount(h, now) <= DueCount(h, later)
  {
    if h != [] && h[0].t <= now {
      DueEarlier(h[1..], now, later);
    }
  }
}
