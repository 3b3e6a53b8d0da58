/** The specification: one key/value map with expiry times. */
module TtlMap {
  import opened Prelude
  import opened Wire

  /** A value and the epoch millisecond it expires at; 0 means never. */
  datatype Entry = Entry(value: bytes, exp: nat)

  type Keyspace = map<bytes, Entry>

  predicate Expired(e: Entry, now: nat) {
    Past(e.exp, now)
  }

  /** What a reader may see at `now`. */
  function Live(m: Keyspace, now: nat): (l: Keyspace)
  {
    map k | k in m && !Expired(m[k], now) :: m[k]
  }

  /** `a` is `b` with some keys missing. */
  predicate SubMap(a: Keyspace, b: Keyspace) {
    forall k | k in a :: k in b && a[k] == b[k]
  }

  /** An operation on the ideal store, which forgets keys the moment they expire. */
  function Ideal(m: Keyspace, op: Op, now: nat): (r: (Keyspace, bytes))
  {
    match op
    case Get(k) => (m, if k in Live(m, now) then m[k].value else RESP_NIL)
    case Set(k, v) => (m[k := Entry(v, 0)], RESP_OK)
    case SetEx(k, v, ttl) => (m[k := Entry(v, now + ttl)], RESP_OK)
    case Del(k) => (m - {k}, if k in Live(m, now) then RESP_ONE else RESP_ZERO)
  }

  /** The same operation on a shard, which keeps expired entries until a GET or a sweep
      happens upon them, and whose DEL answers from what it still keeps. */
  function Actual(m: Keyspace, op: Op, now: nat): (r: (Keyspace, bytes))
  {
    match op
    case Get(k) =>
      if k !in m then (m, RESP_NIL)
      else if Expired(m[k], now) then (m - {k}, RESP_NIL)
      else (m, m[k].value)
    case Set(k, v) => (m[k := Entry(v, 0)], RESP_OK)
    case SetEx(k, v, ttl) => (m[k := Entry(v, now + ttl)], RESP_OK)
    case Del(k) => (m - {k}, if k in m then RESP_ONE else RESP_ZERO)
  }

  /** The one reply that differs: DEL of a key that has expired but was not collected. */
  predicate StaleDel(m: Keyspace, op: Op, now: nat) {
    op.Del? && op.key in m && Expired(m[op.key], now)
  }

  lemma LiveLater(p: Keyspace, i: Keyspace, now: nat, later: nat)
    requires Live(p, now) == Live(i, now) && now <= later
    ensures Live(p, later) == Live(i, later)
  {
    forall k
      ensures k in Live(p, later) <==> k in Live(i, later)
      ensures k in Live(p, later) ==> p[k] == i[k]
    {
      assert k in Live(p, later) ==> k in Live(p, now);
      assert k in Live(i, later) ==> k in Live(i, now);
      assert k in Live(p, now) ==> Live(p, now)[k] == p[k] && Live(i, now)[k] == i[k];
    }
  }

  /** One step: the live views stay equal, and the replies are equal exactly unless a DEL hits a stale entry. */
  lemma StepRefines(p: Keyspace, i: Keyspace, op: Op, now: nat)
    requires Live(p, now) == Live(i, now)
    ensures Live(Actual(p, op, now).0, now) == Live(Ideal(i, op, now).0, now)
    ensures Actual(p, op, now).1 == Ideal(i, op, now).1 <==> !StaleDel(p, op, now)
    ensures StaleDel(p, op, now) ==> Actual(p, op, now).1 == RESP_ONE && Ideal(i, op, now).1 == RESP_ZERO
  {
    var p', i' := Actual(p, op, now).0, Ideal(i, op, now).0;
    assert forall k :: k in Live(p, now) <==> k in Live(i, now);
    assert forall k | k in Live(p, now) :: p[k] == Live(p, now)[k] == Live(i, now)[k] == i[k];
    forall k
      ensures k in Live(p', now) <==> k in Live(i', now)
      ensures k in Live(p', now) ==> p'[k] == i'[k]
    {
      assert k in Live(p, now) <==> k in Live(i, now);
      assert k in Live(p, now) ==> p[k] == i[k];
    }
  }

  /** A shard that keeps `p` stands for the ideal map `m`: the same live view, and nothing that `m` never held. */
  predicate Tracks(p: Keyspace, m: Keyspace, now: nat) {
    Live(p, now) == Live(m, now) && SubMap(p, m)
  }

  lemma TracksLater(p: Keyspace, m: Keyspace, now: nat, later: nat)
    requires Tracks(p, m, now) && now <= later
    ensures Tracks(p, m, later)
  {
    LiveLater(p, m, now, later);
  }

  /** Dropping expired entries goes unnoticed. */
  lemma TracksSwept(p: Keyspace, m: Keyspace, p': Keyspace, now: nat)
    requires Tracks(p, m, now) && Live(p', now) == Live(p, now) && SubMap(p', p)
    ensures Tracks(p', m, now)
  {
  }

  /** One step goes on tracking, and a reply can differ only for a DEL that the ideal map, too, knows as expired. */
  lemma StepTracks(p: Keyspace, m: Keyspace, op: Op, now: nat)
    requires Tracks(p, m, now)
    ensures Tracks(Actual(p, op, now).0, Ideal(m, op, now).0, now)
    ensures Actual(p, op, now).1 == Ideal(m, op, now).1 || (StaleDel(m, op, now) && Actual(p, op, now).1 == RESP_ONE)
  {
    StepRefines(p, m, op, now);
  }

  // --- Runs ---

  /** An operation with its correlation id and the clock reading the shard took when applying it. */
  datatype Item = Item(id: nat, op: Op, now: nat)

  datatype Reply = Reply(id: nat, payload: bytes)

  /** What the ideal store answers, and whether the operation is a DEL of a key it knows as expired. */
  datatype Verdict = Verdict(id: nat, payload: bytes, stale: bool)

  function VerdictOn(m: Keyspace, x: Item): (v: Verdict)
  {
    Verdict(x.id, Ideal(m, x.op, x.now).1, StaleDel(m, x.op, x.now))
  }

  function Run(m: Keyspace, items: seq<Item>): (r: (Keyspace, seq<Verdict>))
    ensures |r.1| == |items|
    decreases |items|
  {
    if items == [] then (m, [])
    else
      var (m2, rs) := Run(Ideal(m, items[0].op, items[0].now).0, items[1..]);
      (m2, [VerdictOn(m, items[0])] + rs)
  }

  lemma {:induction false} RunAppend(m: Keyspace, a: seq<Item>, b: seq<Item>)
    ensures var (m1, ra) := Run(m, a); var (m2, rb) := Run(m1, b);
            Run(m, a + b) == (m2, ra + rb)
    decreases |a|
  {
    if a == [] {
      assert a + b == b && [] + Run(m, b).1 == Run(m, b).1;
    } else {
      var m1 := Ideal(m, a[0].op, a[0].now).0;
      assert (a + b)[0] == a[0] && (a + b)[1..] == a[1..] + b;
      RunAppend(m1, a[1..], b);
      var (m2, ra) := Run(m1, a[1..]);
      Assoc([VerdictOn(m, a[0])], ra, Run(m2, b).1);
    }
  }

  /** `got` is the reply the ideal store gives, or the "1" of a DEL of a key that has expired. */
  predicate Agrees(item: Item, got: Reply, ideal: Verdict) {
    && got.id == ideal.id == item.id
    && (got.payload == ideal.payload || (ideal.stale && got.payload == RESP_ONE))
  }

  predicate AllAgree(items: seq<Item>, got: seq<Reply>, ideal: seq<Verdict>) {
    && |got| == |items| == |ideal|
    && forall i | 0 <= i < |items| :: Agrees(items[i], got[i], ideal[i])
  }

  lemma RunOne(m: Keyspace, x: Item)
    ensures Run(m, [x]) == (Ideal(m, x.op, x.now).0, [VerdictOn(m, x)])
  {
    var m1 := Ideal(m, x.op, x.now).0;
    assert [x][1..] == [] && Run(m1, []) == (m1, []);
    assert [VerdictOn(m, x)] + [] == [VerdictOn(m, x)];
  }

  lemma AgreeAppend(a: seq<Item>, ga: seq<Reply>, ia: seq<Verdict>, b: seq<Item>, gb: seq<Reply>, ib: seq<Verdict>)
    requires AllAgree(a, ga, ia) && AllAgree(b, gb, ib)
    ensures AllAgree(a + b, ga + gb, ia + ib)
  {
  }

  /** What each operation is answered, in the protocol's own words. */
  lemma AnswersInText(m: Keyspace, op: Op, now: nat)
    ensures var live := op.key in m && (m[op.key].exp == 0 || now < m[op.key].exp);
            Ideal(m, op, now).1 ==
              match op
              case Get(k) => if live then m[k].value else Ascii("(nil)")
              case Del(_) => if live then Ascii("1") else Ascii("0")
              case _ => Ascii("OK")
  {
    assert Ascii("(nil)") == RESP_NIL && Ascii("1") == RESP_ONE && Ascii("0") == RESP_ZERO && Ascii("OK") == RESP_OK;
  }

  /** Operation `i` is the last one that writes or deletes `k`, and it writes. */
  predicate WritesLast(items: seq<Item>, i: nat, k: bytes) {
    && i < |items| && items[i].op.key == k && (items[i].op.Set? || items[i].op.SetEx?)
    && forall j | i < j < |items| && items[j].op.key == k :: items[j].op.Get?
  }

  /** After any run from nothing a key is there if and only if the last operation on it that is no GET is a write, and
      then with the value of that write and the expiry it asked for. */
  lemma {:induction false} LastWriteWins(items: seq<Item>, k: bytes)
    ensures var m := Run(map[], items).0;
            && (k in m <==> exists i: nat :: WritesLast(items, i, k))
            && forall i: nat | WritesLast(items, i, k) ::
                 k in m && m[k].value == items[i].op.value
                 && m[k].exp == if items[i].op.SetEx? then items[i].now + items[i].op.ttl else 0
  {
    if items != [] {
      var n := |items| - 1;
      var init, x := items[..n], items[n];
      LastWriteWins(init, k);
      assert items == init + [x];
      RunAppend(map[], init, [x]);
      RunOne(Run(map[], init).0, x);
      LastWriteMore(items, k);
      hide Run, WritesLast, VerdictOn;
      if x.op.key == k && (x.op.Set? || x.op.SetEx?) {
        assert WritesLast(items, n, k);
      }
    }
  }

  lemma LastWriteMore(items: seq<Item>, k: bytes)
    requires items != []
    ensures var n := |items| - 1; var x := items[n];
            && (x.op.key == k && (x.op.Set? || x.op.SetEx?) ==> forall i: nat :: WritesLast(items, i, k) <==> i == n)
            && (x.op.key == k && x.op.Del? ==> forall i: nat :: !WritesLast(items, i, k))
            && (x.op.key != k || x.op.Get? ==> forall i: nat :: WritesLast(items, i, k) <==> WritesLast(items[..n], i, k))
            && forall i: nat | WritesLast(items[..n], i, k) :: i < n && items[..n][i] == items[i]
  {
  }

  // --- One key at a time ---

  function At(m: Keyspace, k: bytes): (c: Option<Entry>)
  {
    if k in m then Some(m[k]) else None
  }

  /** What the operation does to the entry of its own key. */
  function Cell(c: Option<Entry>, x: Item): (r: (Option<Entry>, Verdict))
  {
    var live := c.Some? && !Expired(c.value, x.now);
    match x.op
    case Get(_) => (c, Verdict(x.id, if live then c.value.value else RESP_NIL, false))
    case Set(_, v) => (Some(Entry(v, 0)), Verdict(x.id, RESP_OK, false))
    case SetEx(_, v, ttl) => (Some(Entry(v, x.now + ttl)), Verdict(x.id, RESP_OK, false))
    case Del(_) => (None, Verdict(x.id, if live then RESP_ONE else RESP_ZERO, c.Some? && !live))
  }

  function CellRun(c: Option<Entry>, items: seq<Item>): (r: (Option<Entry>, seq<Verdict>))
    decreases |items|
  {
    if items == [] then (c, [])
    else
      var (c1, v) := Cell(c, items[0]);
      var (c2, rs) := CellRun(c1, items[1..]);
      (c2, [v] + rs)
  }

  /** The operations on one key, in order. */
  function Only(items: seq<Item>, k: bytes): (r: seq<Item>)
    decreases |items|
  {
    if items == [] then []
    else (if items[0].op.key == k then [items[0]] else []) + Only(items[1..], k)
  }

  lemma OnlyCons(x: Item, rest: seq<Item>, k: bytes)
    ensures Only([x] + rest, k) == (if x.op.key == k then [x] else []) + Only(rest, k)
  {
    assert ([x] + rest)[1..] == rest;
  }

  /** The replies to the operations on one key, in order. */
  function Pick(items: seq<Item>, replies: seq<Verdict>, k: bytes): (r: seq<Verdict>)
    requires |items| == |replies|
    decreases |items|
  {
    if items == [] then []
    else (if items[0].op.key == k then [replies[0]] else []) + Pick(items[1..], replies[1..], k)
  }

  lemma CellStep(m: Keyspace, x: Item, k: bytes)
    ensures var m1 := Ideal(m, x.op, x.now).0;
            if x.op.key == k then Cell(At(m, k), x) == (At(m1, k), VerdictOn(m, x)) else At(m1, k) == At(m, k)
  {
  }

  /** A run seen from one key is the run of that key's operations alone. */
  lemma {:induction false} RunOfKey(m: Keyspace, items: seq<Item>, k: bytes)
    ensures var (m', rs) := Run(m, items);
            (At(m', k), Pick(items, rs, k)) == CellRun(At(m, k), Only(items, k))
    decreases |items|
  {
    hide Ideal, Cell, VerdictOn;
    if items != [] {
      var m1 := Ideal(m, items[0].op, items[0].now).0;
      CellStep(m, items[0], k);
      RunOfKey(m1, items[1..], k);
      var rs := Run(m, items).1;
      assert rs[1..] == Run(m1, items[1..]).1;
      if items[0].op.key == k {
        assert Only(items, k)[1..] == Only(items[1..], k);
      } else {
        assert Only(items, k) == Only(items[1..], k);
        assert Pick(items, rs, k) == Pick(items[1..], rs[1..], k);
      }
    }
  }

  lemma {:induction false} PickedIsReply(items: seq<Item>, replies: seq<Verdict>, k: bytes, r: Verdict)
    requires |items| == |replies|
    ensures r in Pick(items, replies, k) <==> exists i :: 0 <= i < |items| && items[i].op.key == k && replies[i] == r
    decreases |items|
  {
    if items != [] {
      PickedIsReply(items[1..], replies[1..], k, r);
      var p := Pick(items[1..], replies[1..], k);
      if r in p {
        var j :| 0 <= j < |items[1..]| && items[1..][j].op.key == k && replies[1..][j] == r;
        assert items[j + 1].op.key == k && replies[j + 1] == r;
      }
      if i :| 0 <= i < |items| && items[i].op.key == k && replies[i] == r {
        if i > 0 {
          assert items[1..][i - 1].op.key == k && replies[1..][i - 1] == r;
        }
      }
    }
  }
}
