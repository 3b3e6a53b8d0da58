/** The index journal `backup.log`: its byte format, replay, and what a torn tail does to it. */
module Log {
  import opened Prelude

  const OP_SET: byte := 1
  const OP_DEL: byte := 2

  datatype IndexRecord =
    | SetRec(key: bytes, valOff: nat, vlen: nat, exp: nat)
    | DelRec(key: bytes)

  predicate FitsRec(r: IndexRecord) {
    |r.key| < U16 && (r.SetRec? ==> r.valOff < U64 && r.vlen < U32 && r.exp < U64)
  }

  predicate FitsLog(rs: seq<IndexRecord>) {
    forall i | 0 <= i < |rs| :: FitsRec(rs[i])
  }

  /** `[1][klen][val_off][vlen][exp_ms][key]` or `[2][klen][key]`. */
  function EncodeRec(r: IndexRecord): (s: bytes)
    requires FitsRec(r)
    ensures |s| == |r.key| + if r.SetRec? then 23 else 3
  {
    match r
    case SetRec(k, off, vlen, exp) => [OP_SET] + Be16(|k|) + Be64(off) + Be32(vlen) + Be64(exp) + k
    case DelRec(k) => [OP_DEL] + Be16(|k|) + k
  }

  function EncodeLog(rs: seq<IndexRecord>): (s: bytes)
    requires FitsLog(rs)
  {
    if rs == [] then [] else
      assert FitsRec(rs[0]);
      EncodeRec(rs[0]) + EncodeLog(rs[1..])
  }

  /** The record at the front of `s` and its length; None for a torn record or an unknown op code. */
  function ParseRec(s: bytes): (r: Option<(IndexRecord, nat)>)
    ensures r.Some? ==> 0 < r.value.1 <= |s|
  {
    if |s| < 3 then None
    else
      var klen := De16(s[1..3]);
      if s[0] == OP_SET then
        if |s| < 23 + klen then None
        else Some((SetRec(s[23..23 + klen], De64(s[3..11]), De32(s[11..15]), De64(s[15..23])), 23 + klen))
      else if s[0] == OP_DEL then
        if |s| < 3 + klen then None else Some((DelRec(s[3..3 + klen]), 3 + klen))
      else None
  }

  function Replay(s: bytes): (rs: seq<IndexRecord>)
    decreases |s|
  {
    match ParseRec(s)
    case None => []
    case Some((r, n)) => [r] + Replay(s[n..])
  }

  // --- replay_backup ---

  function ReadExact(s: bytes, pos: nat, n: nat): (r: Option<bytes>)
    requires pos <= |s|
    ensures r.Some? <==> pos + n <= |s|
    ensures r.Some? ==> r.value == s[pos..pos + n]
  {
    if pos + n <= |s| then Some(s[pos..pos + n]) else None
  }

  /** One turn of the replay loop, field by field; None where the source leaves the loop. */
  method ReadRecord(log: bytes, pos: nat) returns (r: Option<(IndexRecord, nat)>)
    requires pos <= |log|
    ensures r == ParseRec(log[pos..])
  {
    ghost var s := log[pos..];
    r := None;
    var op := ReadExact(log, pos, 1);
    if op.None? { return; }
    if op.value[0] == OP_SET {
      var klen := ReadExact(log, pos + 1, 2);
      if klen.None? { return; }
      var off := ReadExact(log, pos + 3, 8);
      if off.None? { return; }
      var vlen := ReadExact(log, pos + 11, 4);
      if vlen.None? { return; }
      var exp := ReadExact(log, pos + 15, 8);
      if exp.None? { return; }
      assert klen.value == s[1..3] && off.value == s[3..11] && vlen.value == s[11..15] && exp.value == s[15..23];
      var n := De16(klen.value);
      var key := ReadExact(log, pos + 23, n);
      if key.None? { return; }
      assert key.value == s[23..23 + n];
      r := Some((SetRec(key.value, De64(off.value), De32(vlen.value), De64(exp.value)), 23 + n));
    } else if op.value[0] == OP_DEL {
      var klen := ReadExact(log, pos + 1, 2);
      if klen.None? { return; }
      assert klen.value == s[1..3];
      var n := De16(klen.value);
      var key := ReadExact(log, pos + 3, n);
      if key.None? { return; }
      assert key.value == s[3..3 + n];
      r := Some((DelRec(key.value), 3 + n));
    }
  }

  method ReplayBackup(log: bytes) returns (out: seq<IndexRecord>)
    ensures out == Replay(log)
  {
    out := [];
    var pos := 0;
    while true
      invariant pos <= |log|
      invariant out + Replay(log[pos..]) == Replay(log)
      decreases |log| - pos
    {
      var rec := ReadRecord(log, pos);
      if rec.None? { break; }
      var (r, n) := rec.value;
      Assoc(out, [r], Replay(log[pos..][n..]));
      assert log[pos..][n..] == log[pos + n..];
      out := out + [r];
      pos := pos + n;
    }
  }

  // --- Printing and parsing are inverse ---

  lemma CutSet<T>(o: T, a: seq<T>, b: seq<T>, c: seq<T>, d: seq<T>, k: seq<T>, rest: seq<T>)
    requires |a| == 2 && |b| == 8 && |c| == 4 && |d| == 8
    ensures var s := [o] + a + b + c + d + k + rest;
            && s[0] == o && s[1..3] == a && s[3..11] == b && s[11..15] == c && s[15..23] == d
            && s[23..23 + |k|] == k
  {
  }

  lemma CutDel<T>(o: T, a: seq<T>, k: seq<T>, rest: seq<T>)
    requires |a| == 2
    ensures var s := [o] + a + k + rest; s[0] == o && s[1..3] == a && s[3..3 + |k|] == k
  {
  }

  lemma ParseOfEncode(r: IndexRecord, rest: bytes)
    requires FitsRec(r)
    ensures ParseRec(EncodeRec(r) + rest) == Some((r, |EncodeRec(r)|))
  {
    Inverse16(|r.key|, []);
    match r
    case SetRec(k, off, vlen, exp) =>
      Inverse64(off, []);
      Inverse32(vlen, []);
      Inverse64(exp, []);
      CutSet(OP_SET, Be16(|k|), Be64(off), Be32(vlen), Be64(exp), k, rest);
    case DelRec(k) =>
      CutDel(OP_DEL, Be16(|k|), k, rest);
  }

  lemma GlueSet<T>(s: seq<T>, n: nat)
    requires 23 <= n <= |s|
    ensures s[..n] == [s[0]] + s[1..3] + s[3..11] + s[11..15] + s[15..23] + s[23..n]
  {
  }

  lemma GlueDel<T>(s: seq<T>, n: nat)
    requires 3 <= n <= |s|
    ensures s[..n] == [s[0]] + s[1..3] + s[3..n]
  {
  }

  lemma ParsedIsEncoding(s: bytes)
    requires ParseRec(s).Some?
    ensures var (r, n) := ParseRec(s).value; FitsRec(r) && EncodeRec(r) == s[..n]
  {
    var (r, n) := ParseRec(s).value;
    Inverse16(0, s[1..3]);
    if r.SetRec? {
      Inverse64(0, s[3..11]);
      Inverse32(0, s[11..15]);
      Inverse64(0, s[15..23]);
      GlueSet(s, n);
    } else {
      GlueDel(s, n);
    }
  }

  lemma ParseStable(s: bytes, more: bytes)
    requires ParseRec(s).Some?
    ensures ParseRec(s + more) == ParseRec(s)
  {
    ParsedIsEncoding(s);
    var (r, n) := ParseRec(s).value;
    assert s + more == EncodeRec(r) + (s[n..] + more);
    ParseOfEncode(r, s[n..] + more);
  }

  /** No proper prefix of a record reads as a record. */
  lemma TornRecord(r: IndexRecord, m: nat)
    requires FitsRec(r) && m < |EncodeRec(r)|
    ensures ParseRec(EncodeRec(r)[..m]).None?
  {
    var e := EncodeRec(r);
    ParseOfEncode(r, []);
    assert e + [] == e;
    Glue2(e, m);
    if ParseRec(e[..m]).Some? {
      ParseStable(e[..m], e[m..]);
    }
  }

  lemma EncodeLogCons(r: IndexRecord, rs: seq<IndexRecord>)
    requires FitsRec(r) && FitsLog(rs)
    ensures FitsLog([r] + rs) && EncodeLog([r] + rs) == EncodeRec(r) + EncodeLog(rs)
  {
    assert ([r] + rs)[0] == r && ([r] + rs)[1..] == rs;
  }

  lemma {:induction false} ReplayAppend(rs: seq<IndexRecord>, tail: bytes)
    requires FitsLog(rs)
    ensures Replay(EncodeLog(rs) + tail) == rs + Replay(tail)
  {
    if rs == [] {
      assert EncodeLog(rs) + tail == tail;
    } else {
      assert FitsRec(rs[0]);
      var e, rest := EncodeRec(rs[0]), EncodeLog(rs[1..]);
      Assoc(e, rest, tail);
      ParseOfEncode(rs[0], rest + tail);
      Cut2(e, rest + tail);
      ReplayAppend(rs[1..], tail);
      Assoc([rs[0]], rs[1..], Replay(tail));
      assert [rs[0]] + rs[1..] == rs;
    }
  }

  lemma {:induction false} EncodeLogAppend(a: seq<IndexRecord>, b: seq<IndexRecord>)
    requires FitsLog(a) && FitsLog(b)
    ensures FitsLog(a + b) && EncodeLog(a + b) == EncodeLog(a) + EncodeLog(b)
  {
    if a == [] {
      assert a + b == b;
    } else {
      var r, rest := a[0], a[1..];
      assert FitsRec(r) && a == [r] + rest;
      EncodeLogAppend(rest, b);
      EncodeLogCons(r, rest + b);
      Assoc([r], rest, b);
      Assoc(EncodeRec(r), EncodeLog(rest), EncodeLog(b));
    }
  }

  lemma EncodeLogOne(r: IndexRecord)
    requires FitsRec(r)
    ensures FitsLog([r]) && EncodeLog([r]) == EncodeRec(r)
  {
    assert EncodeLog([r][1..]) == [];
  }

  /** With nothing torn, replay reads back exactly what was appended. */
  lemma ReplayOfLog(rs: seq<IndexRecord>)
    requires FitsLog(rs)
    ensures Replay(EncodeLog(rs)) == rs
  {
    ReplayAppend(rs, []);
    assert EncodeLog(rs) + [] == EncodeLog(rs);
  }

  /** Whatever replay recovers is a log prefix of the file; the remainder is what it could not read. */
  lemma {:induction false} ReplayIsPrefix(s: bytes)
    ensures FitsLog(Replay(s)) && EncodeLog(Replay(s)) <= s
    ensures ParseRec(s[|EncodeLog(Replay(s))|..]).None?
    decreases |s|
  {
    if ParseRec(s).Some? {
      var (r, n) := ParseRec(s).value;
      ParsedIsEncoding(s);
      ReplayIsPrefix(s[n..]);
      EncodeLogCons(r, Replay(s[n..]));
      PrefixGlue(s, n, EncodeLog(Replay(s[n..])));
    } else {
      assert s[0..] == s;
    }
  }

  lemma PrefixGlue<T>(s: seq<T>, n: nat, p: seq<T>)
    requires n <= |s| && p <= s[n..]
    ensures s[..n] + p <= s && s[|s[..n] + p|..] == s[n..][|p|..]
  {
  }

  /** Torn-log replay: cut an encoded log anywhere, and replay returns the longest
      prefix of records whose encodings fit in what is left. */
  lemma {:induction false} TornReplay(rs: seq<IndexRecord>, n: nat) returns (k: nat)
    requires FitsLog(rs) && n <= |EncodeLog(rs)|
    ensures k <= |rs| && FitsLog(rs[..k])
    ensures Replay(EncodeLog(rs)[..n]) == rs[..k]
    ensures |EncodeLog(rs[..k])| <= n
    ensures k < |rs| ==> FitsLog(rs[..k + 1]) && n < |EncodeLog(rs[..k + 1])|
  {
    if rs == [] {
      k := 0;
      return;
    }
    var e, rest := EncodeRec(rs[0]), EncodeLog(rs[1..]);
    assert EncodeLog(rs) == e + rest;
    if n < |e| {
      k := 0;
      TornRecord(rs[0], n);
      assert (e + rest)[..n] == e[..n];
      assert rs[..1] == [rs[0]];
      EncodeLogOne(rs[0]);
    } else {
      var j := TornReplay(rs[1..], n - |e|);
      k := j + 1;
      var cut := rest[..n - |e|];
      assert (e + rest)[..n] == e + cut;
      ParseOfEncode(rs[0], cut);
      Cut2(e, cut);
      PrefixOfCons(rs, j);
      if k < |rs| {
        PrefixOfCons(rs, j + 1);
      }
    }
  }

  lemma PrefixOfCons(rs: seq<IndexRecord>, j: nat)
    requires FitsLog(rs) && j < |rs|
    ensures rs[..j + 1] == [rs[0]] + rs[1..][..j]
    ensures |EncodeLog(rs[..j + 1])| == |EncodeRec(rs[0])| + |EncodeLog(rs[1..][..j])|
  {
    assert rs[..j + 1][1..] == rs[1..][..j];
  }

  /** Records appended behind unreadable bytes are recovered, whatever they are,
      exactly when there are no such bytes: `open` appends without truncating, so a
      second restart is only guaranteed if the first log ended on a record boundary. */
  lemma AppendBehindTail(rs: seq<IndexRecord>, tail: bytes)
    requires FitsLog(rs) && ParseRec(tail).None?
    ensures (forall more | FitsLog(more) :: Replay(EncodeLog(rs) + tail + EncodeLog(more)) == rs + more) <==> tail == []
  {
    if tail == [] {
      forall more | FitsLog(more)
        ensures Replay(EncodeLog(rs) + tail + EncodeLog(more)) == rs + more
      {
        assert EncodeLog(rs) + tail == EncodeLog(rs);
        ReplayAppend(rs, EncodeLog(more));
        ReplayOfLog(more);
      }
    } else {
      var more := [DelRec([])];
      EncodeLogOne(more[0]);
      assert EncodeLog(more) == [2, 0, 0];
      Assoc(EncodeLog(rs), tail, EncodeLog(more));
      ReplayAppend(rs, tail + EncodeLog(more));
      LostBehindTail(tail);
      assert (rs + Replay(tail + EncodeLog(more)))[|rs|..] == Replay(tail + EncodeLog(more));
      assert (rs + more)[|rs|..] == more;
    }
  }

  lemma LostBehindTail(tail: bytes)
    requires ParseRec(tail).None? && tail != []
    ensures Replay(tail + [2, 0, 0]) != [DelRec([])]
  {
    var s := tail + [2, 0, 0];
    assert ParseRec(s).Some? ==> Replay(s)[0] == ParseRec(s).value.0;
    if |tail| == 1 {
      assert s[1..3][0] == 2;
    } else if |tail| == 2 {
      assert s[1..3][1] == 2 && De16(s[1..3]) > 0;
    } else {
      assert s[0] == tail[0] && s[1..3] == tail[1..3];
    }
  }
}
