/** The two append-only files of a shard behind their write buffers, and what one append does to the order in which
    their bytes reach the OS. */
module DiskFiles {
  import opened Prelude
  import opened Log

  /** Capacity of a `BufWriter` created by `BufWriter::new`. */
  const BUF_CAPACITY: nat := 8192
  const COOL_SET_HEADER: nat := 15

  /** A file behind a buffered writer: what the OS has, and what is still in the buffer. */
  datatype BufFile = BufFile(os: bytes, buf: bytes) {
    function All(): (s: bytes) { os + buf }

    predicate Valid() { |buf| <= BUF_CAPACITY }

    function Flushed(): (f: BufFile) { BufFile(os + buf, []) }
  }

  /** `BufWriter::write_all`: spill the buffer if the data does not fit, bypass it if the data is large. */
  function WriteAll(f: BufFile, data: bytes): (g: BufFile)
  {
    var h := if |f.buf| + |data| > BUF_CAPACITY then f.Flushed() else f;
    if |data| >= BUF_CAPACITY then h.(os := h.os + data) else h.(buf := h.buf + data)
  }

  /** A record is written to a file piece by piece. */
  function WritePieces(f: BufFile, pieces: seq<bytes>): (g: BufFile)
    decreases |pieces|
  {
    if pieces == [] then f else WritePieces(WriteAll(f, pieces[0]), pieces[1..])
  }

  lemma UnrollOne(f: BufFile, x: bytes, rest: seq<bytes>, pieces: seq<bytes>)
    requires pieces == [x] + rest
    ensures WritePieces(f, pieces) == WritePieces(WriteAll(f, x), rest)
  {
    assert pieces[1..] == rest;
  }

  lemma Unroll3(f: BufFile, a: bytes, b: bytes, c: bytes)
    ensures WritePieces(f, [a, b, c]) == WriteAll(WriteAll(WriteAll(f, a), b), c)
  {
    UnrollOne(f, a, [b, c], [a, b, c]);
    UnrollOne(WriteAll(f, a), b, [c], [b, c]);
    UnrollOne(WriteAll(WriteAll(f, a), b), c, [], [c]);
  }

  lemma Unroll6(f: BufFile, a: bytes, b: bytes, c: bytes, d: bytes, e: bytes, g: bytes)
    ensures WritePieces(f, [a, b, c, d, e, g])
         == WriteAll(WriteAll(WriteAll(WriteAll(WriteAll(WriteAll(f, a), b), c), d), e), g)
  {
    UnrollOne(f, a, [b, c, d, e, g], [a, b, c, d, e, g]);
    UnrollOne(WriteAll(f, a), b, [c, d, e, g], [b, c, d, e, g]);
    UnrollOne(WriteAll(WriteAll(f, a), b), c, [d, e, g], [c, d, e, g]);
    Unroll3(WriteAll(WriteAll(WriteAll(f, a), b), c), d, e, g);
  }

  function CoolSet(f: BufFile, k: bytes, v: bytes, exp: nat): (g: BufFile)
    requires exp < U64
  {
    WritePieces(f, [[OP_SET], Be16(AsU16(|k|)), Be64(exp), Be32(AsU32(|v|)), k, v])
  }

  function BackupSet(f: BufFile, k: bytes, off: nat, vlen: nat, exp: nat): (g: BufFile)
    requires off < U64 && vlen < U32 && exp < U64
  {
    WritePieces(f, [[OP_SET], Be16(AsU16(|k|)), Be64(off), Be32(vlen), Be64(exp), k])
  }

  /** The DEL record is the same in both files. */
  function FileDel(f: BufFile, k: bytes): (g: BufFile)
  {
    WritePieces(f, [[OP_DEL], Be16(AsU16(|k|)), k])
  }

  // --- What a sequence of writes can do ---

  /** `s` was written to `f` giving `g`, all of it still buffered. */
  predicate Kept(f: BufFile, s: bytes, g: BufFile) {
    g == BufFile(f.os, f.buf + s) && g.Valid()
  }

  /** `s` was written to `f` giving `g`, and everything buffered before reached the OS on the way. */
  predicate Spilled(f: BufFile, s: bytes, g: BufFile) {
    && g.Valid() && g.All() == f.All() + s
    && f.All() <= g.os
    && |f.buf| + |s| > BUF_CAPACITY
  }

  lemma WriteSmall(f: BufFile, s: bytes, g: BufFile, x: bytes)
    requires Kept(f, s, g) || Spilled(f, s, g)
    requires |x| < BUF_CAPACITY
    ensures var h := WriteAll(g, x);
            && (Kept(f, s + x, h) || Spilled(f, s + x, h))
            && (g.buf != [] || x != [] ==> h.buf != [])
  {
    Assoc(f.buf, s, x);
    Assoc(f.All(), s, x);
    Assoc(f.os, f.buf, s);
    Assoc(g.os, g.buf, x);
    Assoc(f.os, f.buf + s, x);
    assert g.All() == f.All() + s;
  }

  lemma WriteLarge(f: BufFile, s: bytes, g: BufFile, x: bytes)
    requires Kept(f, s, g) || Spilled(f, s, g)
    requires |x| >= BUF_CAPACITY
    ensures WriteAll(g, x) == BufFile(f.All() + (s + x), [])
  {
    Assoc(f.os, f.buf, s);
    Assoc(f.All(), s, x);
    assert g.All() == f.All() + s;
    assert g.buf == [] ==> g.os == g.All();
  }

  lemma StartWriting(f: BufFile)
    requires f.Valid()
    ensures Kept(f, [], f)
  {
    assert f.buf + [] == f.buf;
  }

  /** Five short fields, then the key. */
  lemma WritesKeyLast(f: BufFile, a: bytes, b: bytes, c: bytes, d: bytes, e: bytes, k: bytes)
    requires f.Valid() && |a| == 1 && |b| <= 8 && |c| <= 8 && |d| <= 8 && |e| <= 8
    ensures var s := a + b + c + d + e + k; var g := WritePieces(f, [a, b, c, d, e, k]);
            && (|k| >= BUF_CAPACITY ==> g == BufFile(f.All() + s, []))
            && (|k| < BUF_CAPACITY ==> g.buf != [] && (Kept(f, s, g) || Spilled(f, s, g)))
  {
    Unroll6(f, a, b, c, d, e, k);
    StartWriting(f);
    var f1 := WriteAll(f, a);
    assert [] + a == a;
    WriteSmall(f, [], f, a);
    var f2 := WriteAll(f1, b);
    WriteSmall(f, a, f1, b);
    var f3 := WriteAll(f2, c);
    WriteSmall(f, a + b, f2, c);
    var f4 := WriteAll(f3, d);
    WriteSmall(f, a + b + c, f3, d);
    var f5 := WriteAll(f4, e);
    WriteSmall(f, a + b + c + d, f4, e);
    if |k| < BUF_CAPACITY {
      WriteSmall(f, a + b + c + d + e, f5, k);
    } else {
      WriteLarge(f, a + b + c + d + e, f5, k);
    }
  }

  /** Four short fields, then the key, then the value. */
  lemma WritesKeyValue(f: BufFile, a: bytes, b: bytes, c: bytes, d: bytes, k: bytes, v: bytes)
    requires f.Valid() && |a| == 1 && |b| <= 8 && |c| <= 8 && |d| <= 8
    ensures var s := a + b + c + d + k + v; var g := WritePieces(f, [a, b, c, d, k, v]);
            && g.Valid() && g.All() == f.All() + s && f.os <= g.os
            && (|k| >= BUF_CAPACITY ==> (g.buf == [] <==> |v| == 0 || |v| >= BUF_CAPACITY))
            && (|k| < BUF_CAPACITY && |f.buf| + |s| <= BUF_CAPACITY && |v| < BUF_CAPACITY ==> g.os == f.os)
            && (|k| < BUF_CAPACITY && |f.buf| + |s| > BUF_CAPACITY ==> f.All() <= g.os)
  {
    Unroll6(f, a, b, c, d, k, v);
    StartWriting(f);
    var f1 := WriteAll(f, a);
    assert [] + a == a;
    WriteSmall(f, [], f, a);
    var f2 := WriteAll(f1, b);
    WriteSmall(f, a, f1, b);
    var f3 := WriteAll(f2, c);
    WriteSmall(f, a + b, f2, c);
    var f4 := WriteAll(f3, d);
    WriteSmall(f, a + b + c, f3, d);
    KeyValue(f, a + b + c + d, f4, k, v);
  }

  lemma KeyValue(f: BufFile, s: bytes, g: BufFile, k: bytes, v: bytes)
    requires Kept(f, s, g) || Spilled(f, s, g)
    ensures var t := s + k + v; var h := WriteAll(WriteAll(g, k), v);
            && h.Valid() && h.All() == f.All() + t && f.os <= h.os
            && (|k| >= BUF_CAPACITY ==> (h.buf == [] <==> |v| == 0 || |v| >= BUF_CAPACITY))
            && (|k| < BUF_CAPACITY && |f.buf| + |t| <= BUF_CAPACITY && |v| < BUF_CAPACITY ==> h.os == f.os)
            && (|k| < BUF_CAPACITY && |f.buf| + |t| > BUF_CAPACITY ==> f.All() <= h.os)
  {
    if |k| < BUF_CAPACITY {
      SmallKeyValue(f, s, g, k, v);
    } else {
      WriteLarge(f, s, g, k);
      Assoc(f.All(), s + k, v);
      assert [] + v == v;
    }
  }

  lemma SmallKeyValue(f: BufFile, s: bytes, g: BufFile, k: bytes, v: bytes)
    requires Kept(f, s, g) || Spilled(f, s, g)
    requires |k| < BUF_CAPACITY
    ensures var t := s + k + v; var h := WriteAll(WriteAll(g, k), v);
            && h.Valid() && h.All() == f.All() + t && f.os <= h.os
            && (|f.buf| + |t| <= BUF_CAPACITY && |v| < BUF_CAPACITY ==> h.os == f.os)
            && (|f.buf| + |t| > BUF_CAPACITY ==> f.All() <= h.os)
  {
    WriteSmall(f, s, g, k);
    if |v| < BUF_CAPACITY {
      WriteSmall(f, s + k, WriteAll(g, k), v);
      Assoc(f.os, f.buf, s + k + v);
    } else {
      WriteLarge(f, s + k, WriteAll(g, k), v);
    }
  }

  lemma WritesDel(f: BufFile, a: bytes, b: bytes, k: bytes)
    requires f.Valid() && |a| == 1 && |b| <= 8
    ensures var s := a + b + k; var g := WritePieces(f, [a, b, k]);
            && (|k| >= BUF_CAPACITY ==> g == BufFile(f.All() + s, []))
            && (|k| < BUF_CAPACITY ==> g.buf != [] && (Kept(f, s, g) || Spilled(f, s, g)))
  {
    Unroll3(f, a, b, k);
    StartWriting(f);
    var f1 := WriteAll(f, a);
    assert [] + a == a;
    WriteSmall(f, [], f, a);
    var f2 := WriteAll(f1, b);
    WriteSmall(f, a, f1, b);
    if |k| < BUF_CAPACITY {
      WriteSmall(f, a + b, f2, k);
    } else {
      WriteLarge(f, a + b, f2, k);
    }
  }

  // --- The two records of a SET, and of a DEL ---

  function CoolBytes(k: bytes, v: bytes, exp: nat): (s: bytes)
    requires exp < U64
    ensures |s| == COOL_SET_HEADER + |k| + |v|
  {
    [OP_SET] + Be16(AsU16(|k|)) + Be64(exp) + Be32(AsU32(|v|)) + k + v
  }

  /** What appending a value record does to the value log. */
  predicate CoolGrown(f: BufFile, k: bytes, v: bytes, s: bytes, g: BufFile) {
    && g.Valid() && g.All() == f.All() + s && f.os <= g.os
    && (|k| >= BUF_CAPACITY ==> (g.buf == [] <==> |v| == 0 || |v| >= BUF_CAPACITY))
    && (|k| < BUF_CAPACITY && |f.buf| + |s| <= BUF_CAPACITY && |v| < BUF_CAPACITY ==> g.os == f.os)
    && (|k| < BUF_CAPACITY && |f.buf| + |s| > BUF_CAPACITY ==> f.All() <= g.os)
  }

  /** What appending a record that ends with its key does to a file. */
  predicate KeyedGrown(f: BufFile, k: bytes, s: bytes, g: BufFile) {
    && (|k| >= BUF_CAPACITY ==> g == BufFile(f.All() + s, []))
    && (|k| < BUF_CAPACITY ==> g.buf != [] && (Kept(f, s, g) || Spilled(f, s, g)))
  }

  lemma KeyedAll(f: BufFile, k: bytes, s: bytes, g: BufFile)
    requires f.Valid() && KeyedGrown(f, k, s, g)
    ensures g.Valid() && g.All() == f.All() + s
  {
    Assoc(f.os, f.buf, s);
    if |k| >= BUF_CAPACITY {
      assert g.os + [] == g.os;
    }
  }

  lemma CoolSetGrows(f: BufFile, k: bytes, v: bytes, exp: nat)
    requires f.Valid() && exp < U64
    ensures CoolGrown(f, k, v, CoolBytes(k, v, exp), CoolSet(f, k, v, exp))
  {
    WritesKeyValue(f, [OP_SET], Be16(AsU16(|k|)), Be64(exp), Be32(AsU32(|v|)), k, v);
  }

  lemma BackupSetGrows(f: BufFile, k: bytes, off: nat, vlen: nat, exp: nat)
    requires f.Valid() && |k| < U16 && off < U64 && vlen < U32 && exp < U64
    ensures KeyedGrown(f, k, EncodeRec(SetRec(k, off, vlen, exp)), BackupSet(f, k, off, vlen, exp))
  {
    WritesKeyLast(f, [OP_SET], Be16(|k|), Be64(off), Be32(vlen), Be64(exp), k);
  }

  lemma FileDelGrows(f: BufFile, k: bytes)
    requires f.Valid() && |k| < U16
    ensures KeyedGrown(f, k, EncodeRec(DelRec(k)), FileDel(f, k))
  {
    WritesDel(f, [OP_DEL], Be16(|k|), k);
  }

  // --- The journal must not outrun the data ---

  /** Every value the records point at lies within the first `n` bytes of the value log. */
  predicate EndsBy(rs: seq<IndexRecord>, n: nat) {
    forall i | 0 <= i < |rs| && rs[i].SetRec? :: rs[i].valOff + rs[i].vlen <= n
  }

  /** Widths the protocol guarantees for everything this code has logged. */
  predicate Narrow(rs: seq<IndexRecord>) {
    forall i | 0 <= i < |rs| && rs[i].SetRec? :: rs[i].vlen < U16
  }

  /** A process crash here leaves a journal whose every complete SET points into the value log. */
  predicate Ordered(cool: BufFile, backup: BufFile) {
    EndsBy(Replay(backup.os), |cool.os|)
  }

  lemma ReplayOfPrefix(h: seq<IndexRecord>, b: bytes)
    requires FitsLog(h) && b <= EncodeLog(h)
    ensures Replay(b) <= h
  {
    var k := TornReplay(h, |b|);
    assert EncodeLog(h)[..|b|] == b;
  }

  /** Once `cool` has been flushed, whatever part of the journal has reached the OS is
      covered: after a cold read, between the two flushes, and after both. */
  lemma FlushedCoolCovers(cool: BufFile, backup: BufFile, h: seq<IndexRecord>)
    requires FitsLog(h) && backup.os <= EncodeLog(h)
    requires EndsBy(h, |cool.All()|)
    ensures Ordered(cool.Flushed(), backup)
  {
    ReplayOfPrefix(h, backup.os);
  }

  /** When `append_set` leaves the journal behind the data: a huge key reaches the OS at
      once, so its value must too; otherwise the journal buffer must not spill, unless the
      value buffer spills as well or held nothing the journal points at. */
  predicate SetGuard(cool: BufFile, backup: BufFile, h: seq<IndexRecord>, k: bytes, v: bytes) {
    if |k| >= BUF_CAPACITY then |v| == 0 || |v| >= BUF_CAPACITY
    else
      || |backup.buf| + 23 + |k| <= BUF_CAPACITY
      || |cool.buf| + 15 + |k| + |v| > BUF_CAPACITY
      || EndsBy(h, |cool.os|)
  }

  predicate DelGuard(cool: BufFile, backup: BufFile, h: seq<IndexRecord>, k: bytes) {
    || |k| >= BUF_CAPACITY
    || |backup.buf| + 3 + |k| <= BUF_CAPACITY
    || |cool.buf| + 3 + |k| > BUF_CAPACITY
    || EndsBy(h, |cool.os|)
  }

  lemma SpilledReplay(h: seq<IndexRecord>, r: IndexRecord, os: bytes)
    requires FitsLog(h) && FitsRec(r)
    requires EncodeLog(h) <= os <= EncodeLog(h) + EncodeRec(r)
    ensures Replay(os) == if |os| < |EncodeLog(h) + EncodeRec(r)| then h else h + [r]
  {
    var e, l := EncodeRec(r), EncodeLog(h);
    var m := |os| - |l|;
    assert os == l + e[..m];
    ReplayAppend(h, e[..m]);
    if m < |e| {
      TornRecord(r, m);
    } else {
      assert e[..m] == e;
      EncodeLogOne(r);
      ReplayOfLog([r]);
    }
  }

  /** One journal record appended: what the OS can replay afterwards. */
  lemma BackupAfter(backup: BufFile, h: seq<IndexRecord>, r: IndexRecord, backup': BufFile)
    requires FitsLog(h) && FitsRec(r) && backup.All() == EncodeLog(h)
    requires KeyedGrown(backup, r.key, EncodeRec(r), backup')
    ensures |r.key| >= BUF_CAPACITY ==> Replay(backup'.os) == h + [r]
    ensures |r.key| < BUF_CAPACITY ==>
              Replay(backup'.os) == if |backup.buf| + |EncodeRec(r)| <= BUF_CAPACITY then Replay(backup.os) else h
  {
    var e := EncodeRec(r);
    if |r.key| >= BUF_CAPACITY {
      SpilledReplay(h, r, backup'.os);
    } else if Spilled(backup, e, backup') {
      assert |backup'.os| < |backup'.All()|;
      SpilledReplay(h, r, backup'.os);
    }
  }

  /** `append_set` keeps the journal behind the data exactly under its guard. */
  lemma SetKeepsOrder(cool: BufFile, backup: BufFile, h: seq<IndexRecord>, k: bytes, v: bytes, exp: nat, off: nat,
                      cool': BufFile, backup': BufFile)
    requires cool.Valid() && backup.Valid()
    requires FitsLog(h) && backup.All() == EncodeLog(h) && EndsBy(h, |cool.All()|)
    requires Ordered(cool, backup)
    requires |k| < U16 && |v| < U32 && exp < U64
    requires off == |cool.All()| + COOL_SET_HEADER + |k| && off < U64
    requires cool' == CoolSet(cool, k, v, exp) && backup' == BackupSet(backup, k, off, |v|, exp)
    ensures Ordered(cool', backup') <==> SetGuard(cool, backup, h, k, v)
  {
    CoolSetGrows(cool, k, v, exp);
    BackupSetGrows(backup, k, off, |v|, exp);
    OrderAfterSet(cool, backup, h, k, v, CoolBytes(k, v, exp), SetRec(k, off, |v|, exp), cool', backup');
  }

  lemma OrderAfterSet(cool: BufFile, backup: BufFile, h: seq<IndexRecord>, k: bytes, v: bytes, s: bytes, r: IndexRecord,
                      cool': BufFile, backup': BufFile)
    requires FitsLog(h) && FitsRec(r) && backup.All() == EncodeLog(h) && EndsBy(h, |cool.All()|)
    requires Ordered(cool, backup)
    requires r.SetRec? && r.key == k && |s| == COOL_SET_HEADER + |k| + |v| && r.valOff + r.vlen == |cool.All()| + |s|
    requires CoolGrown(cool, k, v, s, cool') && KeyedGrown(backup, k, EncodeRec(r), backup')
    ensures Ordered(cool', backup') <==> SetGuard(cool, backup, h, k, v)
  {
    BackupAfter(backup, h, r, backup');
    if |k| >= BUF_CAPACITY {
      assert (h + [r])[|h|] == r;
      if cool'.buf == [] {
        EndsByExtended(h, r, |cool.All()|, |cool'.os|);
      }
    }
  }

  lemma DelKeepsOrder(cool: BufFile, backup: BufFile, h: seq<IndexRecord>, k: bytes)
    requires cool.Valid() && backup.Valid()
    requires FitsLog(h) && backup.All() == EncodeLog(h) && EndsBy(h, |cool.All()|)
    requires Ordered(cool, backup)
    requires |k| < U16
    ensures Ordered(FileDel(cool, k), FileDel(backup, k)) <==> DelGuard(cool, backup, h, k)
  {
    FileDelGrows(cool, k);
    FileDelGrows(backup, k);
    BackupAfter(backup, h, DelRec(k), FileDel(backup, k));
    OrderAfterDel(cool, backup, h, DelRec(k), FileDel(cool, k), FileDel(backup, k));
  }

  lemma OrderAfterDel(cool: BufFile, backup: BufFile, h: seq<IndexRecord>, r: IndexRecord, cool': BufFile, backup': BufFile)
    requires FitsLog(h) && FitsRec(r) && r.DelRec? && backup.All() == EncodeLog(h) && EndsBy(h, |cool.All()|)
    requires Ordered(cool, backup)
    requires KeyedGrown(cool, r.key, EncodeRec(r), cool') && KeyedGrown(backup, r.key, EncodeRec(r), backup')
    ensures Ordered(cool', backup') <==> DelGuard(cool, backup, h, r.key)
  {
    BackupAfter(backup, h, r, backup');
    if |r.key| >= BUF_CAPACITY {
      EndsByExtended(h, r, |cool.All()|, |cool'.os|);
    }
  }

  /** The guard can fail on the very first write: a key that fills the buffer and a one-byte value. */
  lemma OrderBroken(k: bytes)
    requires |k| == 8192
    ensures var empty := BufFile([], []);
            var cool, backup := CoolSet(empty, k, [7], 0), BackupSet(empty, k, COOL_SET_HEADER + |k|, 1, 0);
            && Ordered(empty, empty) && !Ordered(cool, backup)
            && |cool.os| == COOL_SET_HEADER + |k|
            && Replay(backup.os) == [SetRec(k, |cool.os|, 1, 0)]
  {
    var empty := BufFile([], []);
    var off := COOL_SET_HEADER + |k|;
    var r := SetRec(k, off, 1, 0);
    SetKeepsOrder(empty, empty, [], k, [7], 0, off, CoolSet(empty, k, [7], 0), BackupSet(empty, k, off, 1, 0));
    BackupSetGrows(empty, k, off, 1, 0);
    BackupAfter(empty, [], r, BackupSet(empty, k, off, 1, 0));
    ValueLeftBehind(k);
  }

  lemma ValueLeftBehind(k: bytes)
    requires |k| == 8192
    ensures |CoolSet(BufFile([], []), k, [7], 0).os| == COOL_SET_HEADER + |k|
  {
    var f := BufFile([], []);
    var n := Be16(AsU16(|k|));
    WritesKeyValue(f, [OP_SET], n, Be64(0), Be32(1), k, []);
    Unroll6(f, [OP_SET], n, Be64(0), Be32(1), k, []);
    Unroll6(f, [OP_SET], n, Be64(0), Be32(1), k, [7]);
    LastWrite(WriteAll(WriteAll(WriteAll(WriteAll(WriteAll(f, [OP_SET]), n), Be64(0)), Be32(1)), k));
  }

  lemma LastWrite(h: BufFile)
    requires WriteAll(h, []).buf == []
    ensures WriteAll(h, [7]).os == WriteAll(h, []).os
  {
  }

  // --- Whole records ---

  /** The part of a journal file that replay understands. */
  function EncodedReplay(file: bytes): (s: bytes)
  {
    ReplayIsPrefix(file);
    EncodeLog(Replay(file))
  }

  lemma EndsByExtended(h: seq<IndexRecord>, r: IndexRecord, n: nat, n': nat)
    requires EndsBy(h, n) && n <= n' && (r.SetRec? ==> r.valOff + r.vlen <= n')
    ensures EndsBy(h + [r], n')
  {
  }

  lemma SliceOfLast<T>(a: seq<T>, s: seq<T>, v: seq<T>)
    ensures var t := a + (s + v); t[|a| + |s|..|a| + |s| + |v|] == v
  {
  }

  lemma AppendedSet(cool: BufFile, backup: BufFile, h: seq<IndexRecord>, off: nat, k: bytes, v: bytes, exp: nat)
    requires cool.Valid() && backup.Valid()
    requires exp < U64 && |k| < U16 && |v| < U32
    requires off == |cool.All()| + COOL_SET_HEADER + |k| && off < U64
    ensures var cool', backup' := CoolSet(cool, k, v, exp), BackupSet(backup, k, off, |v|, exp);
            && cool'.Valid() && backup'.Valid()
            && |cool'.All()| == off + |v| && cool.All() <= cool'.All()
            && cool'.All()[off..off + |v|] == v
            && (FitsLog(h) && backup.All() == EncodeLog(h) && EndsBy(h, |cool.All()|) ==>
                  var h' := h + [SetRec(k, off, |v|, exp)];
                  FitsLog(h') && backup'.All() == EncodeLog(h') && EndsBy(h', |cool'.All()|))
  {
    CoolSetGrows(cool, k, v, exp);
    BackupSetGrows(backup, k, off, |v|, exp);
    SliceOfLast(cool.All(), [OP_SET] + Be16(AsU16(|k|)) + Be64(exp) + Be32(AsU32(|v|)) + k, v);
    var r := SetRec(k, off, |v|, exp);
    KeyedAll(backup, k, EncodeRec(r), BackupSet(backup, k, off, |v|, exp));
    if FitsLog(h) && EndsBy(h, |cool.All()|) {
      LogGrows(h, r, |cool.All()|, off + |v|);
    }
  }

  lemma LogGrows(h: seq<IndexRecord>, r: IndexRecord, n: nat, n': nat)
    requires FitsLog(h) && FitsRec(r) && EndsBy(h, n) && n <= n' && (r.SetRec? ==> r.valOff + r.vlen <= n')
    ensures FitsLog(h + [r]) && EncodeLog(h + [r]) == EncodeLog(h) + EncodeRec(r) && EndsBy(h + [r], n')
  {
    EncodeLogOne(r);
    EncodeLogAppend(h, [r]);
    EndsByExtended(h, r, n, n');
  }

  lemma AppendedDel(cool: BufFile, backup: BufFile, h: seq<IndexRecord>, k: bytes)
    requires cool.Valid() && backup.Valid() && |k| < U16
    ensures var cool', backup' := FileDel(cool, k), FileDel(backup, k);
            && cool'.Valid() && backup'.Valid()
            && |cool'.All()| == |cool.All()| + 3 + |k| && cool.All() <= cool'.All()
            && (FitsLog(h) && backup.All() == EncodeLog(h) && EndsBy(h, |cool.All()|) ==>
                  var h' := h + [DelRec(k)];
                  FitsLog(h') && backup'.All() == EncodeLog(h') && EndsBy(h', |cool'.All()|))
  {
    var r := DelRec(k);
    FileDelGrows(cool, k);
    FileDelGrows(backup, k);
    KeyedAll(cool, k, EncodeRec(r), FileDel(cool, k));
    KeyedAll(backup, k, EncodeRec(r), FileDel(backup, k));
    if FitsLog(h) && EndsBy(h, |cool.All()|) {
      LogGrows(h, r, |cool.All()|, |cool.All()| + 3 + |k|);
    }
  }

  /** The same for any lengths: sizes are always counted, contents only if the casts lose nothing. */
  lemma SetAppended(cool: BufFile, backup: BufFile, h: seq<IndexRecord>, off: nat, k: bytes, v: bytes, exp: nat)
    requires cool.Valid() && backup.Valid() && exp < U64
    requires off == |cool.All()| + COOL_SET_HEADER + AsU16(|k|) && off < U64
    ensures var cool', backup' := CoolSet(cool, k, v, exp), BackupSet(backup, k, off, AsU32(|v|), exp);
            && cool'.Valid() && backup'.Valid()
            && |cool'.All()| == |cool.All()| + COOL_SET_HEADER + |k| + |v|
            && (|k| < U16 && |v| < U32 ==>
                  && cool.All() <= cool'.All() && cool'.All()[off..off + |v|] == v
                  && (FitsLog(h) && backup.All() == EncodeLog(h) && EndsBy(h, |cool.All()|) ==>
                        var h' := h + [SetRec(k, off, |v|, exp)];
                        FitsLog(h') && backup'.All() == EncodeLog(h') && EndsBy(h', |cool'.All()|)))
  {
    CoolSetGrows(cool, k, v, exp);
    BackupSetValid(backup, k, off, AsU32(|v|), exp);
    if |k| < U16 && |v| < U32 {
      AppendedSet(cool, backup, h, off, k, v, exp);
    }
  }

  lemma BackupSetValid(f: BufFile, k: bytes, off: nat, vlen: nat, exp: nat)
    requires f.Valid() && off < U64 && vlen < U32 && exp < U64
    ensures BackupSet(f, k, off, vlen, exp).Valid()
  {
    WritesKeyLast(f, [OP_SET], Be16(AsU16(|k|)), Be64(off), Be32(vlen), Be64(exp), k);
  }
}
