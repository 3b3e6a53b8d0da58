/** disk.rs: the object that appends to a shard's two files, reads cold values back and flushes. */
module ShardDisk {
  import opened Prelude
  import opened Log
  import opened DiskFiles
  import opened DiskRuns

  class Disk {
    var cool: BufFile
    var backup: BufFile
    var coolLen: nat
    /** Every record the journal holds, oldest first. */
    ghost var history: seq<IndexRecord>
    /** Both files as they were opened, and everything done to them since, step by step. */
    ghost const origin: Files
    ghost var trace: seq<DiskStep>

    ghost predicate Valid()
      reads this
    {
      && cool.Valid() && backup.Valid() && coolLen == |cool.All()|
      && LegalRun(origin, trace) && RunSteps(origin, trace) == Files()
    }

    ghost function Files(): (f: Files)
      reads this
    {
      DiskRuns.Files(cool, backup, history)
    }

    ghost predicate Logged()
      reads this
    {
      LoggedFiles(Files())
    }

    /** A process crash here leaves a journal that points only at data on file. */
    ghost predicate InOrder()
      reads this
    {
      Ordered(cool, backup)
    }

    constructor (coolFile: bytes, backupFile: bytes, ghost records: seq<IndexRecord>)
      ensures Valid() && cool == BufFile(coolFile, []) && backup == BufFile(backupFile, [])
      ensures history == records && trace == []
    {
      origin, trace := DiskRuns.Files(BufFile(coolFile, []), BufFile(backupFile, []), records), [];
      cool := BufFile(coolFile, []);
      backup := BufFile(backupFile, []);
      coolLen := |coolFile|;
      history := records;
    }

    /** `Disk::open`: replay the journal, then reopen both files for append without truncating either. */
    static method Open(coolFile: bytes, backupFile: bytes) returns (d: Disk, records: seq<IndexRecord>)
      ensures fresh(d) && d.Valid() && d.trace == []
      ensures records == Replay(backupFile) && d.history == records && FitsLog(records)
      ensures d.cool == BufFile(coolFile, []) && d.backup == BufFile(backupFile, [])
      ensures d.Logged() <==> backupFile == EncodedReplay(backupFile) && EndsBy(records, |coolFile|)
    {
      records := ReplayBackup(backupFile);
      ReplayIsPrefix(backupFile);
      d := new Disk(coolFile, backupFile, records);
      assert d.backup.All() == backupFile && d.cool.All() == coolFile;
    }

    /** Appends the record to both files. The offset is counted with the cast lengths, so it
        stays the true end of the file exactly when key and value fit their length fields. */
    method AppendSet(k: bytes, v: bytes, exp: nat) returns (off: nat)
      requires Valid() && exp < U64 && coolLen + COOL_SET_HEADER + |k| + |v| < U64
      modifies this
      ensures off == old(coolLen) + COOL_SET_HEADER + AsU16(|k|)
      ensures trace == old(trace) + [PutStep(k, v, exp)]
      ensures cool == CoolSet(old(cool), k, v, exp)
      ensures backup == BackupSet(old(backup), k, off, AsU32(|v|), exp)
      ensures coolLen == off + AsU32(|v|)
      ensures Valid() <==> |k| < U16 && |v| < U32
      ensures |k| < U16 && |v| < U32 ==>
                && old(cool.All()) <= cool.All()
                && cool.All()[off..off + |v|] == v
                && history == old(history) + [SetRec(k, off, |v|, exp)]
                && Files() == Next(old(Files()), PutStep(k, v, exp))
                && (old(Logged()) ==> Logged())
                && (old(Logged() && InOrder()) ==> (InOrder() <==> old(SetGuard(cool, backup, history, k, v))))
    {
      hide Be16, Be32, Be64, EncodeRec, EncodeLog, WritePieces, WriteAll, SetGuard, Ordered, LegalRun, RunSteps;
      var klen, vlen := AsU16(|k|), AsU32(|v|);
      cool := WriteAll(cool, [OP_SET]);
      cool := WriteAll(cool, Be16(klen));
      cool := WriteAll(cool, Be64(exp));
      cool := WriteAll(cool, Be32(vlen));
      cool := WriteAll(cool, k);
      cool := WriteAll(cool, v);
      assert cool == CoolSet(old(cool), k, v, exp) by {
        Unroll6(old(cool), [OP_SET], Be16(klen), Be64(exp), Be32(vlen), k, v);
      }

      off := coolLen + COOL_SET_HEADER + klen;
      coolLen := coolLen + COOL_SET_HEADER + klen + vlen;

      backup := WriteAll(backup, [OP_SET]);
      backup := WriteAll(backup, Be16(klen));
      backup := WriteAll(backup, Be64(off));
      backup := WriteAll(backup, Be32(vlen));
      backup := WriteAll(backup, Be64(exp));
      backup := WriteAll(backup, k);
      assert backup == BackupSet(old(backup), k, off, vlen, exp) by {
        Unroll6(old(backup), [OP_SET], Be16(klen), Be64(off), Be32(vlen), Be64(exp), k);
      }

      history, trace := history + [SetRec(k, off, |v|, exp)], trace + [PutStep(k, v, exp)];
      Traced(origin, old(trace), old(Files()), PutStep(k, v, exp));
      SetAppended(old(cool), old(backup), old(history), off, k, v, exp);
      if old(Logged() && InOrder()) && |k| < U16 && |v| < U32 {
        NextInOrder(old(Files()), PutStep(k, v, exp));
      }
    }

    method AppendDel(k: bytes)
      requires Valid()
      modifies this
      ensures cool == FileDel(old(cool), k) && backup == FileDel(old(backup), k)
      ensures coolLen == old(coolLen) + 3 + AsU16(|k|)
      ensures trace == old(trace) + [DelStep(k)]
      ensures Valid() <==> |k| < U16
      ensures |k| < U16 ==>
                && old(cool.All()) <= cool.All()
                && history == old(history) + [DelRec(k)]
                && Files() == Next(old(Files()), DelStep(k))
                && (old(Logged()) ==> Logged())
                && (old(Logged() && InOrder()) ==> (InOrder() <==> old(DelGuard(cool, backup, history, k))))
    {
      hide Be16, EncodeRec, EncodeLog, WritePieces, WriteAll, DelGuard, Ordered, LegalRun, RunSteps;
      var klen := AsU16(|k|);
      cool := WriteAll(cool, [OP_DEL]);
      cool := WriteAll(cool, Be16(klen));
      cool := WriteAll(cool, k);
      coolLen := coolLen + 1 + 2 + klen;

      backup := WriteAll(backup, [OP_DEL]);
      backup := WriteAll(backup, Be16(klen));
      backup := WriteAll(backup, k);

      history, trace := history + [DelRec(k)], trace + [DelStep(k)];
      Traced(origin, old(trace), old(Files()), DelStep(k));
      Unroll3(old(cool), [OP_DEL], Be16(klen), k);
      Unroll3(old(backup), [OP_DEL], Be16(klen), k);
      WritesDel(old(cool), [OP_DEL], Be16(klen), k);
      WritesDel(old(backup), [OP_DEL], Be16(klen), k);
      if |k| < U16 {
        AppendedDel(old(cool), old(backup), old(history), k);
        if old(Logged() && InOrder()) {
          NextInOrder(old(Files()), DelStep(k));
        }
      }
    }

    /** A cold read: flush the value log, then read exactly `vlen` bytes or fail. */
    method ReadAt(off: nat, vlen: nat) returns (r: Option<bytes>)
      requires Valid()
      modifies this`cool, this`trace
      ensures trace == old(trace) + [ColdRead]
      ensures Valid() && Files() == Next(old(Files()), ColdRead) && cool.All() == old(cool.All())
      ensures r == if off + vlen <= |cool.All()| then Some(cool.All()[off..off + vlen]) else None
      ensures old(Logged()) ==> Logged() && InOrder()
    {
      if Logged() {
        FlushedCoolCovers(cool, backup, history);
      }
      cool, trace := cool.Flushed(), trace + [ColdRead];
      Traced(origin, old(trace), old(Files()), ColdRead);
      assert cool.All() == cool.os;
      r := ReadExactAt(cool.os, off, vlen);
    }

    static function ReadExactAt(file: bytes, off: nat, n: nat): (r: Option<bytes>)
      ensures r == if off + n <= |file| then Some(file[off..off + n]) else None
    {
      if off + n <= |file| then Some(file[off..off + n]) else None
    }

    /** `flush` and, before its two `sync_data` calls, `fsync`: the value log first, then the journal. */
    method Flush()
      requires Valid()
      modifies this`cool, this`backup, this`trace
      ensures trace == old(trace) + [FlushCool, FlushJournal]
      ensures Valid() && Files() == Next(Next(old(Files()), FlushCool), FlushJournal)
      ensures cool == old(cool).Flushed() && backup == old(backup).Flushed()
      ensures cool.All() == old(cool.All()) && backup.All() == old(backup.All())
      ensures old(Logged()) ==> Logged() && InOrder()
    {
      hide Ordered, LegalRun, RunSteps, EncodeLog;
      if Logged() {
        FlushedCoolCovers(cool, backup, history);
        FlushedCoolCovers(cool, backup.Flushed(), history);
      }
      cool, trace := cool.Flushed(), trace + [FlushCool];
      assert cool.All() == cool.os;
      Traced(origin, old(trace), old(Files()), FlushCool);
      ghost var between := Files();
      backup, trace := backup.Flushed(), trace + [FlushJournal];
      assert backup.All() == backup.os;
      Traced(origin, old(trace) + [FlushCool], between, FlushJournal);
      assert old(trace) + [FlushCool] + [FlushJournal] == old(trace) + [FlushCool, FlushJournal];
    }
  }

  lemma Traced(origin: DiskRuns.Files, trace: seq<DiskStep>, f: DiskRuns.Files, s: DiskStep)
    requires LegalRun(origin, trace) && RunSteps(origin, trace) == f
    ensures RunSteps(origin, trace + [s]) == Next(f, s)
    ensures LegalRun(origin, trace + [s]) <==> Legal(f, s)
  {
    assert (trace + [s])[..|trace|] == trace;
  }
}
