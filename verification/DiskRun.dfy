/** Whole runs over a shard's two files: appends, cold reads and flushes in any order, and a process crash at any point. */
module DiskRuns {
  import opened Prelude
  import opened Log
  import opened DiskFiles

  /** Both files, and every record the journal holds. */
  datatype Files = Files(cool: BufFile, backup: BufFile, history: seq<IndexRecord>)

  datatype DiskStep =
    | PutStep(key: bytes, value: bytes, exp: nat)
    | DelStep(key: bytes)
    | ColdRead
    | FlushCool
    | FlushJournal

  /** The journal is exactly the encoding of its history, and points only at values that were appended. */
  predicate LoggedFiles(f: Files) {
    && f.cool.Valid() && f.backup.Valid()
    && FitsLog(f.history) && f.backup.All() == EncodeLog(f.history) && EndsBy(f.history, |f.cool.All()|)
  }

  predicate InOrder(f: Files) {
    Ordered(f.cool, f.backup)
  }

  /** What the code does: fields within their widths, and never the journal flushed before the value log. */
  predicate Legal(f: Files, s: DiskStep) {
    match s
    case PutStep(k, v, exp) => |k| < U16 && |v| < U32 && exp < U64 && |f.cool.All()| + COOL_SET_HEADER + |k| < U64
    case DelStep(k) => |k| < U16
    case FlushJournal => f.cool.buf == []
    case _ => true
  }

  function Next(f: Files, s: DiskStep): (f': Files)
  {
    if !Legal(f, s) then f
    else
      match s
      case PutStep(k, v, exp) =>
        var off := |f.cool.All()| + COOL_SET_HEADER + |k|;
        Files(CoolSet(f.cool, k, v, exp), BackupSet(f.backup, k, off, |v|, exp), f.history + [SetRec(k, off, |v|, exp)])
      case DelStep(k) => Files(FileDel(f.cool, k), FileDel(f.backup, k), f.history + [DelRec(k)])
      case ColdRead => f.(cool := f.cool.Flushed())
      case FlushCool => f.(cool := f.cool.Flushed())
      case FlushJournal => f.(backup := f.backup.Flushed())
  }

  /** The append does not let the journal get ahead of the data. */
  predicate Guarded(f: Files, s: DiskStep) {
    match s
    case PutStep(k, v, _) => SetGuard(f.cool, f.backup, f.history, k, v)
    case DelStep(k) => DelGuard(f.cool, f.backup, f.history, k)
    case _ => true
  }

  function RunSteps(f: Files, steps: seq<DiskStep>): (f': Files)
  {
    if steps == [] then f else Next(RunSteps(f, steps[..|steps| - 1]), steps[|steps| - 1])
  }

  predicate LegalRun(f: Files, steps: seq<DiskStep>) {
    steps == [] ||
    var init := steps[..|steps| - 1];
    LegalRun(f, init) && Legal(RunSteps(f, init), steps[|steps| - 1])
  }

  /** In every state along the run. */
  predicate AllInOrder(f: Files, steps: seq<DiskStep>) {
    InOrder(RunSteps(f, steps)) && (steps == [] || AllInOrder(f, steps[..|steps| - 1]))
  }

  /** At every append of the run. */
  predicate AllGuarded(f: Files, steps: seq<DiskStep>) {
    steps == [] ||
    var init := steps[..|steps| - 1];
    AllGuarded(f, init) && Guarded(RunSteps(f, init), steps[|steps| - 1])
  }

  // --- One step ---

  lemma PutGrows(f: Files, k: bytes, v: bytes, exp: nat)
    requires LoggedFiles(f) && Legal(f, PutStep(k, v, exp))
    ensures var f' := Next(f, PutStep(k, v, exp));
            && LoggedFiles(f') && f.cool.All() <= f'.cool.All()
            && f.cool.os <= f'.cool.os && f.backup.os <= f'.backup.os
    ensures var cool', r := Next(f, PutStep(k, v, exp)).cool.All(), Next(f, PutStep(k, v, exp)).history[|f.history|];
            r.valOff + r.vlen <= |cool'| && cool'[r.valOff..r.valOff + r.vlen] == v
  {
    hide CoolSet, BackupSet, EncodeRec, EncodeLog;
    var off := |f.cool.All()| + COOL_SET_HEADER + |k|;
    AppendedSet(f.cool, f.backup, f.history, off, k, v, exp);
    CoolSetGrows(f.cool, k, v, exp);
    BackupSetGrows(f.backup, k, off, |v|, exp);
    KeyedOs(f.backup, k, EncodeRec(SetRec(k, off, |v|, exp)), BackupSet(f.backup, k, off, |v|, exp));
  }

  lemma DelGrows(f: Files, k: bytes)
    requires LoggedFiles(f) && |k| < U16
    ensures var f' := Next(f, DelStep(k));
            && LoggedFiles(f') && f.cool.All() <= f'.cool.All()
            && f.cool.os <= f'.cool.os && f.backup.os <= f'.backup.os
  {
    hide FileDel, EncodeRec, EncodeLog;
    AppendedDel(f.cool, f.backup, f.history, k);
    FileDelGrows(f.cool, k);
    FileDelGrows(f.backup, k);
    KeyedOs(f.cool, k, EncodeRec(DelRec(k)), FileDel(f.cool, k));
    KeyedOs(f.backup, k, EncodeRec(DelRec(k)), FileDel(f.backup, k));
  }

  lemma KeyedOs(f: BufFile, k: bytes, s: bytes, g: BufFile)
    requires KeyedGrown(f, k, s, g)
    ensures f.os <= g.os
  {
    Assoc(f.os, f.buf, s);
  }

  lemma NextLogged(f: Files, s: DiskStep)
    requires LoggedFiles(f)
    ensures var f' := Next(f, s);
            && LoggedFiles(f') && f.history <= f'.history && f.cool.All() <= f'.cool.All()
            && f.cool.os <= f'.cool.os && f.backup.os <= f'.backup.os
  {
    if Legal(f, s) {
      match s
      case PutStep(k, v, exp) => PutGrows(f, k, v, exp);
      case DelStep(k) => DelGrows(f, k);
      case FlushJournal => assert f.backup.Flushed().All() == f.backup.All();
      case _ => assert f.cool.Flushed().All() == f.cool.All();
    }
  }

  /** One step keeps the journal behind the data if and only if it is not an unguarded append. */
  lemma NextInOrder(f: Files, s: DiskStep)
    requires LoggedFiles(f) && InOrder(f) && Legal(f, s)
    ensures InOrder(Next(f, s)) <==> Guarded(f, s)
  {
    hide SetGuard, DelGuard, Ordered, CoolSet, BackupSet, FileDel, EncodeLog;
    match s
    case PutStep(k, v, exp) =>
      var off := |f.cool.All()| + COOL_SET_HEADER + |k|;
      SetKeepsOrder(f.cool, f.backup, f.history, k, v, exp, off,
                    CoolSet(f.cool, k, v, exp), BackupSet(f.backup, k, off, |v|, exp));
    case DelStep(k) =>
      DelKeepsOrder(f.cool, f.backup, f.history, k);
    case FlushJournal =>
      assert f.cool.os == f.cool.All();
      FlushedCoolCovers(f.cool, f.backup.Flushed(), f.history);
      assert f.cool.Flushed() == f.cool;
    case _ =>
      FlushedCoolCovers(f.cool, f.backup, f.history);
  }

  // --- Whole runs ---

  lemma {:induction false} RunLogged(f: Files, steps: seq<DiskStep>)
    requires LoggedFiles(f)
    ensures var f' := RunSteps(f, steps);
            && LoggedFiles(f') && f.history <= f'.history && f.cool.All() <= f'.cool.All()
            && f.cool.os <= f'.cool.os && f.backup.os <= f'.backup.os
  {
    hide LoggedFiles, Next;
    if steps != [] {
      RunLogged(f, steps[..|steps| - 1]);
      NextLogged(RunSteps(f, steps[..|steps| - 1]), steps[|steps| - 1]);
    }
  }

  /** The journal never outruns the data: from a state in order, every state of a run is in
      order (between the two flushes and after a cold read, too) if and only if every append met its guard. */
  lemma {:induction false} InOrderIffGuarded(f: Files, steps: seq<DiskStep>)
    requires LoggedFiles(f) && InOrder(f) && LegalRun(f, steps)
    ensures AllInOrder(f, steps) <==> AllGuarded(f, steps)
  {
    hide LoggedFiles, InOrder, Next, Guarded, Legal;
    if steps != [] {
      var init := steps[..|steps| - 1];
      InOrderIffGuarded(f, init);
      if AllInOrder(f, init) {
        LastInOrder(f, init);
        RunLogged(f, init);
        NextInOrder(RunSteps(f, init), steps[|steps| - 1]);
      }
    }
  }

  lemma LastInOrder(f: Files, steps: seq<DiskStep>)
    requires AllInOrder(f, steps)
    ensures InOrder(RunSteps(f, steps))
  {
  }

  lemma {:induction false} StepsAppend(f: Files, a: seq<DiskStep>, b: seq<DiskStep>)
    ensures RunSteps(f, a + b) == RunSteps(RunSteps(f, a), b)
    ensures LegalRun(f, a + b) <==> LegalRun(f, a) && LegalRun(RunSteps(f, a), b)
    ensures AllInOrder(f, a + b) <==> AllInOrder(f, a) && AllInOrder(RunSteps(f, a), b)
    decreases |b|
  {
    hide Next, Legal, InOrder;
    if b == [] {
      assert a + b == a;
      assert AllInOrder(f, a) ==> InOrder(RunSteps(f, a));
    } else {
      var init := b[..|b| - 1];
      assert (a + b)[..|a + b| - 1] == a + init && (a + b)[|a + b| - 1] == b[|b| - 1];
      StepsAppend(f, a, init);
    }
  }

  // --- A bound that keeps every append guarded ---

  /** Journal bytes of one step. */
  function JournalBytes(s: DiskStep): (n: nat)
  {
    match s
    case PutStep(k, _, _) => 23 + |k|
    case DelStep(k) => 3 + |k|
    case _ => 0
  }

  /** Journal bytes appended since the journal was last flushed, `n` of them before the run. */
  function Fill(n: nat, steps: seq<DiskStep>): (m: nat)
  {
    if steps == [] then n
    else if steps[|steps| - 1].FlushJournal? then 0
    else Fill(n, steps[..|steps| - 1]) + JournalBytes(steps[|steps| - 1])
  }

  /** Between two flushes of the journal never more is appended to it than its buffer holds. */
  predicate FitsBuffer(n: nat, steps: seq<DiskStep>) {
    Fill(n, steps) <= BUF_CAPACITY && (steps == [] || FitsBuffer(n, steps[..|steps| - 1]))
  }

  lemma FitGuards(f: Files, s: DiskStep)
    requires LoggedFiles(f) && Legal(f, s) && (s.FlushJournal? || |f.backup.buf| + JournalBytes(s) <= BUF_CAPACITY)
    ensures Guarded(f, s)
    ensures |Next(f, s).backup.buf| == if s.FlushJournal? then 0 else |f.backup.buf| + JournalBytes(s)
  {
    hide CoolSet, FileDel, BackupSet, EncodeLog, EndsBy;
    match s
    case PutStep(k, v, exp) =>
      BackupSetGrows(f.backup, k, |f.cool.All()| + COOL_SET_HEADER + |k|, |v|, exp);
    case DelStep(k) =>
      FileDelGrows(f.backup, k);
    case _ =>
  }

  /** A bound the caller can check: as long as the journal bytes between two flushes fit the
      buffer, every append is guarded and every state is in order. */
  lemma {:induction false} FitsBufferInOrder(f: Files, steps: seq<DiskStep>)
    requires LoggedFiles(f) && InOrder(f) && LegalRun(f, steps) && FitsBuffer(|f.backup.buf|, steps)
    ensures AllGuarded(f, steps) && AllInOrder(f, steps)
    ensures |RunSteps(f, steps).backup.buf| == Fill(|f.backup.buf|, steps)
  {
    hide LoggedFiles, InOrder, Next, Guarded, Legal;
    if steps != [] {
      var init, s := steps[..|steps| - 1], steps[|steps| - 1];
      FitsBufferInOrder(f, init);
      RunLogged(f, init);
      FitGuards(RunSteps(f, init), s);
      InOrderIffGuarded(f, steps);
    }
  }

  lemma {:induction false} FillAppend(n: nat, a: seq<DiskStep>, b: seq<DiskStep>)
    ensures Fill(n, a + b) == Fill(Fill(n, a), b)
    ensures FitsBuffer(n, a + b) <==> FitsBuffer(n, a) && FitsBuffer(Fill(n, a), b)
    decreases |b|
  {
    if b == [] {
      assert a + b == a;
      assert FitsBuffer(n, a) ==> Fill(n, a) <= BUF_CAPACITY;
    } else {
      var init := b[..|b| - 1];
      assert (a + b)[..|a + b| - 1] == a + init && (a + b)[|a + b| - 1] == b[|b| - 1];
      FillAppend(n, a, init);
    }
  }

  // --- A process crash ---

  /** What a process crash can leave on file when the journal and the data of `f` were being written. */
  predicate CrashPoint(f: Files, coolFile: bytes, backupFile: bytes) {
    coolFile <= f.cool.All() && backupFile <= f.backup.All() && EndsBy(Replay(backupFile), |coolFile|)
  }

  /** Between two steps. */
  lemma CrashBetween(f: Files)
    requires InOrder(f)
    ensures CrashPoint(f, f.cool.os, f.backup.os)
  {
  }

  lemma {:induction false} ReplayMonotone(a: bytes, b: bytes)
    requires a <= b
    ensures Replay(a) <= Replay(b)
    decreases |a|
  {
    if ParseRec(a).Some? {
      assert b == a + b[|a|..];
      ParseStable(a, b[|a|..]);
      var (r, n) := ParseRec(a).value;
      ReplayMonotone(a[n..], b[n..]);
    }
  }

  lemma PiecesSplit(f: BufFile, a: seq<bytes>, b: seq<bytes>)
    ensures WritePieces(f, a + b) == WritePieces(WritePieces(f, a), b)
    decreases |a|
  {
    if a == [] {
      assert a + b == b;
    } else {
      assert (a + b)[0] == a[0] && (a + b)[1..] == a[1..] + b;
      PiecesSplit(WriteAll(f, a[0]), a[1..], b);
    }
  }

  lemma {:induction false} PiecesOnlyAdd(f: BufFile, pieces: seq<bytes>)
    ensures f.os <= WritePieces(f, pieces).os && f.All() <= WritePieces(f, pieces).All()
    decreases |pieces|
  {
    if pieces != [] {
      var g := WriteAll(f, pieces[0]);
      Assoc(f.os, f.buf, pieces[0]);
      assert g.All() == f.All() + pieces[0];
      PiecesOnlyAdd(g, pieces[1..]);
    }
  }

  /** What is on file after some of the pieces is a prefix of what is there after all of them. */
  lemma PiecesPartial(f: BufFile, pieces: seq<bytes>, i: nat)
    requires i <= |pieces|
    ensures f.os <= WritePieces(f, pieces[..i]).os <= WritePieces(f, pieces).os
  {
    PiecesSplit(f, pieces[..i], pieces[i..]);
    assert pieces[..i] + pieces[i..] == pieces;
    PiecesOnlyAdd(f, pieces[..i]);
    PiecesOnlyAdd(WritePieces(f, pieces[..i]), pieces[i..]);
  }

  /** In the middle of a guarded append, after any piece written to the value log or, later, to the journal. */
  lemma CrashInside(f: Files, s: DiskStep, cool: seq<bytes>, backup: seq<bytes>, i: nat, j: nat)
    requires LoggedFiles(f) && InOrder(f) && Legal(f, s) && Guarded(f, s)
    requires Next(f, s).cool == WritePieces(f.cool, cool) && Next(f, s).backup == WritePieces(f.backup, backup)
    requires i <= |cool| && j <= |backup|
    ensures CrashPoint(Next(f, s), WritePieces(f.cool, cool[..i]).os, f.backup.os)
    ensures CrashPoint(Next(f, s), Next(f, s).cool.os, WritePieces(f.backup, backup[..j]).os)
  {
    hide LoggedFiles, Guarded, Legal, Next, WritePieces;
    var f' := Next(f, s);
    NextInOrder(f, s);
    PiecesPartial(f.cool, cool, i);
    PiecesPartial(f.backup, backup, 0);
    PiecesPartial(f.backup, backup, j);
    ReplayMonotone(WritePieces(f.backup, backup[..j]).os, f'.backup.os);
  }

  /** What had reached the journal file by some point survives a crash at any later one. */
  lemma FlushedSurvives(f: Files, steps: seq<DiskStep>)
    requires LoggedFiles(f)
    ensures Replay(f.backup.os) <= Replay(RunSteps(f, steps).backup.os)
    ensures f.backup.buf == [] ==> Replay(f.backup.os) == f.history
  {
    RunLogged(f, steps);
    ReplayMonotone(f.backup.os, RunSteps(f, steps).backup.os);
    if f.backup.buf == [] {
      assert f.backup.All() == f.backup.os;
      ReplayOfLog(f.history);
    }
  }

  // --- What was written ---

  datatype Write = Wrote(key: bytes, value: bytes, exp: nat) | Erased(key: bytes)

  /** A journal record together with the value it points at. */
  function WriteOf(r: IndexRecord, cool: bytes): (w: Write)
    requires r.SetRec? ==> r.valOff + r.vlen <= |cool|
  {
    if r.SetRec? then Wrote(r.key, cool[r.valOff..r.valOff + r.vlen], r.exp) else Erased(r.key)
  }

  function Written(h: seq<IndexRecord>, cool: bytes): (ws: seq<Write>)
    requires EndsBy(h, |cool|)
    ensures |ws| == |h|
  {
    seq(|h|, i requires 0 <= i < |h| => WriteOf(h[i], cool))
  }

  /** Everything written to these files, in order. */
  function WrittenTo(f: Files): (ws: seq<Write>)
    requires LoggedFiles(f)
  {
    Written(f.history, f.cool.All())
  }

  /** What the appends of a run wrote. */
  function Appended(steps: seq<DiskStep>): (ws: seq<Write>)
  {
    if steps == [] then []
    else
      Appended(steps[..|steps| - 1]) +
      match steps[|steps| - 1]
      case PutStep(k, v, exp) => [Wrote(k, v, exp)]
      case DelStep(k) => [Erased(k)]
      case _ => []
  }

  lemma {:induction false} AppendedAppend(a: seq<DiskStep>, b: seq<DiskStep>)
    ensures Appended(a + b) == Appended(a) + Appended(b)
    decreases |b|
  {
    if b == [] {
      assert a + b == a;
    } else {
      var init := b[..|b| - 1];
      assert (a + b)[..|a + b| - 1] == a + init && (a + b)[|a + b| - 1] == b[|b| - 1];
      AppendedAppend(a, init);
    }
  }

  /** More data behind does not change what the records say. */
  lemma WrittenStable(h: seq<IndexRecord>, cool: bytes, cool': bytes)
    requires EndsBy(h, |cool|) && cool <= cool'
    ensures EndsBy(h, |cool'|) && Written(h, cool') == Written(h, cool)
  {
    assert cool == cool'[..|cool|];
    forall i | 0 <= i < |h| && h[i].SetRec?
      ensures cool'[h[i].valOff..h[i].valOff + h[i].vlen] == cool[h[i].valOff..h[i].valOff + h[i].vlen]
    {
    }
  }

  lemma WrittenPrefix(h: seq<IndexRecord>, p: seq<IndexRecord>, cool: bytes)
    requires p <= h && EndsBy(h, |cool|)
    ensures EndsBy(p, |cool|) && Written(h, cool)[..|p|] == Written(p, cool)
  {
    assert forall i | 0 <= i < |p| :: p[i] == h[i];
  }

  lemma WrittenNext(f: Files, s: DiskStep)
    requires LoggedFiles(f) && Legal(f, s)
    ensures LoggedFiles(Next(f, s))
    ensures WrittenTo(Next(f, s)) == WrittenTo(f) + Appended([s])
  {
    hide CoolSet, BackupSet, FileDel, EncodeLog;
    var f' := Next(f, s);
    NextLogged(f, s);
    WrittenStable(f.history, f.cool.All(), f'.cool.All());
    assert [s][..0] == [];
    if s.PutStep? {
      PutGrows(f, s.key, s.value, s.exp);
    }
    assert Written(f'.history, f'.cool.All())[..|f.history|] == Written(f.history, f'.cool.All());
  }

  /** The journal together with the value log says what was written, in order, whatever else happened in between. */
  lemma {:induction false} WrittenByRun(f: Files, steps: seq<DiskStep>)
    requires LoggedFiles(f) && LegalRun(f, steps)
    ensures LoggedFiles(RunSteps(f, steps))
    ensures WrittenTo(RunSteps(f, steps)) == WrittenTo(f) + Appended(steps)
  {
    hide Next, Legal, WrittenTo, LoggedFiles;
    RunLogged(f, steps);
    if steps != [] {
      var init, s := steps[..|steps| - 1], steps[|steps| - 1];
      WrittenByRun(f, init);
      WrittenNext(RunSteps(f, init), s);
      assert steps == init + [s];
      AppendedAppend(init, [s]);
      Assoc(WrittenTo(f), Appended(init), Appended([s]));
    } else {
      assert WrittenTo(f) + [] == WrittenTo(f);
    }
  }

  /** A process crash after any number of steps of a guarded run: the journal on file points only at data on
      file, and it still covers everything written before any earlier flush of the journal. */
  lemma CrashAnywhere(f: Files, steps: seq<DiskStep>, j: nat, i: nat)
    requires LoggedFiles(f) && InOrder(f) && LegalRun(f, steps) && AllGuarded(f, steps) && j <= i <= |steps|
    ensures var g, h := RunSteps(f, steps[..j]), RunSteps(f, steps[..i]);
            && LoggedFiles(g) && LoggedFiles(h)
            && CrashPoint(h, h.cool.os, h.backup.os)
            && WrittenTo(h) == WrittenTo(f) + Appended(steps[..i])
            && WrittenTo(g) <= WrittenTo(h) && h.history <= RunSteps(f, steps).history
            && (g.backup.buf == [] ==> |WrittenTo(g)| <= |Replay(h.backup.os)|)
  {
    hide LoggedFiles, InOrder, Legal, Next, Guarded, Replay, CrashPoint, AllGuarded;
    var a, b := steps[..i], steps[i..];
    assert a + b == steps;
    InOrderIffGuarded(f, steps);
    StepsAppend(f, a, b);
    LastInOrder(f, a);
    CrashBetween(RunSteps(f, a));
    WrittenByRun(f, a);
    RunLogged(RunSteps(f, a), b);
    var c, d := steps[..j], steps[j..i];
    assert c + d == a;
    StepsAppend(f, c, d);
    RunLogged(f, c);
    WrittenByRun(RunSteps(f, c), d);
    FlushedSurvives(RunSteps(f, c), d);
  }

  /** `steps` lead from `f` to `f'`, appending the writes `ws`. */
  predicate Did(f: Files, steps: seq<DiskStep>, f': Files, ws: seq<Write>) {
    LegalRun(f, steps) && RunSteps(f, steps) == f' && Appended(steps) == ws
  }

  // --- The journal bytes of a part of a run ---

  predicate Unflushed(steps: seq<DiskStep>) {
    forall i | 0 <= i < |steps| :: !steps[i].FlushJournal?
  }

  function TotalBytes(steps: seq<DiskStep>): (n: nat)
  {
    if steps == [] then 0 else TotalBytes(steps[..|steps| - 1]) + JournalBytes(steps[|steps| - 1])
  }

  lemma {:induction false} TotalAppend(a: seq<DiskStep>, b: seq<DiskStep>)
    ensures TotalBytes(a + b) == TotalBytes(a) + TotalBytes(b)
    decreases |b|
  {
    if b == [] {
      assert a + b == a;
    } else {
      var init := b[..|b| - 1];
      assert (a + b)[..|a + b| - 1] == a + init && (a + b)[|a + b| - 1] == b[|b| - 1];
      TotalAppend(a, init);
    }
  }

  lemma {:induction false} UnflushedFits(n: nat, steps: seq<DiskStep>)
    requires Unflushed(steps) && n + TotalBytes(steps) <= BUF_CAPACITY
    ensures FitsBuffer(n, steps) && Fill(n, steps) == n + TotalBytes(steps)
  {
    if steps != [] {
      UnflushedFits(n, steps[..|steps| - 1]);
    }
  }

  lemma FlushFits(n: nat, steps: seq<DiskStep>)
    requires FitsBuffer(n, steps)
    ensures FitsBuffer(n, steps + [FlushCool, FlushJournal]) && Fill(n, steps + [FlushCool, FlushJournal]) == 0
  {
    var flush: seq<DiskStep> := [FlushCool, FlushJournal];
    FillAppend(n, steps, flush);
    assert flush[..1] == [FlushCool] && [FlushCool][..0] == [];
    assert Fill(Fill(n, steps), [FlushCool]) == Fill(n, steps);
    assert FitsBuffer(Fill(n, steps), [FlushCool]);
  }

  /** Steps that fit the buffer, then both flushes. */
  lemma FlushedFits(n: nat, steps: seq<DiskStep>)
    requires Unflushed(steps) && n + TotalBytes(steps) <= BUF_CAPACITY
    ensures FitsBuffer(n, steps + [FlushCool, FlushJournal]) && Fill(n, steps + [FlushCool, FlushJournal]) == 0
  {
    var flush: seq<DiskStep> := [FlushCool, FlushJournal];
    UnflushedFits(n, steps);
    FlushFits(n, steps);
  }
}
