/** A connection's reader: plan each frame, bucket operations by shard, dispatch one batch per shard. */
module Server {
  import opened Prelude
  import opened Codec
  import opened Wire
  import opened Hashing
  import opened TtlMap

  datatype Plan = Immediate(payload: bytes) | ToShard(shard: nat, op: Op)

  /** An operation under its correlation id. */
  datatype Tagged = Tagged(id: nat, op: Op)

  /** What a reader pass is handed for each frame: the frame, or why decoding stopped. */
  type Incoming = Result<Frame, Decoded>

  function Decimal(n: nat): (s: string)
  {
    (if n < 10 then "" else Decimal(n / 10)) + [(n % 10 + 48) as char]
  }

  function ErrorText(e: ParseError): (s: string)
  {
    match e
    case EmptyPayload => "empty request payload"
    case TruncatedFieldLength => "truncated field length"
    case TruncatedFieldBody => "truncated field body"
    case TruncatedTtl => "truncated ttl"
    case UnknownOp(op) => "unknown op " + Decimal(op)
  }

  function PlanOf(hash: bytes -> nat, workers: nat, f: Frame): (p: Plan)
    requires workers > 0
    ensures p.ToShard? ==> p.shard == RouteShard(hash, p.op.key, workers) && p.shard < workers
  {
    if f.header == REQUEST then
      match Parse(f.payload)
      case Ok(op) => ToShard(RouteShard(hash, op.key, workers), op)
      case Err(e) => Immediate(Ascii("ERR ") + Ascii(ErrorText(e)))
    else if f.header == HEARTBEAT then Immediate(RESP_ONE)
    else if f.header == HANDSHAKE then Immediate(Ascii("Handshake process already completed"))
    else Immediate(Ascii("Invalid command"))
  }

  /** Client to shard: an operation whose payload fits a frame reaches its shard as it was sent. */
  lemma RequestReachesShard(hash: bytes -> nat, workers: nat, id: nat, op: Op)
    requires workers > 0 && id < U32 && WireOp(op) && |EncodeOp(op)| < U16
    ensures var r := DecodeOne(true, EncodeFrame(RequestFrame(id, op)));
            && r.Got? && r.frame.reqId == id
            && PlanOf(hash, workers, r.frame) == ToShard(RouteShard(hash, op.key, workers), op)
  {
    RequestRoundTrip(id, op);
  }

  /** A frame reaches a shard exactly when it is a request whose payload encodes an operation: that operation, and the shard of its key. */
  lemma OnlyRequestsReachShards(hash: bytes -> nat, workers: nat, f: Frame, op: Op, s: nat)
    requires workers > 0
    ensures PlanOf(hash, workers, f) == ToShard(s, op) <==>
            f.header == REQUEST && Encodes(op, f.payload) && s == RouteShard(hash, op.key, workers)
  {
    ParsesExactly(f.payload, op);
  }

  // --- What the reader answers itself ---

  predicate IsAscii(s: string) {
    forall i | 0 <= i < |s| :: s[i] as int < 128
  }

  lemma AsciiInjective(a: string, b: string)
    requires IsAscii(a) && IsAscii(b)
    ensures Ascii(a) == Ascii(b) <==> a == b
  {
    if Ascii(a) == Ascii(b) {
      forall i | 0 <= i < |a|
        ensures a[i] == b[i]
      {
        assert a[i] as int == Ascii(a)[i] == Ascii(b)[i] == b[i] as int;
      }
    }
  }

  /** The number a row of decimal digits stands for. */
  function Number(s: string): (n: int)
  {
    if s == "" then 0 else 10 * Number(s[..|s| - 1]) + (s[|s| - 1] as int - 48)
  }

  lemma {:induction false} DecimalReads(n: nat)
    ensures Decimal(n) != "" && Number(Decimal(n)) == n && forall i | 0 <= i < |Decimal(n)| :: '0' <= Decimal(n)[i] <= '9'
    ensures Decimal(n)[0] == '0' ==> n == 0
  {
    var last := [(n % 10 + 48) as char];
    if n < 10 {
      assert Decimal(n) == last && last[..0] == "";
      assert Number(last) == 10 * Number("") + n;
    } else {
      DecimalReads(n / 10);
      assert (Decimal(n / 10) + last)[..|Decimal(n / 10)|] == Decimal(n / 10);
    }
  }

  lemma DecimalsDiffer(a: nat, b: nat)
    ensures Ascii(Decimal(a)) == Ascii(Decimal(b)) <==> a == b
  {
    DecimalReads(a);
    DecimalReads(b);
    AsciiInjective(Decimal(a), Decimal(b));
  }

  /** No two causes share a text. */
  lemma TextTellsCause(a: ParseError, b: ParseError)
    ensures Ascii(ErrorText(a)) == Ascii(ErrorText(b)) <==> a == b
  {
    if a.UnknownOp? && b.UnknownOp? {
      DecimalsDiffer(a.op, b.op);
      UnknownText(a.op);
      UnknownText(b.op);
    } else if a != b {
      TextShape(a);
      TextShape(b);
      hide ErrorText;
    }
  }

  lemma UnknownText(op: byte)
    ensures Ascii(ErrorText(UnknownOp(op)))[11..] == Ascii(Decimal(op))
  {
    var head, tail := "unknown op ", Decimal(op);
    assert |head| == 11;
    assert forall i | 0 <= i < |tail| :: (head + tail)[11 + i] == tail[i];
  }

  /** Length and first letter tell all causes but the unknown op codes apart. */
  lemma TextShape(e: ParseError)
    ensures var t := Ascii(ErrorText(e));
            && |t| >= 12
            && (e.UnknownOp? ==> t[0] == 117)
            && (e.EmptyPayload? ==> |t| == 21 && t[0] == 101)
            && (e.TruncatedFieldLength? ==> |t| == 22 && t[0] == 116)
            && (e.TruncatedFieldBody? ==> |t| == 20 && t[0] == 116)
            && (e.TruncatedTtl? ==> |t| == 13 && t[0] == 116)
  {
  }

  function Refusal(e: ParseError): (p: bytes)
  {
    Ascii("ERR ") + Ascii(ErrorText(e))
  }

  lemma RefusalTellsCause(a: ParseError, b: ParseError)
    ensures Refusal(a) == Refusal(b) <==> a == b
  {
    TextTellsCause(a, b);
    Cut2(Ascii("ERR "), Ascii(ErrorText(a)));
    Cut2(Ascii("ERR "), Ascii(ErrorText(b)));
  }

  lemma RefusedAs(hash: bytes -> nat, workers: nat, f: Frame, e: ParseError)
    requires workers > 0 && f.header == REQUEST
    ensures PlanOf(hash, workers, f) == Immediate(Refusal(e)) <==> Parse(f.payload) == Err(e)
  {
    if Parse(f.payload).Err? {
      RefusalTellsCause(Parse(f.payload).err, e);
    }
  }

  /** A request is refused exactly when its payload encodes no operation. Its bytes decide what it is told,
      and whatever that is, it cannot be taken for an answer of a shard. */
  lemma RefusedRequest(hash: bytes -> nat, workers: nat, f: Frame, b: byte)
    requires workers > 0 && f.header == 3
    ensures var r, p := PlanOf(hash, workers, f), f.payload; var known := p != [] && 1 <= p[0] <= 4;
            && (r.Immediate? <==> forall op :: !Encodes(op, p))
            && (r.Immediate? ==> Ascii("ERR ") <= r.payload
                                 && r.payload !in {Ascii("OK"), Ascii("1"), Ascii("0"), Ascii("(nil)")})
            && (r == Immediate(Ascii("ERR ") + Ascii("empty request payload")) <==> p == [])
            && (r == Immediate(Ascii("ERR ") + Ascii("unknown op " + Decimal(b))) <==> p != [] && !known && p[0] == b)
            && (r == Immediate(Ascii("ERR ") + Ascii("truncated field length")) <==> known && |p| < 3)
            && (r == Immediate(Ascii("ERR ") + Ascii("truncated field body")) <==> known && |p| >= 3 && |p| < 3 + KeyLength(p))
            && (r == Immediate(Ascii("ERR ") + Ascii("truncated ttl")) <==>
                  known && p[0] == 4 && |p| >= 3 && 3 + KeyLength(p) <= |p| < 7 + KeyLength(p))
  {
    RefusedWhen(hash, workers, f);
    RefusalCauses(f.payload, b);
    hide PlanOf, Parse, Ascii, Decimal, Encodes, KeyLength;
    RefusedAs(hash, workers, f, EmptyPayload);
    RefusedAs(hash, workers, f, UnknownOp(b));
    RefusedAs(hash, workers, f, TruncatedFieldLength);
    RefusedAs(hash, workers, f, TruncatedFieldBody);
    RefusedAs(hash, workers, f, TruncatedTtl);
  }

  lemma RefusedWhen(hash: bytes -> nat, workers: nat, f: Frame)
    requires workers > 0 && f.header == REQUEST
    ensures var r := PlanOf(hash, workers, f);
            && (r.Immediate? <==> forall op :: !Encodes(op, f.payload))
            && (r.Immediate? ==> Ascii("ERR ") <= r.payload
                                 && r.payload !in {Ascii("OK"), Ascii("1"), Ascii("0"), Ascii("(nil)")})
  {
    var r := PlanOf(hash, workers, f);
    if r.ToShard? {
      ParsesExactly(f.payload, r.op);
    } else {
      forall op
        ensures !Encodes(op, f.payload)
      {
        ParsesExactly(f.payload, op);
      }
      hide Encodes;
      NotAnAnswer(r.payload);
    }
  }

  lemma NotAnAnswer(said: bytes)
    requires Ascii("ERR ") <= said
    ensures said !in {Ascii("OK"), Ascii("1"), Ascii("0"), Ascii("(nil)")}
  {
    assert said[0] == Ascii("ERR ")[0] == 69;
    assert Ascii("OK")[0] == 79 && Ascii("1")[0] == 49 && Ascii("0")[0] == 48 && Ascii("(nil)")[0] == 40;
  }

  /** What the other frames are told: a heartbeat "1", whatever it carries; a second handshake and a response
      texts of their own, which no shard and no handshake answers. */
  lemma OtherFramesAreTold(hash: bytes -> nat, workers: nat, f: Frame)
    requires workers > 0 && KnownHeader(f.header) && f.header != 3
    ensures var r := PlanOf(hash, workers, f);
            && (f.header == 5 <==> r == Immediate(Ascii("1")))
            && (f.header == 1 <==> r == Immediate(Ascii("Handshake process already completed")))
            && (f.header == 4 <==> r == Immediate(Ascii("Invalid command")))
            && (r == Immediate(Ascii("1")) || r.payload !in {Ascii("OK"), Ascii("0"), Ascii("(nil)")})
  {
    assert Ascii("1") == RESP_ONE;
    assert Ascii("Handshake process already completed")[0] == 72 && Ascii("Invalid command")[0] == 73;
    assert Ascii("OK")[0] == 79 && Ascii("0")[0] == 48 && Ascii("(nil)")[0] == 40;
  }

  /** Whatever a frame asks of a shard, the log and the replies can carry. */
  lemma PlannedFits(hash: bytes -> nat, workers: nat, f: Frame)
    requires workers > 0 && |f.payload| < U16
    ensures var p := PlanOf(hash, workers, f); p.ToShard? ==> StorableOp(p.op)
  {
    if f.header == REQUEST && Parse(f.payload).Ok? {
      ParsedIsStorable(f.payload);
    }
  }

  lemma PlannedIsStorable(hash: bytes -> nat, workers: nat, src: bytes)
    requires workers > 0 && DecodeOne(true, src).Got?
    ensures var p := PlanOf(hash, workers, DecodeOne(true, src).frame); p.ToShard? ==> StorableOp(p.op)
  {
    DecodedIsEncoding(true, src);
    PlannedFits(hash, workers, DecodeOne(true, src).frame);
  }

  lemma ShortDecimal(n: nat)
    requires n < 1000
    ensures |Decimal(n)| <= 3
  {
    if n >= 10 {
      assert |Decimal(n / 10)| <= 2 by {
        if n / 10 >= 10 {
          assert n / 10 / 10 < 10;
        }
      }
    }
  }

  /** What the reader answers itself fits a response frame. */
  lemma ImmediateFits(hash: bytes -> nat, workers: nat, f: Frame)
    requires workers > 0
    ensures var p := PlanOf(hash, workers, f); p.Immediate? ==> |p.payload| < 64
  {
    if f.header == REQUEST && Parse(f.payload).Err? && Parse(f.payload).err.UnknownOp? {
      ShortDecimal(Parse(f.payload).err.op);
    }
  }

  // --- The first frame ---

  /** The reply to the first frame, and whether the connection goes on. */
  function Greet(auth: Option<(bytes, bytes)>, f: Frame): (r: (bytes, bool))
  {
    if f.header != HANDSHAKE then (Ascii("ERR ") + Ascii("complete handshake before sending commands"), false)
    else
      var ok := auth.None? || ParseCredentials(f.payload) == auth.value;
      (if ok then RESP_OK else Ascii("ERR ") + Ascii("auth failed"), ok)
  }

  /** A client is let in, and told "OK", exactly when no credentials are configured or it sent them; any other first frame is turned away. */
  lemma LoginDecides(auth: Option<(bytes, bytes)>, user: bytes, pass: bytes, f: Frame)
    requires 2 + |user| + |pass| < U16 && Sendable(f)
    ensures var r := DecodeOne(true, EncodeFrame(Frame(HANDSHAKE, 0, EncodeCredentials(user, pass))));
            && r.Got?
            && (Greet(auth, r.frame).1 <==> auth == None || auth == Some((user, pass)))
            && (Greet(auth, r.frame).0 == RESP_OK <==> Greet(auth, r.frame).1)
    ensures Greet(auth, f).1 ==> f.header == HANDSHAKE
  {
    CredentialsRoundTrip(user, pass);
  }

  /** For any first frame at all: it is let in exactly when it is a handshake whose payload stands for the configured
      credentials, if any are configured. It is told "OK" exactly then, and otherwise something that begins with "ERR ". */
  lemma GreetDecides(auth: Option<(bytes, bytes)>, f: Frame)
    ensures var (said, on) := Greet(auth, f);
            && (on <==> f.header == 1 && (auth == None || auth == Some(ParseCredentials(f.payload))))
            && (said == Ascii("OK") <==> on)
            && (Ascii("ERR ") <= said <==> !on)
            && (f.header != 1 ==> said == Ascii("ERR ") + Ascii("complete handshake before sending commands"))
            && (f.header == 1 && !on ==> said == Ascii("ERR ") + Ascii("auth failed"))
  {
    assert Ascii("OK") == RESP_OK;
    assert Ascii("ERR ")[0] == 69 && Ascii("OK")[0] == 79;
  }

  // --- One reader pass ---

  /** The operations of these frames that go to shard `s`, in decode order. */
  function Share(hash: bytes -> nat, workers: nat, fs: seq<Frame>, s: nat): (ops: seq<Tagged>)
    requires workers > 0
  {
    if fs == [] then []
    else
      var f := fs[|fs| - 1];
      var p := PlanOf(hash, workers, f);
      Share(hash, workers, fs[..|fs| - 1], s) + if p.ToShard? && p.shard == s then [Tagged(f.reqId, p.op)] else []
  }

  /** The replies the reader gives itself, in decode order. */
  function Immediates(hash: bytes -> nat, workers: nat, fs: seq<Frame>): (rs: seq<Reply>)
    requires workers > 0
  {
    if fs == [] then []
    else
      var f := fs[|fs| - 1];
      var p := PlanOf(hash, workers, f);
      Immediates(hash, workers, fs[..|fs| - 1]) + if p.Immediate? then [Reply(f.reqId, p.payload)] else []
  }

  /** The frames before the first decode error. */
  function GoodFrames(chunk: seq<Incoming>): (fs: seq<Frame>)
    ensures |fs| <= |chunk|
    ensures forall i | 0 <= i < |fs| :: chunk[i] == Ok(fs[i])
    ensures |fs| < |chunk| ==> chunk[|fs|].Err?
  {
    if chunk == [] || chunk[0].Err? then [] else [chunk[0].ok] + GoodFrames(chunk[1..])
  }

  /** How many of these frames, replies or operations bear the id `id`. */
  function FramesOf(fs: seq<Frame>, id: nat): (n: nat)
  {
    if fs == [] then 0 else FramesOf(fs[..|fs| - 1], id) + if fs[|fs| - 1].reqId == id then 1 else 0
  }

  function RepliesOf(rs: seq<Reply>, id: nat): (n: nat)
  {
    if rs == [] then 0 else RepliesOf(rs[..|rs| - 1], id) + if rs[|rs| - 1].id == id then 1 else 0
  }

  function OpsOf(ops: seq<Tagged>, id: nat): (n: nat)
  {
    if ops == [] then 0 else OpsOf(ops[..|ops| - 1], id) + if ops[|ops| - 1].id == id then 1 else 0
  }

  /** Over the first `s` shards together. */
  function Total(hash: bytes -> nat, workers: nat, fs: seq<Frame>, id: nat, s: nat): (n: nat)
    requires workers > 0
  {
    if s == 0 then 0 else Total(hash, workers, fs, id, s - 1) + OpsOf(Share(hash, workers, fs, s - 1), id)
  }

  /** Conservation: under every request id there are exactly as many immediate replies and bucketed
      operations together as there were frames. */
  lemma {:induction false} EachFrameOnce(hash: bytes -> nat, workers: nat, fs: seq<Frame>, id: nat)
    requires workers > 0
    ensures RepliesOf(Immediates(hash, workers, fs), id) + Total(hash, workers, fs, id, workers) == FramesOf(fs, id)
  {
    if fs == [] {
      TotalOfNone(hash, workers, id, workers);
    } else {
      var init, f := fs[..|fs| - 1], fs[|fs| - 1];
      EachFrameOnce(hash, workers, init, id);
      TotalOfOneMore(hash, workers, fs, id, workers);
      hide PlanOf, Total, Share;
      var p, rs := PlanOf(hash, workers, f), Immediates(hash, workers, init);
      assert p.Immediate? ==> (rs + [Reply(f.reqId, p.payload)])[..|rs|] == rs;
      assert rs + [] == rs;
    }
  }

  lemma {:induction false} TotalOfNone(hash: bytes -> nat, workers: nat, id: nat, s: nat)
    requires workers > 0
    ensures Total(hash, workers, [], id, s) == 0
  {
    if s > 0 {
      TotalOfNone(hash, workers, id, s - 1);
    }
  }

  lemma {:induction false} TotalOfOneMore(hash: bytes -> nat, workers: nat, fs: seq<Frame>, id: nat, s: nat)
    requires workers > 0 && fs != []
    ensures var f := fs[|fs| - 1]; var p := PlanOf(hash, workers, f);
            Total(hash, workers, fs, id, s)
            == Total(hash, workers, fs[..|fs| - 1], id, s) + if p.ToShard? && p.shard < s && f.reqId == id then 1 else 0
  {
    hide PlanOf, OpsOf, Share;
    if s > 0 {
      TotalOfOneMore(hash, workers, fs, id, s - 1);
      OpsOfOneMore(hash, workers, fs, id, s - 1);
    }
  }

  lemma OpsOfOneMore(hash: bytes -> nat, workers: nat, fs: seq<Frame>, id: nat, s: nat)
    requires workers > 0 && fs != []
    ensures var f := fs[|fs| - 1]; var p := PlanOf(hash, workers, f);
            OpsOf(Share(hash, workers, fs, s), id)
            == OpsOf(Share(hash, workers, fs[..|fs| - 1], s), id) + if p.ToShard? && p.shard == s && f.reqId == id then 1 else 0
  {
    hide PlanOf;
    var f := fs[|fs| - 1];
    var p, ops := PlanOf(hash, workers, f), Share(hash, workers, fs[..|fs| - 1], s);
    if p.ToShard? && p.shard == s {
      assert (ops + [Tagged(f.reqId, p.op)])[..|ops|] == ops;
    } else {
      assert ops + [] == ops;
    }
  }

  /** This frame asks shard `s` for `t`. */
  predicate Asks(hash: bytes -> nat, workers: nat, f: Frame, s: nat, t: Tagged)
    requires workers > 0
  {
    f.reqId == t.id && PlanOf(hash, workers, f) == ToShard(s, t.op)
  }

  /** And what is bucketed for a shard is what some frame asked of it, under that frame's id, and nothing else. */
  lemma {:induction false} ShareMember(hash: bytes -> nat, workers: nat, fs: seq<Frame>, s: nat, t: Tagged)
    requires workers > 0
    ensures t in Share(hash, workers, fs, s) <==> exists i :: 0 <= i < |fs| && Asks(hash, workers, fs[i], s, t)
  {
    hide PlanOf;
    if fs != [] {
      var init, f := fs[..|fs| - 1], fs[|fs| - 1];
      ShareMember(hash, workers, init, s, t);
      assert t in Share(hash, workers, fs, s) <==> t in Share(hash, workers, init, s) || Asks(hash, workers, f, s, t);
      hide Share, Asks;
      assert fs == init + [f];
      if i :| 0 <= i < |init| && Asks(hash, workers, init[i], s, t) {
        assert Asks(hash, workers, fs[i], s, t);
      }
    }
  }

  lemma {:induction false} ShareAppend(hash: bytes -> nat, workers: nat, a: seq<Frame>, b: seq<Frame>, s: nat)
    requires workers > 0
    ensures Share(hash, workers, a + b, s) == Share(hash, workers, a, s) + Share(hash, workers, b, s)
    decreases |b|
  {
    if b == [] {
      assert a + b == a;
    } else {
      var init := b[..|b| - 1];
      assert (a + b)[..|a + b| - 1] == a + init && (a + b)[|a + b| - 1] == b[|b| - 1];
      ShareAppend(hash, workers, a, init, s);
    }
  }

  /** One frame more, with plan `p`. */
  lemma OneMore(hash: bytes -> nat, workers: nat, good: seq<Frame>, i: nat, p: Plan)
    requires workers > 0 && i < |good| && p == PlanOf(hash, workers, good[i])
    ensures forall s: nat :: Share(hash, workers, good[..i + 1], s)
              == Share(hash, workers, good[..i], s) + if p.ToShard? && p.shard == s then [Tagged(good[i].reqId, p.op)] else []
    ensures Immediates(hash, workers, good[..i + 1])
         == Immediates(hash, workers, good[..i]) + if p.Immediate? then [Reply(good[i].reqId, p.payload)] else []
  {
    hide PlanOf;
    assert good[..i + 1][..i] == good[..i];
  }

  /** Each group holds its shard's share of the frames. */
  predicate Bucketed(groups: seq<seq<Tagged>>, hash: bytes -> nat, workers: nat, fs: seq<Frame>)
    requires workers > 0
  {
    |groups| == workers && forall s | 0 <= s < workers :: groups[s] == Share(hash, workers, fs, s)
  }

  lemma NoneAdded(groups: seq<seq<Tagged>>, hash: bytes -> nat, workers: nat, good: seq<Frame>, i: nat)
    requires workers > 0 && i < |good| && PlanOf(hash, workers, good[i]).Immediate?
    requires Bucketed(groups, hash, workers, good[..i])
    ensures Bucketed(groups, hash, workers, good[..i + 1])
  {
    hide Share, PlanOf;
    OneMore(hash, workers, good, i, PlanOf(hash, workers, good[i]));
  }

  lemma OneAdded(groups: seq<seq<Tagged>>, hash: bytes -> nat, workers: nat, good: seq<Frame>, i: nat, shard: nat, op: Op)
    requires workers > 0 && i < |good| && |groups| == workers && PlanOf(hash, workers, good[i]) == ToShard(shard, op)
    requires Bucketed(groups, hash, workers, good[..i])
    ensures shard < workers
    ensures Bucketed(groups[shard := groups[shard] + [Tagged(good[i].reqId, op)]], hash, workers, good[..i + 1])
  {
    hide Share, PlanOf;
    OneMore(hash, workers, good, i, PlanOf(hash, workers, good[i]));
  }

  lemma BucketedAt(groups: seq<seq<Tagged>>, hash: bytes -> nat, workers: nat, fs: seq<Frame>)
    requires workers > 0 && Bucketed(groups, hash, workers, fs)
    ensures |groups| == workers && forall s | 0 <= s < workers :: groups[s] == Share(hash, workers, fs, s)
  {
  }

  lemma RepliesAdded(before: seq<Reply>, hash: bytes -> nat, workers: nat, good: seq<Frame>, i: nat)
    requires workers > 0 && i < |good|
    ensures before + Immediates(hash, workers, good[..i + 1])
         == before + Immediates(hash, workers, good[..i])
            + match PlanOf(hash, workers, good[i])
              case Immediate(payload) => [Reply(good[i].reqId, payload)]
              case ToShard(_, _) => []
  {
    hide Share, PlanOf, Immediates;
    OneMore(hash, workers, good, i, PlanOf(hash, workers, good[i]));
  }

  // --- handle_conn after the handshake ---

  class Reader {
    const hash: bytes -> nat
    const workers: nat
    /** Operations bucketed but not yet dispatched, per shard. */
    var groups: seq<seq<Tagged>>
    /** Batches this connection has sent to each worker, oldest first. */
    var queues: seq<seq<seq<Tagged>>>
    /** What the reader itself has pushed to the reply channel. */
    var replies: seq<Reply>

    predicate Valid()
      reads this
    {
      && workers > 0 && |groups| == |queues| == workers
      && forall s | 0 <= s < workers :: groups[s] == []
    }

    /** Every operation sent to shard `s` so far, in order, whatever the batches. */
    function Sent(s: nat): (ops: seq<Tagged>)
      reads this
      requires s < |queues|
    {
      Concat(queues[s])
    }

    constructor (hash: bytes -> nat, workers: nat)
      requires workers > 0
      ensures Valid() && this.hash == hash && this.workers == workers && replies == []
      ensures forall s | 0 <= s < workers :: Sent(s) == []
    {
      this.hash := hash;
      this.workers := workers;
      groups := seq(workers, _ => []);
      queues := seq(workers, _ => []);
      replies := [];
    }

    /** One reader pass. Without a decode error every frame is answered at once or appended, in
        decode order, to what its shard was sent, and the groups are empty again. With one,
        the connection ends: frames before it were answered, but no operation of the pass is sent. */
    method Pass(chunk: seq<Incoming>) returns (ended: bool)
      requires Valid()
      modifies this
      ensures ended <==> exists i :: 0 <= i < |chunk| && chunk[i].Err?
      ensures replies == old(replies) + Immediates(hash, workers, GoodFrames(chunk))
      ensures |queues| == workers
      ensures !ended ==> Valid() && |GoodFrames(chunk)| == |chunk|
      ensures !ended ==> forall s | 0 <= s < workers ::
                Sent(s) == old(Sent(s)) + Share(hash, workers, GoodFrames(chunk), s)
      ensures ended ==> queues == old(queues)
    {
      ghost var good := GoodFrames(chunk);
      assert good[..0] == [];
      assert Bucketed(groups, hash, workers, good[..0]);
      assert replies == old(replies) + Immediates(hash, workers, good[..0]);
      hide Share, Immediates, PlanOf, GoodFrames, Bucketed;
      for i := 0 to |chunk|
        invariant i <= |good| && |groups| == workers && queues == old(queues)
        invariant Bucketed(groups, hash, workers, good[..i])
        invariant replies == old(replies) + Immediates(hash, workers, good[..i])
      {
        if chunk[i].Err? {
          assert good[..i] == good;
          return true;
        }
        var frame := chunk[i].ok;
        var p := PlanOf(hash, workers, frame);
        RepliesAdded(old(replies), hash, workers, good, i);
        match p {
          case Immediate(payload) =>
            replies := replies + [Reply(frame.reqId, payload)];
            NoneAdded(groups, hash, workers, good, i);
          case ToShard(shard, op) =>
            OneAdded(groups, hash, workers, good, i, shard, op);
            groups := groups[shard := groups[shard] + [Tagged(frame.reqId, op)]];
        }
      }
      assert good[..|chunk|] == good;
      BucketedAt(groups, hash, workers, good);
      Dispatch();
      ended := false;
    }

    /** Drains each non-empty group into one batch for its worker. */
    method Dispatch()
      requires workers > 0 && |groups| == |queues| == workers
      modifies this`groups, this`queues
      ensures Valid()
      ensures forall s | 0 <= s < workers :: Sent(s) == old(Sent(s)) + old(groups[s])
    {
      for s := 0 to workers
        invariant |groups| == |queues| == workers
        invariant forall t | 0 <= t < s :: groups[t] == [] && Sent(t) == old(Sent(t)) + old(groups[t])
        invariant forall t | s <= t < workers :: groups[t] == old(groups[t]) && queues[t] == old(queues[t])
      {
        if groups[s] == [] {
          continue;
        }
        var batch := groups[s];
        ConcatAppend(queues[s], [batch]);
        assert Concat([batch]) == batch + Concat([]);
        groups := groups[s := []];
        queues := queues[s := queues[s] + [batch]];
      }
    }
  }
}
