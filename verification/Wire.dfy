/** Request payloads and handshake credentials: the client's encoders against the server's parsers. */
module Wire {
  import opened Prelude
  import opened Codec

  const OP_GET: byte := 1
  const OP_SET: byte := 2
  const OP_DEL: byte := 3
  const OP_SETEX: byte := 4

  /** A store operation, as the client asks for it and as the shard applies it; `ttl` in milliseconds. */
  datatype Op =
    | Get(key: bytes)
    | Set(key: bytes, value: bytes)
    | SetEx(key: bytes, value: bytes, ttl: nat)
    | Del(key: bytes)

  datatype ParseError =
    | EmptyPayload
    | TruncatedFieldLength
    | TruncatedFieldBody
    | TruncatedTtl
    | UnknownOp(op: byte)

  /** What the fixed-width length fields of the log and of the protocol can carry. */
  predicate Storable(k: bytes, v: bytes) {
    |k| < U16 && |v| < U16
  }

  predicate StorableOp(op: Op) {
    match op
    case Get(k) => |k| < U16
    case Del(k) => |k| < U16
    case Set(k, v) => Storable(k, v)
    case SetEx(k, v, ttl) => Storable(k, v) && ttl < U32
  }

  /** The client API takes the ttl as a u32. */
  predicate WireOp(op: Op) {
    op.SetEx? ==> op.ttl < U32
  }

  // --- Client side ---

  function Encode(op: byte, key: bytes, value: bytes): (p: bytes)
  {
    [op] + Be16(AsU16(|key|)) + key + value
  }

  function EncodeOp(op: Op): (p: bytes)
    requires WireOp(op)
  {
    match op
    case Get(k) => Encode(OP_GET, k, [])
    case Set(k, v) => Encode(OP_SET, k, v)
    case Del(k) => Encode(OP_DEL, k, [])
    case SetEx(k, v, ttl) => [OP_SETEX] + Be16(AsU16(|k|)) + k + Be32(ttl) + v
  }

  /** The request frame `call` writes for the slot `id`. */
  function RequestFrame(id: nat, op: Op): (f: Frame)
    requires WireOp(op)
  {
    Frame(REQUEST, id, EncodeOp(op))
  }

  // --- Server side ---

  function ReadField(buf: bytes): (r: Result<(bytes, bytes), ParseError>)
  {
    if |buf| < 2 then Err(TruncatedFieldLength)
    else
      var end := 2 + De16(buf[..2]);
      if |buf| < end then Err(TruncatedFieldBody)
      else Ok((buf[2..end], buf[end..]))
  }

  function Parse(buf: bytes): (r: Result<Op, ParseError>)
  {
    if buf == [] then Err(EmptyPayload)
    else
      var op, rest := buf[0], buf[1..];
      if op != OP_GET && op != OP_SET && op != OP_SETEX && op != OP_DEL then Err(UnknownOp(op))
      else
        match ReadField(rest)
        case Err(e) => Err(e)
        case Ok((key, after)) =>
          if op == OP_GET then Ok(Get(key))
          else if op == OP_SET then Ok(Set(key, after))
          else if op == OP_DEL then Ok(Del(key))
          else if |after| < 4 then Err(TruncatedTtl)
          else Ok(SetEx(key, after[4..], De32(after[..4])))
  }

  lemma FieldIsEncoding(buf: bytes)
    requires ReadField(buf).Ok?
    ensures var (key, after) := ReadField(buf).ok;
            |key| < U16 && buf == Be16(AsU16(|key|)) + key + after
  {
    Inverse16(0, buf[..2]);
    Glue3(buf, 2, 2 + De16(buf[..2]));
  }

  lemma FieldOfEncoding(key: bytes, after: bytes)
    requires |key| < U16
    ensures ReadField(Be16(AsU16(|key|)) + key + after) == Ok((key, after))
  {
    Inverse16(|key|, []);
    FieldOfLength(Be16(|key|), key, after);
  }

  lemma FieldOfLength(len: bytes, key: bytes, after: bytes)
    requires |len| == 2 && De16(len) == |key|
    ensures ReadField(len + key + after) == Ok((key, after))
  {
    Cut3(len, key, after);
  }

  /** The bytes shared by all four operations: op code, then the key as a field. */
  function Head(op: byte, key: bytes): (p: bytes)
  {
    [op] + Be16(AsU16(|key|)) + key
  }

  function Tail(op: Op): (p: bytes)
    requires WireOp(op)
  {
    match op
    case Set(_, v) => v
    case SetEx(_, v, ttl) => Be32(ttl) + v
    case _ => []
  }

  function OpCode(op: Op): (b: byte)
  {
    match op
    case Get(_) => OP_GET
    case Set(_, _) => OP_SET
    case Del(_) => OP_DEL
    case SetEx(_, _, _) => OP_SETEX
  }

  lemma EncodedShape(op: Op)
    requires WireOp(op)
    ensures EncodeOp(op) == Head(OpCode(op), op.key) + Tail(op)
  {
    if op.SetEx? {
      Assoc(Head(OP_SETEX, op.key), Be32(op.ttl), op.value);
    }
  }

  lemma HeadShape(o: byte, key: bytes, after: bytes)
    ensures (Head(o, key) + after)[0] == o
    ensures (Head(o, key) + after)[1..] == Be16(AsU16(|key|)) + key + after
  {
    TailOfCons(o, Be16(AsU16(|key|)), key, after);
  }

  lemma TailOfCons<T>(o: T, a: seq<T>, b: seq<T>, c: seq<T>)
    ensures var s := [o] + a + b + c; s[0] == o && s[1..] == a + b + c
  {
  }

  /** Whatever parses is a prefix that re-encodes to itself; only GET and DEL may be followed by ignored bytes. */
  lemma ParsedIsEncoding(p: bytes)
    requires Parse(p).Ok?
    ensures var op := Parse(p).ok;
            && WireOp(op)
            && EncodeOp(op) <= p
            && (op.Set? || op.SetEx? ==> EncodeOp(op) == p)
            && |op.key| < U16
  {
    var op := Parse(p).ok;
    FieldIsEncoding(p[1..]);
    var (key, after) := ReadField(p[1..]).ok;
    HeadShape(p[0], key, after);
    assert p == Head(p[0], key) + after;
    EncodedShape(op);
    if op.SetEx? {
      Inverse32(0, after[..4]);
      Glue2(after, 4);
    }
  }

  lemma ParseOfEncode(op: Op)
    requires |op.key| < U16
    requires WireOp(op)
    ensures Parse(EncodeOp(op)) == Ok(op)
  {
    EncodedShape(op);
    HeadShape(OpCode(op), op.key, Tail(op));
    FieldOfEncoding(op.key, Tail(op));
    if op.SetEx? {
      Inverse32(op.ttl, []);
      Cut2(Be32(op.ttl), op.value);
    }
  }

  /** `p` is the encoding of `op`; behind a GET or a DEL any bytes may follow. */
  predicate Encodes(op: Op, p: bytes) {
    && WireOp(op) && |op.key| < U16
    && EncodeOp(op) <= p && (op.Set? || op.SetEx? ==> EncodeOp(op) == p)
  }

  /** The parser accepts exactly the encodings, as exactly the operation encoded. */
  lemma ParsesExactly(p: bytes, op: Op)
    ensures Parse(p) == Ok(op) <==> Encodes(op, p)
  {
    if Parse(p) == Ok(op) {
      ParsedIsEncoding(p);
    }
    if Encodes(op, p) {
      ParseOfEncode(op);
      EncodedShape(op);
      if op.Get? || op.Del? {
        var rest := p[|EncodeOp(op)|..];
        assert Head(OpCode(op), op.key) + [] == Head(OpCode(op), op.key);
        assert p == Head(OpCode(op), op.key) + rest;
        HeadShape(OpCode(op), op.key, rest);
        FieldOfEncoding(op.key, rest);
      }
    }
  }

  /** The length a request announces for its key, from its own bytes. */
  function KeyLength(p: bytes): (n: nat)
    requires |p| >= 3
  {
    256 * p[1] as int + p[2]
  }

  /** Why a payload is refused, told by its bytes, one cause each: no bytes; an op code other than 1 to 4; no room for the key's
      length; a key longer than what follows; and for a SETEX, fewer than four bytes behind the key. */
  lemma RefusalCauses(p: bytes, b: byte)
    ensures var known := p != [] && 1 <= p[0] <= 4;
            && (Parse(p) == Err(EmptyPayload) <==> p == [])
            && (Parse(p) == Err(UnknownOp(b)) <==> p != [] && !known && p[0] == b)
            && (Parse(p) == Err(TruncatedFieldLength) <==> known && |p| < 3)
            && (Parse(p) == Err(TruncatedFieldBody) <==> known && |p| >= 3 && |p| < 3 + KeyLength(p))
            && (Parse(p) == Err(TruncatedTtl) <==> known && p[0] == 4 && |p| >= 3 && 3 + KeyLength(p) <= |p| < 7 + KeyLength(p))
  {
    if |p| >= 3 {
      assert p[1..][..2] == [p[1], p[2]];
    }
  }

  /** A request payload parses back to the operation it was built from exactly when the key fits its u16 length. */
  lemma PayloadRoundTrip(op: Op)
    requires WireOp(op)
    ensures Parse(EncodeOp(op)) == Ok(op) <==> |op.key| < U16
  {
    if |op.key| < U16 {
      ParseOfEncode(op);
    } else if Parse(EncodeOp(op)) == Ok(op) {
      ParsedIsEncoding(EncodeOp(op));
    }
  }

  /** Both layers: a request crosses encode, frame, decode and parse unchanged exactly when its payload fits a frame. */
  lemma RequestRoundTrip(id: nat, op: Op)
    requires id < U32
    requires WireOp(op)
    ensures var r := DecodeOne(true, EncodeFrame(RequestFrame(id, op)));
            (r.Got? && r.frame.header == REQUEST && r.frame.reqId == id && Parse(r.frame.payload) == Ok(op))
            <==> |EncodeOp(op)| < U16
  {
    var f := RequestFrame(id, op);
    FrameRoundTrip(true, f);
    var r := DecodeOne(true, EncodeFrame(f));
    if |EncodeOp(op)| < U16 {
      ParseOfEncode(op);
    } else if r.Got? && Parse(r.frame.payload) == Ok(op) {
      DecodedIsEncoding(true, EncodeFrame(f));
      ParsedIsEncoding(r.frame.payload);
    }
  }

  /** Every operation the server can be handed keeps within the widths the log and the replies can carry. */
  lemma ParsedIsStorable(p: bytes)
    requires |p| < U16 && Parse(p).Ok?
    ensures StorableOp(Parse(p).ok)
  {
    ParsedIsEncoding(p);
  }

  // --- Handshake ---

  function EncodeCredentials(user: bytes, pass: bytes): (p: bytes)
  {
    Be16(AsU16(|user|)) + user + pass
  }

  function ParseCredentials(p: bytes): (up: (bytes, bytes))
  {
    if |p| < 2 then ([], [])
    else
      var ulen := De16(p[..2]);
      if |p| < 2 + ulen then ([], [])
      else (p[2..2 + ulen], p[2 + ulen..])
  }

  /** What credentials a handshake payload stands for, whoever wrote it: the announced number of bytes and all the rest; a
      payload too short for what it announces stands for two empty ones. */
  lemma CredentialsMeaning(p: bytes)
    ensures var (u, w) := ParseCredentials(p);
            if |p| >= 2 && |p| >= 2 + 256 * p[0] as int + p[1] then
              |u| == 256 * p[0] as int + p[1] && p == [p[0], p[1]] + u + w
            else u == [] && w == []
  {
    if |p| >= 2 {
      assert p[..2] == [p[0], p[1]];
    }
  }

  /** Credentials survive the handshake frame exactly when their payload fits it. */
  lemma CredentialsRoundTrip(user: bytes, pass: bytes)
    ensures var f := Frame(HANDSHAKE, 0, EncodeCredentials(user, pass));
            var r := DecodeOne(true, EncodeFrame(f));
            (r.Got? && r.frame.header == HANDSHAKE && ParseCredentials(r.frame.payload) == (user, pass))
            <==> |f.payload| < U16
  {
    var p := EncodeCredentials(user, pass);
    var f := Frame(HANDSHAKE, 0, p);
    var r := DecodeOne(true, EncodeFrame(f));
    FrameRoundTrip(true, f);
    if |p| < U16 {
      Inverse16(|user|, []);
      CredentialsOfLength(Be16(|user|), user, pass);
    } else if r.Got? {
      DecodedIsEncoding(true, EncodeFrame(f));
      CredentialsFit(r.frame.payload);
    }
  }

  lemma CredentialsOfLength(len: bytes, user: bytes, pass: bytes)
    requires |len| == 2 && De16(len) == |user|
    ensures ParseCredentials(len + user + pass) == (user, pass)
  {
    Cut3(len, user, pass);
  }

  lemma CredentialsFit(p: bytes)
    ensures var (u, w) := ParseCredentials(p); |u| + |w| + 2 <= |p| || |u| + |w| == 0
  {
  }

  // --- Replies ---

  const RESP_OK: bytes := [79, 75]
  const RESP_NIL: bytes := [40, 110, 105, 108, 41]
  const RESP_ONE: bytes := [49]
  const RESP_ZERO: bytes := [48]

  /** The client's reading of a GET reply. */
  function ReadGetReply(reply: bytes): (r: Option<bytes>)
  {
    if reply == RESP_NIL then None else Some(reply)
  }

  /** A reply travels back in a frame and reaches the client as what the shard found,
      for every hit whose value is not itself the text of a miss. */
  lemma GetReplyRoundTrip(id: nat, found: Option<bytes>)
    requires id < U32
    requires found.Some? ==> |found.value| < U16
    ensures var reply := if found.Some? then found.value else RESP_NIL;
            var r := DecodeOne(false, EncodeFrame(Frame(RESPONSE, id, reply)));
            (r.Got? && r.frame.reqId == id && ReadGetReply(r.frame.payload) == found) <==> found != Some(RESP_NIL)
  {
    var reply := if found.Some? then found.value else RESP_NIL;
    FrameRoundTrip(false, Frame(RESPONSE, id, reply));
  }
}
