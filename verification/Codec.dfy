/** The streaming frame codec: `[header][req_id: u32][len: u16][payload]`. */
module Codec {
  import opened Prelude

  const MAX_FRAME_SIZE: nat := 64 * 1024
  const FRAME_HEAD_LEN: nat := 7

  const HANDSHAKE: byte := 1
  const REQUEST: byte := 3
  const RESPONSE: byte := 4
  const HEARTBEAT: byte := 5

  datatype Frame = Frame(header: byte, reqId: nat, payload: bytes)

  datatype Decoded =
    | NeedMore
    | BadHeader(other: byte)
    | TooLarge
    | Got(frame: Frame, used: nat)

  predicate KnownHeader(b: byte) {
    b == HANDSHAKE || b == REQUEST || b == RESPONSE || b == HEARTBEAT
  }

  /** One step of a frame parser over the bytes buffered so far. The server checks
      the header byte (`strict`); the two client read loops do not. */
  function DecodeOne(strict: bool, src: bytes): (r: Decoded)
    ensures r.Got? ==> FRAME_HEAD_LEN <= r.used <= |src|
  {
    if |src| < FRAME_HEAD_LEN then NeedMore
    else if strict && !KnownHeader(src[0]) then BadHeader(src[0])
    else
      var len := De16(src[5..7]);
      if len > MAX_FRAME_SIZE then TooLarge
      else if |src| < FRAME_HEAD_LEN + len then NeedMore
      else Got(Frame(src[0], De32(src[1..5]), src[7..7 + len]), FRAME_HEAD_LEN + len)
  }

  /** The length field is cast to u16, so a longer payload would be announced modulo 65536. */
  function EncodeFrame(f: Frame): (s: bytes)
    requires f.reqId < U32
  {
    [f.header] + Be32(f.reqId) + Be16(AsU16(|f.payload|)) + f.payload
  }

  /** A frame whose fields fit their widths; only the server minds the header. */
  predicate Decodable(strict: bool, f: Frame) {
    f.reqId < U32 && |f.payload| < U16 && (strict ==> KnownHeader(f.header))
  }

  predicate Sendable(f: Frame) {
    Decodable(true, f)
  }

  /** The size limit in the decoder can never be the reason a frame is refused. */
  lemma NeverTooLarge(strict: bool, src: bytes)
    ensures !DecodeOne(strict, src).TooLarge?
  {
  }

  /** What a decoded frame is made of: its own encoding, byte for byte. */
  lemma DecodedIsEncoding(strict: bool, src: bytes)
    requires DecodeOne(strict, src).Got?
    ensures var r := DecodeOne(strict, src);
            && Decodable(strict, r.frame) && (strict ==> Sendable(r.frame))
            && EncodeFrame(r.frame) == src[..r.used]
  {
    var r := DecodeOne(strict, src);
    Inverse32(0, src[1..5]);
    Inverse16(0, src[5..7]);
    CutFrame(src, r.used);
  }

  lemma CutFrame<T>(s: seq<T>, n: nat)
    requires 7 <= n <= |s|
    ensures s[..n] == [s[0]] + s[1..5] + s[5..7] + s[7..n]
  {
  }

  lemma FrameFields<T>(h: T, id: seq<T>, len: seq<T>, payload: seq<T>, rest: seq<T>)
    requires |id| == 4 && |len| == 2
    ensures var s := [h] + id + len + payload + rest;
            s[0] == h && s[1..5] == id && s[5..7] == len && s[7..7 + |payload|] == payload
  {
  }

  lemma DecodeOfEncode(strict: bool, f: Frame, rest: bytes)
    requires Decodable(strict, f)
    ensures DecodeOne(strict, EncodeFrame(f) + rest) == Got(f, |EncodeFrame(f)|)
  {
    FrameFields(f.header, Be32(f.reqId), Be16(AsU16(|f.payload|)), f.payload, rest);
    Inverse32(f.reqId, []);
    Inverse16(|f.payload|, []);
  }

  /** A frame survives the wire exactly when its payload fits the u16 length field. */
  lemma FrameRoundTrip(strict: bool, f: Frame)
    requires KnownHeader(f.header) && f.reqId < U32
    ensures DecodeOne(strict, EncodeFrame(f)) == Got(f, |EncodeFrame(f)|) <==> |f.payload| < U16
  {
    assert EncodeFrame(f) + [] == EncodeFrame(f);
    if |f.payload| < U16 {
      DecodeOfEncode(strict, f, []);
    } else if DecodeOne(strict, EncodeFrame(f)) == Got(f, |EncodeFrame(f)|) {
      DecodedIsEncoding(strict, EncodeFrame(f));
    }
  }

  /** Bytes that arrive later never change a decision already taken. */
  lemma DecodeStable(strict: bool, src: bytes, more: bytes)
    requires !DecodeOne(strict, src).NeedMore?
    ensures DecodeOne(strict, src + more) == DecodeOne(strict, src)
  {
    var s := src + more;
    assert s[1..5] == src[1..5] && s[5..7] == src[5..7];
    var len := De16(src[5..7]);
    if 7 + len <= |src| {
      assert s[7..7 + len] == src[7..7 + len];
    }
  }

  // --- Streams ---

  /** Everything a parser has made of the bytes seen so far; `rest` is what it has not consumed. */
  datatype Stream = Stream(frames: seq<Frame>, error: Option<Decoded>, rest: bytes)

  function Drain(strict: bool, src: bytes): (st: Stream)
    decreases |src|
  {
    var r := DecodeOne(strict, src);
    if r.NeedMore? then Stream([], None, src)
    else if r.Got? then
      var st := Drain(strict, src[r.used..]);
      st.(frames := [r.frame] + st.frames)
    else Stream([], Some(r), src)
  }

  /** Which first bytes the server refuses, once a frame's head is there, and nothing else is refused: those
      that are none of handshake, request, response and heartbeat. The clients refuse none. */
  lemma RefusedHeaders(strict: bool, src: bytes)
    ensures var r := DecodeOne(strict, src);
            && (r.BadHeader? <==> strict && |src| >= 7 && src[0] != 1 && src[0] != 3 && src[0] != 4 && src[0] != 5)
            && (r.BadHeader? ==> r.other == src[0])
            && !r.TooLarge?
  {
  }

  /** The decoder waits for more exactly while what it has may yet become a frame: fewer bytes than a head, or a proper
      prefix of the encoding of a frame. */
  lemma WaitsForWhole(src: bytes)
    requires |src| >= 7
    ensures DecodeOne(true, src).NeedMore? <==> exists f :: Sendable(f) && EncodeFrame(f) != src && src <= EncodeFrame(f)
  {
    var r, len := DecodeOne(true, src), De16(src[5..7]);
    if r.NeedMore? {
      var f := Frame(src[0], De32(src[1..5]), src[7..] + seq(7 + len - |src|, _ => 0));
      Inverse32(0, src[1..5]);
      Inverse16(0, src[5..7]);
      CutFrame(src, |src|);
      assert src[..|src|] == src;
      assert EncodeFrame(f) == src + seq(7 + len - |src|, _ => 0);
      assert Sendable(f);
    }
    if f :| Sendable(f) && EncodeFrame(f) != src && src <= EncodeFrame(f) {
      PrefixWaits(src, f);
    }
  }

  lemma PrefixWaits(src: bytes, f: Frame)
    requires Sendable(f) && EncodeFrame(f) != src && src <= EncodeFrame(f)
    ensures DecodeOne(true, src).NeedMore?
  {
    var s := EncodeFrame(f);
    DecodeOfEncode(true, f, []);
    assert s + [] == s && src + s[|src|..] == s && |src| < |s|;
    if !DecodeOne(true, src).NeedMore? {
      DecodeStable(true, src, s[|src|..]);
    }
  }

  function EncodeAll(fs: seq<Frame>): (s: bytes)
    requires forall i | 0 <= i < |fs| :: fs[i].reqId < U32
  {
    if fs == [] then [] else EncodeFrame(fs[0]) + EncodeAll(fs[1..])
  }

  predicate AllDecodable(strict: bool, fs: seq<Frame>)
    ensures AllDecodable(strict, fs) ==> forall i | 0 <= i < |fs| :: fs[i].reqId < U32
  {
    forall i | 0 <= i < |fs| :: Decodable(strict, fs[i])
  }

  /** What a parser is to make of `src`: frames whose bytes come first, and a rest that does not begin with a frame; an
      error if and only if the rest begins with what is refused. */
  predicate Parsed(strict: bool, src: bytes, st: Stream) {
    && AllDecodable(strict, st.frames)
    && src == EncodeAll(st.frames) + st.rest
    && var r := DecodeOne(strict, st.rest);
       !r.Got? && st.error == (if r.NeedMore? then None else Some(r))
  }

  lemma AllDecodableCons(strict: bool, f: Frame, fs: seq<Frame>)
    requires Decodable(strict, f)
    ensures AllDecodable(strict, [f] + fs) <==> AllDecodable(strict, fs)
    ensures AllDecodable(strict, fs) ==> f.reqId < U32 && EncodeAll([f] + fs) == EncodeFrame(f) + EncodeAll(fs)
  {
    var all := [f] + fs;
    assert all[1..] == fs && all[0] == f;
    if AllDecodable(strict, all) {
      forall i | 0 <= i < |fs|
        ensures Decodable(strict, fs[i])
      {
        assert all[i + 1] == fs[i];
      }
    }
  }

  lemma ParsedCons(strict: bool, f: Frame, src: bytes, st: Stream)
    requires Decodable(strict, f)
    ensures Parsed(strict, EncodeFrame(f) + src, st.(frames := [f] + st.frames)) <==> Parsed(strict, src, st)
  {
    hide DecodeOne, EncodeFrame, AllDecodable, EncodeAll;
    AllDecodableCons(strict, f, st.frames);
    if AllDecodable(strict, st.frames) {
      Assoc(EncodeFrame(f), EncodeAll(st.frames), st.rest);
      Cut2(EncodeFrame(f), src);
      Cut2(EncodeFrame(f), EncodeAll(st.frames) + st.rest);
    }
  }

  /** And that is exactly what it makes of it. */
  lemma {:induction false} DrainIsParsed(strict: bool, src: bytes)
    ensures Parsed(strict, src, Drain(strict, src))
    decreases |src|
  {
    var r := DecodeOne(strict, src);
    if r.Got? {
      DecodedIsEncoding(strict, src);
      DrainIsParsed(strict, src[r.used..]);
      ParsedCons(strict, r.frame, src[r.used..], Drain(strict, src[r.used..]));
      Glue2(src, r.used);
    } else {
      assert EncodeAll([]) + src == src;
    }
  }

  /** There is no other way to read the bytes. */
  lemma {:induction false} OneWayToParse(strict: bool, src: bytes, st: Stream)
    requires Parsed(strict, src, st)
    ensures st == Drain(strict, src)
    decreases |st.frames|
  {
    if st.frames == [] {
      assert EncodeAll([]) + st.rest == st.rest;
    } else {
      var f, tail := st.frames[0], st.(frames := st.frames[1..]);
      assert st.frames == [f] + st.frames[1..];
      assert Decodable(strict, f);
      AllDecodableCons(strict, f, tail.frames);
      var rest := EncodeAll(tail.frames) + st.rest;
      Assoc(EncodeFrame(f), EncodeAll(tail.frames), st.rest);
      DecodeOfEncode(strict, f, rest);
      Cut2(EncodeFrame(f), rest);
      ParsedCons(strict, f, rest, tail);
      OneWayToParse(strict, rest, tail);
    }
  }

  /** A new arrival: decode as far as possible; after an error nothing more is decoded. */
  function Arrive(strict: bool, st: Stream, chunk: bytes): (st': Stream)
  {
    if st.error.Some? then st.(rest := st.rest + chunk)
    else
      var d := Drain(strict, st.rest + chunk);
      d.(frames := st.frames + d.frames)
  }

  function ArriveAll(strict: bool, st: Stream, chunks: seq<bytes>): (st': Stream)
    decreases |chunks|
  {
    if chunks == [] then st else ArriveAll(strict, Arrive(strict, st, chunks[0]), chunks[1..])
  }

  lemma {:induction false} DrainSplit(strict: bool, a: bytes, b: bytes)
    ensures Drain(strict, a + b) == Arrive(strict, Drain(strict, a), b)
    decreases |a|
  {
    var r := DecodeOne(strict, a);
    if !r.NeedMore? {
      DecodeStable(strict, a, b);
      if r.Got? {
        var rest := a[r.used..];
        DropOfAppend(a, b, r.used);
        DrainSplit(strict, rest, b);
        ArriveCons(strict, r.frame, Drain(strict, rest), b);
      }
    }
  }

  lemma DropOfAppend<T>(a: seq<T>, b: seq<T>, n: nat)
    requires n <= |a|
    ensures (a + b)[n..] == a[n..] + b
  {
  }

  lemma ArriveCons(strict: bool, f: Frame, st: Stream, b: bytes)
    ensures var st' := Arrive(strict, st, b);
            Arrive(strict, st.(frames := [f] + st.frames), b) == st'.(frames := [f] + st'.frames)
  {
    Assoc([f], st.frames, Drain(strict, st.rest + b).frames);
  }

  lemma {:induction false} ArriveAllIsDrain(strict: bool, seen: bytes, chunks: seq<bytes>)
    ensures ArriveAll(strict, Drain(strict, seen), chunks) == Drain(strict, seen + Concat(chunks))
    decreases |chunks|
  {
    if chunks == [] {
      assert seen + Concat(chunks) == seen;
    } else {
      DrainSplit(strict, seen, chunks[0]);
      ArriveAllIsDrain(strict, seen + chunks[0], chunks[1..]);
      Assoc(seen, chunks[0], Concat(chunks[1..]));
    }
  }

  /** Chunking is invisible: two ways of cutting the same bytes into arrivals give
      the same frames, the same first error and the same unconsumed bytes. */
  lemma ChunkingInvisible(strict: bool, xs: seq<bytes>, ys: seq<bytes>)
    requires Concat(xs) == Concat(ys)
    ensures ArriveAll(strict, Stream([], None, []), xs) == ArriveAll(strict, Stream([], None, []), ys)
  {
    ArriveAllIsDrain(strict, [], xs);
    ArriveAllIsDrain(strict, [], ys);
    assert [] + Concat(xs) == [] + Concat(ys);
  }

  lemma {:induction false} DrainOfEncodeAll(strict: bool, fs: seq<Frame>)
    requires AllDecodable(true, fs)
    ensures Drain(strict, EncodeAll(fs)) == Stream(fs, None, [])
  {
    if fs != [] {
      assert Sendable(fs[0]);
      var rest := EncodeAll(fs[1..]);
      DecodeOfEncode(strict, fs[0], rest);
      Cut2(EncodeFrame(fs[0]), rest);
      DrainOfEncodeAll(strict, fs[1..]);
    }
  }

  /** Frames sent over any transport that cuts the bytes as it likes arrive intact and in order. */
  lemma FramesSurviveAnyChunking(strict: bool, fs: seq<Frame>, chunks: seq<bytes>)
    requires AllDecodable(true, fs)
    requires Concat(chunks) == EncodeAll(fs)
    ensures ArriveAll(strict, Stream([], None, []), chunks) == Stream(fs, None, [])
  {
    ArriveAllIsDrain(strict, [], chunks);
    assert [] + Concat(chunks) == EncodeAll(fs);
    DrainOfEncodeAll(strict, fs);
  }

  // --- A connection as bytes ---

  /** The bytes received and not decoded, `got`, and those still on the way, `rest`, are exactly these frames. */
  predicate Carries(fs: seq<Frame>, got: bytes, rest: bytes) {
    && AllDecodable(true, fs)
    && got + rest == EncodeAll(fs)
  }

  lemma CarriesArrival(fs: seq<Frame>, got: bytes, rest: bytes, n: nat)
    requires Carries(fs, got, rest) && n <= |rest|
    ensures Carries(fs, got + rest[..n], rest[n..])
  {
    Assoc(got, rest[..n], rest[n..]);
    assert rest[..n] + rest[n..] == rest;
  }

  lemma {:induction false} EncodeAllSnoc(fs: seq<Frame>, f: Frame)
    requires AllDecodable(true, fs) && Sendable(f)
    ensures AllDecodable(true, fs + [f])
    ensures EncodeAll(fs + [f]) == EncodeAll(fs) + EncodeFrame(f)
    decreases |fs|
  {
    hide EncodeFrame;
    if fs == [] {
      assert fs + [f] == [f] && [f][1..] == [];
      assert EncodeAll([f]) == EncodeFrame(f) + EncodeAll([f][1..]);
    } else {
      EncodeAllSnoc(fs[1..], f);
      assert (fs + [f])[0] == fs[0] && (fs + [f])[1..] == fs[1..] + [f];
      Assoc(EncodeFrame(fs[0]), EncodeAll(fs[1..]), EncodeFrame(f));
    }
  }

  lemma CarriesWrite(fs: seq<Frame>, got: bytes, rest: bytes, f: Frame)
    requires Carries(fs, got, rest) && Sendable(f)
    ensures Carries(fs + [f], got, rest + EncodeFrame(f))
  {
    hide EncodeFrame;
    EncodeAllSnoc(fs, f);
    Assoc(got, rest, EncodeFrame(f));
  }

  /** The decoder never errs on such a connection; when it yields a frame, it is the first one sent. */
  lemma CarriesDecode(strict: bool, fs: seq<Frame>, got: bytes, rest: bytes)
    requires Carries(fs, got, rest) && !DecodeOne(strict, got).NeedMore?
    ensures var r := DecodeOne(strict, got);
            fs != [] && r == Got(fs[0], |EncodeFrame(fs[0])|) && Carries(fs[1..], got[r.used..], rest)
  {
    SomeFrame(strict, fs, got, rest);
    DecodeStable(strict, got, rest);
    hide EncodeFrame, DecodeOne;
    assert Sendable(fs[0]);
    var r, tail := DecodeOne(strict, got), EncodeAll(fs[1..]);
    DecodeOfEncode(strict, fs[0], tail);
    assert r.Got? && r.used <= |got|;
    assert got[r.used..] + rest == (got + rest)[r.used..];
    Cut2(EncodeFrame(fs[0]), tail);
  }

  lemma SomeFrame(strict: bool, fs: seq<Frame>, got: bytes, rest: bytes)
    requires Carries(fs, got, rest) && !DecodeOne(strict, got).NeedMore?
    ensures fs != []
  {
    assert |got + rest| >= FRAME_HEAD_LEN;
  }

  /** One turn of the framing layer's loop. */
  lemma DrainTurn(src: bytes, frames: seq<Frame>)
    ensures var r, st := DecodeOne(true, src), Drain(true, src);
            var all := st.(frames := frames + st.frames);
            if r.Got? then
              var rest := Drain(true, src[r.used..]); all == rest.(frames := frames + [r.frame] + rest.frames)
            else all == Stream(frames, if r.NeedMore? then None else Some(r), src)
  {
    hide DecodeOne;
    var r := DecodeOne(true, src);
    if r.Got? {
      Assoc(frames, [r.frame], Drain(true, src[r.used..]).frames);
    }
  }

  // --- The decoder over its read buffer ---

  /** The buffer `decode` consumes from the front, plus the framing layer's loop around it. */
  class FrameReader {
    var src: bytes
    var failed: bool

    constructor ()
      ensures src == [] && !failed
    {
      src := [];
      failed := false;
    }

    /** `SimpleCodec::decode`: takes one whole frame off the front or leaves the buffer alone. */
    method Decode() returns (r: Decoded)
      modifies this`src
      ensures r == DecodeOne(true, old(src))
      ensures r.Got? ==> r.frame.reqId < U32 && old(src) == EncodeFrame(r.frame) + src && src == old(src)[r.used..]
      ensures !r.Got? ==> src == old(src)
    {
      if |src| < FRAME_HEAD_LEN {
        return NeedMore;
      }
      var header := src[0];
      if !KnownHeader(header) {
        return BadHeader(header);
      }
      var reqId := De32(src[1..5]);
      var len := De16(src[5..7]);
      if len > MAX_FRAME_SIZE {
        return TooLarge;
      }
      if |src| < FRAME_HEAD_LEN + len {
        return NeedMore;
      }
      DecodedIsEncoding(true, src);
      src := src[FRAME_HEAD_LEN..];
      var data := src[..len];
      src := src[len..];
      r := Got(Frame(header, reqId, data), FRAME_HEAD_LEN + len);
    }

    /** One arrival: append it and decode until more bytes are needed or a frame is bad. */
    method Feed(chunk: bytes) returns (frames: seq<Frame>, error: Option<Decoded>)
      requires !failed
      modifies this
      ensures Stream(frames, error, src) == Drain(true, old(src) + chunk)
      ensures Parsed(true, old(src) + chunk, Stream(frames, error, src))
      ensures failed <==> |src| >= 7 && src[0] != 1 && src[0] != 3 && src[0] != 4 && src[0] != 5
      ensures error == if failed then Some(BadHeader(src[0])) else None
    {
      DrainIsParsed(true, src + chunk);
      hide Parsed, DecodeOne, EncodeFrame, Drain;
      src := src + chunk;
      frames, error := [], None;
      ghost var all := src;
      while true
        invariant error == None && !failed
        invariant Drain(true, all) == Drain(true, src).(frames := frames + Drain(true, src).frames)
        decreases |src|
      {
        ghost var before := src;
        var r := Decode();
        RefusedHeaders(true, before);
        DrainTurn(before, frames);
        if r.NeedMore? {
          return;
        }
        if !r.Got? {
          failed := true;
          return frames, Some(r);
        }
        frames := frames + [r.frame];
      }
    }
  }
}
