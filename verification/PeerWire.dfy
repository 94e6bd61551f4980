/** Framing of peer messages (BEP 3, "peer messages"; BEP 5; BEP 6; BEP 10). */
module PeerWire {
  import opened Prelude

  type U16 = x: int | 0 <= x < 0x1_0000
  type U32 = x: int | 0 <= x < 0x1_0000_0000

  const CHOKE: Byte := 0
  const UNCHOKE: Byte := 1
  const INTERESTED: Byte := 2
  const NOT_INTERESTED: Byte := 3
  const HAVE: Byte := 4
  const BITFIELD: Byte := 5
  const REQUEST: Byte := 6
  const PIECE: Byte := 7
  const CANCEL: Byte := 8
  const PORT: Byte := 9
  const SUGGEST: Byte := 13
  const HAVE_ALL: Byte := 14
  const HAVE_NONE: Byte := 15
  const REJECT: Byte := 16
  const ALLOWED_FAST: Byte := 17
  const EXTENDED: Byte := 20

  /** One record with the fields of every message type, as in the source. */
  datatype Message = Message(
    keepalive: bool, kind: Byte, index: U32, begin: U32, length: U32, piece: Bytes,
    bitField: Bytes, extendedId: Byte, extendedPayload: Bytes, port: U16, unknownPayload: Bytes)

  const BLANK: Message := Message(false, 0, 0, 0, 0, [], [], 0, [], 0, [])

  // ------------------------------------------------------------ big-endian numbers

  function Put32(x: U32): (r: Bytes)
    ensures |r| == 4
  {
    var hi := x / 0x100;
    var top := hi / 0x100;
    [top / 0x100, top % 0x100, hi % 0x100, x % 0x100]
  }

  function Get32(b: Bytes): U32
    requires |b| == 4
  {
    var top: int := b[0];
    ((top * 0x100 + b[1]) * 0x100 + b[2]) * 0x100 + b[3]
  }

  function Put16(x: U16): (r: Bytes)
    ensures |r| == 2
  {
    [x / 0x100, x % 0x100]
  }

  function Get16(b: Bytes): U16
    requires |b| == 2
  {
    var top: int := b[0];
    top * 0x100 + b[1]
  }

  lemma Get32Put32(x: U32)
    ensures Get32(Put32(x)) == x
  {
  }

  /** Big-endian: the order of the numbers is the order of their bytes. */
  lemma BigEndian(x: U32, y: U32)
    ensures x < y <==> LexLess(Put32(x), Put32(y))
  {
    var a, b := Put32(x), Put32(y);
    LexTail(a, b);
    LexTail(a[1..], b[1..]);
    LexTail(a[2..], b[2..]);
    LexTail(a[3..], b[3..]);
    Get32Put32(x);
    Get32Put32(y);
    assert a[1..][1..] == a[2..] && b[1..][1..] == b[2..];
    assert a[2..][1..] == a[3..] && b[2..][1..] == b[3..];
    assert a[3..][1..] == [] && b[3..][1..] == [];
  }

  lemma LexTail(a: Bytes, b: Bytes)
    requires a != [] && b != []
    ensures LexLess(a, b) <==> a[0] < b[0] || (a[0] == b[0] && LexLess(a[1..], b[1..]))
  {
  }

  // ------------------------------------------------------------ the format

  predicate Bare(kind: Byte) {
    kind == CHOKE || kind == UNCHOKE || kind == INTERESTED || kind == NOT_INTERESTED || kind == HAVE_ALL ||
      kind == HAVE_NONE
  }

  predicate RequestLike(kind: Byte) {
    kind == REQUEST || kind == CANCEL || kind == REJECT
  }

  /** The two types whose index is read by `Decode` but not written by `Encode`. */
  predicate IndexLost(kind: Byte) {
    kind == SUGGEST || kind == ALLOWED_FAST
  }

  /** What `marshalBinaryType` writes after the type byte. */
  function Payload(m: Message): Bytes {
    if Bare(m.kind) then []
    else if m.kind == HAVE then Put32(m.index)
    else if RequestLike(m.kind) then Put32(m.index) + Put32(m.begin) + Put32(m.length)
    else if m.kind == BITFIELD then m.bitField
    else if m.kind == PIECE then Put32(m.index) + Put32(m.begin) + m.piece
    else if m.kind == EXTENDED then [m.extendedId] + m.extendedPayload
    else if m.kind == PORT then Put16(m.port)
    else m.unknownPayload
  }

  function Frame(m: Message): Bytes {
    if m.keepalive then [0, 0, 0, 0]
    else Put32((1 + |Payload(m)|) % 0x1_0000_0000) + [m.kind] + Payload(m)
  }

  /** The prefix of a frame counts the bytes that follow it, and the type comes first among them. */
  lemma FrameLength(m: Message)
    requires 1 + |Payload(m)| < 0x1_0000_0000
    ensures |Frame(m)| >= 4 && Get32(Frame(m)[..4]) == |Frame(m)| - 4
    ensures !m.keepalive ==> Frame(m)[4] == m.kind && Frame(m)[5..] == Payload(m)
  {
    hide Payload, Put32, Get32;
    if m.keepalive {
      assert [0, 0, 0, 0][..4] == [0, 0, 0, 0];
      ZeroLength();
    } else {
      Get32Put32(1 + |Payload(m)|);
      assert Frame(m)[..4] == Put32(1 + |Payload(m)|);
    }
  }

  /** What `decodeByMessageType` makes of exactly these bytes; leaving some unused is an error. */
  function Fill(m: Message, p: Bytes): Option<Message> {
    if Bare(m.kind) then (if p == [] then Some(m) else None)
    else if m.kind == HAVE || IndexLost(m.kind) then
      (if |p| == 4 then Some(m.(index := Get32(p))) else None)
    else if RequestLike(m.kind) then
      (if |p| == 12 then Some(m.(index := Get32(p[..4]), begin := Get32(p[4..8]), length := Get32(p[8..]))) else None)
    else if m.kind == BITFIELD then Some(m.(bitField := p))
    else if m.kind == PIECE then
      (if |p| >= 8 then Some(m.(index := Get32(p[..4]), begin := Get32(p[4..8]), piece := p[8..])) else None)
    else if m.kind == EXTENDED then
      (if |p| >= 1 then Some(m.(extendedId := p[0], extendedPayload := p[1..])) else None)
    else if m.kind == PORT then (if |p| == 2 then Some(m.(port := Get16(p))) else None)
    else Some(m.(unknownPayload := p))
  }

  datatype Decoded = Msg(m: Message, rest: Bytes) | Fail

  /** Decoding one message into a record that may still hold the fields of an earlier one. */
  function DecodeOne(m: Message, s: Bytes, maxLength: U32): (r: Decoded)
    ensures r.Msg? ==> |r.rest| < |s|
  {
    if |s| < 4 then Fail
    else
      var length := Get32(s[..4]);
      if length == 0 then Msg(m.(keepalive := true), s[4..])
      else if (maxLength > 0 && length > maxLength) || |s| - 4 < length then Fail
      else match Fill(m.(keepalive := false, kind := s[4]), s[5..4 + length])
        case None => Fail
        case Some(x) => Msg(x, s[4 + length..])
  }

  // ------------------------------------------------------------ round trip

  /** The message fits a frame and the receiver's limit. */
  predicate Sendable(m: Message, maxLength: U32) {
    m.keepalive || (1 + |Payload(m)| < 0x1_0000_0000 && (maxLength == 0 || 1 + |Payload(m)| <= maxLength))
  }

  /** The fields that travel with `m`, over those already in `old`. */
  function Overlay(was: Message, m: Message): Message {
    var o := was.(keepalive := m.keepalive);
    if m.keepalive then o
    else
      var k := o.(kind := m.kind);
      if Bare(m.kind) then k
      else if m.kind == HAVE then k.(index := m.index)
      else if RequestLike(m.kind) then k.(index := m.index, begin := m.begin, length := m.length)
      else if m.kind == BITFIELD then k.(bitField := m.bitField)
      else if m.kind == PIECE then k.(index := m.index, begin := m.begin, piece := m.piece)
      else if m.kind == EXTENDED then k.(extendedId := m.extendedId, extendedPayload := m.extendedPayload)
      else if m.kind == PORT then k.(port := m.port)
      else if IndexLost(m.kind) then k.(index := m.index)
      else k.(unknownPayload := m.unknownPayload)
  }

  /** Only the fields of the message's own type are set. */
  predicate Normal(m: Message) {
    m == Overlay(BLANK, m)
  }

  lemma FillPayload(was: Message, m: Message)
    requires !m.keepalive && !IndexLost(m.kind)
    ensures Fill(was.(keepalive := false, kind := m.kind), Payload(m)) == Some(Overlay(was, m))
  {
    hide Put32, Get32;
    Get32Put32(m.index);
    Get32Put32(m.begin);
    Get32Put32(m.length);
    var p := Payload(m);
    if RequestLike(m.kind) {
      assert p[..4] == Put32(m.index) && p[4..8] == Put32(m.begin) && p[8..] == Put32(m.length);
    } else if m.kind == PIECE {
      assert p[..4] == Put32(m.index) && p[4..8] == Put32(m.begin) && p[8..] == m.piece;
    }
  }

  /** Decoding a frame followed by anything reads the frame's own payload and stops at its end. */
  lemma DecodeFrame(was: Message, m: Message, rest: Bytes, maxLength: U32)
    requires Sendable(m, maxLength)
    ensures m.keepalive ==> DecodeOne(was, Frame(m) + rest, maxLength) == Msg(was.(keepalive := true), rest)
    ensures !m.keepalive ==>
      (match Fill(was.(keepalive := false, kind := m.kind), Payload(m))
       case None => DecodeOne(was, Frame(m) + rest, maxLength) == Fail
       case Some(x) => DecodeOne(was, Frame(m) + rest, maxLength) == Msg(x, rest))
  {
    hide Payload, Fill, Put32, Get32;
    var s := Frame(m) + rest;
    if m.keepalive {
      assert s[..4] == [0, 0, 0, 0] && s[4..] == rest;
      ZeroLength();
    } else {
      var n := 1 + |Payload(m)|;
      Get32Put32(n);
      assert s[..4] == Put32(n) && s[4] == m.kind;
      assert s[5..4 + n] == Payload(m) && s[4 + n..] == rest;
    }
  }

  lemma ZeroLength()
    ensures Get32([0, 0, 0, 0]) == 0
  {
  }

  /**
   A normal message that fits comes back as it was, whatever follows it, exactly unless it is a
   Suggest or an AllowedFast: those cannot be read back at all.
   */
  lemma RoundTripIff(m: Message, rest: Bytes, maxLength: U32)
    requires Normal(m) && Sendable(m, maxLength)
    ensures DecodeOne(BLANK, Frame(m) + rest, maxLength) == Msg(m, rest) <==> m.keepalive || !IndexLost(m.kind)
    ensures !m.keepalive && IndexLost(m.kind) ==> DecodeOne(BLANK, Frame(m) + rest, maxLength) == Fail
  {
    hide Put32, Get32, DecodeOne, Frame;
    DecodeFrame(BLANK, m, rest, maxLength);
    if !m.keepalive && !IndexLost(m.kind) { FillPayload(BLANK, m); }
  }

  // ------------------------------------------------------------ what is accepted

  /** The bytes that stand for a message: its frame, but for the two types with an index that is not written. */
  function Wire(m: Message): Bytes {
    if !m.keepalive && IndexLost(m.kind) then Put32(5) + [m.kind] + Put32(m.index) else Frame(m)
  }

  /** The prefix can count the message, and the receiver's limit allows it. */
  predicate Within(m: Message, maxLength: U32) {
    m.keepalive || (|Wire(m)| - 4 < 0x1_0000_0000 && (maxLength == 0 || |Wire(m)| - 4 <= maxLength))
  }

  lemma Digit(high: int, low: Byte)
    ensures (high * 0x100 + low) / 0x100 == high && (high * 0x100 + low) % 0x100 == low
  {
  }

  lemma Put32Get32(b: Bytes)
    requires |b| == 4
    ensures Put32(Get32(b)) == b
  {
    var top: int := b[0];
    var hi := top * 0x100 + b[1];
    Digit(top, b[1]);
    Digit(hi, b[2]);
    Digit(hi * 0x100 + b[2], b[3]);
  }

  lemma Put16Get16(b: Bytes)
    requires |b| == 2
    ensures Put16(Get16(b)) == b
  {
  }

  /** What a body stands for: the type byte and everything after it. */
  function Body(m: Message): Bytes {
    if IndexLost(m.kind) then Put32(m.index) else Payload(m)
  }

  lemma BodyFills(m: Message)
    requires Normal(m) && !m.keepalive
    ensures Fill(BLANK.(kind := m.kind), Body(m)) == Some(m)
  {
    hide Put32, Get32;
    if IndexLost(m.kind) { Get32Put32(m.index); } else { FillPayload(BLANK, m); }
  }

  lemma FilledBody(kind: Byte, p: Bytes)
    requires Fill(BLANK.(kind := kind), p).Some?
    ensures var m := Fill(BLANK.(kind := kind), p).value;
            Normal(m) && !m.keepalive && m.kind == kind && Body(m) == p
  {
    hide Put32, Get32, Put16, Get16;
    if |p| == 4 { Put32Get32(p); }
    if |p| == 2 { Put16Get16(p); }
    if RequestLike(kind) {
      Put32Get32(p[..4]);
      Put32Get32(p[4..8]);
      Put32Get32(p[8..]);
      assert p == p[..4] + p[4..8] + p[8..];
    } else if kind == PIECE {
      Put32Get32(p[..4]);
      Put32Get32(p[4..8]);
      assert p == p[..4] + p[4..8] + p[8..];
    }
  }

  lemma WireIsBody(m: Message)
    requires !m.keepalive && |Body(m)| + 1 < 0x1_0000_0000
    ensures Wire(m) == Put32(1 + |Body(m)|) + [m.kind] + Body(m)
  {
    hide Put32, Payload;
  }

  lemma WireLength(m: Message)
    ensures |Wire(m)| == if m.keepalive then 4 else 5 + |Body(m)|
  {
    hide Payload;
  }

  /** Cutting a frame's bytes apart and putting them together. */
  lemma Cut(s: Bytes, n: nat)
    requires 4 <= |s| && 0 < n <= |s| - 4
    ensures s == s[..4] + [s[4]] + s[5..4 + n] + s[4 + n..]
  {
  }

  lemma Accepted(s: Bytes, maxLength: U32)
    requires DecodeOne(BLANK, s, maxLength).Msg?
    ensures var (m, rest) := (DecodeOne(BLANK, s, maxLength).m, DecodeOne(BLANK, s, maxLength).rest);
            Normal(m) && Within(m, maxLength) && s == Wire(m) + rest
  {
    hide Put32, Get32, Fill, Payload, Body, Wire;
    var n, m := Get32(s[..4]), DecodeOne(BLANK, s, maxLength).m;
    Put32Get32(s[..4]);
    if n == 0 {
      KeepaliveWire(m);
      assert s == s[..4] + s[4..];
    } else {
      FilledBody(s[4], s[5..4 + n]);
      WireIsBody(m);
      WireLength(m);
      Cut(s, n);
    }
  }

  lemma KeepaliveWire(m: Message)
    requires m.keepalive
    ensures Wire(m) == Put32(0)
  {
  }

  lemma Accepts(m: Message, rest: Bytes, maxLength: U32)
    requires Normal(m) && Within(m, maxLength)
    ensures DecodeOne(BLANK, Wire(m) + rest, maxLength) == Msg(m, rest)
  {
    hide Put32, Get32, Fill, Payload, Body, Wire;
    var s := Wire(m) + rest;
    WireLength(m);
    if m.keepalive {
      KeepaliveWire(m);
      Get32Put32(0);
      assert s[..4] == Put32(0) && s[4..] == rest;
    } else {
      var n := 1 + |Body(m)|;
      WireIsBody(m);
      Get32Put32(n);
      BodyFills(m);
      assert s[..4] == Put32(n) && s[4] == m.kind && s[5..4 + n] == Body(m) && s[4 + n..] == rest;
    }
  }

  /**
   A fresh record reads a message off its input exactly if the input starts with the bytes that
   stand for it and the limit allows them: anything else is refused.
   */
  lemma AcceptsIff(s: Bytes, m: Message, rest: Bytes, maxLength: U32)
    ensures DecodeOne(BLANK, s, maxLength) == Msg(m, rest) <==>
            Normal(m) && Within(m, maxLength) && s == Wire(m) + rest
  {
    hide DecodeOne, Normal, Within, Wire;
    if DecodeOne(BLANK, s, maxLength) == Msg(m, rest) { Accepted(s, maxLength); }
    if Normal(m) && Within(m, maxLength) { Accepts(m, rest, maxLength); }
  }

  /** What follows the length prefix and the type, by the numbers of the standards. */
  function Standard(m: Message): Bytes {
    match m.kind as int
    case 0 | 1 | 2 | 3 | 14 | 15 => []
    case 4 | 13 | 17 => Put32(m.index)
    case 5 => m.bitField
    case 6 | 8 | 16 => Put32(m.index) + Put32(m.begin) + Put32(m.length)
    case 7 => Put32(m.index) + Put32(m.begin) + m.piece
    case 9 => Put16(m.port)
    case 20 => [m.extendedId] + m.extendedPayload
    case _ => m.unknownPayload
  }

  /** What is read is what the standards say; what is written is that too, but for an index that is missing. */
  lemma FormatLaw(m: Message)
    ensures !m.keepalive && |Wire(m)| < 0x1_0000_0000 ==> Wire(m) == Put32(|Wire(m)| - 4) + [m.kind] + Standard(m)
    ensures m.keepalive ==> Wire(m) == Frame(m) == [0, 0, 0, 0]
    ensures !m.keepalive && (m.kind == 13 || m.kind == 17) && Normal(m) ==> Frame(m) == [0, 0, 0, 1, m.kind]
    ensures !m.keepalive && m.kind != 13 && m.kind != 17 ==> Frame(m) == Wire(m)
  {
    hide Put32, Body, Standard, Payload;
    BodyIsStandard(m);
    WireLength(m);
    if !m.keepalive && |Wire(m)| < 0x1_0000_0000 { WireIsBody(m); }
    if !m.keepalive && (m.kind == 13 || m.kind == 17) && Normal(m) {
      assert Payload(m) == [] by { NothingWritten(m); }
      assert Put32(1) == [0, 0, 0, 1] by { OneByte(); }
    }
  }

  lemma BodyIsStandard(m: Message)
    ensures Body(m) == Standard(m)
  {
    hide Put32, Put16;
  }

  lemma NothingWritten(m: Message)
    requires Normal(m) && !m.keepalive && (m.kind == 13 || m.kind == 17)
    ensures Payload(m) == []
  {
  }

  lemma OneByte()
    ensures Put32(1) == [0, 0, 0, 1]
  {
  }

  function Frames(ms: seq<Message>): Bytes {
    if ms == [] then [] else Frame(ms[0]) + Frames(ms[1..])
  }

  /** Reading messages until the input is used up. */
  function DecodeAll(s: Bytes, maxLength: U32): Option<seq<Message>> {
    if s == [] then Some([])
    else match DecodeOne(BLANK, s, maxLength)
      case Fail => None
      case Msg(m, rest) => match DecodeAll(rest, maxLength) case None => None case Some(ms) => Some([m] + ms)
  }

  /** A stream of encoded messages decodes to those messages, in order, with nothing left over. */
  lemma {:induction false} StreamRoundTrip(ms: seq<Message>, maxLength: U32)
    requires forall i :: 0 <= i < |ms| ==>
      Normal(ms[i]) && Sendable(ms[i], maxLength) && (ms[i].keepalive || !IndexLost(ms[i].kind))
    ensures DecodeAll(Frames(ms), maxLength) == Some(ms)
  {
    hide DecodeOne, Frame, Normal, Sendable, IndexLost;
    if ms == [] {
    } else {
      RoundTripIff(ms[0], Frames(ms[1..]), maxLength);
      assert forall i :: 0 <= i < |ms[1..]| ==> ms[1..][i] == ms[i + 1];
      StreamRoundTrip(ms[1..], maxLength);
      assert ms == [ms[0]] + ms[1..];
    }
  }

  // ------------------------------------------------------------ the methods

  /** `bytes.Buffer`, as far as `Encode` uses it. */
  class Buffer {
    var data: Bytes

    constructor ()
      ensures data == []
    {
      data := [];
    }
  }

  method MarshalBinaryType(m: Message, buf: Buffer)
    modifies buf
    ensures buf.data == old(buf.data) + Payload(m)
  {
    hide Put32, Put16;
    if Bare(m.kind) {
    } else if m.kind == HAVE {
      buf.data := buf.data + Put32(m.index);
    } else if RequestLike(m.kind) {
      buf.data := buf.data + Put32(m.index);
      buf.data := buf.data + Put32(m.begin);
      buf.data := buf.data + Put32(m.length);
    } else if m.kind == BITFIELD {
      buf.data := buf.data + m.bitField;
    } else if m.kind == PIECE {
      buf.data := buf.data + Put32(m.index);
      buf.data := buf.data + Put32(m.begin);
      buf.data := buf.data + m.piece;
    } else if m.kind == EXTENDED {
      buf.data := buf.data + [m.extendedId];
      buf.data := buf.data + m.extendedPayload;
    } else if m.kind == PORT {
      buf.data := buf.data + Put16(m.port);
    } else {
      buf.data := buf.data + m.unknownPayload;
    }
  }

  /** `Message.Encode`: a placeholder for the length, the message, then the length over the placeholder. */
  method Encode(m: Message, buf: Buffer)
    modifies buf
    ensures buf.data == Frame(m)
  {
    hide Put32, Payload;
    buf.data := [];
    buf.data := buf.data + [0, 0, 0, 0];
    if !m.keepalive {
      buf.data := buf.data + [m.kind];
      MarshalBinaryType(m, buf);
      var payloadLen := |buf.data| - 4;
      if payloadLen > 0 {
        buf.data := Put32(payloadLen % 0x1_0000_0000) + buf.data[4..];
      }
    }
  }

  /** The connection a message is read from. */
  class Stream {
    var rest: Bytes

    constructor (input: Bytes)
      ensures rest == input
    {
      rest := input;
    }

    /** `io.ReadFull` of `k` bytes through an `io.LimitedReader` with `n` bytes to go. */
    method ReadFull(k: nat, n: nat) returns (b: Bytes, left: nat, ok: bool)
      modifies this
      ensures ok == (k <= n && k <= |old(rest)|)
      ensures ok ==> b == old(rest)[..k] && rest == old(rest)[k..] && left == n - k
      ensures !ok && n > |old(rest)| ==> left > 0
    {
      var m := Min(k, Min(n, |rest|));
      b, ok := rest[..m], m == k;
      rest, left := rest[m..], n - m;
    }

    /** `io.ReadAll` through the limited reader. */
    method ReadAll(n: nat) returns (b: Bytes, left: nat)
      modifies this
      ensures n <= |old(rest)| ==> b == old(rest)[..n] && rest == old(rest)[n..] && left == 0
      ensures n > |old(rest)| ==> left > 0
    {
      var m := Min(n, |rest|);
      b := rest[..m];
      rest, left := rest[m..], n - m;
    }
  }

  method DecodeRequestLikeMessage(was: Message, r: Stream, n: nat) returns (m: Message, left: nat, ok: bool)
    requires RequestLike(was.kind)
    modifies r
    ensures n > |old(r.rest)| ==> !ok || left != 0
    ensures n <= |old(r.rest)| ==>
      match Fill(was, old(r.rest)[..n])
      case Some(x) => ok && left == 0 && m == x && r.rest == old(r.rest)[n..]
      case None => !ok || left != 0
  {
    hide Get32;
    m, left := was, n;
    ghost var p := if n <= |r.rest| then r.rest[..n] else [];
    var b, c, d;
    b, left, ok := r.ReadFull(4, left);
    if !ok { return; }
    m := m.(index := Get32(b));
    c, left, ok := r.ReadFull(4, left);
    if !ok { return; }
    m := m.(begin := Get32(c));
    d, left, ok := r.ReadFull(4, left);
    if !ok { return; }
    m := m.(length := Get32(d));
    assert n <= |old(r.rest)| && left == 0 ==> p[..4] == b && p[4..8] == c && p[8..] == d;
  }

  method DecodePieceMessage(was: Message, r: Stream, n: nat) returns (m: Message, left: nat, ok: bool)
    requires was.kind == PIECE
    modifies r
    ensures n > |old(r.rest)| ==> !ok || left != 0
    ensures n <= |old(r.rest)| ==>
      match Fill(was, old(r.rest)[..n])
      case Some(x) => ok && left == 0 && m == x && r.rest == old(r.rest)[n..]
      case None => !ok || left != 0
  {
    hide Get32;
    m, left := was, n;
    ghost var p := if n <= |r.rest| then r.rest[..n] else [];
    var b, c, d;
    b, left, ok := r.ReadFull(4, left);
    if !ok { return; }
    m := m.(index := Get32(b));
    c, left, ok := r.ReadFull(4, left);
    if !ok { return; }
    m := m.(begin := Get32(c));
    d, left, ok := r.ReadFull(left, left);
    if !ok { return; }
    m := m.(piece := d);
    assert n <= |old(r.rest)| ==> p[..4] == b && p[4..8] == c && p[8..] == d;
  }

  /** The readers behind `decodeByMessageType`; `left` is what the limited reader has not handed out. */
  method DecodeByMessageType(was: Message, r: Stream, n: nat) returns (m: Message, left: nat, ok: bool)
    modifies r
    ensures n > |old(r.rest)| ==> !ok || left != 0
    ensures n <= |old(r.rest)| ==>
      match Fill(was, old(r.rest)[..n])
      case Some(x) => ok && left == 0 && m == x && r.rest == old(r.rest)[n..]
      case None => !ok || left != 0
  {
    hide Get32, Get16;
    m, left, ok := was, n, true;
    ghost var p := if n <= |r.rest| then r.rest[..n] else [];
    var b, c;
    if Bare(m.kind) {
    } else if m.kind == HAVE || IndexLost(m.kind) {
      b, left, ok := r.ReadFull(4, left);
      if ok { m := m.(index := Get32(b)); }
      assert ok && left == 0 && n <= |old(r.rest)| ==> b == p;
    } else if RequestLike(m.kind) {
      m, left, ok := DecodeRequestLikeMessage(m, r, n);
    } else if m.kind == BITFIELD {
      b, left, ok := r.ReadFull(n, left);
      if ok { m := m.(bitField := b); }
      ok := true;
    } else if m.kind == PIECE {
      m, left, ok := DecodePieceMessage(m, r, n);
    } else if m.kind == EXTENDED {
      b, left, ok := r.ReadFull(1, left);
      if !ok { return; }
      c, left := r.ReadAll(left);
      m := m.(extendedId := b[0], extendedPayload := c);
      assert n <= |old(r.rest)| ==> p[1..] == c;
    } else if m.kind == PORT {
      b, left, ok := r.ReadFull(2, left);
      if ok { m := m.(port := Get16(b)); }
      assert ok && left == 0 && n <= |old(r.rest)| ==> b == p;
    } else {
      b, left := r.ReadAll(left);
      m := m.(unknownPayload := b);
    }
  }

  /** `Message.Decode`. */
  method Decode(was: Message, r: Stream, maxLength: U32) returns (m: Message, ok: bool)
    modifies r
    ensures match DecodeOne(was, old(r.rest), maxLength)
            case Msg(x, rest) => ok && m == x && r.rest == rest
            case Fail => !ok
  {
    hide Get32, Fill;
    m := was;
    var b, n;
    b, n, ok := r.ReadFull(4, 4);
    if !ok { return; }
    var length := Get32(b);
    if length == 0 {
      m := m.(keepalive := true);
      return;
    }
    if maxLength > 0 && length > maxLength { return m, false; }
    m := m.(keepalive := false);
    var t, left;
    t, left, ok := r.ReadFull(1, length);
    if !ok { return; }
    ghost var s := old(r.rest);
    assert s[4..][0] == s[4] && r.rest == s[5..];
    assert length <= |s| - 4 ==> s[5..][..length - 1] == s[5..4 + length] && s[5..][length - 1..] == s[4 + length..];
    m := m.(kind := t[0]);
    m, left, ok := DecodeByMessageType(m, r, left);
    ok := ok && left == 0;
  }
}
