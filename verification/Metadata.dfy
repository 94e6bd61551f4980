/** Fetching the info dictionary from a peer (BEP 9): the `ut_metadata` payload and the assembly of its pieces. */
module Metadata {
  import opened Prelude
  import opened Decimal
  import opened Bencode
  import opened BencodeLaws
  import opened BencodeCodec

  const BLOCK: int := 16384
  const DATA: Byte := 1

  const MSG_TYPE: Bytes := [109, 115, 103, 95, 116, 121, 112, 101]
  const PIECE: Bytes := [112, 105, 101, 99, 101]
  const TOTAL_SIZE: Bytes := [116, 111, 116, 97, 108, 95, 115, 105, 122, 101]

  /** The tag of the `Data` field: the encoder skips the field, the decoder takes the tag as its key. */
  const DASH: Bytes := [45]

  datatype UtMessage = UtMessage(msgType: Byte, piece: int, totalSize: int, data: Bytes)

  const NO_MESSAGE := UtMessage(0, 0, 0, [])

  // ------------------------------------------------------------ the payload

  function Field(key: Bytes, n: int): Bytes {
    EncodeString(key) + ([TOK_INT] + Format(n) + [TOK_END])
  }

  /** The struct encoder's fields in key order; an empty total size is omitted. */
  function EncodeHeader(m: UtMessage): Bytes {
    [TOK_DICT] + (Field(MSG_TYPE, m.msgType) + (Field(PIECE, m.piece) +
      ((if m.totalSize == 0 then [] else Field(TOTAL_SIZE, m.totalSize)) + [TOK_END])))
  }

  /** Only a data message carries a total size and data. */
  function Sent(m: UtMessage): UtMessage {
    if m.msgType == DATA then m else m.(totalSize := 0, data := [])
  }

  /** `EncodeToPayload`. */
  function EncodePayload(m: UtMessage): Bytes {
    EncodeHeader(Sent(m)) + Sent(m).data
  }

  /** An integer token for a uint8 field (the low byte is kept), or for an int field. */
  function ParseField(s: Bytes, unsigned: bool): (r: Parse<int>)
    ensures r.Ok? ==> |r.rest| < |s| && Suffix(r.rest, s)
  {
    if s == [] then Err(Eof)
    else if s[0] != TOK_INT then Err(InvalidInput)
    else match IntToken(s)
      case Err(e) => Err(e)
      case Ok(body, rest) =>
        if unsigned then
          match ParseUint(body, UINT64_CUTOFF) case None => Err(BadNumber) case Some(n) => Ok(n % 256, rest)
        else
          match ParseInt(body, INT64_CUTOFF) case None => Err(BadNumber) case Some(n) => Ok(n, rest)
  }

  /** The rest of a list whose items go into bytes: unsigned integers only. */
  function ParseByteItems(s: Bytes): (r: Parse<()>)
    ensures r.Ok? ==> |r.rest| < |s| && Suffix(r.rest, s)
    decreases |s|
  {
    if s == [] then Err(Eof)
    else if s[0] == TOK_END then Ok((), s[1..])
    else match ParseField(s, true) case Err(e) => Err(e) case Ok(_, rest) => ParseByteItems(rest)
  }

  /** A value for a `[]byte` field: a string or such a list. What it holds is overwritten in the end. */
  function ParseBytesField(s: Bytes): (r: Parse<()>)
    ensures r.Ok? ==> |r.rest| < |s| && Suffix(r.rest, s)
  {
    if s == [] then Err(Eof)
    else if IsDigit(s[0]) then match ParseString(s) case Err(e) => Err(e) case Ok(_, rest) => Ok((), rest)
    else if s[0] == TOK_LIST then ParseByteItems(s[1..])
    else Err(InvalidInput)
  }

  /** The struct decoder's loop: known keys fill fields, unknown keys are decoded and dropped. */
  function ParseHeader(s: Bytes, m: UtMessage): (r: Parse<UtMessage>)
    ensures r.Ok? ==> |r.rest| < |s| && Suffix(r.rest, s)
    decreases |s|
  {
    if s == [] then Err(Eof)
    else if s[0] == TOK_END then Ok(m, s[1..])
    else match ParseString(s)
      case Err(e) => Err(e)
      case Ok(key, t) => match ParseEntry(key, t, m) case Err(e) => Err(e) case Ok(x, rest) => ParseHeader(rest, x)
  }

  function ParseEntry(key: Bytes, t: Bytes, m: UtMessage): (r: Parse<UtMessage>)
    ensures r.Ok? ==> |r.rest| < |t| && Suffix(r.rest, t)
  {
    if key == MSG_TYPE then
      match ParseField(t, true) case Err(e) => Err(e) case Ok(n, rest) => Ok(m.(msgType := n % 256), rest)
    else if key == PIECE then
      match ParseField(t, false) case Err(e) => Err(e) case Ok(n, rest) => Ok(m.(piece := n), rest)
    else if key == TOTAL_SIZE then
      match ParseField(t, false) case Err(e) => Err(e) case Ok(n, rest) => Ok(m.(totalSize := n), rest)
    else if key == DASH then
      match ParseBytesField(t) case Err(e) => Err(e) case Ok(_, rest) => Ok(m, rest)
    else
      match ParseValue(t, false) case Err(e) => Err(e) case Ok(_, rest) => Ok(m, rest)
  }

  /** `DecodeFromPayload`: a dictionary, then the data is whatever `BytesParsed` has not counted. */
  function DecodePayload(b: Bytes): Parse<UtMessage> {
    if b == [] then Err(Eof)
    else if b[0] != TOK_DICT then Err(InvalidInput)
    else match ParseHeader(b[1..], NO_MESSAGE) case Err(e) => Err(e) case Ok(m, rest) => Ok(m.(data := rest), [])
  }

  lemma TokenParses(n: int, rest: Bytes, unsigned: bool)
    requires 0 - INT64_CUTOFF <= n < INT64_CUTOFF && (unsigned ==> 0 <= n < 256)
    ensures ParseField([TOK_INT] + Format(n) + [TOK_END] + rest, unsigned) == Ok(n, rest)
  {
    hide IntToken, Format;
    IntRoundTrip(n, rest);
    ParseFormat(n, INT64_CUTOFF);
    if unsigned { UnsignedFormat(n); }
  }

  lemma UnsignedFormat(n: nat)
    requires n < 256
    ensures ParseUint(Format(n), UINT64_CUTOFF) == Some(n)
  {
    NatOfDigits(n);
  }

  lemma FieldParses(key: Bytes, n: int, rest: Bytes, unsigned: bool)
    requires |key| < INT32_CUTOFF && 0 - INT64_CUTOFF <= n < INT64_CUTOFF && (unsigned ==> 0 <= n < 256)
    ensures var s := Field(key, n) + rest;
            && s != [] && s[0] != TOK_END
            && ParseString(s).Ok? && ParseString(s).value == key
            && ParseField(ParseString(s).rest, unsigned) == Ok(n, rest)
  {
    hide ParseString, ParseField, EncodeString, Format;
    var token := [TOK_INT] + Format(n) + [TOK_END];
    assert Field(key, n) + rest == EncodeString(key) + (token + rest);
    StringRoundTrip(key, token + rest);
    TokenParses(n, rest, unsigned);
  }

  lemma KeysDiffer()
    ensures MSG_TYPE != PIECE && MSG_TYPE != TOTAL_SIZE && PIECE != TOTAL_SIZE
    ensures DASH != MSG_TYPE && DASH != PIECE && DASH != TOTAL_SIZE && |DASH| < INT32_CUTOFF
    ensures |MSG_TYPE| < INT32_CUTOFF && |PIECE| < INT32_CUTOFF && |TOTAL_SIZE| < INT32_CUTOFF
  {
    assert |DASH| == 1 && |MSG_TYPE| == 8 && |PIECE| == 5 && |TOTAL_SIZE| == 10;
  }

  function Fill(key: Bytes, n: int, m: UtMessage): UtMessage {
    if key == MSG_TYPE then m.(msgType := n % 256) else if key == PIECE then m.(piece := n) else m.(totalSize := n)
  }

  lemma EntryStep(key: Bytes, t: Bytes, n: int, rest: Bytes, m: UtMessage)
    requires key == MSG_TYPE || key == PIECE || key == TOTAL_SIZE
    requires ParseField(t, key == MSG_TYPE) == Ok(n, rest)
    ensures ParseEntry(key, t, m) == Ok(Fill(key, n, m), rest)
  {
    hide ParseField, ParseValue;
    KeysDiffer();
  }

  lemma HeaderStep(key: Bytes, n: int, rest: Bytes, m: UtMessage)
    requires key == MSG_TYPE || key == PIECE || key == TOTAL_SIZE
    requires 0 - INT64_CUTOFF <= n < INT64_CUTOFF && (key == MSG_TYPE ==> 0 <= n < 256)
    ensures ParseHeader(Field(key, n) + rest, m) == ParseHeader(rest, Fill(key, n, m))
  {
    hide ParseString, ParseField, ParseEntry, Field, Fill;
    KeysDiffer();
    FieldParses(key, n, rest, key == MSG_TYPE);
    EntryStep(key, ParseString(Field(key, n) + rest).rest, n, rest, m);
  }

  /** A payload splits back into the header and the data it was made of, whatever the data is. */
  lemma PayloadRoundTrip(m: UtMessage)
    requires 0 - INT64_CUTOFF <= m.piece < INT64_CUTOFF && 0 - INT64_CUTOFF <= m.totalSize < INT64_CUTOFF
    ensures m.msgType == 1 ==> DecodePayload(EncodePayload(m)) == Ok(m, [])
    ensures m.msgType != 1 ==> DecodePayload(EncodePayload(m)) == Ok(UtMessage(m.msgType, m.piece, 0, []), [])
  {
    hide Field, ParseHeader;
    KeysDiffer();
    var x := Sent(m);
    var size := if x.totalSize == 0 then [] else Field(TOTAL_SIZE, x.totalSize);
    var end := [TOK_END] + x.data;
    var b := EncodePayload(m);
    var afterPiece := size + end;
    var afterType := Field(PIECE, x.piece) + afterPiece;
    assert b[1..] == Field(MSG_TYPE, x.msgType) + afterType;
    HeaderStep(MSG_TYPE, x.msgType, afterType, NO_MESSAGE);
    var m1 := NO_MESSAGE.(msgType := x.msgType);
    HeaderStep(PIECE, x.piece, afterPiece, m1);
    var m2 := m1.(piece := x.piece);
    if x.totalSize == 0 {
      assert afterPiece == end;
    } else {
      HeaderStep(TOTAL_SIZE, x.totalSize, end, m2);
    }
    HeaderEnd(x.data, m2.(totalSize := x.totalSize));
  }

  /**
   A header in which the next key to be read is "-" with an integer is refused, whatever was read
   before and follows.
   */
  lemma DashRefusesIntegers(n: int, rest: Bytes, m: UtMessage)
    requires 0 - INT64_CUTOFF <= n < INT64_CUTOFF
    ensures ParseHeader(Field(DASH, n) + rest, m).Err?
  {
    hide ParseString, ParseField, EncodeString, Format, ParseBytesField;
    KeysDiffer();
    var token := [TOK_INT] + Format(n) + [TOK_END];
    Regroup(EncodeString(DASH), token, rest);
    StringRoundTrip(DASH, token + rest);
    NotBytes(token + rest);
  }

  lemma NotBytes(s: Bytes)
    requires s != [] && s[0] == TOK_INT
    ensures ParseBytesField(s).Err?
  {
  }

  lemma HeaderEnd(data: Bytes, m: UtMessage)
    ensures ParseHeader([TOK_END] + data, m) == Ok(m, data)
  {
    assert ([TOK_END] + data)[1..] == data;
  }

  /** One known field through the stateful decoder. */
  method DecodeField(dec: Decoder, unsigned: bool) returns (n: int, err: Option<Error>)
    requires !dec.raw
    modifies dec
    ensures !dec.raw && dec.n + |dec.rest| == old(dec.n) + |old(dec.rest)|
    ensures match ParseField(old(dec.rest), unsigned)
            case Ok(x, r) => err.None? && n == x && dec.rest == r
            case Err(e) => err == Some(e)
  {
    n := 0;
    var ch, digits;
    ch, err := dec.PeekByte();
    if err.Some? { return; }
    if ch != TOK_INT { err := Some(InvalidInput); return; }
    digits, err := dec.ReadIntegerDigits();
    if err.Some? { return; }
    if unsigned {
      match ParseUint(digits, UINT64_CUTOFF) {
        case None => err := Some(BadNumber);
        case Some(x) => n := x % 256;
      }
    } else {
      match ParseInt(digits, INT64_CUTOFF) {
        case None => err := Some(BadNumber);
        case Some(x) => n := x;
      }
    }
  }

  /** The `[]byte` field through the stateful decoder. */
  method DecodeBytesField(dec: Decoder) returns (err: Option<Error>)
    requires !dec.raw
    modifies dec
    ensures !dec.raw
    ensures dec.n + |dec.rest| == old(dec.n) + |old(dec.rest)|
    ensures match ParseBytesField(old(dec.rest))
            case Ok(_, r) => err.None? && dec.rest == r
            case Err(e) => err == Some(e)
  {
    hide ParseString, ParseField;
    var ch;
    ch, err := dec.PeekByte();
    if err.Some? { return; }
    if IsDigit(ch) {
      var b;
      b, err := dec.DecodeString();
      return;
    }
    if ch != TOK_LIST { err := Some(InvalidInput); return; }
    ch, err := dec.ReadByte();
    ghost var items := dec.rest;
    while true
      invariant !dec.raw && dec.n + |dec.rest| == old(dec.n) + |old(dec.rest)|
      invariant ParseByteItems(items) == ParseByteItems(dec.rest)
      decreases |dec.rest|
    {
      ch, err := dec.PeekByte();
      if err.Some? { return; }
      if ch == TOK_END {
        ch, err := dec.ReadByte();
        return;
      }
      var n;
      n, err := DecodeField(dec, true);
      if err.Some? { return; }
    }
  }

  /** One key and its value. */
  method DecodeEntry(dec: Decoder, m: UtMessage) returns (x: UtMessage, err: Option<Error>)
    requires !dec.raw && !dec.failUnordered
    modifies dec
    ensures !dec.raw && dec.n + |dec.rest| == old(dec.n) + |old(dec.rest)|
    ensures match ParseString(old(dec.rest))
            case Err(e) => err == Some(e)
            case Ok(key, t) =>
              match ParseEntry(key, t, m)
              case Ok(y, r) => err.None? && x == y && dec.rest == r && Suffix(r, old(dec.rest))
              case Err(e) => err == Some(e)
  {
    hide ParseString, ParseValue, ParseField, ParseBytesField;
    x := m;
    var key, n, v;
    key, err := dec.DecodeString();
    if err.Some? { return; }
    if key == MSG_TYPE {
      n, err := DecodeField(dec, true);
      if err.None? { x := x.(msgType := n % 256); }
    } else if key == PIECE {
      n, err := DecodeField(dec, false);
      if err.None? { x := x.(piece := n); }
    } else if key == TOTAL_SIZE {
      n, err := DecodeField(dec, false);
      if err.None? { x := x.(totalSize := n); }
    } else if key == DASH {
      err := DecodeBytesField(dec);
    } else {
      v, err := dec.Decode();
    }
  }

  method DecodeFromPayload(b: Bytes) returns (m: UtMessage, err: Option<Error>)
    ensures match DecodePayload(b)
            case Ok(x, _) => err.None? && m == x
            case Err(e) => err == Some(e)
  {
    hide ParseString, ParseEntry, Suffix;
    m := NO_MESSAGE;
    var dec := new Decoder(b, false);
    var ch;
    ch, err := dec.PeekByte();
    if err.Some? { return; }
    if ch != TOK_DICT { err := Some(InvalidInput); return; }
    ch, err := dec.ReadByte();
    while true
      invariant !dec.raw && dec.n + |dec.rest| == |b| && fresh(dec)
      invariant ParseHeader(b[1..], NO_MESSAGE) == ParseHeader(dec.rest, m)
      invariant Suffix(dec.rest, b)
      decreases |dec.rest|
    {
      ghost var mid := dec.rest;
      ch, err := dec.PeekByte();
      if err.Some? { return; }
      if ch == TOK_END {
        ch, err := dec.ReadByte();
        ReadOn([], b, mid, dec.rest);
        SuffixIs(dec.rest, b);
        m := m.(data := b[dec.n..]);
        return;
      }
      m, err := DecodeEntry(dec, m);
      if err.Some? { return; }
      ReadOn([], b, mid, dec.rest);
    }
  }

  lemma SuffixIs(r: Bytes, s: Bytes)
    requires Suffix(r, s)
    ensures |r| <= |s| && s[|s| - |r|..] == r
  {
  }
}
