/**
 What the decoder of a `ut_metadata` payload makes of any dictionary that stands before the data:
 keys in any order and any number of times, with values of any kind.
 */
module PayloadLaws {
  import opened Prelude
  import opened Decimal
  import opened Bencode
  import opened BencodeLaws
  import opened Metadata

  /** The first byte of an encoding tells the kind of the value. */
  lemma EncodeFirst(v: Value)
    ensures Encode(v) != [] && Encode(v)[0] != TOK_END
    ensures Encode(v)[0] == TOK_INT <==> v.Int?
    ensures Encode(v)[0] == TOK_LIST <==> v.List?
    ensures IsDigit(Encode(v)[0]) <==> v.Str?
  {
    hide EncodeItems, EncodePairs, Format;
    if v.Str? { assert Encode(v)[0] == Digits(|v.s|)[0]; }
  }

  predicate Unsigned(v: Value) {
    v.Int? && v.n >= 0
  }

  lemma UnsignedText(n: int)
    requires 0 - INT64_CUTOFF <= n < INT64_CUTOFF
    ensures ParseUint(Format(n), UINT64_CUTOFF) == if n >= 0 then Some(n) else None
  {
    if n >= 0 {
      NatOfDigits(n);
    } else {
      assert Format(n)[0] == MINUS;
    }
  }

  /** A field takes an integer, the message type an unsigned one, of which it keeps the low byte. */
  lemma FieldReads(v: Value, rest: Bytes, unsigned: bool)
    requires Encodable(v)
    ensures var r := ParseField(Encode(v) + rest, unsigned);
            if v.Int? && (unsigned ==> v.n >= 0) then r == Ok(if unsigned then v.n % 256 else v.n, rest) else r.Err?
  {
    hide Format, IntToken, EncodeItems, EncodePairs, ParseUint, ParseInt;
    EncodeFirst(v);
    var s := Encode(v) + rest;
    assert s[0] == Encode(v)[0];
    if v.Int? {
      IntRoundTrip(v.n, rest);
      ParseFormat(v.n, INT64_CUTOFF);
      UnsignedText(v.n);
    }
  }

  lemma {:induction false} ItemsRead(items: seq<Value>, rest: Bytes)
    requires forall i :: 0 <= i < |items| ==> Encodable(items[i])
    ensures var r := ParseByteItems(EncodeItems(items) + [TOK_END] + rest);
            if forall i :: 0 <= i < |items| ==> Unsigned(items[i]) then r == Ok((), rest) else r.Err?
  {
    hide Encode, ParseField, Encodable;
    if items == [] {
      assert EncodeItems(items) + [TOK_END] + rest == [TOK_END] + rest && ([TOK_END] + rest)[1..] == rest;
    } else {
      var more := EncodeItems(items[1..]) + [TOK_END] + rest;
      var s := EncodeItems(items) + [TOK_END] + rest;
      assert s == Encode(items[0]) + more;
      EncodeFirst(items[0]);
      assert s[0] == Encode(items[0])[0];
      FieldReads(items[0], more, true);
      ItemsRead(items[1..], rest);
      assert forall i :: 0 < i < |items| ==> items[i] == items[1..][i - 1];
    }
  }

  /** What the key "-" may stand before. */
  predicate ByteLike(v: Value) {
    v.Str? || (v.List? && forall i :: 0 <= i < |v.items| ==> Unsigned(v.items[i]))
  }

  lemma BytesRead(v: Value, rest: Bytes)
    requires Encodable(v)
    ensures var r := ParseBytesField(Encode(v) + rest);
            if ByteLike(v) then r == Ok((), rest) else r.Err?
  {
    hide ParseString, ParseByteItems, EncodeItems, EncodePairs, EncodeString, Format, Encodable;
    EncodeFirst(v);
    var s := Encode(v) + rest;
    assert s[0] == Encode(v)[0];
    if v.Str? {
      StringFits(v);
      StringRoundTrip(v.s, rest);
    } else if v.List? {
      ItemsEncodable(v);
      assert s[1..] == EncodeItems(v.items) + [TOK_END] + rest;
      ItemsRead(v.items, rest);
    }
  }

  lemma StringFits(v: Value)
    requires Encodable(v) && v.Str?
    ensures |v.s| < INT32_CUTOFF
  {
  }

  lemma ItemsEncodable(v: Value)
    requires Encodable(v) && v.List?
    ensures forall i :: 0 <= i < |v.items| ==> Encodable(v.items[i])
  {
  }

  /** What a pair does to the message; none if it is refused. */
  function Reads(key: Bytes, v: Value, m: UtMessage): Option<UtMessage> {
    if key == MSG_TYPE then (if Unsigned(v) then Some(m.(msgType := v.n % 256)) else None)
    else if key == PIECE then (if v.Int? then Some(m.(piece := v.n)) else None)
    else if key == TOTAL_SIZE then (if v.Int? then Some(m.(totalSize := v.n)) else None)
    else if key == DASH then (if ByteLike(v) then Some(m) else None)
    else Some(m)
  }

  lemma EntryReads(key: Bytes, v: Value, rest: Bytes, m: UtMessage)
    requires Encodable(v)
    ensures match Reads(key, v, m)
            case Some(x) => ParseEntry(key, Encode(v) + rest, m) == Ok(x, rest)
            case None => ParseEntry(key, Encode(v) + rest, m).Err?
  {
    hide ParseField, ParseBytesField, ParseValue, Encode, Encodable, ByteLike;
    KeysDiffer();
    if key == MSG_TYPE {
      FieldReads(v, rest, true);
    } else if key == PIECE || key == TOTAL_SIZE {
      FieldReads(v, rest, false);
    } else if key == DASH {
      BytesRead(v, rest);
    } else {
      RoundTrip(v, rest, false);
    }
  }

  datatype Pair = Pair(key: Bytes, value: Value)

  ghost predicate Writable(p: Pair) {
    |p.key| < INT32_CUTOFF && Encodable(p.value)
  }

  ghost function Text(ps: seq<Pair>): Bytes {
    if ps == [] then [] else EncodeString(ps[0].key) + Encode(ps[0].value) + Text(ps[1..])
  }

  /** The pairs one after the other; the first that is refused refuses all. */
  function ReadsAll(ps: seq<Pair>, m: UtMessage): Option<UtMessage>
    decreases |ps|
  {
    if ps == [] then Some(m)
    else match Reads(ps[0].key, ps[0].value, m) case None => None case Some(x) => ReadsAll(ps[1..], x)
  }

  lemma {:induction false} HeaderReads(ps: seq<Pair>, data: Bytes, m: UtMessage)
    requires forall i :: 0 <= i < |ps| ==> Writable(ps[i])
    ensures match ReadsAll(ps, m)
            case Some(x) => ParseHeader(Text(ps) + [TOK_END] + data, m) == Ok(x, data)
            case None => ParseHeader(Text(ps) + [TOK_END] + data, m).Err?
    decreases |ps|
  {
    hide Encode, EncodeString, ParseString, ParseEntry, Encodable, Reads;
    if ps == [] {
      assert Text(ps) + [TOK_END] + data == [TOK_END] + data;
      HeaderEnd(data, m);
    } else {
      var p, more := ps[0], Text(ps[1..]) + [TOK_END] + data;
      var s := Text(ps) + [TOK_END] + data;
      assert s == EncodeString(p.key) + (Encode(p.value) + more);
      StringRoundTrip(p.key, Encode(p.value) + more);
      EntryReads(p.key, p.value, more, m);
      var r := Reads(p.key, p.value, m);
      if r.Some? { HeaderReads(ps[1..], data, r.value); }
    }
  }

  lemma OpenPayload(t: Bytes)
    ensures match ParseHeader(t, NO_MESSAGE)
            case Ok(x, rest) => DecodePayload([TOK_DICT] + t) == Ok(x.(data := rest), [])
            case Err(e) => DecodePayload([TOK_DICT] + t) == Err(e)
  {
    hide ParseHeader;
    assert ([TOK_DICT] + t)[1..] == t;
  }

  /**
   A payload of any pairs in any order, before any data: each field is what its last pair says, the
   data is everything after the dictionary, and the payload is refused exactly if some pair has a
   value of the wrong kind for its key.
   */
  lemma PayloadReads(ps: seq<Pair>, data: Bytes)
    requires forall i :: 0 <= i < |ps| ==> Writable(ps[i])
    ensures match ReadsAll(ps, NO_MESSAGE)
            case Some(x) => DecodePayload([TOK_DICT] + Text(ps) + [TOK_END] + data) == Ok(x.(data := data), [])
            case None => DecodePayload([TOK_DICT] + Text(ps) + [TOK_END] + data).Err?
  {
    hide Text, ParseHeader, ReadsAll, DecodePayload, Writable;
    Regroup([TOK_DICT], Text(ps), [TOK_END]);
    Regroup([TOK_DICT], Text(ps) + [TOK_END], data);
    OpenPayload(Text(ps) + [TOK_END] + data);
    HeaderReads(ps, data, NO_MESSAGE);
  }

  /** Anything but a dictionary is refused. */
  lemma OtherPayloads(v: Value, data: Bytes)
    requires Encodable(v) && !v.Dict?
    ensures DecodePayload(Encode(v) + data).Err?
  {
    hide EncodeItems, EncodePairs, Format, ParseHeader;
    EncodeFirst(v);
    assert (Encode(v) + data)[0] == Encode(v)[0];
  }
}
