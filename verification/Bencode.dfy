/**
 Bencoding (BEP 3, section "bencoding"): the printer, the parser into `interface{}` and the
 raw scanner, as functions of the bytes. `BencodeCodec` holds the stateful encoder and decoder
 and is proved against this module.
 */
module Bencode {
  import opened Prelude
  import opened Decimal

  const TOK_INT: Byte := 105   // 'i'
  const TOK_LIST: Byte := 108  // 'l'
  const TOK_DICT: Byte := 100  // 'd'
  const TOK_END: Byte := 101   // 'e'
  const TOK_COLON: Byte := 58  // ':'

  /** What decoding into a nil `interface{}` stores: int64, string, []interface{}, map[string]interface{}. */
  datatype Value =
    | Int(n: int)
    | Str(s: Bytes)
    | List(items: seq<Value>)
    | Dict(entries: map<Bytes, Value>)

  datatype Error = Eof | InvalidInput | BadNumber | NegativeLength | Unordered

  datatype Parse<+T> = Ok(value: T, rest: Bytes) | Err(error: Error)

  /** Values whose Go form exists and whose strings the decoder can size: int64 and lengths below 2^31. */
  predicate Encodable(v: Value) {
    match v
    case Int(n) => 0 - INT64_CUTOFF <= n < INT64_CUTOFF
    case Str(s) => |s| < INT32_CUTOFF
    case List(items) => forall i :: 0 <= i < |items| ==> Encodable(items[i])
    case Dict(m) => forall k :: k in m ==> |k| < INT32_CUTOFF && Encodable(m[k])
  }

  // ---------------------------------------------------------------- printing

  function EncodeString(s: Bytes): Bytes {
    Digits(|s|) + [TOK_COLON] + s
  }

  ghost function Encode(v: Value): Bytes
    decreases v, 1
  {
    match v
    case Int(n) => [TOK_INT] + Format(n) + [TOK_END]
    case Str(s) => EncodeString(s)
    case List(items) => [TOK_LIST] + EncodeItems(items) + [TOK_END]
    case Dict(m) => [TOK_DICT] + EncodePairs(SortedKeys(m.Keys), v) + [TOK_END]
  }

  ghost function EncodeItems(items: seq<Value>): Bytes
    decreases items, 0
  {
    if items == [] then [] else Encode(items[0]) + EncodeItems(items[1..])
  }

  ghost function EncodePairs(keys: seq<Bytes>, d: Value): Bytes
    requires d.Dict? && forall k :: k in keys ==> k in d.entries
    decreases d, 0, |keys|
  {
    if keys == [] then []
    else EncodeString(keys[0]) + Encode(d.entries[keys[0]]) + EncodePairs(keys[1..], d)
  }

  predicate Ascending(keys: seq<Bytes>) {
    forall i, j :: 0 <= i < j < |keys| ==> LexLess(keys[i], keys[j])
  }

  /** The keys of a map in the order `sort.Sort` leaves them. */
  ghost function SortedKeys(ks: set<Bytes>): (keys: seq<Bytes>)
    ensures Ascending(keys) && Elements(keys) == ks
  {
    SortedKeysExist(ks);
    var keys :| Ascending(keys) && Elements(keys) == ks;
    keys
  }

  /** Where `k` belongs in an ascending list that does not hold it. */
  lemma {:induction false} InsertionPoint(keys: seq<Bytes>, k: Bytes) returns (i: nat)
    requires Ascending(keys) && k !in keys
    ensures i <= |keys| && Ascending(keys[..i] + [k] + keys[i..])
  {
    i := 0;
    while i < |keys| && LexLess(keys[i], k)
      invariant i <= |keys| && forall j :: 0 <= j < i ==> LexLess(keys[j], k)
    {
      i := i + 1;
    }
    forall j | i <= j < |keys|
      ensures LexLess(k, keys[j])
    {
      LexTotal(keys[i], k);
      if i < j { LexTransitive(k, keys[i], keys[j]); }
    }
  }

  lemma {:induction false} SortedKeysExist(ks: set<Bytes>)
    ensures exists keys :: Ascending(keys) && Elements(keys) == ks
  {
    if ks == {} {
      assert Ascending([]) && Elements<Bytes>([]) == ks;
    } else {
      var k :| k in ks;
      SortedKeysExist(ks - {k});
      var keys :| Ascending(keys) && Elements(keys) == ks - {k};
      assert k !in Elements(keys);
      var i := InsertionPoint(keys, k);
      var all := keys[..i] + [k] + keys[i..];
      assert keys == keys[..i] + keys[i..];
      assert Elements(all) == Elements(keys) + {k};
    }
  }

  /** An ascending listing of a set of keys is unique. */
  lemma {:induction false} AscendingUnique(a: seq<Bytes>, b: seq<Bytes>)
    requires Ascending(a) && Ascending(b) && Elements(a) == Elements(b)
    ensures a == b
  {
    assert (a == []) == (Elements(a) == {}) && (b == []) == (Elements(b) == {}) by {
      assert a != [] ==> a[0] in Elements(a);
      assert b != [] ==> b[0] in Elements(b);
    }
    if a == [] {
    } else {
      HeadIsLeast(a);
      HeadIsLeast(b);
      assert a[0] in Elements(b) && b[0] in Elements(a);
      LexTotal(a[0], b[0]);
      assert a == [a[0]] + a[1..] && b == [b[0]] + b[1..];
      assert Elements(a[1..]) == Elements(a) - {a[0]};
      assert Elements(b[1..]) == Elements(b) - {b[0]};
      AscendingUnique(a[1..], b[1..]);
    }
  }

  lemma HeadIsLeast(keys: seq<Bytes>)
    requires Ascending(keys) && keys != []
    ensures forall k :: k in keys ==> k == keys[0] || LexLess(keys[0], k)
    ensures keys[0] !in keys[1..]
  {
    forall k | k in keys[1..]
      ensures k != keys[0]
    {
      LexTotal(keys[0], k);
    }
  }

  // ---------------------------------------------------------------- parsing

  /** Position of the first `c`, as `bufio.Reader.ReadBytes` looks for its delimiter. */
  function Find(s: Bytes, c: Byte): (r: Option<nat>)
    ensures r.Some? ==> r.value < |s| && s[r.value] == c && c !in s[..r.value]
    ensures r.None? ==> c !in s
  {
    if s == [] then None
    else if s[0] == c then Some(0)
    else match Find(s[1..], c)
      case None => None
      case Some(i) => assert s[..i + 1] == [s[0]] + s[1..][..i]; Some(i + 1)
  }

  lemma FirstIsFound(s: Bytes, c: Byte, i: nat)
    requires i < |s| && s[i] == c && c !in s[..i]
    ensures Find(s, c) == Some(i)
  {
    assert s == s[..i] + [c] + s[i + 1..];
    assert s[i] in s;
  }

  predicate Suffix(r: Bytes, s: Bytes) {
    |r| <= |s| && s[|s| - |r|..] == r
  }

  /** The bytes read to get from `s` to its suffix `r`. */
  function Consumed(s: Bytes, r: Bytes): (c: Bytes)
    requires Suffix(r, s)
    ensures |c| == |s| - |r|
  {
    s[..|s| - |r|]
  }

  lemma SuffixChain(r: Parse<Value>, c: Bytes, b: Bytes, a: Bytes)
    requires Suffix(b, a) && Suffix(c, b)
    ensures r.Ok? && Suffix(r.rest, c) ==> Suffix(r.rest, a)
  {
  }

  /** The length prefix: what `ParseInt(text, 10, 32)` and the sign check leave. */
  function ParseLength(text: Bytes): Parse<nat> {
    match ParseInt(text, INT32_CUTOFF)
    case None => Err(BadNumber)
    case Some(n) => if n < 0 then Err(NegativeLength) else Ok(n, [])
  }

  function ParseString(s: Bytes): (r: Parse<Bytes>)
    ensures r.Ok? ==> |r.rest| < |s| && Suffix(r.rest, s) && |r.value| < INT32_CUTOFF
  {
    match Find(s, TOK_COLON)
    case None => Err(Eof)
    case Some(i) =>
      match ParseLength(s[..i])
      case Err(e) => Err(e)
      case Ok(n, _) =>
        if |s| - (i + 1) < n then Err(Eof) else Ok(s[i + 1..i + 1 + n], s[i + 1 + n..])
  }

  /** The text between 'i' and the first 'e', and what follows it. */
  function IntToken(s: Bytes): (r: Parse<Bytes>)
    requires s != []
    ensures r.Ok? ==> |r.rest| < |s| && Suffix(r.rest, s)
    ensures r.Ok? ==> s == [s[0]] + r.value + [TOK_END] + r.rest && TOK_END !in r.value
  {
    match Find(s[1..], TOK_END)
    case None => Err(Eof)
    case Some(i) => Ok(s[1..i + 1], s[i + 2..])
  }

  function ParseIntValue(s: Bytes): (r: Parse<Value>)
    requires s != []
    ensures r.Ok? ==> |r.rest| < |s| && Suffix(r.rest, s) && r.value.Int?
  {
    match IntToken(s)
    case Err(e) => Err(e)
    case Ok(body, rest) =>
      match ParseInt(body, INT64_CUTOFF)
      case None => Err(BadNumber)
      case Some(n) => Ok(Int(n), rest)
  }

  /** Decoding one value into `interface{}`; `strict` is `SetFailOnUnorderedKeys(true)`. */
  function ParseValue(s: Bytes, strict: bool): (r: Parse<Value>)
    ensures r.Ok? ==> |r.rest| < |s| && Suffix(r.rest, s)
    decreases |s|, 1
  {
    if s == [] then Err(Eof)
    else if s[0] == TOK_INT then ParseIntValue(s)
    else if IsDigit(s[0]) then
      match ParseString(s) case Err(e) => Err(e) case Ok(b, rest) => Ok(Str(b), rest)
    else if s[0] == TOK_LIST then ParseItems(s[1..], [], strict)
    else if s[0] == TOK_DICT then ParsePairs(s[1..], None, map[], strict)
    else Err(InvalidInput)
  }

  /** The rest of a list whose items so far are `acc`. */
  function ParseItems(s: Bytes, acc: seq<Value>, strict: bool): (r: Parse<Value>)
    ensures r.Ok? ==> |r.rest| < |s| && Suffix(r.rest, s) && r.value.List?
    decreases |s|, 2
  {
    if s == [] then Err(Eof)
    else if s[0] == TOK_END then Ok(List(acc), s[1..])
    else
      match ParseValue(s, strict)
      case Err(e) => Err(e)
      case Ok(v, rest) => ParseItems(rest, acc + [v], strict)
  }

  /** The rest of a dictionary; a repeated key overwrites, and keys need not ascend unless `strict`. */
  function ParsePairs(s: Bytes, last: Option<Bytes>, acc: map<Bytes, Value>, strict: bool): (r: Parse<Value>)
    ensures r.Ok? ==> |r.rest| < |s| && Suffix(r.rest, s) && r.value.Dict?
    decreases |s|, 2
  {
    if s == [] then Err(Eof)
    else if s[0] == TOK_END then Ok(Dict(acc), s[1..])
    else
      match ParseString(s)
      case Err(e) => Err(e)
      case Ok(key, afterKey) =>
        if strict && last.Some? && LexLess(key, last.value) then Err(Unordered)
        else
          match ParseValue(afterKey, strict)
          case Err(e) => Err(e)
          case Ok(v, rest) =>
            var r := ParsePairs(rest, Some(key), acc[key := v], strict);
            SuffixChain(r, rest, afterKey, s);
            r
  }

  // ---------------------------------------------------------------- scanning

  /**
   One recogniser, four grammars. `Raw` is the mode that captures a `RawMessage`: integer bodies
   are not looked at. `Lenient` and `Strict` are what the two settings of the typed decoder
   accept. `Canonical` is the grammar of BEP 3: minimal numbers and strictly ascending keys.
   */
  datatype Grammar = Raw | Lenient | Strict | Canonical

  predicate BodyOk(body: Bytes, g: Grammar) {
    (g.Raw? || ParseInt(body, INT64_CUTOFF).Some?) && (g.Canonical? ==> Minimal(body))
  }

  predicate LengthOk(s: Bytes, g: Grammar)
    requires Find(s, TOK_COLON).Some?
  {
    g.Canonical? ==> Minimal(s[..Find(s, TOK_COLON).value])
  }

  predicate OrderOk(last: Option<Bytes>, key: Bytes, g: Grammar) {
    last.Some? ==>
      (g.Strict? ==> !LexLess(key, last.value)) && (g.Canonical? ==> LexLess(last.value, key))
  }

  function ScanString(s: Bytes, g: Grammar): (r: Option<Bytes>)
    ensures r.Some? ==> |r.value| < |s| && Suffix(r.value, s)
  {
    var p := ParseString(s);
    if p.Ok? && LengthOk(s, g) then Some(p.rest) else None
  }

  /** What is left after one value of grammar `g`, if there is one. */
  function Scan(s: Bytes, g: Grammar): (r: Option<Bytes>)
    ensures r.Some? ==> |r.value| < |s| && Suffix(r.value, s)
    decreases |s|, 1
  {
    if s == [] then None
    else if s[0] == TOK_INT then
      var t := IntToken(s);
      if t.Ok? && BodyOk(t.value, g) then Some(t.rest) else None
    else if IsDigit(s[0]) then ScanString(s, g)
    else if s[0] == TOK_LIST then ScanItems(s[1..], g)
    else if s[0] == TOK_DICT then ScanPairs(s[1..], None, g)
    else None
  }

  function ScanItems(s: Bytes, g: Grammar): (r: Option<Bytes>)
    ensures r.Some? ==> |r.value| < |s| && Suffix(r.value, s)
    decreases |s|, 2
  {
    if s == [] then None
    else if s[0] == TOK_END then Some(s[1..])
    else match Scan(s, g) case None => None case Some(rest) => ScanItems(rest, g)
  }

  function ScanPairs(s: Bytes, last: Option<Bytes>, g: Grammar): (r: Option<Bytes>)
    ensures r.Some? ==> |r.value| < |s| && Suffix(r.value, s)
    decreases |s|, 2
  {
    if s == [] then None
    else if s[0] == TOK_END then Some(s[1..])
    else
      var key := ParseString(s);
      if key.Err? || !LengthOk(s, g) || !OrderOk(last, key.value, g) then None
      else match Scan(key.rest, g) case None => None case Some(rest) => ScanPairs(rest, Some(key.value), g)
  }
}
