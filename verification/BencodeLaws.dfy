/** What the bencode functions promise together: round trips, canonical forms, raw/typed agreement. */
module BencodeLaws {
  import opened Prelude
  import opened Decimal
  import opened Bencode

  // ------------------------------------------------------------ decode after encode

  lemma FindAfter(a: Bytes, c: Byte, b: Bytes)
    requires c !in a
    ensures Find(a + [c] + b, c) == Some(|a|)
  {
    var s := a + [c] + b;
    assert s[..|a|] == a;
    FirstIsFound(s, c, |a|);
  }

  lemma DigitsAvoid(s: Bytes)
    requires AllDigits(s)
    ensures TOK_COLON !in s && TOK_END !in s
  {
  }

  lemma StringRoundTrip(b: Bytes, rest: Bytes)
    requires |b| < INT32_CUTOFF
    ensures var s := EncodeString(b) + rest;
            && ParseString(s) == Ok(b, rest)
            && IsDigit(s[0]) && s[0] != TOK_END
            && LengthOk(s, Canonical)
  {
    var text := Digits(|b|);
    var s := EncodeString(b) + rest;
    DigitsAvoid(text);
    assert s == text + [TOK_COLON] + (b + rest);
    FindAfter(text, TOK_COLON, b + rest);
    assert s[..|text|] == text;
    assert Format(|b|) == text;
    ParseFormat(|b|, INT32_CUTOFF);
    assert s[|text| + 1..|text| + 1 + |b|] == b;
    assert s[|text| + 1 + |b|..] == rest;
  }

  lemma FormatAvoids(n: int)
    ensures TOK_END !in Format(n)
  {
    DigitsAvoid(Digits(if n < 0 then -n else n));
  }

  lemma IntRoundTrip(n: int, rest: Bytes)
    requires 0 - INT64_CUTOFF <= n < INT64_CUTOFF
    ensures var s := [TOK_INT] + Format(n) + [TOK_END] + rest;
            && IntToken(s) == Ok(Format(n), rest)
            && ParseIntValue(s) == Ok(Int(n), rest)
            && BodyOk(Format(n), Canonical)
  {
    var s := [TOK_INT] + Format(n) + [TOK_END] + rest;
    FormatAvoids(n);
    hide Format;
    assert s[1..] == Format(n) + [TOK_END] + rest;
    FindAfter(Format(n), TOK_END, rest);
    assert s[1..|Format(n)| + 1] == Format(n);
    assert s[|Format(n)| + 2..] == rest;
    ParseFormat(n, INT64_CUTOFF);
  }

  lemma OpenList(t: Bytes, strict: bool, g: Grammar)
    ensures ParseValue([TOK_LIST] + t, strict) == ParseItems(t, [], strict)
    ensures Scan([TOK_LIST] + t, g) == ScanItems(t, g)
  {
    assert ([TOK_LIST] + t)[1..] == t;
  }

  lemma OpenDict(t: Bytes, strict: bool, g: Grammar)
    ensures ParseValue([TOK_DICT] + t, strict) == ParsePairs(t, None, map[], strict)
    ensures Scan([TOK_DICT] + t, g) == ScanPairs(t, None, g)
  {
    assert ([TOK_DICT] + t)[1..] == t;
  }

  lemma CloseItems(rest: Bytes, acc: seq<Value>, strict: bool)
    ensures ParseItems([TOK_END] + rest, acc, strict) == Ok(List(acc), rest)
    ensures ScanItems([TOK_END] + rest, Canonical) == Some(rest)
  {
    assert ([TOK_END] + rest)[1..] == rest;
  }

  lemma ClosePairs(rest: Bytes, last: Option<Bytes>, acc: map<Bytes, Value>, strict: bool)
    ensures ParsePairs([TOK_END] + rest, last, acc, strict) == Ok(Dict(acc), rest)
    ensures ScanPairs([TOK_END] + rest, last, Canonical) == Some(rest)
  {
    assert ([TOK_END] + rest)[1..] == rest;
  }

  lemma NextItem(s: Bytes, acc: seq<Value>, strict: bool, v: Value, rest: Bytes)
    requires s != [] && s[0] != TOK_END
    requires ParseValue(s, strict) == Ok(v, rest) && Scan(s, Canonical) == Some(rest)
    ensures ParseItems(s, acc, strict) == ParseItems(rest, acc + [v], strict)
    ensures ScanItems(s, Canonical) == ScanItems(rest, Canonical)
  {
  }

  lemma NextPair(s: Bytes, last: Option<Bytes>, acc: map<Bytes, Value>, strict: bool, k: Bytes, t: Bytes, v: Value,
      rest: Bytes)
    requires s != [] && s[0] != TOK_END
    requires ParseString(s) == Ok(k, t) && LengthOk(s, Canonical) && OrderOk(last, k, Canonical)
    requires ParseValue(t, strict) == Ok(v, rest) && Scan(t, Canonical) == Some(rest)
    ensures ParsePairs(s, last, acc, strict) == ParsePairs(rest, Some(k), acc[k := v], strict)
    ensures ScanPairs(s, last, Canonical) == ScanPairs(rest, Some(k), Canonical)
  {
    if last.Some? { LexTotal(last.value, k); }
  }

  lemma IntParses(n: int, rest: Bytes, strict: bool)
    requires 0 - INT64_CUTOFF <= n < INT64_CUTOFF
    ensures ParseValue([TOK_INT] + Format(n) + [TOK_END] + rest, strict) == Ok(Int(n), rest)
    ensures Scan([TOK_INT] + Format(n) + [TOK_END] + rest, Canonical) == Some(rest)
  {
    IntRoundTrip(n, rest);
  }

  lemma StringParses(b: Bytes, rest: Bytes, strict: bool)
    requires |b| < INT32_CUTOFF
    ensures ParseValue(EncodeString(b) + rest, strict) == Ok(Str(b), rest)
    ensures Scan(EncodeString(b) + rest, Canonical) == Some(rest)
  {
    StringRoundTrip(b, rest);
  }

  lemma ListShape(items: seq<Value>, rest: Bytes)
    ensures Encode(List(items)) + rest == [TOK_LIST] + (EncodeItems(items) + [TOK_END] + rest)
  {
    hide EncodeItems;
    Regroup([TOK_LIST], EncodeItems(items), [TOK_END]);
    Regroup([TOK_LIST], EncodeItems(items) + [TOK_END], rest);
  }

  lemma DictShape(d: Value, rest: Bytes)
    requires d.Dict?
    ensures Encode(d) + rest == [TOK_DICT] + (EncodePairs(SortedKeys(d.entries.Keys), d) + [TOK_END] + rest)
  {
    hide EncodePairs;
    var pairs := EncodePairs(SortedKeys(d.entries.Keys), d);
    Regroup([TOK_DICT], pairs, [TOK_END]);
    Regroup([TOK_DICT], pairs + [TOK_END], rest);
  }

  lemma ConsItems(v: Value, more: seq<Value>, rest: Bytes)
    ensures EncodeItems([v] + more) + rest == Encode(v) + (EncodeItems(more) + rest)
  {
    hide Encode;
    assert ([v] + more)[1..] == more;
    Regroup(Encode(v), EncodeItems(more), rest);
  }

  lemma ConsPairs(k: Bytes, more: seq<Bytes>, d: Value, rest: Bytes)
    requires d.Dict? && k in d.entries && forall x :: x in more ==> x in d.entries
    ensures EncodePairs([k] + more, d) + rest ==
      EncodeString(k) + (Encode(d.entries[k]) + (EncodePairs(more, d) + rest))
  {
    hide Encode, EncodeString;
    assert ([k] + more)[1..] == more;
    Regroup(EncodeString(k) + Encode(d.entries[k]), EncodePairs(more, d), rest);
    Regroup(EncodeString(k), Encode(d.entries[k]), EncodePairs(more, d) + rest);
  }

  /** An encoding starts with a byte that no enclosing list or dictionary reads as its end. */
  lemma EncodeHead(v: Value)
    ensures Encode(v) != [] && Encode(v)[0] != TOK_END
  {
    if v.Str? { assert Encode(v)[0] == Digits(|v.s|)[0]; }
  }

  /**
   Decoding the encoding of a value, followed by anything at all, gives the value back and stops
   exactly at the end of the encoding; the encoding also obeys the canonical grammar.
   */
  lemma {:induction false} RoundTrip(v: Value, rest: Bytes, strict: bool)
    requires Encodable(v)
    ensures ParseValue(Encode(v) + rest, strict) == Ok(v, rest)
    ensures Scan(Encode(v) + rest, Canonical) == Some(rest)
    decreases v, 1
  {
    hide ParseValue, Scan, ParseItems, ScanItems, ParsePairs, ScanPairs, LexLess, Format, EncodeString, EncodeItems,
      EncodePairs;
    match v
    case Int(n) =>
      IntParses(n, rest, strict);
    case Str(b) =>
      StringParses(b, rest, strict);
    case List(items) =>
      var t := EncodeItems(items) + [TOK_END] + rest;
      ListShape(items, rest);
      OpenList(t, strict, Canonical);
      ItemsRoundTrip(items, [], rest, strict);
      assert [] + items == items;
    case Dict(m) =>
      var keys := SortedKeys(m.Keys);
      assert forall k :: k in keys <==> k in Elements(keys);
      var t := EncodePairs(keys, v) + [TOK_END] + rest;
      DictShape(v, rest);
      OpenDict(t, strict, Canonical);
      PairsRoundTrip(v, keys, None, map[], rest, strict);
  }

  lemma {:induction false} ItemsRoundTrip(items: seq<Value>, acc: seq<Value>, rest: Bytes, strict: bool)
    requires forall i :: 0 <= i < |items| ==> Encodable(items[i])
    ensures ParseItems(EncodeItems(items) + [TOK_END] + rest, acc, strict) == Ok(List(acc + items), rest)
    ensures ScanItems(EncodeItems(items) + [TOK_END] + rest, Canonical) == Some(rest)
    decreases items, 0
  {
    hide ParseValue, Scan, ParseItems, ScanItems, Encode;
    var s, end := EncodeItems(items) + [TOK_END] + rest, [TOK_END] + rest;
    Regroup(EncodeItems(items), [TOK_END], rest);
    if items == [] {
      assert s == end && acc + items == acc;
      CloseItems(rest, acc, strict);
    } else {
      var v, more := items[0], items[1..];
      var after := EncodeItems(more) + end;
      assert items == [v] + more;
      ConsItems(v, more, end);
      EncodeHead(v);
      assert s[0] == Encode(v)[0];
      RoundTrip(v, after, strict);
      NextItem(s, acc, strict, v, after);
      ItemsRoundTrip(more, acc + [v], rest, strict);
      Regroup(EncodeItems(more), [TOK_END], rest);
      Regroup(acc, [v], more);
    }
  }

  ghost predicate Beyond(last: Option<Bytes>, keys: seq<Bytes>) {
    last.Some? ==> forall k :: k in keys ==> LexLess(last.value, k)
  }

  /** The entries of `d` are those in `acc` and those whose keys are still to be read. */
  ghost predicate Split(d: map<Bytes, Value>, acc: map<Bytes, Value>, keys: seq<Bytes>) {
    && (forall k :: k in keys ==> k in d)
    && (forall k :: k in acc ==> k in d && d[k] == acc[k])
    && (forall k :: k in d ==> k in acc || k in keys)
  }

  lemma SplitTail(d: map<Bytes, Value>, acc: map<Bytes, Value>, keys: seq<Bytes>)
    requires keys != [] && Split(d, acc, keys) && Ascending(keys)
    ensures Split(d, acc[keys[0] := d[keys[0]]], keys[1..])
    ensures Ascending(keys[1..]) && Beyond(Some(keys[0]), keys[1..])
  {
    assert keys == [keys[0]] + keys[1..];
  }

  lemma SplitKeys(d: map<Bytes, Value>, acc: map<Bytes, Value>, keys: seq<Bytes>)
    requires Split(d, acc, keys)
    ensures forall k :: k in keys ==> k in d
    ensures keys == [] ==> acc == d
  {
  }

  lemma BeyondHead(last: Option<Bytes>, keys: seq<Bytes>)
    requires Beyond(last, keys) && keys != []
    ensures OrderOk(last, keys[0], Canonical)
  {
    hide LexLess;
  }

  lemma {:induction false} PairsRoundTrip(d: Value, keys: seq<Bytes>, last: Option<Bytes>, acc: map<Bytes, Value>,
      rest: Bytes, strict: bool)
    requires d.Dict? && Encodable(d) && Split(d.entries, acc, keys)
    requires Ascending(keys) && Beyond(last, keys)
    ensures ParsePairs(EncodePairs(keys, d) + [TOK_END] + rest, last, acc, strict) == Ok(d, rest)
    ensures ScanPairs(EncodePairs(keys, d) + [TOK_END] + rest, last, Canonical) == Some(rest)
    decreases d, 0, |keys|
  {
    hide ParseValue, Scan, ParsePairs, ScanPairs, ParseString, LexLess, Find, LengthOk, OrderOk, Ascending, Encode,
      EncodeString, Split;
    var end := [TOK_END] + rest;
    SplitKeys(d.entries, acc, keys);
    var s := EncodePairs(keys, d) + [TOK_END] + rest;
    Regroup(EncodePairs(keys, d), [TOK_END], rest);
    if keys == [] {
      assert s == end;
      ClosePairs(rest, last, acc, strict);
    } else {
      var k, more := keys[0], keys[1..];
      var v := d.entries[k];
      var after := EncodePairs(more, d) + end;
      assert keys == [k] + more;
      ConsPairs(k, more, d, end);
      StringRoundTrip(k, Encode(v) + after);
      RoundTrip(v, after, strict);
      BeyondHead(last, keys);
      NextPair(s, last, acc, strict, k, Encode(v) + after, v, after);
      SplitTail(d.entries, acc, keys);
      PairsRoundTrip(d, more, Some(k), acc[k := v], rest, strict);
      Regroup(EncodePairs(more, d), [TOK_END], rest);
    }
  }

  /** No encoding is a prefix of another, not even followed by other bytes. */
  lemma SelfDelimiting(v: Value, w: Value, x: Bytes, y: Bytes)
    requires Encodable(v) && Encodable(w) && Encode(v) + x == Encode(w) + y
    ensures v == w && x == y
  {
    RoundTrip(v, x, false);
    RoundTrip(w, y, false);
  }

  lemma EncodeInjective(v: Value, w: Value)
    requires Encodable(v) && Encodable(w) && Encode(v) == Encode(w)
    ensures v == w
  {
    SelfDelimiting(v, w, [], []);
  }

  // ------------------------------------------------------------ the four grammars

  function Typed(strict: bool): Grammar {
    if strict then Strict else Lenient
  }

  predicate Stronger(g: Grammar, h: Grammar) {
    h.Raw? || g == h || g.Canonical? || (g.Strict? && h.Lenient?)
  }

  /** Every input a stronger grammar accepts is accepted by the weaker one, up to the same byte. */
  lemma {:induction false} ScanWeaken(s: Bytes, g: Grammar, h: Grammar)
    requires Stronger(g, h) && Scan(s, g).Some?
    ensures Scan(s, h) == Scan(s, g)
    decreases |s|, 1
  {
    if s[0] == TOK_LIST {
      ScanItemsWeaken(s[1..], g, h);
    } else if s[0] == TOK_DICT {
      ScanPairsWeaken(s[1..], None, g, h);
    }
  }

  lemma {:induction false} ScanItemsWeaken(s: Bytes, g: Grammar, h: Grammar)
    requires Stronger(g, h) && ScanItems(s, g).Some?
    ensures ScanItems(s, h) == ScanItems(s, g)
    decreases |s|, 2
  {
    if s[0] != TOK_END {
      ScanWeaken(s, g, h);
      ScanItemsWeaken(Scan(s, g).value, g, h);
    }
  }

  lemma {:induction false} ScanPairsWeaken(s: Bytes, last: Option<Bytes>, g: Grammar, h: Grammar)
    requires Stronger(g, h) && ScanPairs(s, last, g).Some?
    ensures ScanPairs(s, last, h) == ScanPairs(s, last, g)
    decreases |s|, 2
  {
    if s[0] != TOK_END {
      hide ParseString, LexLess, Scan, ScanPairs, LengthOk, OrderOk, Find;
      var key := ParseString(s);
      PairHead(s, last, g);
      KeyWeaken(s, last, key.value, g, h);
      ScanWeaken(key.rest, g, h);
      ScanPairsWeaken(Scan(key.rest, g).value, Some(key.value), g, h);
      PairStep(s, last, h);
    }
  }

  lemma KeyWeaken(s: Bytes, last: Option<Bytes>, key: Bytes, g: Grammar, h: Grammar)
    requires Stronger(g, h) && Find(s, TOK_COLON).Some? && LengthOk(s, g) && OrderOk(last, key, g)
    ensures LengthOk(s, h) && OrderOk(last, key, h)
  {
    if last.Some? { LexTotal(last.value, key); }
  }

  lemma PairHead(s: Bytes, last: Option<Bytes>, g: Grammar)
    requires ScanPairs(s, last, g).Some? && s[0] != TOK_END
    ensures var key := ParseString(s);
            && key.Ok? && Find(s, TOK_COLON).Some? && LengthOk(s, g) && OrderOk(last, key.value, g)
            && Scan(key.rest, g).Some?
            && ScanPairs(s, last, g) == ScanPairs(Scan(key.rest, g).value, Some(key.value), g)
  {
  }

  lemma PairStep(s: Bytes, last: Option<Bytes>, g: Grammar)
    requires s != [] && s[0] != TOK_END && ParseString(s).Ok? && Find(s, TOK_COLON).Some? && LengthOk(s, g)
    requires OrderOk(last, ParseString(s).value, g) && Scan(ParseString(s).rest, g).Some?
    ensures ScanPairs(s, last, g) == ScanPairs(Scan(ParseString(s).rest, g).value, Some(ParseString(s).value), g)
  {
  }

  function RestOf(p: Parse<Value>): Option<Bytes> {
    match p case Ok(_, rest) => Some(rest) case Err(_) => None
  }

  /** The typed decoder accepts exactly its grammar, stops where the scanner stops and yields an encodable value. */
  lemma {:induction false} ParseIsScan(s: Bytes, strict: bool)
    ensures RestOf(ParseValue(s, strict)) == Scan(s, Typed(strict))
    ensures ParseValue(s, strict).Ok? ==> Encodable(ParseValue(s, strict).value)
    decreases |s|, 1
  {
    if s != [] && s[0] == TOK_LIST {
      ParseItemsIsScan(s[1..], [], strict);
    } else if s != [] && s[0] == TOK_DICT {
      ParsePairsIsScan(s[1..], None, map[], strict);
    }
  }

  lemma {:induction false} ParseItemsIsScan(s: Bytes, acc: seq<Value>, strict: bool)
    requires forall i :: 0 <= i < |acc| ==> Encodable(acc[i])
    ensures RestOf(ParseItems(s, acc, strict)) == ScanItems(s, Typed(strict))
    ensures ParseItems(s, acc, strict).Ok? ==> Encodable(ParseItems(s, acc, strict).value)
    decreases |s|, 2
  {
    if s != [] && s[0] != TOK_END {
      ParseIsScan(s, strict);
      var p := ParseValue(s, strict);
      if p.Ok? { ParseItemsIsScan(p.rest, acc + [p.value], strict); }
    }
  }

  lemma {:induction false} ParsePairsIsScan(s: Bytes, last: Option<Bytes>, acc: map<Bytes, Value>, strict: bool)
    requires forall k :: k in acc ==> |k| < INT32_CUTOFF && Encodable(acc[k])
    ensures RestOf(ParsePairs(s, last, acc, strict)) == ScanPairs(s, last, Typed(strict))
    ensures ParsePairs(s, last, acc, strict).Ok? ==> Encodable(ParsePairs(s, last, acc, strict).value)
    decreases |s|, 2
  {
    if s != [] && s[0] != TOK_END {
      hide ParseString, ParseValue, Scan, ParsePairs, ScanPairs, OrderOk;
      var key := ParseString(s);
      PairsUnfold(s, last, acc, strict);
      if key.Ok? && OrderOk(last, key.value, Typed(strict)) {
        ParseIsScan(key.rest, strict);
        var p := ParseValue(key.rest, strict);
        if p.Ok? { ParsePairsIsScan(p.rest, Some(key.value), acc[key.value := p.value], strict); }
      }
    }
  }

  /** The decoder and the scanner take a dictionary apart in the same way. */
  lemma PairsUnfold(s: Bytes, last: Option<Bytes>, acc: map<Bytes, Value>, strict: bool)
    requires s != [] && s[0] != TOK_END
    ensures var key, g := ParseString(s), Typed(strict);
            if key.Err? || !OrderOk(last, key.value, g)
            then ParsePairs(s, last, acc, strict).Err? && ScanPairs(s, last, g).None?
            else
              var p, q := ParseValue(key.rest, strict), Scan(key.rest, g);
              && (if p.Err? then ParsePairs(s, last, acc, strict).Err?
                  else ParsePairs(s, last, acc, strict) ==
                         ParsePairs(p.rest, Some(key.value), acc[key.value := p.value], strict))
              && ScanPairs(s, last, g) == (if q.None? then None else ScanPairs(q.value, Some(key.value), g))
  {
    hide ParseString, ParseValue, Scan, LexLess;
  }

  /** Whatever decodes into `interface{}` also decodes into a `RawMessage`, over the same bytes. */
  lemma RawAgrees(s: Bytes, strict: bool)
    requires ParseValue(s, strict).Ok?
    ensures Scan(s, Raw) == Some(ParseValue(s, strict).rest)
  {
    ParseIsScan(s, strict);
    ScanWeaken(s, Typed(strict), Raw);
  }

  /** The converse fails on integer tokens, and there exactly when the body is not an int64. */
  lemma RawAcceptsAnyBody(body: Bytes, rest: Bytes, strict: bool)
    requires TOK_END !in body
    ensures var s := [TOK_INT] + body + [TOK_END] + rest;
            && Scan(s, Raw) == Some(rest)
            && (ParseValue(s, strict).Ok? <==> ParseInt(body, INT64_CUTOFF).Some?)
  {
    var s := [TOK_INT] + body + [TOK_END] + rest;
    assert s[1..] == body + [TOK_END] + rest;
    FindAfter(body, TOK_END, rest);
    assert s[1..|body| + 1] == body && s[|body| + 2..] == rest;
  }

  lemma RawIsASuperset()
    ensures Scan([TOK_INT, TOK_END], Raw) == Some([])
    ensures forall strict :: ParseValue([TOK_INT, TOK_END], strict).Err?
  {
    assert [TOK_INT] + [] + [TOK_END] + [] == [TOK_INT, TOK_END];
    forall strict: bool
      ensures ParseValue([TOK_INT, TOK_END], strict).Err?
    {
      RawAcceptsAnyBody([], [], strict);
    }
    RawAcceptsAnyBody([], [], true);
  }

  /** The bodies of the integer tokens that a raw scan passes over, at any depth and in order. */
  function Bodies(s: Bytes): seq<Bytes>
    decreases |s|, 1
  {
    if s == [] then []
    else if s[0] == TOK_INT then
      var t := IntToken(s);
      if t.Ok? then [t.value] else []
    else if s[0] == TOK_LIST then ItemBodies(s[1..])
    else if s[0] == TOK_DICT then PairBodies(s[1..])
    else []
  }

  function ItemBodies(s: Bytes): seq<Bytes>
    decreases |s|, 2
  {
    if s == [] || s[0] == TOK_END then []
    else match Scan(s, Raw) case None => [] case Some(rest) => Bodies(s) + ItemBodies(rest)
  }

  function PairBodies(s: Bytes): seq<Bytes>
    decreases |s|, 2
  {
    if s == [] || s[0] == TOK_END then []
    else
      var key := ParseString(s);
      if key.Err? then []
      else match Scan(key.rest, Raw) case None => [] case Some(rest) => Bodies(key.rest) + PairBodies(rest)
  }

  ghost predicate AllInts(bodies: seq<Bytes>) {
    forall i :: 0 <= i < |bodies| ==> ParseInt(bodies[i], INT64_CUTOFF).Some?
  }

  lemma AllIntsAppend(a: seq<Bytes>, b: seq<Bytes>)
    ensures AllInts(a + b) <==> AllInts(a) && AllInts(b)
  {
    hide ParseInt;
    if AllInts(a + b) {
      assert forall i :: 0 <= i < |a| ==> (a + b)[i] == a[i];
      assert forall i :: 0 <= i < |b| ==> (a + b)[|a| + i] == b[i];
    }
  }

  /** Input that raw mode accepts is in the typed grammar exactly if every integer in it is an int64. */
  lemma {:induction false} RawScanIff(s: Bytes)
    requires Scan(s, Raw).Some?
    ensures Scan(s, Lenient).Some? <==> AllInts(Bodies(s))
    decreases |s|, 1
  {
    hide ScanItems, ScanPairs, ItemBodies, PairBodies, ParseInt, ParseString;
    if s[0] == TOK_LIST {
      RawItemsIff(s[1..]);
    } else if s[0] == TOK_DICT {
      RawPairsIff(s[1..], None);
    } else if s[0] == TOK_INT {
      assert Bodies(s) == [IntToken(s).value] && Bodies(s)[0] == IntToken(s).value;
    } else {
      StringGrammars(s);
    }
  }

  lemma StringGrammars(s: Bytes)
    requires ScanString(s, Raw).Some?
    ensures ScanString(s, Lenient).Some?
  {
    hide ParseString;
  }

  lemma {:induction false} RawItemsIff(s: Bytes)
    requires ScanItems(s, Raw).Some?
    ensures ScanItems(s, Lenient).Some? <==> AllInts(ItemBodies(s))
    decreases |s|, 2
  {
    hide Scan, Bodies, AllInts;
    if s[0] == TOK_END {
      AllIntsNone();
    } else {
      var rest := Scan(s, Raw).value;
      RawScanIff(s);
      if Scan(s, Lenient).Some? { ScanWeaken(s, Lenient, Raw); }
      RawItemsIff(rest);
      AllIntsAppend(Bodies(s), ItemBodies(rest));
    }
  }

  lemma AllIntsNone()
    ensures AllInts([])
  {
  }

  lemma {:induction false} RawPairsIff(s: Bytes, last: Option<Bytes>)
    requires ScanPairs(s, last, Raw).Some?
    ensures ScanPairs(s, last, Lenient).Some? <==> AllInts(PairBodies(s))
    decreases |s|, 2
  {
    hide Scan, Bodies, AllInts, ParseString;
    if s[0] == TOK_END {
      AllIntsNone();
    } else {
      var key := ParseString(s);
      var rest := Scan(key.rest, Raw).value;
      RawScanIff(key.rest);
      if Scan(key.rest, Lenient).Some? { ScanWeaken(key.rest, Lenient, Raw); }
      RawPairsIff(rest, Some(key.value));
      AllIntsAppend(Bodies(key.rest), PairBodies(rest));
    }
  }

  /** The exact converse of `RawAgrees`, at any depth. */
  lemma RawIff(s: Bytes)
    requires Scan(s, Raw).Some?
    ensures ParseValue(s, false).Ok? <==> AllInts(Bodies(s))
  {
    hide Scan, ParseValue, Bodies, AllInts;
    ParseIsScan(s, false);
    RawScanIff(s);
  }

  // ------------------------------------------------------------ locality

  lemma StringLocal(s: Bytes, t: Bytes)
    requires ParseString(s).Ok?
    ensures ParseString(Consumed(s, ParseString(s).rest) + t) == Ok(ParseString(s).value, t)
    ensures Consumed(s, ParseString(s).rest) != [] && Consumed(s, ParseString(s).rest)[0] == s[0]
  {
    var i := Find(s, TOK_COLON).value;
    var p := ParseString(s);
    var u := Consumed(s, p.rest) + t;
    assert u[..i] == s[..i] && u[i] == TOK_COLON;
    FirstIsFound(u, TOK_COLON, i);
    assert u[i + 1..i + 1 + |p.value|] == p.value && u[i + 1 + |p.value|..] == t;
  }

  lemma IntLocal(s: Bytes, t: Bytes)
    requires s != [] && ParseIntValue(s).Ok?
    ensures var c := Consumed(s, ParseIntValue(s).rest);
            c != [] && c[0] == s[0] && ParseIntValue(c + t) == Ok(ParseIntValue(s).value, t)
  {
    var k := IntToken(s);
    var u := Consumed(s, k.rest) + t;
    assert s == ([s[0]] + k.value + [TOK_END]) + k.rest;
    assert Consumed(s, k.rest) == [s[0]] + k.value + [TOK_END];
    assert u[1..] == k.value + [TOK_END] + t;
    FindAfter(k.value, TOK_END, t);
    assert u[1..|k.value| + 1] == k.value && u[|k.value| + 2..] == t;
  }

  /**
   What a value decodes to depends only on the bytes it consumed: the captured bytes of a value,
   followed by anything, decode to that same value. This is what lets a `RawMessage` or an
   `Unmarshaler` decode its bytes later, on their own.
   */
  lemma {:induction false} ParseLocal(s: Bytes, t: Bytes, strict: bool)
    requires ParseValue(s, strict).Ok?
    ensures var p := ParseValue(s, strict); ParseValue(Consumed(s, p.rest) + t, strict) == Ok(p.value, t)
    ensures Consumed(s, ParseValue(s, strict).rest)[0] == s[0]
    decreases |s|, 1
  {
    hide ParseItems, ParsePairs, ParseString, ParseIntValue;
    var p := ParseValue(s, strict);
    if s[0] == TOK_INT {
      IntLocal(s, t);
    } else if IsDigit(s[0]) {
      StringLocal(s, t);
    } else {
      var c := Consumed(s[1..], p.rest);
      assert Consumed(s, p.rest) + t == [s[0]] + (c + t);
      if s[0] == TOK_LIST {
        ItemsLocal(s[1..], [], t, strict);
        OpenList(c + t, strict, Raw);
      } else {
        PairsLocal(s[1..], None, map[], t, strict);
        OpenDict(c + t, strict, Raw);
      }
    }
  }

  /** Reading two pieces in a row consumes the one and then the other. */
  lemma ConsumedTwice(a: Bytes, b: Bytes, c: Bytes, t: Bytes)
    requires Suffix(b, a) && Suffix(c, b)
    ensures Suffix(c, a) && Consumed(a, c) + t == Consumed(a, b) + (Consumed(b, c) + t)
  {
  }

  lemma {:induction false} ItemsLocal(s: Bytes, acc: seq<Value>, t: Bytes, strict: bool)
    requires ParseItems(s, acc, strict).Ok?
    ensures var p := ParseItems(s, acc, strict); ParseItems(Consumed(s, p.rest) + t, acc, strict) == Ok(p.value, t)
    decreases |s|, 2
  {
    hide ParseValue;
    var p := ParseItems(s, acc, strict);
    if s[0] == TOK_END {
      assert Consumed(s, p.rest) + t == [TOK_END] + t;
      CloseItems(t, acc, strict);
    } else {
      var q := ParseValue(s, strict);
      var u := Consumed(q.rest, p.rest) + t;
      ParseLocal(s, u, strict);
      ItemsLocal(q.rest, acc + [q.value], t, strict);
      ConsumedTwice(s, q.rest, p.rest, t);
    }
  }

  lemma {:induction false} PairsLocal(s: Bytes, last: Option<Bytes>, acc: map<Bytes, Value>, t: Bytes, strict: bool)
    requires ParsePairs(s, last, acc, strict).Ok?
    ensures var p := ParsePairs(s, last, acc, strict);
      ParsePairs(Consumed(s, p.rest) + t, last, acc, strict) == Ok(p.value, t)
    decreases |s|, 2
  {
    hide ParseValue, ParseString, LexLess;
    var p := ParsePairs(s, last, acc, strict);
    if s[0] == TOK_END {
      assert Consumed(s, p.rest) + t == [TOK_END] + t;
      ClosePairs(t, last, acc, strict);
    } else {
      var k := ParseString(s);
      var q := ParseValue(k.rest, strict);
      var u := Consumed(q.rest, p.rest) + t;
      ParseLocal(k.rest, u, strict);
      StringLocal(s, Consumed(k.rest, q.rest) + u);
      PairsLocal(q.rest, Some(k.value), acc[k.value := q.value], t, strict);
      ConsumedTwice(k.rest, q.rest, p.rest, t);
      ConsumedTwice(s, k.rest, p.rest, t);
    }
  }

  // ------------------------------------------------------------ canonical form

  /** A canonical string is its own printed form. */
  lemma CanonicalString(s: Bytes)
    requires ParseString(s).Ok? && LengthOk(s, Canonical)
    ensures s == EncodeString(ParseString(s).value) + ParseString(s).rest
  {
    var i := Find(s, TOK_COLON).value;
    var n := ParseLength(s[..i]).value;
    FormatParse(s[..i], INT32_CUTOFF);
    assert Digits(n) == s[..i];
    assert s == s[..i] + [s[i]] + s[i + 1..i + 1 + n] + s[i + 1 + n..];
  }

  lemma CanonicalInt(s: Bytes)
    requires s != [] && s[0] == TOK_INT && Scan(s, Canonical).Some?
    ensures ParseIntValue(s).Ok?
    ensures s == Encode(ParseIntValue(s).value) + ParseIntValue(s).rest
  {
    FormatParse(IntToken(s).value, INT64_CUTOFF);
  }

  /** Input in the canonical grammar decodes to a value whose encoding is that very input. */
  lemma {:induction false} CanonicalReencodes(s: Bytes, strict: bool)
    requires Scan(s, Canonical).Some?
    ensures var p := ParseValue(s, strict);
            p.Ok? && Some(p.rest) == Scan(s, Canonical) && s == Encode(p.value) + p.rest
    decreases |s|, 1
  {
    hide ParseValue, Scan, ParseItems, ScanItems, ParsePairs, ScanPairs, Encode;
    ScanHead(s, Canonical);
    if s[0] == TOK_INT || IsDigit(s[0]) {
      CanonicalAtom(s, strict);
    } else {
      var t := s[1..];
      assert s == [s[0]] + t;
      if s[0] == TOK_LIST {
        OpenList(t, strict, Canonical);
        var items := CanonicalItems(t, [], strict);
        assert [] + items == items;
        ListShape(items, Scan(s, Canonical).value);
      } else {
        OpenDict(t, strict, Canonical);
        var keys, d := CanonicalPairs(t, None, map[], strict);
        assert Elements(keys) == d.entries.Keys;
        AscendingUnique(keys, SortedKeys(d.entries.Keys));
        DictShape(d, Scan(s, Canonical).value);
        Regroup(EncodePairs(keys, d), [TOK_END], Scan(s, Canonical).value);
      }
    }
  }

  lemma ScanHead(s: Bytes, g: Grammar)
    requires Scan(s, g).Some?
    ensures s != [] && (s[0] == TOK_INT || IsDigit(s[0]) || s[0] == TOK_LIST || s[0] == TOK_DICT)
  {
  }

  lemma CanonicalAtom(s: Bytes, strict: bool)
    requires s != [] && (s[0] == TOK_INT || IsDigit(s[0])) && Scan(s, Canonical).Some?
    ensures var p := ParseValue(s, strict);
            p.Ok? && Some(p.rest) == Scan(s, Canonical) && s == Encode(p.value) + p.rest
  {
    hide ParseString, IntToken;
    if s[0] == TOK_INT {
      CanonicalInt(s);
    } else {
      CanonicalString(s);
    }
  }

  lemma ItemHead(s: Bytes, g: Grammar)
    requires ScanItems(s, g).Some?
    ensures s != []
    ensures s[0] == TOK_END ==> ScanItems(s, g) == Some(s[1..])
    ensures s[0] != TOK_END ==> Scan(s, g).Some? && ScanItems(s, g) == ScanItems(Scan(s, g).value, g)
  {
  }

  lemma {:induction false} CanonicalItems(s: Bytes, acc: seq<Value>, strict: bool) returns (items: seq<Value>)
    requires ScanItems(s, Canonical).Some?
    ensures ParseItems(s, acc, strict) == Ok(List(acc + items), ScanItems(s, Canonical).value)
    ensures s == EncodeItems(items) + [TOK_END] + ScanItems(s, Canonical).value
    decreases |s|, 2
  {
    hide ParseValue, Scan, ParseItems, ScanItems, Encode;
    ItemHead(s, Canonical);
    if s[0] == TOK_END {
      items := [];
      assert s == [TOK_END] + s[1..] && acc + items == acc;
      CloseItems(s[1..], acc, strict);
    } else {
      CanonicalReencodes(s, strict);
      var p, end := ParseValue(s, strict), ScanItems(s, Canonical).value;
      NextItem(s, acc, strict, p.value, p.rest);
      var more := CanonicalItems(p.rest, acc + [p.value], strict);
      items := [p.value] + more;
      Regroup(acc, [p.value], more);
      ConsItems(p.value, more, [TOK_END] + end);
      Regroup(EncodeItems(more), [TOK_END], end);
      Regroup(EncodeItems(items), [TOK_END], end);
    }
  }

  /** Putting a key in front of the later ones keeps them ascending and beyond the one before. */
  lemma ConsAscending(last: Option<Bytes>, k: Bytes, more: seq<Bytes>)
    requires Ascending(more) && Beyond(Some(k), more) && OrderOk(last, k, Canonical)
    ensures Ascending([k] + more) && Beyond(last, [k] + more) && k !in more
  {
    LexTotal(k, k);
    if last.Some? {
      forall x | x in more
        ensures LexLess(last.value, x)
      {
        LexTransitive(last.value, k, x);
      }
    }
  }

  lemma NoneAscending(last: Option<Bytes>)
    ensures Ascending([]) && Beyond(last, [])
  {
  }

  lemma KeysJoin(acc: map<Bytes, Value>, k: Bytes, v: Value, more: seq<Bytes>, m: map<Bytes, Value>)
    requires m.Keys == acc[k := v].Keys + Elements(more) && k !in more
    requires forall x :: x in acc[k := v] && x !in more ==> m[x] == acc[k := v][x]
    ensures m.Keys == acc.Keys + Elements([k] + more) && m[k] == v
    ensures forall x :: x in acc && x !in [k] + more ==> m[x] == acc[x]
    ensures forall x :: x in more ==> x in m
  {
    assert k in acc[k := v];
    assert Elements([k] + more) == Elements(more) + {k};
  }

  lemma {:induction false} CanonicalPairs(s: Bytes, last: Option<Bytes>, acc: map<Bytes, Value>, strict: bool)
    returns (keys: seq<Bytes>, d: Value)
    requires ScanPairs(s, last, Canonical).Some?
    ensures d.Dict? && ParsePairs(s, last, acc, strict) == Ok(d, ScanPairs(s, last, Canonical).value)
    ensures Ascending(keys) && Beyond(last, keys)
    ensures d.entries.Keys == acc.Keys + Elements(keys)
    ensures forall k :: k in acc && k !in keys ==> d.entries[k] == acc[k]
    ensures s == EncodePairs(keys, d) + ([TOK_END] + ScanPairs(s, last, Canonical).value)
    decreases |s|, 2
  {
    hide ParseValue, Scan, ParsePairs, ScanPairs, ParseString, Find, LexLess, LengthOk, OrderOk, Ascending, Beyond,
      EncodeString, Encode, Elements;
    if s[0] == TOK_END {
      NoElements<Bytes>();
      keys, d := [], Dict(acc);
      NoneAscending(last);
      assert s == [TOK_END] + s[1..];
      ClosePairs(s[1..], last, acc, strict);
    } else {
      PairHead(s, last, Canonical);
      var key := ParseString(s);
      var k := key.value;
      CanonicalString(s);
      CanonicalReencodes(key.rest, strict);
      var p := ParseValue(key.rest, strict);
      NextPair(s, last, acc, strict, k, key.rest, p.value, p.rest);
      var more;
      more, d := CanonicalPairs(p.rest, Some(k), acc[k := p.value], strict);
      ConsAscending(last, k, more);
      keys := [k] + more;
      KeysJoin(acc, k, p.value, more, d.entries);
      ConsPairs(k, more, d, [TOK_END] + ScanPairs(s, last, Canonical).value);
    }
  }

  /** An accepted input is reproduced byte for byte by decode-then-encode exactly when it is canonical. */
  lemma CanonicalIff(s: Bytes, strict: bool)
    requires ParseValue(s, strict).Ok?
    ensures var p := ParseValue(s, strict);
            s == Encode(p.value) + p.rest <==> Scan(s, Canonical).Some?
  {
    var p := ParseValue(s, strict);
    ParseIsScan(s, strict);
    if Scan(s, Canonical).Some? {
      CanonicalReencodes(s, strict);
    }
    if s == Encode(p.value) + p.rest {
      RoundTrip(p.value, p.rest, strict);
    }
  }

  /**
   Re-encoding whatever was accepted, in any spelling, gives canonical bytes that decode to the
   same value under both settings, and re-encoding those changes nothing.
   */
  lemma Normalises(s: Bytes, strict: bool, again: bool)
    requires ParseValue(s, strict).Ok?
    ensures var e := Encode(ParseValue(s, strict).value);
            && Scan(e, Canonical) == Some([])
            && ParseValue(e, again) == Ok(ParseValue(s, strict).value, [])
  {
    var v := ParseValue(s, strict).value;
    ParseIsScan(s, strict);
    RoundTrip(v, [], again);
    assert Encode(v) + [] == Encode(v);
  }

  // ------------------------------------------------------------ other spellings

  /** An int64 in any spelling is decoded; it is canonical exactly if the spelling is minimal. */
  lemma SpelledInt(body: Bytes, rest: Bytes, strict: bool)
    requires TOK_END !in body && ParseInt(body, INT64_CUTOFF).Some?
    ensures var s := [TOK_INT] + body + [TOK_END] + rest;
            && ParseValue(s, strict) == Ok(Int(ParseInt(body, INT64_CUTOFF).value), rest)
            && (Scan(s, Canonical).Some? <==> Minimal(body))
  {
    hide ParseInt, Minimal;
    var s := [TOK_INT] + body + [TOK_END] + rest;
    assert s[1..] == body + [TOK_END] + rest;
    FindAfter(body, TOK_END, rest);
    assert s[1..|body| + 1] == body && s[|body| + 2..] == rest;
  }

  /** The same for a string whose length is spelled as a number that starts with a digit. */
  lemma SpelledString(text: Bytes, b: Bytes, rest: Bytes, strict: bool)
    requires text != [] && IsDigit(text[0]) && TOK_COLON !in text && ParseInt(text, INT32_CUTOFF) == Some(|b|)
    ensures var s := text + [TOK_COLON] + (b + rest);
            && ParseValue(s, strict) == Ok(Str(b), rest)
            && (Scan(s, Canonical).Some? <==> Minimal(text))
  {
    hide ParseInt, Minimal;
    var s := text + [TOK_COLON] + (b + rest);
    FindAfter(text, TOK_COLON, b + rest);
    assert s[..|text|] == text;
    assert s[|text| + 1..|text| + 1 + |b|] == b && s[|text| + 1 + |b|..] == rest;
  }

  lemma LenientPair(s: Bytes, last: Option<Bytes>, acc: map<Bytes, Value>, k: Bytes, t: Bytes, v: Value, rest: Bytes)
    requires s != [] && s[0] != TOK_END && ParseString(s) == Ok(k, t) && ParseValue(t, false) == Ok(v, rest)
    ensures ParsePairs(s, last, acc, false) == ParsePairs(rest, Some(k), acc[k := v], false)
  {
    hide ParseString, ParseValue;
  }

  /** Two pairs after each other. */
  function TwoPairs(k: Bytes, v: Bytes, l: Bytes, w: Bytes, rest: Bytes): Bytes {
    [TOK_DICT] + (EncodeString(k) + (v + (EncodeString(l) + (w + ([TOK_END] + rest)))))
  }

  /**
   A dictionary of two keys in any order, or with one key twice, is decoded, the later value
   winning; it is canonical exactly if the keys ascend strictly.
   */
  lemma KeysInAnyOrder(k: Bytes, v: Value, l: Bytes, w: Value, rest: Bytes)
    requires |k| < INT32_CUTOFF && |l| < INT32_CUTOFF && Encodable(v) && Encodable(w)
    ensures var s := TwoPairs(k, Encode(v), l, Encode(w), rest);
            && ParseValue(s, false) == Ok(Dict(map[k := v, l := w]), rest)
            && (Scan(s, Canonical).Some? <==> LexLess(k, l))
  {
    hide ParseValue, Scan, ParsePairs, ScanPairs, ParseString, Encode, EncodeString, LexLess, LengthOk, Find;
    var end := [TOK_END] + rest;
    var t := EncodeString(l) + (Encode(w) + end);
    var s := EncodeString(k) + (Encode(v) + t);
    StringRoundTrip(k, Encode(v) + t);
    StringRoundTrip(l, Encode(w) + end);
    RoundTrip(v, t, false);
    RoundTrip(w, end, false);
    OpenDict(s, false, Canonical);
    LenientPair(s, None, map[], k, Encode(v) + t, v, t);
    LenientPair(t, Some(k), map[k := v], l, Encode(w) + end, w, end);
    ClosePairs(rest, Some(l), map[k := v][l := w], false);
    assert map[k := v][l := w] == map[k := v, l := w];
    ColonFound(s);
    ColonFound(t);
    PairStep(s, None, Canonical);
    if LexLess(k, l) { PairStep(t, Some(k), Canonical); }
    if ScanPairs(t, Some(k), Canonical).Some? { PairHead(t, Some(k), Canonical); }
  }

  lemma ColonFound(s: Bytes)
    requires ParseString(s).Ok?
    ensures Find(s, TOK_COLON).Some?
  {
  }

  /** Accepted input outside the canonical grammar: a leading zero, a padded length, unordered keys, a repeated key. */
  lemma OtherSpellings()
    ensures Extra([TOK_INT] + [ZERO, ZERO + 1] + [TOK_END] + [])
    ensures Extra([ZERO, ZERO + 1] + [TOK_COLON] + ([97] + []))
    ensures Extra(TwoPairs([98], Encode(Int(0)), [97], Encode(Int(0)), []))
    ensures Extra(TwoPairs([97], Encode(Int(0)), [97], Encode(Int(1)), []))
  {
    hide ParseValue, Scan, Encode, Minimal, TwoPairs;
    LeadingZero();
    SpelledInt([ZERO, ZERO + 1], [], false);
    SpelledString([ZERO, ZERO + 1], [97], [], false);
    KeysInAnyOrder([98], Int(0), [97], Int(0), []);
    KeysInAnyOrder([97], Int(0), [97], Int(1), []);
    LexTotal([97], [98]);
    LexTotal([97], [97]);
    assert LexLess([97], [98]);
  }

  ghost predicate Extra(s: Bytes) {
    ParseValue(s, false).Ok? && Scan(s, Canonical).None?
  }

  lemma LeadingZero()
    ensures var text: Bytes := [ZERO, ZERO + 1];
            && ParseInt(text, INT64_CUTOFF) == Some(1) && ParseInt(text, INT32_CUTOFF) == Some(1) && !Minimal(text)
  {
    var text: Bytes := [ZERO, ZERO + 1];
    var zero: Bytes := [ZERO];
    assert zero[..|zero| - 1] == [] && text[..|text| - 1] == zero;
    assert NatOf(zero) == 0;
    assert NatOf(text) == NatOf(zero) * 10 + (text[1] - ZERO);
  }
}
