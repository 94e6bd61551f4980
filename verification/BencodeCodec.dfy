/** The stateful encoder and decoder of package bencode, proved against the functions of `Bencode`. */
module BencodeCodec {
  import opened Prelude
  import opened Decimal
  import opened Bencode

  lemma ListForm(items: seq<Value>)
    ensures Encode(List(items)) == [TOK_LIST] + EncodeItems(items) + [TOK_END]
  {
  }

  lemma DictForm(d: Value)
    requires d.Dict?
    ensures Encode(d) == [TOK_DICT] + EncodePairs(SortedKeys(d.entries.Keys), d) + [TOK_END]
  {
  }

  /** `Encoder` over an in-memory writer. */
  class Encoder {
    var out: Bytes

    constructor ()
      ensures out == []
    {
      out := [];
    }

    method WriteString(s: Bytes)
      modifies this
      ensures out == old(out) + EncodeString(s)
    {
      out := out + Digits(|s|) + [TOK_COLON];
      out := out + s;
    }

    method EncodeValue(v: Value)
      modifies this
      ensures out == old(out) + Encode(v)
      decreases v, 1
    {
      match v {
        case Int(i) => out := out + [TOK_INT] + Format(i) + [TOK_END];
        case Str(s) => WriteString(s);
        case List(items) => EncodeSlice(items, v);
        case Dict(m) => EncodeMap(v);
      }
    }

    method EncodeSlice(items: seq<Value>, ghost v: Value)
      requires v == List(items)
      modifies this
      ensures out == old(out) + Encode(v)
      decreases v, 0
    {
      hide Encode;
      ListForm(items);
      out := out + [TOK_LIST];
      for i := 0 to |items|
        invariant out + EncodeItems(items[i..]) == old(out) + [TOK_LIST] + EncodeItems(items)
      {
        ghost var before := out;
        assert items[i..][1..] == items[i + 1..];
        EncodeValue(items[i]);
        Regroup(before, Encode(items[i]), EncodeItems(items[i + 1..]));
      }
      assert out == old(out) + [TOK_LIST] + EncodeItems(items);
      out := out + [TOK_END];
    }

    method EncodeMap(v: Value)
      requires v.Dict?
      modifies this
      ensures out == old(out) + Encode(v)
      decreases v, 0
    {
      hide Encode, EncodeString;
      DictForm(v);
      out := out + [TOK_DICT];
      var keys := SortedMapKeys(v.entries);
      for i := 0 to |keys|
        invariant out + EncodePairs(keys[i..], v) == old(out) + [TOK_DICT] + EncodePairs(keys, v)
      {
        ghost var before := out;
        assert keys[i..][1..] == keys[i + 1..] && keys[i..][0] == keys[i];
        WriteString(keys[i]);
        EncodeValue(v.entries[keys[i]]);
        Regroup(before, EncodeString(keys[i]), Encode(v.entries[keys[i]]));
        Regroup(before, EncodeString(keys[i]) + Encode(v.entries[keys[i]]), EncodePairs(keys[i + 1..], v));
      }
      assert out == old(out) + [TOK_DICT] + EncodePairs(keys, v);
      out := out + [TOK_END];
    }
  }

  /** `reflect.Value.MapKeys`: every key once, in no particular order. */
  method MapKeys(m: map<Bytes, Value>) returns (keys: seq<Bytes>)
    ensures NoDuplicates(keys) && Elements(keys) == m.Keys
  {
    keys := [];
    var left := m.Keys;
    while left != {}
      invariant left <= m.Keys && NoDuplicates(keys) && Elements(keys) == m.Keys - left
    {
      var k :| k in left;
      assert k !in Elements(keys);
      ElementsAppend(keys, k);
      keys := keys + [k];
      left := left - {k};
    }
  }

  /** `sort.Sort` on distinct strings. */
  method SortKeys(keys: seq<Bytes>) returns (r: seq<Bytes>)
    requires NoDuplicates(keys)
    ensures Ascending(r) && Elements(r) == Elements(keys)
  {
    r := [];
    for i := 0 to |keys|
      invariant Ascending(r) && Elements(r) == Elements(keys[..i])
    {
      var k := keys[i];
      assert k !in Elements(keys[..i]);
      assert keys[..i + 1] == keys[..i] + [k];
      ElementsAppend(keys[..i], k);
      var j := 0;
      while j < |r| && LexLess(r[j], k)
        invariant j <= |r| && forall x :: 0 <= x < j ==> LexLess(r[x], k)
      {
        j := j + 1;
      }
      forall x | j <= x < |r|
        ensures LexLess(k, r[x])
      {
        assert r[j] in Elements(r);
        LexTotal(r[j], k);
        if j < x { LexTransitive(k, r[j], r[x]); }
      }
      assert r == r[..j] + r[j..];
      ElementsInsert(r[..j], k, r[j..]);
      r := r[..j] + [k] + r[j..];
    }
    assert keys[..|keys|] == keys;
  }

  method SortedMapKeys(m: map<Bytes, Value>) returns (keys: seq<Bytes>)
    ensures keys == SortedKeys(m.Keys) && forall k :: k in keys ==> k in m
  {
    keys := MapKeys(m);
    keys := SortKeys(keys);
    AscendingUnique(keys, SortedKeys(m.Keys));
    assert forall k :: k in keys ==> k in Elements(keys);
  }

  /** In raw mode neither the order of the keys nor the spelling of a length matters. */
  lemma RawPairs(s: Bytes, last: Option<Bytes>)
    ensures ScanPairs(s, last, Raw) ==
      if s == [] then None
      else if s[0] == TOK_END then Some(s[1..])
      else match ParseString(s)
        case Err(_) => None
        case Ok(key, t) => match Scan(t, Raw) case None => None case Some(r) => ScanPairs(r, Some(key), Raw)
  {
    hide Scan;
  }

  /** Reading on from `b` to `c` after reading from `a` to `b`. */
  lemma ReadOn(buf: Bytes, a: Bytes, b: Bytes, c: Bytes)
    requires Suffix(b, a) && Suffix(c, b)
    ensures Suffix(c, a) && buf + Consumed(a, b) + Consumed(b, c) == buf + Consumed(a, c)
  {
    assert Consumed(a, b) + Consumed(b, c) == Consumed(a, c);
    Regroup(buf, Consumed(a, b), Consumed(b, c));
  }

  lemma TokenText(s: Bytes, r: Bytes)
    requires s != [] && Find(s[1..], TOK_END).Some? && r == s[1..][Find(s[1..], TOK_END).value + 1..]
    ensures var i := Find(s[1..], TOK_END).value;
            IntToken(s) == Ok(s[1..][..i], r) && s[1..][..i + 1][..i] == s[1..][..i]
  {
    hide Find;
    var i := Find(s[1..], TOK_END).value;
    assert s[1..][..i] == s[1..i + 1] && s[1..][i + 1..] == s[i + 2..];
  }

  lemma ReadNothing(buf: Bytes, a: Bytes)
    ensures Suffix(a, a) && buf + Consumed(a, a) == buf
  {
  }

  /**
   `Decoder` over an in-memory reader: `rest` is the unread input, `n` is `BytesParsed`, and
   while `raw` is set every byte read is also appended to `buf`.
   */
  class Decoder {
    var rest: Bytes
    var n: nat
    var raw: bool
    var buf: Bytes
    const failUnordered: bool

    constructor (input: Bytes, failUnordered: bool)
      ensures rest == input && n == 0 && !raw && buf == []
      ensures this.failUnordered == failUnordered
    {
      rest, n, raw, buf := input, 0, false, [];
      this.failUnordered := failUnordered;
    }

    /** The decoder has read exactly the bytes before `r`. */
    twostate predicate ReadTo(r: Bytes)
      reads this
    {
      && Suffix(r, old(rest)) && rest == r
      && n == old(n) + |Consumed(old(rest), r)|
      && raw == old(raw)
      && buf == (if raw then old(buf) + Consumed(old(rest), r) else old(buf))
    }

    /** Even a failed decode has counted every byte it took. */
    twostate predicate Counted()
      reads this
    {
      n + |rest| == old(n) + |old(rest)| && raw == old(raw)
    }

    method ReadByte() returns (b: Byte, err: Option<Error>)
      modifies this
      ensures old(rest) != [] ==> err.None? && b == old(rest)[0] && ReadTo(old(rest)[1..])
      ensures old(rest) == [] ==> err == Some(Eof) && n == old(n) + 1 && rest == [] && raw == old(raw)
    {
      if rest == [] {
        b, err := 0, Some(Eof);
      } else {
        b, err := rest[0], None;
        rest := rest[1..];
      }
      if raw { buf := buf + [b]; }
      n := n + 1;
      assert old(rest) != [] ==> Consumed(old(rest), rest) == [b];
    }

    method PeekByte() returns (b: Byte, err: Option<Error>)
      ensures rest != [] ==> err.None? && b == rest[0]
      ensures rest == [] ==> err == Some(Eof)
    {
      if rest == [] { b, err := 0, Some(Eof); } else { b, err := rest[0], None; }
    }

    /** Everything up to and including the delimiter, or all that is left and an error. */
    method ReadBytes(delim: Byte) returns (line: Bytes, err: Option<Error>)
      modifies this
      ensures match Find(old(rest), delim)
              case Some(i) => err.None? && line == old(rest)[..i + 1] && ReadTo(old(rest)[i + 1..])
              case None => err == Some(Eof) && Counted()
    {
      var i := 0;
      while i < |rest| && rest[i] != delim
        invariant i <= |rest| && delim !in rest[..i]
      {
        i := i + 1;
      }
      assert rest == rest[..i] + rest[i..];
      if i == |rest| {
        line, err := rest, Some(Eof);
        rest := [];
      } else {
        FirstIsFound(rest, delim, i);
        line, err := rest[..i + 1], None;
        rest := rest[i + 1..];
      }
      if raw { buf := buf + line; }
      n := n + |line|;
    }

    /** `io.ReadFull` into a buffer of `l` bytes. */
    method ReadFull(l: nat) returns (p: Bytes, err: Option<Error>)
      modifies this
      ensures l <= |old(rest)| ==> err.None? && p == old(rest)[..l] && ReadTo(old(rest)[l..])
      ensures l > |old(rest)| ==> err == Some(Eof) && Counted()
    {
      if l <= |rest| {
        p, err := rest[..l], None;
        rest := rest[l..];
      } else {
        p, err := rest, Some(Eof);
        rest := [];
      }
      if raw { buf := buf + p; }
      n := n + |p|;
    }

    method DecodeString() returns (b: Bytes, err: Option<Error>)
      modifies this
      ensures Counted()
      ensures match ParseString(old(rest))
              case Ok(x, r) => err.None? && ReadTo(r) && (!raw ==> b == x)
              case Err(e) => err == Some(e)
    {
      hide Find, ParseInt;
      b := [];
      var line;
      line, err := ReadBytes(TOK_COLON);
      if err.Some? { return; }
      var text := line[..|line| - 1];
      assert text == old(rest)[..|text|];
      ghost var mid := rest;
      var l32 := ParseInt(text, INT32_CUTOFF);
      if l32.None? { err := Some(BadNumber); return; }
      var l := l32.value;
      if l < 0 { err := Some(NegativeLength); return; }
      var p;
      p, err := ReadFull(l);
      if err.Some? { return; }
      ReadOn(old(buf), old(rest), mid, rest);
      if raw { return; }
      b := p;
    }

    /** The text between 'i' and 'e'; in raw mode it is captured and not handed out. */
    method ReadIntegerDigits() returns (digits: Bytes, err: Option<Error>)
      requires rest != [] && rest[0] == TOK_INT
      modifies this
      ensures Counted()
      ensures match IntToken(old(rest))
              case Ok(text, r) => err.None? && ReadTo(r) && (!raw ==> digits == text)
              case Err(e) => err == Some(e)
    {
      hide Find, Suffix, Consumed;
      var ch, line;
      ch, err := ReadByte();
      ghost var mid := rest;
      line, err := ReadBytes(TOK_END);
      if err.Some? { return [], err; }
      ReadOn(old(buf), old(rest), mid, rest);
      TokenText(old(rest), rest);
      if raw { return [], err; }
      digits := line[..|line| - 1];
    }

    method DecodeInt() returns (v: Value, err: Option<Error>)
      requires rest != [] && rest[0] == TOK_INT
      modifies this
      ensures Counted()
      ensures !raw ==> match ParseIntValue(old(rest))
                       case Ok(x, r) => err.None? && v == x && ReadTo(r)
                       case Err(e) => err == Some(e)
      ensures raw ==> match IntToken(old(rest))
                      case Ok(_, r) => err.None? && ReadTo(r)
                      case Err(e) => err == Some(e)
    {
      v := Int(0);
      var digits;
      digits, err := ReadIntegerDigits();
      if err.Some? || raw { return; }
      var i := ParseInt(digits, INT64_CUTOFF);
      if i.None? { err := Some(BadNumber); return; }
      v := Int(i.value);
    }

    /** `dispatchDecodeByType`, in whichever mode the decoder is. */
    method Dispatch() returns (v: Value, err: Option<Error>)
      modifies this
      ensures Counted()
      ensures !raw ==> match ParseValue(old(rest), failUnordered)
                       case Ok(x, r) => err.None? && v == x && ReadTo(r)
                       case Err(e) => err == Some(e)
      ensures raw ==> match Scan(old(rest), Raw)
                      case Some(r) => err.None? && ReadTo(r)
                      case None => err.Some?
      decreases |rest|, 1
    {
      v := Int(0);
      var next;
      next, err := PeekByte();
      if err.Some? { return; }
      if next == TOK_INT {
        v, err := DecodeInt();
      } else if IsDigit(next) {
        var b;
        b, err := DecodeString();
        v := Str(b);
      } else if next == TOK_LIST {
        v, err := DecodeList();
      } else if next == TOK_DICT {
        v, err := DecodeDict();
      } else {
        err := Some(InvalidInput);
      }
    }

    method DecodeList() returns (v: Value, err: Option<Error>)
      requires rest != [] && rest[0] == TOK_LIST
      modifies this
      ensures Counted()
      ensures !raw ==> match ParseItems(old(rest)[1..], [], failUnordered)
                       case Ok(x, r) => err.None? && v == x && ReadTo(r)
                       case Err(e) => err == Some(e)
      ensures raw ==> match ScanItems(old(rest)[1..], Raw)
                      case Some(r) => err.None? && ReadTo(r)
                      case None => err.Some?
      decreases |rest|, 0, 1
    {
      hide ParseItems, ScanItems, Suffix, Consumed;
      var ch;
      ch, err := ReadByte();
      ghost var mid := rest;
      v := List([]);
      if raw {
        err := ProcessListInRawMode();
      } else {
        v, err := ProcessListElements();
      }
      if err.None? { ReadOn(old(buf), old(rest), mid, rest); }
    }

    method ProcessListElements() returns (v: Value, err: Option<Error>)
      requires !raw
      modifies this
      ensures Counted()
      ensures match ParseItems(old(rest), [], failUnordered)
              case Ok(x, r) => err.None? && v == x && ReadTo(r)
              case Err(e) => err == Some(e)
      decreases |rest|, 2
    {
      hide Suffix, Consumed, ParseValue;
      var items := [];
      ReadNothing(buf, rest);
      while true
        invariant Suffix(rest, old(rest)) && ReadTo(rest)
        invariant ParseItems(old(rest), [], failUnordered) == ParseItems(rest, items, failUnordered)
        decreases |rest|
      {
        ghost var mid := rest;
        v := List(items);
        var ch;
        ch, err := PeekByte();
        if err.Some? { return; }
        if ch == TOK_END {
          ch, err := ReadByte();
          ReadOn(old(buf), old(rest), mid, rest);
          return;
        }
        var item;
        item, err := Dispatch();
        if err.Some? { return; }
        ReadOn(old(buf), old(rest), mid, rest);
        items := items + [item];
      }
    }

    method ProcessListInRawMode() returns (err: Option<Error>)
      requires raw
      modifies this
      ensures Counted()
      ensures match ScanItems(old(rest), Raw)
              case Some(r) => err.None? && ReadTo(r)
              case None => err.Some?
      decreases |rest|, 2
    {
      hide Suffix, Consumed, Scan;
      ReadNothing(buf, rest);
      while true
        invariant Suffix(rest, old(rest)) && ReadTo(rest)
        invariant ScanItems(old(rest), Raw) == ScanItems(rest, Raw)
        decreases |rest|
      {
        ghost var mid := rest;
        var ch, item;
        ch, err := PeekByte();
        if err.Some? { return; }
        if ch == TOK_END {
          ch, err := ReadByte();
          ReadOn(old(buf), old(rest), mid, rest);
          return;
        }
        item, err := Dispatch();
        if err.Some? { return; }
        ReadOn(old(buf), old(rest), mid, rest);
      }
    }

    method DecodeDict() returns (v: Value, err: Option<Error>)
      requires rest != [] && rest[0] == TOK_DICT
      modifies this
      ensures Counted()
      ensures !raw ==> match ParsePairs(old(rest)[1..], None, map[], failUnordered)
                       case Ok(x, r) => err.None? && v == x && ReadTo(r)
                       case Err(e) => err == Some(e)
      ensures raw ==> match ScanPairs(old(rest)[1..], None, Raw)
                      case Some(r) => err.None? && ReadTo(r)
                      case None => err.Some?
      decreases |rest|, 0, 1
    {
      hide ParsePairs, ScanPairs, Suffix, Consumed;
      var ch;
      ch, err := ReadByte();
      ghost var mid := rest;
      v := Dict(map[]);
      if raw {
        err := ProcessDictInRawMode();
      } else {
        v, err := ProcessDictKeyValuePairs();
      }
      if err.None? { ReadOn(old(buf), old(rest), mid, rest); }
    }

    /** `processNextDictKey` and `handleKeyValuePair` for a map target. */
    method NextPair(lastKey: Option<Bytes>) returns (key: Bytes, val: Value, err: Option<Error>)
      requires !raw
      modifies this
      ensures Counted()
      ensures match ParseString(old(rest))
              case Err(e) => err == Some(e)
              case Ok(k, t) =>
                if failUnordered && lastKey.Some? && LexLess(k, lastKey.value) then err == Some(Unordered)
                else match ParseValue(t, failUnordered)
                  case Err(e) => err == Some(e)
                  case Ok(v, r) => err.None? && key == k && val == v && ReadTo(r)
      decreases |rest|, 2
    {
      hide ParseValue, ParseString, LexLess, Suffix, Consumed;
      val := Int(0);
      key, err := DecodeString();
      if err.Some? { return; }
      if lastKey.Some? && failUnordered && LexLess(key, lastKey.value) { err := Some(Unordered); return; }
      ghost var mid := rest;
      val, err := Dispatch();
      if err.None? { ReadOn(old(buf), old(rest), mid, rest); }
    }

    method ProcessDictKeyValuePairs() returns (v: Value, err: Option<Error>)
      requires !raw
      modifies this
      ensures Counted()
      ensures match ParsePairs(old(rest), None, map[], failUnordered)
              case Ok(x, r) => err.None? && v == x && ReadTo(r)
              case Err(e) => err == Some(e)
      decreases |rest|, 3
    {
      hide Suffix, Consumed, ParseValue, ParseString, LexLess;
      var entries := map[];
      var lastKey: Option<Bytes> := None;
      ReadNothing(buf, rest);
      while true
        invariant Suffix(rest, old(rest)) && ReadTo(rest)
        invariant ParsePairs(old(rest), None, map[], failUnordered) == ParsePairs(rest, lastKey, entries, failUnordered)
        decreases |rest|
      {
        ghost var mid := rest;
        v := Dict(entries);
        var ch, key, val;
        ch, err := PeekByte();
        if err.Some? { return; }
        if ch == TOK_END {
          ch, err := ReadByte();
          ReadOn(old(buf), old(rest), mid, rest);
          return;
        }
        key, val, err := NextPair(lastKey);
        if err.Some? { return; }
        ReadOn(old(buf), old(rest), mid, rest);
        lastKey := Some(key);
        entries := entries[key := val];
      }
    }

    /** One key and one value, captured and not interpreted. */
    method NextRawPair() returns (err: Option<Error>)
      requires raw
      modifies this
      ensures Counted()
      ensures match ParseString(old(rest))
              case Err(e) => err.Some?
              case Ok(_, t) =>
                match Scan(t, Raw)
                case None => err.Some?
                case Some(r) => err.None? && ReadTo(r)
      decreases |rest|, 2
    {
      hide Scan, ParseString, Suffix, Consumed;
      var key, val;
      key, err := DecodeString();
      if err.Some? { return; }
      ghost var mid := rest;
      val, err := Dispatch();
      if err.None? { ReadOn(old(buf), old(rest), mid, rest); }
    }

    method ProcessDictInRawMode() returns (err: Option<Error>)
      requires raw
      modifies this
      ensures Counted()
      ensures match ScanPairs(old(rest), None, Raw)
              case Some(r) => err.None? && ReadTo(r)
              case None => err.Some?
      decreases |rest|, 3
    {
      hide Suffix, Consumed, Scan, ScanPairs, ParseString;
      ghost var lastKey: Option<Bytes> := None;
      ReadNothing(buf, rest);
      while true
        invariant Suffix(rest, old(rest)) && ReadTo(rest)
        invariant ScanPairs(old(rest), None, Raw) == ScanPairs(rest, lastKey, Raw)
        decreases |rest|
      {
        ghost var mid := rest;
        ghost var key := ParseString(rest);
        RawPairs(rest, lastKey);
        var ch;
        ch, err := PeekByte();
        if err.Some? { return; }
        if ch == TOK_END {
          ch, err := ReadByte();
          ReadOn(old(buf), old(rest), mid, rest);
          return;
        }
        err := NextRawPair();
        if err.Some? { return; }
        ReadOn(old(buf), old(rest), mid, rest);
        lastKey := Some(key.value);
      }
    }

    /** `Decode` into an `interface{}`. */
    method Decode() returns (v: Value, err: Option<Error>)
      requires !raw
      modifies this
      ensures Counted()
      ensures match ParseValue(old(rest), failUnordered)
              case Ok(x, r) => err.None? && v == x && ReadTo(r)
              case Err(e) => err == Some(e)
    {
      v, err := Dispatch();
    }

    /** `Decode` into a `RawMessage`: raw mode for the length of one value, whose bytes are handed over. */
    method DecodeRaw() returns (message: Bytes, err: Option<Error>)
      requires !raw
      modifies this
      ensures Counted()
      ensures match Scan(old(rest), Raw)
              case Some(r) =>
                && err.None? && rest == r && message == Consumed(old(rest), r)
                && n == old(n) + |message|
              case None => err.Some?
    {
      buf := [];
      raw := true;
      var v;
      v, err := Dispatch();
      raw := false;
      message := buf;
    }
  }
}
