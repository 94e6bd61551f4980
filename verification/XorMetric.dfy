/** The XOR metric on node IDs: `Hash`, `distcmp` and `bucketid` of the DHT. */
module XorMetric {
  import opened Prelude

  const HASH_SIZE: nat := 20
  const BUCKETS: nat := 160

  type Hash = h: seq<bv8> | |h| == HASH_SIZE witness seq(HASH_SIZE, _ => 0)

  function Mask(i: nat): (m: bv8)
    requires i < 8
    ensures m != 0 && m & (m - 1) == 0
  {
    if i == 0 then 0x80
    else if i == 1 then 0x40
    else if i == 2 then 0x20
    else if i == 3 then 0x10
    else if i == 4 then 0x08
    else if i == 5 then 0x04
    else if i == 6 then 0x02
    else 0x01
  }

  /** Bit `i` of a byte, the most significant being bit 0. */
  predicate ByteBit(v: bv8, i: nat)
    requires i < 8
  {
    v & Mask(i) != 0
  }

  /** Bit `j` of a hash, the most significant of 160 being bit 0. */
  predicate Bit(h: Hash, j: nat)
    requires j < BUCKETS
  {
    ByteBit(h[j / 8], j % 8)
  }

  // ------------------------------------------------------------ hashes as numbers

  function Pow256(n: nat): (p: nat)
    ensures p > 0
  {
    if n == 0 then 1 else 256 * Pow256(n - 1)
  }

  /** A byte string read as one big-endian number. */
  function Number(s: seq<bv8>): (n: nat)
    ensures n < Pow256(|s|)
  {
    if s == [] then 0
    else
      var high := s[0] as int;
      assert high * Pow256(|s| - 1) + Pow256(|s| - 1) <= 256 * Pow256(|s| - 1) by { ScaleUp(high, Pow256(|s| - 1)); }
      high * Pow256(|s| - 1) + Number(s[1..])
  }

  lemma ScaleUp(a: int, p: nat)
    requires a < 256
    ensures a * p + p <= 256 * p
  {
    assert (a + 1) * p <= 256 * p;
  }

  function XorByte(x: bv8, y: bv8): bv8 {
    x ^ y
  }

  function Xor(a: Hash, b: Hash): Hash {
    seq(HASH_SIZE, i requires 0 <= i < HASH_SIZE => XorByte(a[i], b[i]))
  }

  /** The distance of BEP 5: the XOR of two IDs, as a 160-bit number. */
  function Distance(a: Hash, b: Hash): nat {
    Number(Xor(a, b))
  }

  lemma {:induction false} NumberOfZeros(s: seq<bv8>)
    requires forall i :: 0 <= i < |s| ==> s[i] == 0
    ensures Number(s) == 0
  {
    if s == [] {
    } else {
      NumberOfZeros(s[1..]);
      assert (s[0] as int) == 0;
    }
  }

  /** An ID is at distance zero from itself. */
  lemma ZeroDistance(a: Hash)
    ensures Distance(a, a) == 0
  {
    hide Number;
    forall i | 0 <= i < HASH_SIZE
      ensures Xor(a, a)[i] == 0
    {
      SelfXor(a[i]);
    }
    NumberOfZeros(Xor(a, a));
  }

  lemma SelfXor(x: bv8)
    ensures XorByte(x, x) == 0
  {
  }

  // ------------------------------------------------------------ distcmp

  /** Compares the distances of `a` and `b` to `target` from byte `i` on. */
  function CompareFrom(target: Hash, a: Hash, b: Hash, i: nat): (r: int)
    requires i <= HASH_SIZE
    ensures -1 <= r <= 1
    decreases HASH_SIZE - i
  {
    if i == HASH_SIZE then 0
    else
      var da, db := XorByte(a[i], target[i]), XorByte(b[i], target[i]);
      if da > db then 1 else if da < db then -1 else CompareFrom(target, a, b, i + 1)
  }

  function Compare(target: Hash, a: Hash, b: Hash): int {
    CompareFrom(target, a, b, 0)
  }

  method DistCmp(target: Hash, a: Hash, b: Hash) returns (r: int)
    ensures r == Compare(target, a, b)
  {
    for i := 0 to HASH_SIZE
      invariant Compare(target, a, b) == CompareFrom(target, a, b, i)
    {
      var da, db := XorByte(a[i], target[i]), XorByte(b[i], target[i]);
      if da > db {
        return 1;
      } else if da < db {
        return -1;
      }
    }
    return 0;
  }

  lemma ByteOrder(x: bv8, y: bv8)
    ensures x < y <==> x as int < y as int
  {
  }

  /** The first differing digit decides which number is larger. */
  lemma HighDigitDecides(x: int, y: int, p: nat, s: nat, t: nat)
    requires x < y && s < p
    ensures x * p + s < y * p + t
  {
    assert (x + 1) * p <= y * p;
    assert (x + 1) * p == x * p + p;
  }

  lemma EmptyNumber()
    ensures Number([]) == 0
  {
  }

  lemma NumberHead(x: seq<bv8>)
    requires x != []
    ensures Number(x) == (x[0] as int) * Pow256(|x| - 1) + Number(x[1..])
  {
  }

  lemma HeadDecides(x: seq<bv8>, y: seq<bv8>)
    requires |x| == |y| > 0
    ensures x[0] < y[0] ==> Number(x) < Number(y)
    ensures x[0] == y[0] ==> Number(x) - Number(y) == Number(x[1..]) - Number(y[1..])
  {
    hide Number, Pow256;
    NumberHead(x);
    NumberHead(y);
    ByteOrder(x[0], y[0]);
    if x[0] < y[0] {
      HighDigitDecides(x[0] as int, y[0] as int, Pow256(|x| - 1), Number(x[1..]), Number(y[1..]));
    }
  }

  lemma {:induction false} CompareFromIsNumeric(target: Hash, a: Hash, b: Hash, i: nat)
    requires i <= HASH_SIZE
    ensures CompareFrom(target, a, b, i) == Sign(Number(Xor(a, target)[i..]) - Number(Xor(b, target)[i..]))
    decreases HASH_SIZE - i
  {
    hide Number;
    assert Number([]) == 0 by { EmptyNumber(); }
    if i < HASH_SIZE {
      var x, y := Xor(a, target)[i..], Xor(b, target)[i..];
      assert x[1..] == Xor(a, target)[i + 1..] && y[1..] == Xor(b, target)[i + 1..];
      CompareFromIsNumeric(target, a, b, i + 1);
      HeadDecides(x, y);
      HeadDecides(y, x);
    }
  }

  /** `distcmp` compares distances as 160-bit numbers. */
  lemma CompareIsNumeric(target: Hash, a: Hash, b: Hash)
    ensures Compare(target, a, b) == Sign(Distance(a, target) - Distance(b, target))
  {
    CompareFromIsNumeric(target, a, b, 0);
    assert Xor(a, target)[0..] == Xor(a, target) && Xor(b, target)[0..] == Xor(b, target);
  }

  lemma {:induction false} EqualDistanceFrom(target: Hash, a: Hash, b: Hash, i: nat)
    requires i <= HASH_SIZE && CompareFrom(target, a, b, i) == 0
    ensures a[i..] == b[i..]
    decreases HASH_SIZE - i
  {
    if i < HASH_SIZE {
      EqualDistanceFrom(target, a, b, i + 1);
      assert a[i] == b[i];
      assert a[i..] == [a[i]] + a[i + 1..] && b[i..] == [b[i]] + b[i + 1..];
    }
  }

  /** No two IDs are equally far from a target: the order by distance is total and strict. */
  lemma DistanceInjective(target: Hash, a: Hash, b: Hash)
    ensures Distance(a, target) == Distance(b, target) <==> a == b
  {
    CompareIsNumeric(target, a, b);
    if Compare(target, a, b) == 0 {
      EqualDistanceFrom(target, a, b, 0);
      assert a[0..] == a && b[0..] == b;
    }
  }

  // ------------------------------------------------------------ bucketid

  /** Number of leading zero bits of a byte. */
  function Lead(v: bv8): (n: nat)
    ensures n <= 8 && (n == 8 <==> v == 0)
  {
    if v & 0x80 != 0 then 0
    else if v & 0x40 != 0 then 1
    else if v & 0x20 != 0 then 2
    else if v & 0x10 != 0 then 3
    else if v & 0x08 != 0 then 4
    else if v & 0x04 != 0 then 5
    else if v & 0x02 != 0 then 6
    else if v & 0x01 != 0 then 7
    else 8
  }

  lemma LeadBits(v: bv8, i: nat)
    requires i < 8
    ensures i == Lead(v) ==> ByteBit(v, i)
    ensures i < Lead(v) ==> !ByteBit(v, i)
  {
  }

  function BucketFrom(owner: Hash, id: Hash, i: nat): (r: nat)
    requires i <= HASH_SIZE
    ensures r < BUCKETS && (i < HASH_SIZE ==> 8 * i <= r)
    decreases HASH_SIZE - i
  {
    if i == HASH_SIZE then BUCKETS - 1
    else if owner[i] != id[i] then XorZero(owner[i], id[i]); 8 * i + Lead(XorByte(owner[i], id[i]))
    else BucketFrom(owner, id, i + 1)
  }

  function BucketOf(owner: Hash, id: Hash): (r: nat)
    ensures r < BUCKETS
  {
    BucketFrom(owner, id, 0)
  }

  lemma XorZero(x: bv8, y: bv8)
    ensures XorByte(x, y) == 0 <==> x == y
  {
  }

  lemma XorMasked(x: bv8, y: bv8, m: bv8)
    requires m != 0 && m & (m - 1) == 0
    ensures (x ^ y) & m != 0 <==> (x & m != 0) != (y & m != 0)
  {
  }

  lemma XorBit(x: bv8, y: bv8, i: nat)
    requires i < 8
    ensures ByteBit(XorByte(x, y), i) <==> ByteBit(x, i) != ByteBit(y, i)
  {
    XorMasked(x, y, Mask(i));
  }

  method BucketId(owner: Hash, nid: Hash) returns (r: nat)
    ensures r == BucketOf(owner, nid)
  {
    for i := 0 to HASH_SIZE
      invariant BucketOf(owner, nid) == BucketFrom(owner, nid, i)
    {
      var v := XorByte(owner[i], nid[i]);
      XorZero(owner[i], nid[i]);
      if v & 0x80 > 0 {
        return i * 8;
      } else if v & 0x40 > 0 {
        return i * 8 + 1;
      } else if v & 0x20 > 0 {
        return i * 8 + 2;
      } else if v & 0x10 > 0 {
        return i * 8 + 3;
      } else if v & 0x08 > 0 {
        return i * 8 + 4;
      } else if v & 0x04 > 0 {
        return i * 8 + 5;
      } else if v & 0x02 > 0 {
        return i * 8 + 6;
      } else if v & 0x01 > 0 {
        return i * 8 + 7;
      }
      assert v == 0;
    }
    return 19 * 8 + 7;
  }

  lemma SameBits(a: Hash, b: Hash, i: nat, j: nat)
    requires i < HASH_SIZE && a[i] == b[i] && 8 * i <= j < 8 * i + 8
    ensures Bit(a, j) == Bit(b, j)
  {
    assert j / 8 == i;
  }

  lemma {:induction false} BucketFromIsFirstDifference(owner: Hash, id: Hash, i: nat)
    requires i <= HASH_SIZE
    ensures var r := BucketFrom(owner, id, i);
            && (forall j :: 8 * i <= j < r ==> Bit(owner, j) == Bit(id, j))
            && (owner[i..] != id[i..] ==> Bit(owner, r) != Bit(id, r))
    decreases HASH_SIZE - i
  {
    hide ByteBit, Lead, XorByte;
    var r := BucketFrom(owner, id, i);
    if i < HASH_SIZE {
      if owner[i] == id[i] {
        BucketFromIsFirstDifference(owner, id, i + 1);
        assert owner[i..] == [owner[i]] + owner[i + 1..] && id[i..] == [id[i]] + id[i + 1..];
        forall j | 8 * i <= j < r
          ensures Bit(owner, j) == Bit(id, j)
        {
          if j < 8 * i + 8 { SameBits(owner, id, i, j); }
        }
      } else {
        var v := XorByte(owner[i], id[i]);
        XorZero(owner[i], id[i]);
        assert r / 8 == i && r % 8 == Lead(v);
        XorBit(owner[i], id[i], Lead(v));
        LeadBits(v, Lead(v));
        forall j | 8 * i <= j < r
          ensures Bit(owner, j) == Bit(id, j)
        {
          assert j / 8 == i;
          XorBit(owner[i], id[i], j % 8);
          LeadBits(v, j % 8);
        }
      }
    }
  }

  /** The bucket of an ID is the index of its first bit that differs from the owner's; equal IDs go last. */
  lemma BucketIsFirstDifference(owner: Hash, id: Hash)
    ensures var r := BucketOf(owner, id);
            && (forall j :: 0 <= j < r ==> Bit(owner, j) == Bit(id, j))
            && (owner != id ==> Bit(owner, r) != Bit(id, r))
            && (owner == id ==> r == BUCKETS - 1)
  {
    BucketFromIsFirstDifference(owner, id, 0);
    assert owner[0..] == owner && id[0..] == id;
    if owner == id { EqualGoLast(owner, 0); }
  }

  lemma {:induction false} EqualGoLast(owner: Hash, i: nat)
    requires i <= HASH_SIZE
    ensures BucketFrom(owner, owner, i) == BUCKETS - 1
    decreases HASH_SIZE - i
  {
    if i < HASH_SIZE { EqualGoLast(owner, i + 1); }
  }

  lemma LeadOrder(o: bv8, a: bv8, b: bv8)
    requires Lead(XorByte(o, a)) < Lead(XorByte(o, b))
    ensures XorByte(b, o) < XorByte(a, o)
  {
  }

  lemma {:induction false} NearerFrom(owner: Hash, a: Hash, b: Hash, i: nat)
    requires i <= HASH_SIZE && BucketFrom(owner, a, i) < BucketFrom(owner, b, i)
    ensures CompareFrom(owner, b, a, i) == -1
    decreases HASH_SIZE - i
  {
    hide Lead, ByteBit, XorByte;
    XorZero(owner[i], a[i]);
    XorZero(owner[i], b[i]);
    if owner[i] == a[i] && owner[i] == b[i] {
      NearerFrom(owner, a, b, i + 1);
    } else {
      assert owner[i] != a[i] && Lead(XorByte(owner[i], a[i])) < Lead(XorByte(owner[i], b[i]));
      LeadOrder(owner[i], a[i], b[i]);
    }
  }

  /** A node in a later bucket is strictly nearer to the owner than any node in an earlier one. */
  lemma LaterBucketIsNearer(owner: Hash, a: Hash, b: Hash)
    requires BucketOf(owner, a) < BucketOf(owner, b)
    ensures Distance(b, owner) < Distance(a, owner)
  {
    NearerFrom(owner, a, b, 0);
    CompareIsNumeric(owner, b, a);
  }
}
