/** The IP blocklist: ranges from CIDR blocks, the order on addresses, and membership. */
module Blocklist {
  import opened Prelude

  type Ip = seq<bv8>

  datatype Range = Range(start: Ip, end: Ip)

  /** The prefix of an IPv4 address written in 16 bytes. */
  const MAPPED: Ip := [0, 0, 0, 0, 0, 0, 0, 0, 0, 0, 0xff, 0xff]

  predicate Proper(ip: Ip) {
    |ip| == 4 || |ip| == 16
  }

  function To16(ip: Ip): (r: Ip)
    requires Proper(ip)
    ensures |r| == 16
  {
    if |ip| == 4 then MAPPED + ip else ip
  }

  function To4(ip: Ip): Option<Ip>
    requires Proper(ip)
  {
    if |ip| == 4 then Some(ip)
    else if ip[..12] == MAPPED then Some(ip[12..])
    else None
  }

  /** Writing an IPv4 address in 16 bytes and back is the identity, and only such addresses go back. */
  lemma MappedRoundTrip(ip: Ip)
    requires Proper(ip)
    ensures |ip| == 4 ==> To4(To16(ip)) == Some(ip)
    ensures To4(ip).Some? ==> |To4(ip).value| == 4 && To16(To4(ip).value) == To16(ip)
  {
    if |ip| == 4 {
      assert (MAPPED + ip)[..12] == MAPPED && (MAPPED + ip)[12..] == ip;
    } else {
      assert ip == ip[..12] + ip[12..];
    }
  }

  // ------------------------------------------------------------ the order

  /** Lexicographic order of byte strings, the shorter first on a tie. */
  function Order(a: Ip, b: Ip): int {
    if a == [] || b == [] then Sign(|a| - |b|)
    else if a[0] < b[0] then -1
    else if a[0] > b[0] then 1
    else Order(a[1..], b[1..])
  }

  lemma {:induction false} OrderAntisymmetric(a: Ip, b: Ip)
    ensures Order(a, b) == -Order(b, a) && -1 <= Order(a, b) <= 1
    ensures Order(a, b) == 0 <==> a == b
  {
    if a != [] && b != [] {
      OrderAntisymmetric(a[1..], b[1..]);
      assert a == [a[0]] + a[1..] && b == [b[0]] + b[1..];
    }
  }

  lemma {:induction false} OrderTransitive(a: Ip, b: Ip, c: Ip)
    requires Order(a, b) <= 0 && Order(b, c) <= 0
    ensures Order(a, c) <= 0
  {
    if a != [] && b != [] && c != [] {
      if a[0] == b[0] == c[0] { OrderTransitive(a[1..], b[1..], c[1..]); }
    }
  }

  lemma {:induction false} OrderSamePrefix(p: Ip, a: Ip, b: Ip)
    ensures Order(p + a, p + b) == Order(a, b)
  {
    if p == [] {
      assert p + a == a && p + b == b;
    } else {
      assert (p + a)[1..] == p[1..] + a && (p + b)[1..] == p[1..] + b;
      OrderSamePrefix(p[1..], a, b);
    }
  }

  /** `compareIPs`, as the source computes it. */
  function Compare(a: Ip, b: Ip): int
    requires Proper(a) && Proper(b)
  {
    if |a| == |b| then Order(a, b) else Order(To16(a), To16(b))
  }

  /**
   Whatever the two lengths, it is the order of the 16-byte forms: a total order up to the way an
   address is written.
   */
  lemma CompareIsOrder(a: Ip, b: Ip)
    requires Proper(a) && Proper(b)
    ensures Compare(a, b) == Order(To16(a), To16(b)) == -Compare(b, a)
    ensures Compare(a, b) == 0 <==> To16(a) == To16(b)
  {
    OrderAntisymmetric(To16(a), To16(b));
    OrderAntisymmetric(a, b);
    if |a| == 4 && |b| == 4 { OrderSamePrefix(MAPPED, a, b); }
  }

  lemma CompareTransitive(a: Ip, b: Ip, c: Ip)
    requires Proper(a) && Proper(b) && Proper(c) && Compare(a, b) <= 0 && Compare(b, c) <= 0
    ensures Compare(a, c) <= 0
  {
    hide Compare, Order, To16;
    CompareIsOrder(a, b);
    CompareIsOrder(b, c);
    CompareIsOrder(a, c);
    OrderTransitive(To16(a), To16(b), To16(c));
  }

  /** `compareIPBytes`, `compareIPLengths` and `compareIPs`. */
  method CompareIPs(a: Ip, b: Ip) returns (r: int)
    requires Proper(a) && Proper(b)
    ensures r == Compare(a, b)
  {
    var x, y := a, b;
    if |a| != |b| {
      if |a| == 4 && |b| == 16 {
        x := To16(a);
      } else if |a| == 16 && |b| == 4 {
        y := To16(b);
      }
    }
    var i := 0;
    assert x[0..] == x && y[0..] == y;
    while i < |x| && i < |y|
      invariant i <= |x| && i <= |y|
      invariant Order(x[i..], y[i..]) == Order(x, y)
    {
      if x[i] < y[i] { return -1; }
      if x[i] > y[i] { return 1; }
      assert x[i..][1..] == x[i + 1..] && y[i..][1..] == y[i + 1..];
      i := i + 1;
    }
    if |x| < |y| { return -1; }
    if |x| > |y| { return 1; }
    return 0;
  }

  // ------------------------------------------------------------ blocks

  /** Leading ones, then zeros. */
  predicate Leading(m: bv8) {
    m == 0 || m == 0x80 || m == 0xc0 || m == 0xe0 || m == 0xf0 || m == 0xf8 || m == 0xfc || m == 0xfe
  }

  predicate Zeros(s: seq<bv8>) {
    forall i :: 0 <= i < |s| ==> s[i] == 0
  }

  predicate Contiguous(mask: seq<bv8>) {
    mask == [] || (mask[0] == 0xff && Contiguous(mask[1..])) || (Leading(mask[0]) && Zeros(mask[1..]))
  }

  function And(x: bv8, m: bv8): bv8 {
    x & m
  }

  /** A byte with its host bits set. */
  function Top(x: bv8, m: bv8): bv8 {
    x | !m
  }

  function Masked(ip: Ip, mask: seq<bv8>): (r: Ip)
    requires |ip| == |mask|
    ensures |r| == |ip|
  {
    seq(|ip|, i requires 0 <= i < |ip| => And(ip[i], mask[i]))
  }

  /** The last address of a block. */
  function Last(start: Ip, mask: seq<bv8>): (r: Ip)
    ensures |r| == |start|
  {
    seq(|start|, i requires 0 <= i < |start| => if i < |mask| then Top(start[i], mask[i]) else start[i])
  }

  method CidrToRange(net: Ip, mask: seq<bv8>) returns (r: Range)
    ensures r == Range(net, Last(net, mask))
  {
    var end := new bv8[|net|](i requires 0 <= i < |net| => net[i]);
    for i := 0 to end.Length
      invariant forall k :: 0 <= k < i ==> end[k] == Last(net, mask)[k]
      invariant forall k :: i <= k < end.Length ==> end[k] == net[k]
    {
      if i < |mask| { end[i] := end[i] | !mask[i]; }
    }
    assert end[..] == Last(net, mask);
    return Range(net, end[..]);
  }

  predicate Between(ip: Ip, lo: Ip, hi: Ip) {
    Order(ip, lo) >= 0 && Order(ip, hi) <= 0
  }

  predicate HasBits(x: bv8, m: bv8, s: bv8) {
    And(x, m) == s
  }

  predicate ByteBetween(x: bv8, lo: bv8, hi: bv8) {
    lo <= x <= hi
  }

  lemma ByteRange(x: bv8, s: bv8, m: bv8)
    requires Leading(m) && HasBits(s, m, s)
    ensures ByteBetween(x, s, Top(s, m)) <==> HasBits(x, m, s)
  {
  }

  lemma FullByte(x: bv8, s: bv8)
    ensures Top(s, 0xff) == s && (HasBits(x, 0xff, s) <==> x == s)
  {
  }

  lemma FreeByte(s: bv8)
    ensures Top(s, 0) == 0xff
  {
  }

  lemma {:induction false} ExtremesBound(ip: Ip, lo: Ip, hi: Ip)
    requires |ip| == |lo| == |hi| && Zeros(lo) && forall i :: 0 <= i < |hi| ==> hi[i] == 0xff
    ensures Between(ip, lo, hi)
  {
    if ip == [] {
    } else {
      ExtremesBound(ip[1..], lo[1..], hi[1..]);
    }
  }

  lemma BetweenStep(ip: Ip, lo: Ip, hi: Ip)
    requires |ip| == |lo| == |hi| > 0
    ensures lo[0] == hi[0] ==> (Between(ip, lo, hi) <==> ip[0] == lo[0] && Between(ip[1..], lo[1..], hi[1..]))
    ensures Between(ip[1..], lo[1..], hi[1..]) ==> (Between(ip, lo, hi) <==> ByteBetween(ip[0], lo[0], hi[0]))
  {
  }

  lemma TailFacts(net: Ip, mask: seq<bv8>)
    requires |net| == |mask| > 0 && Masked(net, mask) == net
    ensures HasBits(net[0], mask[0], net[0]) && Last(net, mask)[0] == Top(net[0], mask[0])
    ensures Masked(net[1..], mask[1..]) == net[1..] && Last(net, mask)[1..] == Last(net[1..], mask[1..])
  {
    hide And, Top;
    assert Masked(net, mask)[0] == net[0];
    assert forall i :: 0 <= i < |net| - 1 ==> Masked(net, mask)[i + 1] == net[1..][i];
  }

  lemma HostBits(ip: Ip, net: Ip, mask: seq<bv8>)
    requires |ip| == |net| == |mask| && Zeros(mask) && Masked(net, mask) == net
    ensures Between(ip, net, Last(net, mask)) && Masked(ip, mask) == net
  {
    assert forall i :: 0 <= i < |net| ==> Masked(net, mask)[i] == 0;
    forall i | 0 <= i < |net|
      ensures Last(net, mask)[i] == 0xff
    {
      FreeByte(net[i]);
    }
    ExtremesBound(ip, net, Last(net, mask));
  }

  /**
   For a contiguous mask and a network address without host bits: lying between the first and the
   last address of the block is the same as having the block's network part.
   */
  lemma {:induction false} BlockIff(ip: Ip, net: Ip, mask: seq<bv8>)
    requires |ip| == |net| == |mask| && Contiguous(mask) && Masked(net, mask) == net
    ensures Between(ip, net, Last(net, mask)) <==> Masked(ip, mask) == net
  {
    if ip == [] {
      assert Masked(ip, mask) == net;
    } else {
      hide Order, Between, Masked, Last, Zeros, Leading, HasBits, ByteBetween, Top;
      TailFacts(net, mask);
      BetweenStep(ip, net, Last(net, mask));
      MaskedCons(ip, net, mask);
      if mask[0] == 0xff && Contiguous(mask[1..]) {
        BlockIff(ip[1..], net[1..], mask[1..]);
        FullByte(ip[0], net[0]);
      } else {
        HostBits(ip[1..], net[1..], mask[1..]);
        ByteRange(ip[0], net[0], mask[0]);
      }
    }
  }

  lemma MaskedCons(ip: Ip, net: Ip, mask: seq<bv8>)
    requires |ip| == |net| == |mask| > 0
    ensures Masked(ip, mask) == net <==> HasBits(ip[0], mask[0], net[0]) && Masked(ip[1..], mask[1..]) == net[1..]
  {
    hide And;
    assert Masked(ip, mask) == [And(ip[0], mask[0])] + Masked(ip[1..], mask[1..]);
    assert net == [net[0]] + net[1..];
  }

  /** A byte whose first `k` bits are set. */
  function HighBits(k: nat): bv8
    requires k <= 8
  {
    if k == 0 then 0 else (HighBits(k - 1) >> 1) | 0x80
  }

  /** `net.CIDRMask` of a prefix length, for addresses of `size` bytes. */
  function CidrMask(n: nat, size: nat): seq<bv8>
    requires n <= 8 * size
    decreases size
  {
    if size == 0 then []
    else [HighBits(Min(n, 8))] + CidrMask(Max(n - 8, 0), size - 1)
  }

  lemma HighBitsLead(k: nat)
    requires k <= 8
    ensures if k < 8 then Leading(HighBits(k)) else HighBits(k) == 0xff
  {
    assert HighBits(1) == 0x80 && HighBits(2) == 0xc0 && HighBits(3) == 0xe0 && HighBits(4) == 0xf0;
    assert HighBits(5) == 0xf8 && HighBits(6) == 0xfc && HighBits(7) == 0xfe && HighBits(8) == 0xff;
  }

  lemma {:induction false} ZeroMask(size: nat)
    ensures Zeros(CidrMask(0, size)) && |CidrMask(0, size)| == size
  {
    if size > 0 {
      ZeroMask(size - 1);
      var m := CidrMask(0, size);
      assert m == [HighBits(0)] + CidrMask(0, size - 1);
    }
  }

  /** The mask of every prefix length is contiguous, so that the laws of blocks cover every CIDR line. */
  lemma {:induction false} EveryPrefixIsContiguous(n: nat, size: nat)
    requires n <= 8 * size
    ensures |CidrMask(n, size)| == size && Contiguous(CidrMask(n, size))
    decreases size
  {
    hide HighBits, Leading;
    if size > 0 {
      var m, rest := CidrMask(n, size), CidrMask(Max(n - 8, 0), size - 1);
      EveryPrefixIsContiguous(Max(n - 8, 0), size - 1);
      HighBitsLead(Min(n, 8));
      assert m[1..] == rest;
      if n < 8 { ZeroMask(size - 1); }
    }
  }

  // ------------------------------------------------------------ membership

  /** The address in the family of a range, if it has a form there. */
  function InFamily(ip: Ip, size: nat): Option<Ip>
    requires Proper(ip)
  {
    if |ip| == size then Some(ip)
    else if |ip| == 4 && size == 16 then Some(To16(ip))
    else if |ip| == 16 && size == 4 then To4(ip)
    else None
  }

  ghost predicate Inside(ip: Ip, r: Range)
    requires Proper(ip)
  {
    var x := InFamily(ip, |r.start|);
    x.Some? && Between(x.value, r.start, r.end)
  }

  /** The ranges that parsing produces: both ends proper, and of one length. */
  predicate WellFormed(r: Range) {
    Proper(r.start) && |r.start| == |r.end|
  }

  method IpInRange(ip: Ip, r: Range) returns (inside: bool)
    requires Proper(ip) && WellFormed(r)
    ensures inside == Inside(ip, r)
  {
    var x := ip;
    if |x| != |r.start| || |x| != |r.end| {
      if |x| == 4 && |r.start| == 16 {
        x := To16(x);
      } else if |x| == 16 && |r.start| == 4 {
        var short := To4(x);
        if short.None? { return false; }
        x := short.value;
      } else {
        return false;
      }
    }
    var low := CompareIPs(x, r.start);
    if low < 0 { return false; }
    var high := CompareIPs(x, r.end);
    return high <= 0;
  }

  /** Whatever lies between two strings with the same beginning has that beginning too. */
  lemma {:induction false} SamePrefixBetween(p: Ip, a: Ip, b: Ip, x: Ip)
    requires |x| >= |p| && Order(p + a, x) <= 0 && Order(x, p + b) <= 0
    ensures x[..|p|] == p
  {
    if p == [] {
    } else {
      assert (p + a)[1..] == p[1..] + a && (p + b)[1..] == p[1..] + b;
      SamePrefixBetween(p[1..], a, b, x[1..]);
      assert x[..|p|] == [x[0]] + x[1..][..|p| - 1] && p == [p[0]] + p[1..];
    }
  }

  /**
   Membership does not depend on how the address or the range is written: it is that the 16-byte form
   of the address lies between the 16-byte forms of the two ends.
   */
  lemma InsideIff(ip: Ip, r: Range)
    requires Proper(ip) && WellFormed(r)
    ensures Inside(ip, r) <==> Order(To16(r.start), To16(ip)) <= 0 && Order(To16(ip), To16(r.end)) <= 0
  {
    hide Order;
    OrderAntisymmetric(To16(r.start), To16(ip));
    if |r.start| == 4 && |ip| == 16 && Order(To16(r.start), ip) <= 0 && Order(ip, To16(r.end)) <= 0 {
      SamePrefixBetween(MAPPED, r.start, r.end, ip);
    }
    if InFamily(ip, |r.start|).Some? {
      var x := InFamily(ip, |r.start|).value;
      MappedRoundTrip(ip);
      assert To16(x) == To16(ip);
      CompareIsOrder(x, r.start);
      CompareIsOrder(x, r.end);
    }
  }

  /** A CIDR block holds an address exactly if the address, in the block's family, has its network part. */
  lemma CidrMembership(ip: Ip, net: Ip, mask: seq<bv8>)
    requires Proper(ip) && Proper(net) && |net| == |mask| && Contiguous(mask) && Masked(net, mask) == net
    ensures var x := InFamily(ip, |net|);
            Inside(ip, Range(net, Last(net, mask))) <==> x.Some? && |x.value| == |net| && Masked(x.value, mask) == net
  {
    hide Contiguous;
    var x := InFamily(ip, |net|);
    if x.Some? { BlockIff(x.value, net, mask); }
  }

  /** `IsBlocked`: an unreadable address is blocked, any other exactly if some range holds it. */
  method IsBlocked(enabled: bool, ip: Option<Ip>, ranges: seq<Range>) returns (blocked: bool)
    requires ip.Some? ==> Proper(ip.value)
    requires forall i :: 0 <= i < |ranges| ==> WellFormed(ranges[i])
    ensures blocked <==> enabled && (ip.None? || exists i :: 0 <= i < |ranges| && Inside(ip.value, ranges[i]))
  {
    if !enabled { return false; }
    if ip.None? { return true; }
    for i := 0 to |ranges|
      invariant forall k :: 0 <= k < i ==> !Inside(ip.value, ranges[k])
    {
      var inside := IpInRange(ip.value, ranges[i]);
      if inside { return true; }
    }
    return false;
  }
}
