/** `routingTable.Closest`: bounded insertion by binary search is sort-then-take. */
module Closest {
  import opened Prelude
  import opened XorMetric

  /** A DHT address compares by the text of its IP and its port. */
  datatype Address = Address(ip: string, port: nat)

  datatype Node = Node(id: Hash, addr: Address)

  function Dist(target: Hash, n: Node): nat {
    Distance(n.id, target)
  }

  ghost predicate Ascending(target: Hash, s: seq<Node>) {
    forall i, j :: 0 <= i < j < |s| ==> Dist(target, s[i]) <= Dist(target, s[j])
  }

  /** `x` put behind every node that is no farther than it. */
  function Insert(target: Hash, s: seq<Node>, x: Node): seq<Node> {
    if s == [] then [x]
    else if Dist(target, s[0]) > Dist(target, x) then [x] + s
    else [s[0]] + Insert(target, s[1..], x)
  }

  /** The nodes in ascending distance, those equally far in the order given. */
  function Sorted(target: Hash, s: seq<Node>): seq<Node> {
    if s == [] then [] else Insert(target, Sorted(target, s[..|s| - 1]), s[|s| - 1])
  }

  function Take<T>(s: seq<T>, k: int): (r: seq<T>)
    ensures |r| == Min(Max(k, 0), |s|)
  {
    if k <= 0 then [] else if k < |s| then s[..k] else s
  }

  lemma {:induction false} InsertAt(target: Hash, s: seq<Node>, x: Node, ix: nat)
    requires ix <= |s|
    requires forall i :: 0 <= i < ix ==> Dist(target, s[i]) <= Dist(target, x)
    requires ix < |s| ==> Dist(target, s[ix]) > Dist(target, x)
    ensures Insert(target, s, x) == s[..ix] + [x] + s[ix..]
  {
    hide Distance;
    if ix == 0 {
      assert s[..0] + [x] + s[0..] == [x] + s;
    } else {
      InsertAt(target, s[1..], x, ix - 1);
      assert s[..ix] == [s[0]] + s[1..][..ix - 1] && s[ix..] == s[1..][ix - 1..];
    }
  }

  /** Where an ascending list takes a new node. */
  lemma {:induction false} InsertSplit(target: Hash, s: seq<Node>, x: Node) returns (ix: nat)
    requires Ascending(target, s)
    ensures ix <= |s| && Insert(target, s, x) == s[..ix] + [x] + s[ix..]
    ensures forall i :: 0 <= i < ix ==> Dist(target, s[i]) <= Dist(target, x)
    ensures forall i :: ix <= i < |s| ==> Dist(target, s[i]) > Dist(target, x)
  {
    hide Dist;
    ix := 0;
    while ix < |s| && Dist(target, s[ix]) <= Dist(target, x)
      invariant ix <= |s| && forall i :: 0 <= i < ix ==> Dist(target, s[i]) <= Dist(target, x)
    {
      ix := ix + 1;
    }
    InsertAt(target, s, x, ix);
  }

  lemma InsertAscending(target: Hash, s: seq<Node>, x: Node)
    requires Ascending(target, s)
    ensures Ascending(target, Insert(target, s, x))
    ensures multiset(Insert(target, s, x)) == multiset(s) + multiset{x}
    ensures |Insert(target, s, x)| == |s| + 1
  {
    hide Dist, Insert;
    var ix := InsertSplit(target, s, x);
    assert s == s[..ix] + s[ix..];
  }

  lemma {:induction false} SortedIsSorted(target: Hash, s: seq<Node>)
    ensures Ascending(target, Sorted(target, s))
    ensures multiset(Sorted(target, s)) == multiset(s)
    ensures |Sorted(target, s)| == |s|
  {
    hide Dist;
    if s == [] {
    } else {
      var front := s[..|s| - 1];
      SortedIsSorted(target, front);
      InsertAscending(target, Sorted(target, front), s[|s| - 1]);
      assert s == front + [s[|s| - 1]];
    }
  }

  lemma AscendingPrefix(target: Hash, s: seq<Node>, k: int)
    requires Ascending(target, s)
    ensures Ascending(target, Take(s, k))
  {
  }

  /** Dropping what lies beyond the first `k` before inserting loses nothing that would be kept. */
  lemma TakeInsert(target: Hash, s: seq<Node>, x: Node, k: int)
    requires Ascending(target, s)
    ensures Take(Insert(target, Take(s, k), x), k) == Take(Insert(target, s, x), k)
  {
    hide Dist, Insert;
    if 0 < k < |s| {
      var ix := InsertSplit(target, s, x);
      var t := s[..k];
      if ix < k {
        InsertAt(target, t, x, ix);
        assert t[..ix] == s[..ix];
        assert Take(t[..ix] + [x] + t[ix..], k) == s[..ix] + [x] + s[ix..k - 1];
        assert Take(s[..ix] + [x] + s[ix..], k) == s[..ix] + [x] + s[ix..k - 1];
      } else {
        InsertAt(target, t, x, k);
        assert t[..k] + [x] + t[k..] == t + [x];
        assert Take(s[..ix] + [x] + s[ix..], k) == t;
      }
    }
  }

  /** `nodesByDistance`: the nearest `maxnum` of the nodes pushed so far. */
  class NodesByDistance {
    const maxnum: int
    const target: Hash
    var nodes: seq<Node>
    ghost var pushed: seq<Node>

    ghost predicate Valid()
      reads this
    {
      nodes == Take(Sorted(target, pushed), maxnum)
    }

    constructor (target: Hash, maxnum: int)
      ensures Valid() && pushed == []
      ensures this.target == target && this.maxnum == maxnum
    {
      this.target, this.maxnum := target, maxnum;
      nodes, pushed := [], [];
    }

    /** `sort.Search` for the first node farther than the new one. */
    method Search(node: Node) returns (ix: nat)
      requires Ascending(target, nodes)
      ensures ix <= |nodes|
      ensures forall i :: 0 <= i < ix ==> Dist(target, nodes[i]) <= Dist(target, node)
      ensures forall i :: ix <= i < |nodes| ==> Dist(target, nodes[i]) > Dist(target, node)
    {
      hide Distance, Compare;
      var i, j := 0, |nodes|;
      while i < j
        invariant 0 <= i <= j <= |nodes|
        invariant forall x :: 0 <= x < i ==> Dist(target, nodes[x]) <= Dist(target, node)
        invariant forall x :: j <= x < |nodes| ==> Dist(target, nodes[x]) > Dist(target, node)
      {
        var h := (i + j) / 2;
        var c := DistCmp(target, nodes[h].id, node.id);
        CompareIsNumeric(target, nodes[h].id, node.id);
        if c > 0 { j := h; } else { i := h + 1; }
      }
      ix := i;
    }

    method Push(node: Node)
      requires Valid()
      modifies this
      ensures Valid() && pushed == old(pushed) + [node]
    {
      hide Dist, Insert, Take;
      ghost var all := Sorted(target, pushed);
      SortedIsSorted(target, pushed);
      AscendingPrefix(target, all, maxnum);
      var ix := Search(node);
      InsertAt(target, nodes, node, ix);
      TakeInsert(target, all, node, maxnum);
      ghost var was := nodes;
      if |nodes| < maxnum {
        nodes := nodes + [node];
      }
      if ix != |nodes| {
        nodes := nodes[..ix] + [node] + nodes[ix..|nodes| - 1];
      }
      Pushed(was, node, ix, maxnum, nodes);
      pushed := pushed + [node];
      assert pushed[..|pushed| - 1] == old(pushed);
    }
  }

  /** Appending, then shifting up from `ix`, is inserting at `ix` and cutting to `maxnum`. */
  lemma Pushed<T>(was: seq<T>, x: T, ix: nat, maxnum: int, now: seq<T>)
    requires ix <= |was| && (|was| < maxnum || |was| == Max(maxnum, 0))
    requires var grown := if |was| < maxnum then was + [x] else was;
             now == if ix != |grown| then grown[..ix] + [x] + grown[ix..|grown| - 1] else grown
    ensures now == Take(was[..ix] + [x] + was[ix..], maxnum)
  {
  }

  function Flatten<T>(ss: seq<seq<T>>): seq<T> {
    if ss == [] then [] else Flatten(ss[..|ss| - 1]) + ss[|ss| - 1]
  }

  method PushAll(close: NodesByDistance, nodes: seq<Node>)
    requires close.Valid()
    modifies close
    ensures close.Valid() && close.pushed == old(close.pushed) + nodes
  {
    hide Sorted, Take;
    for i := 0 to |nodes|
      invariant close.Valid() && close.pushed == old(close.pushed) + nodes[..i]
    {
      close.Push(nodes[i]);
    }
  }

  /** `Closest`, over the nodes of every bucket. */
  method ClosestOf(buckets: seq<seq<Node>>, target: Hash, maxnum: int) returns (nodes: seq<Node>)
    ensures nodes == Take(Sorted(target, Flatten(buckets)), maxnum)
  {
    hide Sorted, Take;
    var close := new NodesByDistance(target, maxnum);
    for b := 0 to |buckets|
      invariant close.Valid() && fresh(close) && close.pushed == Flatten(buckets[..b])
    {
      PushAll(close, buckets[b]);
      assert buckets[..b + 1][..b] == buckets[..b];
    }
    assert buckets[..|buckets|] == buckets;
    nodes := close.nodes;
  }

  /**
   The answer holds as many nodes as asked for, or all there are; they ascend in distance; and
   with the nodes left out they make up the input, each of those at least as far as every one kept.
   */
  lemma ClosestAreNearest(target: Hash, all: seq<Node>, maxnum: int) returns (others: seq<Node>)
    ensures var r := Take(Sorted(target, all), maxnum);
            && |r| == Min(Max(maxnum, 0), |all|)
            && Ascending(target, r)
            && multiset(r) + multiset(others) == multiset(all)
            && forall x, y :: x in r && y in others ==> Dist(target, x) <= Dist(target, y)
  {
    hide Dist, Sorted, Ascending, Take;
    SortedIsSorted(target, all);
    AscendingPrefix(target, Sorted(target, all), maxnum);
    others := CutAt(target, Sorted(target, all), maxnum);
  }

  /** What a cut leaves out of an ascending list is at least as far as what it keeps. */
  lemma CutAt(target: Hash, s: seq<Node>, k: int) returns (others: seq<Node>)
    requires Ascending(target, s)
    ensures multiset(Take(s, k)) + multiset(others) == multiset(s)
    ensures forall x, y :: x in Take(s, k) && y in others ==> Dist(target, x) <= Dist(target, y)
  {
    hide Dist;
    others := s[|Take(s, k)|..];
    assert s == Take(s, k) + others;
  }

  ghost predicate DistinctIds(s: seq<Node>) {
    forall i, j :: 0 <= i < j < |s| ==> s[i].id != s[j].id
  }

  lemma HeadsEqual(target: Hash, a: seq<Node>, b: seq<Node>)
    requires a != [] && b != [] && Ascending(target, a) && Ascending(target, b)
    requires a[0] in b && b[0] in a && DistinctIds(a)
    ensures a[0] == b[0]
  {
    hide Dist;
    var i :| 0 <= i < |b| && b[i] == a[0];
    var j :| 0 <= j < |a| && a[j] == b[0];
    assert Dist(target, b[0]) <= Dist(target, a[0]) <= Dist(target, b[0]);
    SameDistance(target, a[0], b[0]);
  }

  lemma TailOf(target: Hash, s: seq<Node>)
    requires s != [] && Ascending(target, s)
    ensures Ascending(target, s[1..]) && (DistinctIds(s) ==> DistinctIds(s[1..]))
    ensures multiset(s) == multiset{s[0]} + multiset(s[1..]) && s == [s[0]] + s[1..]
  {
    hide Dist;
    assert s == [s[0]] + s[1..];
  }

  /** With distinct IDs the order of the table does not show in the answer. */
  lemma {:induction false} SortedUnique(target: Hash, a: seq<Node>, b: seq<Node>)
    requires Ascending(target, a) && Ascending(target, b) && multiset(a) == multiset(b)
    requires DistinctIds(a)
    ensures a == b
  {
    hide Ascending, DistinctIds;
    assert |a| == |multiset(a)| == |multiset(b)| == |b|;
    if a == [] {
    } else {
      assert a[0] in multiset(b) && b[0] in multiset(a);
      HeadsEqual(target, a, b);
      TailOf(target, a);
      TailOf(target, b);
      assert multiset(a[1..]) == multiset(a) - multiset{a[0]};
      assert multiset(b[1..]) == multiset(b) - multiset{a[0]};
      SortedUnique(target, a[1..], b[1..]);
    }
  }

  lemma SameDistance(target: Hash, x: Node, y: Node)
    ensures Dist(target, x) == Dist(target, y) <==> x.id == y.id
  {
    DistanceInjective(target, x.id, y.id);
  }
}
