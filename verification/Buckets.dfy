/**
 One k-bucket: insertion, replacement of bad nodes and the periodic purge. Replacement and purge
 exist twice, as the code has them and as their comments intend; the laws say when the two agree.
 */
module Buckets {
  import opened Prelude
  import opened XorMetric
  import opened Closest

  const NANOS_PER_MINUTE: int := 60_000_000_000
  const BAD_TIMEOUT: int := 20 * NANOS_PER_MINUTE
  const DUBIOUS_TIMEOUT: int := 15 * NANOS_PER_MINUTE

  datatype Entry = Entry(node: Node, lastChanged: int)

  datatype BucketState = BucketState(entries: seq<Entry>, lastChanged: int)

  datatype AddStatus = NodeAdded | NodeNotAdded | NodeExistAndUpdated | NodeExistAndChanged

  datatype NodeStatus = Good | Dubious | Bad

  datatype Variant = AsWritten | Intended

  function Status(e: Entry, now: int): NodeStatus {
    var duration := now - e.lastChanged;
    if duration > BAD_TIMEOUT then Bad else if duration > DUBIOUS_TIMEOUT then Dubious else Good
  }

  predicate IsBad(e: Entry, now: int) {
    now - e.lastChanged > BAD_TIMEOUT
  }

  // ------------------------------------------------------------ adding

  function FindId(es: seq<Entry>, id: Hash): (r: Option<nat>)
    ensures r.Some? ==> r.value < |es| && es[r.value].node.id == id
    ensures r.Some? ==> forall i :: 0 <= i < r.value ==> es[i].node.id != id
    ensures r.None? ==> forall i :: 0 <= i < |es| ==> es[i].node.id != id
  {
    if es == [] then None
    else if es[0].node.id == id then Some(0)
    else match FindId(es[1..], id) case None => None case Some(i) => Some(i + 1)
  }

  function FirstBad(es: seq<Entry>, now: int): (r: Option<nat>)
    ensures r.Some? ==> r.value < |es| && IsBad(es[r.value], now)
    ensures r.Some? ==> forall i :: 0 <= i < r.value ==> !IsBad(es[i], now)
    ensures r.None? ==> forall i :: 0 <= i < |es| ==> !IsBad(es[i], now)
  {
    if es == [] then None
    else if IsBad(es[0], now) then Some(0)
    else match FirstBad(es[1..], now) case None => None case Some(i) => Some(i + 1)
  }

  /** A node object is found in the list by its ID and shared by every slot that holds it. */
  function Touch(es: seq<Entry>, id: Hash, now: int): seq<Entry> {
    seq(|es|, i requires 0 <= i < |es| => if es[i].node.id == id then es[i].(lastChanged := now) else es[i])
  }

  /** `copy(b.Nodes[i:], b.Nodes[i+1:])` moves the tail down but keeps the length. */
  function ShiftDown<T>(s: seq<T>, i: nat): seq<T>
    requires i < |s|
  {
    s[..i] + s[i + 1..] + [s[|s| - 1]]
  }

  /** `bucket.AddNode`; `k` is the capacity of the table. */
  function AddTo(b: BucketState, n: Node, now: int, k: int, variant: Variant): (BucketState, AddStatus) {
    var e := Entry(n, now);
    match FindId(b.entries, n.id)
    case Some(i) =>
      if b.entries[i].node.addr == n.addr
      then (BucketState(Touch(b.entries, n.id, now), now), NodeExistAndUpdated)
      else (b, NodeExistAndChanged)
    case None =>
      if |b.entries| < k then (BucketState(b.entries + [e], now), NodeAdded)
      else match FirstBad(b.entries, now)
        case Some(i) =>
          var kept := if variant.AsWritten? then ShiftDown(b.entries, i) else RemoveAt(b.entries, i);
          (BucketState(kept + [e], now), NodeAdded)
        case None => (b, NodeNotAdded)
  }

  /** The first entry with this ID. */
  ghost predicate FirstWith(es: seq<Entry>, id: Hash, i: nat) {
    i < |es| && es[i].node.id == id && forall j :: 0 <= j < i ==> es[j].node.id != id
  }

  ghost predicate Knows(es: seq<Entry>, id: Hash) {
    exists i :: 0 <= i < |es| && es[i].node.id == id
  }

  /** Some node was not heard of for more than twenty minutes. */
  ghost predicate HasBad(es: seq<Entry>, now: int) {
    exists i :: 0 <= i < |es| && now - es[i].lastChanged > 20 * 60 * 1_000_000_000
  }

  /** A new ID goes to the end of a bucket with room, stamped with the time, as does the bucket. */
  lemma AddWithRoom(b: BucketState, n: Node, now: int, k: int, variant: Variant)
    requires !Knows(b.entries, n.id) && |b.entries| < k
    ensures AddTo(b, n, now, k, variant) == (BucketState(b.entries + [Entry(n, now)], now), NodeAdded)
  {
  }

  /** A known ID at its own address only has its time and the bucket's time set. */
  lemma AddKnown(b: BucketState, n: Node, now: int, k: int, variant: Variant, i: nat)
    requires FirstWith(b.entries, n.id, i) && b.entries[i].node.addr == n.addr
    ensures var (out, status) := AddTo(b, n, now, k, variant);
            && status == NodeExistAndUpdated && out.lastChanged == now && |out.entries| == |b.entries|
            && (forall j :: 0 <= j < |b.entries| ==> out.entries[j].node == b.entries[j].node)
            && (forall j :: 0 <= j < |b.entries| ==>
                  out.entries[j].lastChanged == if b.entries[j].node.id == n.id then now else b.entries[j].lastChanged)
  {
  }

  /** A known ID at another address changes nothing; nor does a new one in a full bucket without a bad node. */
  lemma AddRefused(b: BucketState, n: Node, now: int, k: int, variant: Variant, i: nat)
    ensures FirstWith(b.entries, n.id, i) && b.entries[i].node.addr != n.addr ==>
      AddTo(b, n, now, k, variant) == (b, NodeExistAndChanged)
    ensures !Knows(b.entries, n.id) && |b.entries| >= k && !HasBad(b.entries, now) ==>
      AddTo(b, n, now, k, variant) == (b, NodeNotAdded)
  {
    hide FirstBad;
    assert FirstBad(b.entries, now).Some? ==> HasBad(b.entries, now);
  }

  /** In a full bucket the first bad node makes way, and the new node goes to the end. */
  lemma AddReplacing(b: BucketState, n: Node, now: int, k: int, i: nat)
    requires !Knows(b.entries, n.id) && |b.entries| >= k && i < |b.entries|
    requires now - b.entries[i].lastChanged > 20 * 60 * 1_000_000_000
    requires forall j :: 0 <= j < i ==> now - b.entries[j].lastChanged <= 20 * 60 * 1_000_000_000
    ensures AddTo(b, n, now, k, Intended) ==
      (BucketState(b.entries[..i] + b.entries[i + 1..] + [Entry(n, now)], now), NodeAdded)
    ensures AddTo(b, n, now, k, AsWritten) ==
      (BucketState(b.entries[..i] + b.entries[i + 1..] + [b.entries[|b.entries| - 1], Entry(n, now)], now), NodeAdded)
  {
    hide FindId, FirstBad;
    assert FindId(b.entries, n.id).None?;
    assert FirstBad(b.entries, now) == Some(i);
    var es := b.entries;
    assert ShiftDown(es, i) + [Entry(n, now)] == es[..i] + es[i + 1..] + [es[|es| - 1], Entry(n, now)];
  }

  /** The answer is NodeAdded exactly for a new ID with room or a bad node, and then the node ends the bucket. */
  lemma AddedIff(b: BucketState, n: Node, now: int, k: int, variant: Variant)
    ensures var (out, status) := AddTo(b, n, now, k, variant);
            && (status == NodeAdded <==> !Knows(b.entries, n.id) && (|b.entries| < k || HasBad(b.entries, now)))
            && (status == NodeAdded ==>
                  out.entries != [] && out.entries[|out.entries| - 1] == Entry(n, now) && out.lastChanged == now)
  {
    hide FirstBad, FindId, Touch, ShiftDown, RemoveAt;
    var f := FindId(b.entries, n.id);
    assert f.Some? <==> Knows(b.entries, n.id);
    assert FirstBad(b.entries, now).Some? <==> HasBad(b.entries, now);
  }

  /** What BEP 5 asks of a bucket: at most `k` nodes, no ID twice. */
  ghost predicate Small(b: BucketState, k: int) {
    |b.entries| <= Max(k, 0)
  }

  ghost predicate Unique(b: BucketState) {
    forall i, j :: 0 <= i < j < |b.entries| ==> b.entries[i].node.id != b.entries[j].node.id
  }

  /** The call that takes the replacement branch: a new ID, a full bucket, a bad node in it. */
  predicate Replaces(b: BucketState, n: Node, now: int, k: int) {
    FindId(b.entries, n.id).None? && |b.entries| >= k && FirstBad(b.entries, now).Some?
  }

  lemma AddKeepsUnique(b: BucketState, n: Node, now: int, k: int)
    requires Unique(b)
    ensures Unique(AddTo(b, n, now, k, Intended).0)
  {
    hide FindId, FirstBad, IsBad, Unique, RemoveAt, Touch;
    var es, e := b.entries, Entry(n, now);
    UniqueAnyTime(b, now);
    TouchUnique(es, n.id, now);
    if FindId(es, n.id).None? {
      AppendUnique(es, e);
      if Replaces(b, n, now, k) {
        var i := FirstBad(es, now).value;
        RemoveUnique(es, i, now);
        KeptAreOld(es, i);
        AppendUnique(RemoveAt(es, i), e);
      }
    }
  }

  lemma UniqueAnyTime(b: BucketState, now: int)
    requires Unique(b)
    ensures Unique(BucketState(b.entries, now))
  {
  }

  lemma TouchUnique(es: seq<Entry>, id: Hash, now: int)
    requires Unique(BucketState(es, now))
    ensures Unique(BucketState(Touch(es, id, now), now))
  {
  }

  lemma AppendUnique(es: seq<Entry>, e: Entry)
    requires Unique(BucketState(es, e.lastChanged)) && forall i :: 0 <= i < |es| ==> es[i].node.id != e.node.id
    ensures Unique(BucketState(es + [e], e.lastChanged))
  {
  }

  lemma AddKeepsSmall(b: BucketState, n: Node, now: int, k: int)
    requires Small(b, k)
    ensures Small(AddTo(b, n, now, k, Intended).0, k)
  {
  }

  /** The code keeps a bucket within `k` exactly on the calls that do not replace a bad node. */
  lemma AddWrittenSmallIff(b: BucketState, n: Node, now: int, k: int)
    requires Small(b, k)
    ensures Small(AddTo(b, n, now, k, AsWritten).0, k) <==> !Replaces(b, n, now, k)
    ensures !Replaces(b, n, now, k) ==> AddTo(b, n, now, k, AsWritten) == AddTo(b, n, now, k, Intended)
  {
    if Replaces(b, n, now, k) {
      var i := FirstBad(b.entries, now).value;
      assert |ShiftDown(b.entries, i)| == |b.entries|;
    }
  }

  /** The code keeps IDs unique except when the bad node it replaces is not the last one. */
  lemma AddWrittenUniqueIff(b: BucketState, n: Node, now: int, k: int)
    requires Unique(b)
    ensures Unique(AddTo(b, n, now, k, AsWritten).0) <==>
            !(Replaces(b, n, now, k) && FirstBad(b.entries, now).value < |b.entries| - 1)
  {
    hide FindId, FirstBad, Touch, IsBad;
    if Replaces(b, n, now, k) {
      var i := FirstBad(b.entries, now).value;
      if i < |b.entries| - 1 {
        ShiftRepeats(b.entries, i, Entry(n, now));
      } else {
        assert ShiftDown(b.entries, i) == b.entries;
      }
    } else {
      AddKeepsUnique(b, n, now, k);
      AddWrittenSame(b, n, now, k);
    }
  }

  /** Shifting without truncating leaves the last entry in two slots. */
  lemma ShiftRepeats(es: seq<Entry>, i: nat, e: Entry)
    requires i < |es| - 1
    ensures var out := ShiftDown(es, i) + [e]; out[|es| - 2] == out[|es| - 1]
  {
  }

  lemma AddWrittenSame(b: BucketState, n: Node, now: int, k: int)
    requires !Replaces(b, n, now, k)
    ensures AddTo(b, n, now, k, AsWritten) == AddTo(b, n, now, k, Intended)
  {
  }

  /** Every ID in the bucket afterwards was there before or is the one added. */
  lemma AddKeepsIds(b: BucketState, n: Node, now: int, k: int, variant: Variant)
    ensures var out := AddTo(b, n, now, k, variant).0;
            forall x :: 0 <= x < |out.entries| ==>
              || out.entries[x].node.id == n.id
              || exists y :: 0 <= y < |b.entries| && b.entries[y].node.id == out.entries[x].node.id
  {
    hide FindId, FirstBad, IsBad, ShiftDown, RemoveAt;
    if Replaces(b, n, now, k) {
      KeptAreOld(b.entries, FirstBad(b.entries, now).value);
    }
  }

  lemma KeptAreOld(es: seq<Entry>, i: nat)
    requires i < |es|
    ensures |ShiftDown(es, i)| == |es| && forall x :: 0 <= x < |es| ==>
      exists y :: 0 <= y < |es| && es[y] == ShiftDown(es, i)[x]
    ensures |RemoveAt(es, i)| == |es| - 1 && forall x :: 0 <= x < |es| - 1 ==>
      exists y :: 0 <= y < |es| && es[y] == RemoveAt(es, i)[x]
  {
    forall x | 0 <= x < |es|
      ensures exists y :: 0 <= y < |es| && es[y] == ShiftDown(es, i)[x]
    {
      assert ShiftDown(es, i)[x] == es[if x < i then x else Min(x + 1, |es| - 1)];
    }
    forall x | 0 <= x < |es| - 1
      ensures exists y :: 0 <= y < |es| && es[y] == RemoveAt(es, i)[x]
    {
      assert RemoveAt(es, i)[x] == es[if x < i then x else x + 1];
    }
  }

  // ------------------------------------------------------------ purging

  /** The guard of `CheckAllNodes`. */
  predicate Due(b: BucketState, now: int) {
    |b.entries| > 0 && now - b.lastChanged >= DUBIOUS_TIMEOUT
  }

  /** The nodes that a purge pings, in order. */
  function DubiousNodes(es: seq<Entry>, now: int): seq<Node> {
    if es == [] then []
    else (if Status(es[0], now) == Dubious then [es[0].node] else []) + DubiousNodes(es[1..], now)
  }

  /** Last heard of more than fifteen and at most twenty minutes ago. */
  ghost predicate Silent(es: seq<Entry>, now: int, n: Node) {
    exists i :: 0 <= i < |es| && es[i].node == n &&
      15 * 60 * 1_000_000_000 < now - es[i].lastChanged <= 20 * 60 * 1_000_000_000
  }

  lemma {:induction false} PingedIff(es: seq<Entry>, now: int, n: Node)
    ensures n in DubiousNodes(es, now) <==> Silent(es, now, n)
  {
    if es == [] {
    } else {
      PingedIff(es[1..], now, n);
      assert Silent(es, now, n) <==> Silent([es[0]], now, n) || Silent(es[1..], now, n) by {
        assert es == [es[0]] + es[1..];
        assert forall i :: 0 < i < |es| ==> es[i] == es[1..][i - 1];
        assert forall i :: 0 <= i < |es[1..]| ==> es[1..][i] == es[i + 1];
      }
      assert Silent([es[0]], now, n) <==> [es[0]][0].node == n && Status(es[0], now) == Dubious;
    }
  }

  /** One entry of the loop that collects bad and dubious nodes. */
  lemma CollectStep(es: seq<Entry>, now: int, i: nat)
    requires i < |es|
    ensures BadIndexes(es[i..], now, i) ==
      (if Status(es[i], now) == Bad then [i] else []) + BadIndexes(es[i + 1..], now, i + 1)
    ensures DubiousNodes(es[i..], now) ==
      (if Status(es[i], now) == Dubious then [es[i].node] else []) + DubiousNodes(es[i + 1..], now)
  {
    assert es[i..][1..] == es[i + 1..];
  }

  lemma CollectEnds(now: int, n: nat)
    ensures BadIndexes([], now, n) == [] && DubiousNodes([], now) == []
  {
  }

  function GoodOnes(es: seq<Entry>, now: int): seq<Entry> {
    if es == [] then []
    else if IsBad(es[0], now) then GoodOnes(es[1..], now)
    else [es[0]] + GoodOnes(es[1..], now)
  }

  /** The indexes the check collects, counted from `base`. */
  function BadIndexes(es: seq<Entry>, now: int, base: nat): seq<nat> {
    if es == [] then []
    else if IsBad(es[0], now) then [base] + BadIndexes(es[1..], now, base + 1)
    else BadIndexes(es[1..], now, base + 1)
  }

  datatype Purge = Purge(entries: seq<Entry>, panicked: bool)

  /** Deleting by indexes that were collected beforehand; an index past the end panics. */
  function DeleteAll(es: seq<Entry>, indexes: seq<nat>): Purge {
    if indexes == [] then Purge(es, false)
    else if indexes[0] >= |es| then Purge(es, true)
    else DeleteAll(RemoveAt(es, indexes[0]), indexes[1..])
  }

  function Check(b: BucketState, now: int, variant: Variant): (BucketState, bool) {
    if !Due(b, now) then (b, false)
    else if variant.Intended? then (b.(entries := GoodOnes(b.entries, now)), false)
    else var p := DeleteAll(b.entries, BadIndexes(b.entries, now, 0)); (b.(entries := p.entries), p.panicked)
  }

  /** A bucket is looked at once it was quiet for fifteen minutes; a purge never touches its own time. */
  lemma CheckSchedule(b: BucketState, now: int, variant: Variant)
    ensures now - b.lastChanged < 15 * 60 * 1_000_000_000 ==> Check(b, now, variant) == (b, false)
    ensures now - b.lastChanged >= 15 * 60 * 1_000_000_000 ==>
      && Check(b, now, Intended) == (b.(entries := GoodOnes(b.entries, now)), false)
      && Check(b, now, variant).0.lastChanged == b.lastChanged
  {
  }

  ghost predicate Marks(ix: seq<nat>, es: seq<Entry>, now: int, base: nat) {
    && (forall x :: 0 <= x < |ix| ==> base <= ix[x] < base + |es|)
    && (forall x :: 0 <= x < |ix| ==> IsBad(es[ix[x] - base], now))
    && (forall x, y :: 0 <= x < y < |ix| ==> ix[x] < ix[y])
  }

  lemma {:induction false} BadIndexesSpec(es: seq<Entry>, now: int, base: nat)
    ensures Marks(BadIndexes(es, now, base), es, now, base)
  {
    if es == [] {
    } else {
      hide IsBad, Marks;
      BadIndexesSpec(es[1..], now, base + 1);
      MarksLater(BadIndexes(es[1..], now, base + 1), es, now, base);
    }
  }

  /** Marks of the tail are marks of the whole, and a bad head may be marked before them. */
  lemma MarksLater(ix: seq<nat>, es: seq<Entry>, now: int, base: nat)
    requires es != [] && Marks(ix, es[1..], now, base + 1)
    ensures Marks(ix, es, now, base) && (IsBad(es[0], now) ==> Marks([base] + ix, es, now, base))
  {
    hide IsBad;
    forall x | 0 <= x < |ix|
      ensures base + 1 <= ix[x] < base + |es| && IsBad(es[ix[x] - base], now)
    {
      assert es[1..][ix[x] - (base + 1)] == es[ix[x] - base];
    }
  }

  lemma {:induction false} GoodOnesSpec(es: seq<Entry>, now: int)
    ensures forall e :: e in GoodOnes(es, now) <==> e in es && now - e.lastChanged <= 20 * 60 * 1_000_000_000
  {
    if es == [] {
    } else {
      GoodOnesSpec(es[1..], now);
      assert es == [es[0]] + es[1..];
    }
  }

  /** Deletions above a position leave what stands there. */
  lemma {:induction false} DeleteKeepsBelow(es: seq<Entry>, indexes: seq<nat>, p: nat)
    requires p < |es| && forall x :: 0 <= x < |indexes| ==> indexes[x] > p
    ensures var r := DeleteAll(es, indexes).entries; p < |r| && r[p] == es[p]
  {
    if indexes != [] && indexes[0] < |es| {
      DeleteKeepsBelow(RemoveAt(es, indexes[0]), indexes[1..], p);
    }
  }

  lemma {:induction false} NoBadIndexes(es: seq<Entry>, now: int, base: nat)
    requires BadIndexes(es, now, base) == []
    ensures GoodOnes(es, now) == es
  {
    if es == [] {
    } else {
      NoBadIndexes(es[1..], now, base + 1);
      assert es == [es[0]] + es[1..];
    }
  }

  lemma {:induction false} OneBadIndex(es: seq<Entry>, now: int, base: nat)
    requires |BadIndexes(es, now, base)| == 1
    ensures var i := BadIndexes(es, now, base)[0];
      base <= i < base + |es| && GoodOnes(es, now) == RemoveAt(es, i - base)
  {
    hide IsBad, RemoveAt;
    var i := BadIndexes(es, now, base)[0];
    if IsBad(es[0], now) {
      NoBadIndexes(es[1..], now, base + 1);
      RemoveHead(es);
    } else {
      OneBadIndex(es[1..], now, base + 1);
      RemoveLater(es, i - base);
    }
  }

  lemma RemoveHead<T>(s: seq<T>)
    requires s != []
    ensures RemoveAt(s, 0) == s[1..]
  {
  }

  lemma RemoveLater<T>(s: seq<T>, i: nat)
    requires 0 < i < |s|
    ensures RemoveAt(s, i) == [s[0]] + RemoveAt(s[1..], i - 1)
  {
  }

  /** With two bad nodes the second deletion misses: a bad node is still there afterwards. */
  lemma BadNodeSurvives(es: seq<Entry>, now: int)
    requires |BadIndexes(es, now, 0)| >= 2
    ensures exists e :: e in DeleteAll(es, BadIndexes(es, now, 0)).entries && IsBad(e, now)
  {
    var ix := BadIndexes(es, now, 0);
    BadIndexesSpec(es, now, 0);
    var left := RemoveAt(es, ix[0]);
    var p := ix[1] - 1;
    assert left[p] == es[ix[1]];
    DeleteKeepsBelow(left, ix[1..], p);
    assert DeleteAll(es, ix) == DeleteAll(left, ix[1..]);
    assert DeleteAll(es, ix).entries[p] == es[ix[1]];
  }

  /** The purge removes exactly the bad nodes, in order and without a panic, exactly when there is at most one. */
  lemma PurgeExactIff(es: seq<Entry>, now: int)
    ensures DeleteAll(es, BadIndexes(es, now, 0)) == Purge(GoodOnes(es, now), false) <==> |BadIndexes(es, now, 0)| <= 1
  {
    var ix := BadIndexes(es, now, 0);
    if |ix| == 0 {
      NoBadIndexes(es, now, 0);
    } else if |ix| == 1 {
      OneBadIndex(es, now, 0);
      assert ix[1..] == [];
    } else {
      BadNodeSurvives(es, now);
      GoodOnesSpec(es, now);
    }
  }

  lemma {:induction false} DeleteAllSubset(es: seq<Entry>, indexes: seq<nat>)
    ensures forall e :: e in DeleteAll(es, indexes).entries ==> e in es
  {
    if indexes != [] && indexes[0] < |es| {
      DeleteAllSubset(RemoveAt(es, indexes[0]), indexes[1..]);
    }
  }

  /** Deleting, whatever the indexes, keeps IDs unique and does not grow the bucket. */
  lemma {:induction false} DeleteAllUnique(es: seq<Entry>, indexes: seq<nat>, t: int)
    requires Unique(BucketState(es, t))
    ensures var out := DeleteAll(es, indexes).entries; Unique(BucketState(out, t)) && |out| <= |es|
    decreases |indexes|
  {
    if indexes != [] && indexes[0] < |es| {
      RemoveUnique(es, indexes[0], t);
      DeleteAllUnique(RemoveAt(es, indexes[0]), indexes[1..], t);
    }
  }

  lemma RemoveUnique(es: seq<Entry>, i: nat, t: int)
    requires i < |es| && Unique(BucketState(es, t))
    ensures Unique(BucketState(RemoveAt(es, i), t))
  {
    var r := RemoveAt(es, i);
    assert forall x :: 0 <= x < |r| ==> r[x] == es[if x < i then x else x + 1];
  }

  /** Either purge keeps only entries that were there. */
  lemma CheckSubset(b: BucketState, now: int, variant: Variant)
    ensures forall e :: e in Check(b, now, variant).0.entries ==> e in b.entries
  {
    GoodOnesSpec(b.entries, now);
    DeleteAllSubset(b.entries, BadIndexes(b.entries, now, 0));
  }

  lemma {:induction false} GoodOnesUnique(es: seq<Entry>, now: int, t: int)
    requires Unique(BucketState(es, t))
    ensures Unique(BucketState(GoodOnes(es, now), t)) && |GoodOnes(es, now)| <= |es|
  {
    if es == [] {
    } else {
      GoodOnesUnique(es[1..], now, t);
      GoodOnesSpec(es[1..], now);
      var rest := GoodOnes(es[1..], now);
      forall j | 0 <= j < |rest|
        ensures rest[j].node.id != es[0].node.id
      {
        assert rest[j] in rest;
        var i :| 0 <= i < |es[1..]| && es[1..][i] == rest[j];
        assert es[i + 1] == rest[j];
      }
    }
  }

  // ------------------------------------------------------------ the objects

  class WrappedNode {
    const node: Node
    var lastChanged: int

    constructor (node: Node, now: int)
      ensures this.node == node && lastChanged == now
    {
      this.node, lastChanged := node, now;
    }

    function Value(): Entry
      reads this
    {
      Entry(node, lastChanged)
    }
  }

  function Values(nodes: seq<WrappedNode>): seq<Entry>
    reads nodes
  {
    seq(|nodes|, i requires 0 <= i < |nodes| reads nodes => nodes[i].Value())
  }

  lemma ValuesShift(nodes: seq<WrappedNode>, i: nat)
    requires i < |nodes|
    ensures Values(ShiftDown(nodes, i)) == ShiftDown(Values(nodes), i)
    ensures forall o :: o in ShiftDown(nodes, i) ==> o in nodes
  {
  }

  lemma ValuesRemove(nodes: seq<WrappedNode>, i: nat)
    requires i < |nodes|
    ensures Values(RemoveAt(nodes, i)) == RemoveAt(Values(nodes), i)
    ensures forall o :: o in RemoveAt(nodes, i) ==> o in nodes
  {
  }

  lemma ValuesAppend(nodes: seq<WrappedNode>, w: WrappedNode)
    ensures Values(nodes + [w]) == Values(nodes) + [w.Value()]
  {
  }

  /** An ID determines the node object. */
  ghost predicate IdsDetermine(nodes: seq<WrappedNode>) {
    forall x, y :: x in nodes && y in nodes && x.node.id == y.node.id ==> x == y
  }

  /** The code keeps pointers: after a replacement two slots may hold the same node object. */
  class Bucket {
    var nodes: seq<WrappedNode>
    var lastChanged: int

    constructor ()
      ensures nodes == [] && lastChanged == 0
    {
      nodes, lastChanged := [], 0;
    }

    ghost function View(): BucketState
      reads this, nodes
    {
      BucketState(Values(nodes), lastChanged)
    }

    ghost predicate Valid()
      reads this
    {
      IdsDetermine(nodes)
    }

    method Find(id: Hash) returns (r: Option<nat>)
      ensures r == FindId(Values(nodes), id)
    {
      for i := 0 to |nodes|
        invariant forall x :: 0 <= x < i ==> nodes[x].node.id != id
      {
        if nodes[i].node.id == id {
          assert Values(nodes)[i].node.id == id;
          return Some(i);
        }
      }
      return None;
    }

    method FindBad(now: int) returns (r: Option<nat>)
      ensures r == FirstBad(Values(nodes), now)
    {
      for i := 0 to |nodes|
        invariant forall x :: 0 <= x < i ==> !IsBad(Values(nodes)[x], now)
      {
        if now - nodes[i].lastChanged > BAD_TIMEOUT {
          assert IsBad(Values(nodes)[i], now);
          return Some(i);
        }
      }
      return None;
    }

    /** The two statements of the replacement branch: move the tail down, append. */
    method Replace(i: nat, n: Node, now: int)
      requires Valid() && i < |nodes| && forall o :: o in nodes ==> o.node.id != n.id
      modifies this
      ensures Valid()
      ensures View() == BucketState(ShiftDown(old(View()).entries, i) + [Entry(n, now)], now)
      ensures forall o :: o in nodes ==> o in old(nodes) || (fresh(o) && o.node == n)
    {
      hide ShiftDown;
      var w := new WrappedNode(n, now);
      lastChanged := now;
      ValuesShift(nodes, i);
      nodes := ShiftDown(nodes, i);
      ValuesAppend(nodes, w);
      nodes := nodes + [w];
    }

    method Append(n: Node, now: int)
      requires Valid() && forall o :: o in nodes ==> o.node.id != n.id
      modifies this
      ensures Valid()
      ensures View() == BucketState(old(View()).entries + [Entry(n, now)], now)
      ensures forall o :: o in nodes ==> o in old(nodes) || (fresh(o) && o.node == n)
    {
      var w := new WrappedNode(n, now);
      lastChanged := now;
      ValuesAppend(nodes, w);
      nodes := nodes + [w];
    }

    method AddNode(n: Node, now: int, k: int) returns (status: AddStatus)
      requires Valid()
      modifies this, nodes
      ensures Valid() && (View(), status) == AddTo(old(View()), n, now, k, AsWritten)
      ensures forall o :: o in nodes ==> o in old(nodes) || (fresh(o) && o.node == n)
      ensures forall o :: o in old(nodes) && o.node.id != n.id ==> unchanged(o)
    {
      hide FindId, FirstBad, IsBad, ShiftDown;
      var at := Find(n.id);
      if at.Some? {
        var orig := nodes[at.value];
        if orig.node.addr == n.addr {
          orig.lastChanged := now;
          lastChanged := now;
          assert Values(nodes) == Touch(old(Values(nodes)), n.id, now);
          return NodeExistAndUpdated;
        }
        return NodeExistAndChanged;
      }
      assert forall x :: 0 <= x < |nodes| ==> Values(nodes)[x].node == nodes[x].node;
      if |nodes| < k {
        Append(n, now);
        return NodeAdded;
      }
      var bad := FindBad(now);
      if bad.Some? {
        Replace(bad.value, n, now);
        return NodeAdded;
      }
      return NodeNotAdded;
    }

    /** Collects the indexes of the bad nodes and the dubious nodes to ping. */
    method Collect(now: int) returns (indexes: seq<nat>, pings: seq<Node>)
      ensures indexes == BadIndexes(Values(nodes), now, 0)
      ensures pings == DubiousNodes(Values(nodes), now)
    {
      hide BadIndexes, DubiousNodes;
      indexes, pings := [], [];
      ghost var es := Values(nodes);
      CollectEnds(now, |es|);
      assert es[0..] == es && es[|es|..] == [];
      for i := 0 to |nodes|
        invariant indexes + BadIndexes(es[i..], now, i) == BadIndexes(es, now, 0)
        invariant pings + DubiousNodes(es[i..], now) == DubiousNodes(es, now)
      {
        CollectStep(es, now, i);
        match Status(nodes[i].Value(), now) {
          case Good =>
          case Dubious => pings := pings + [nodes[i].node];
          case Bad => indexes := indexes + [i];
        }
      }
    }

    method CheckAllNodes(now: int) returns (panicked: bool, pings: seq<Node>)
      requires Valid()
      modifies this`nodes
      ensures pings == if Due(old(View()), now) then DubiousNodes(old(View()).entries, now) else []
      ensures Valid() && (View(), panicked) == Check(old(View()), now, AsWritten)
      ensures forall o :: o in nodes ==> o in old(nodes)
    {
      hide RemoveAt, BadIndexes, DubiousNodes;
      if |nodes| == 0 || now - lastChanged < DUBIOUS_TIMEOUT { return false, []; }
      var indexes;
      indexes, pings := Collect(now);
      ghost var es := Values(nodes);
      for i := 0 to |indexes|
        invariant Valid() && forall o :: o in nodes ==> o in old(nodes)
        invariant DeleteAll(es, indexes) == DeleteAll(Values(nodes), indexes[i..])
      {
        var index := indexes[i];
        assert indexes[i..][0] == index && indexes[i..][1..] == indexes[i + 1..];
        if index >= |nodes| { return true, pings; }
        ValuesRemove(nodes, index);
        nodes := RemoveAt(nodes, index);
      }
      return false, pings;
    }
  }
}
