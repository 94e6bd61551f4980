/** The whole routing table: 160 buckets, the operations on them, and what every run keeps. */
module RoutingTable {
  import opened Prelude
  import opened XorMetric
  import opened Closest
  import opened Buckets

  type Table = t: seq<BucketState> | |t| == BUCKETS witness seq(BUCKETS, _ => BucketState([], 0))

  /** `AddNode`; loading a stored node, which skips the check for the owner's own ID; the periodic check. */
  datatype Op = Add(node: Node, now: int) | Load(node: Node, lastChanged: int) | CheckAll(now: int)

  function AddAt(root: Hash, k: int, t: Table, n: Node, now: int, variant: Variant): Table {
    var b := BucketOf(root, n.id);
    t[b := AddTo(t[b], n, now, k, variant).0]
  }

  /** Checks the buckets from `i` on; a panic is recovered by the caller, which skips the rest. */
  function CheckFrom(t: Table, i: nat, now: int, variant: Variant): Table
    requires i <= BUCKETS
    decreases BUCKETS - i
  {
    if i == BUCKETS then t
    else
      var (b, panicked) := Check(t[i], now, variant);
      if panicked then t[i := b] else CheckFrom(t[i := b], i + 1, now, variant)
  }

  function Step(root: Hash, k: int, t: Table, op: Op, variant: Variant): Table {
    match op
    case Add(n, now) => if n.id == root then t else AddAt(root, k, t, n, now, variant)
    case Load(n, at) => AddAt(root, k, t, n, at, variant)
    case CheckAll(now) => CheckFrom(t, 0, now, variant)
  }

  function Run(root: Hash, k: int, t: Table, ops: seq<Op>, variant: Variant): Table
    decreases |ops|
  {
    if ops == [] then t else Run(root, k, Step(root, k, t, ops[0], variant), ops[1..], variant)
  }

  // ------------------------------------------------------------ what holds of the table

  ghost predicate BucketPlaced(root: Hash, b: BucketState, i: nat) {
    forall x :: 0 <= x < |b.entries| ==> BucketOf(root, b.entries[x].node.id) == i
  }

  /** Every node sits in the bucket of its first differing bit. */
  ghost predicate Placed(root: Hash, t: Table) {
    forall i :: 0 <= i < BUCKETS ==> BucketPlaced(root, t[i], i)
  }

  ghost predicate Tidy(k: int, t: Table) {
    forall i :: 0 <= i < BUCKETS ==> Small(t[i], k) && Unique(t[i])
  }

  /** The state an operation may meet but the code does not handle as intended. */
  predicate Hazard(root: Hash, k: int, t: Table, op: Op) {
    match op
    case Add(n, now) => n.id != root && Replaces(t[BucketOf(root, n.id)], n, now, k)
    case Load(n, at) => Replaces(t[BucketOf(root, n.id)], n, at, k)
    case CheckAll(now) => CheckHazard(t, 0, now)
  }

  predicate CheckHazard(t: Table, from: nat, now: int) {
    exists i :: from <= i < BUCKETS && Crowded(t[i], now)
  }

  predicate Crowded(b: BucketState, now: int) {
    Due(b, now) && |BadIndexes(b.entries, now, 0)| >= 2
  }

  lemma CheckFromStep(t: Table, i: nat, now: int)
    requires i < BUCKETS
    ensures var (b, panicked) := Check(t[i], now, AsWritten);
            CheckFrom(t, i, now, AsWritten) ==
              if panicked then t[i := b] else CheckFrom(t[i := b], i + 1, now, AsWritten)
  {
    hide Check;
  }

  lemma CheckFromEnd(t: Table, now: int)
    ensures CheckFrom(t, BUCKETS, now, AsWritten) == t
  {
  }

  // ------------------------------------------------------------ one step

  lemma AddStaysPlaced(root: Hash, k: int, b: BucketState, n: Node, now: int, variant: Variant)
    requires BucketPlaced(root, b, BucketOf(root, n.id))
    ensures BucketPlaced(root, AddTo(b, n, now, k, variant).0, BucketOf(root, n.id))
  {
    hide AddTo, BucketOf;
    AddKeepsIds(b, n, now, k, variant);
  }

  lemma CheckStaysPlaced(root: Hash, b: BucketState, i: nat, now: int, variant: Variant)
    requires BucketPlaced(root, b, i)
    ensures BucketPlaced(root, Check(b, now, variant).0, i)
  {
    hide Check, BucketOf;
    CheckSubset(b, now, variant);
    var out := Check(b, now, variant).0;
    assert forall x :: 0 <= x < |out.entries| ==> out.entries[x] in b.entries;
  }

  lemma {:induction false} CheckFromPlaced(root: Hash, t: Table, i: nat, now: int, variant: Variant)
    requires i <= BUCKETS && Placed(root, t)
    ensures Placed(root, CheckFrom(t, i, now, variant))
    decreases BUCKETS - i
  {
    hide Check, BucketPlaced;
    if i < BUCKETS {
      CheckStaysPlaced(root, t[i], i, now, variant);
      CheckFromPlaced(root, t[i := Check(t[i], now, variant).0], i + 1, now, variant);
    }
  }

  lemma StepPlaced(root: Hash, k: int, t: Table, op: Op, variant: Variant)
    requires Placed(root, t)
    ensures Placed(root, Step(root, k, t, op, variant))
  {
    hide AddTo, BucketPlaced, BucketOf, CheckFrom;
    match op
    case Add(n, now) => AddStaysPlaced(root, k, t[BucketOf(root, n.id)], n, now, variant);
    case Load(n, at) => AddStaysPlaced(root, k, t[BucketOf(root, n.id)], n, at, variant);
    case CheckAll(now) => CheckFromPlaced(root, t, 0, now, variant);
  }

  lemma {:induction false} CheckFromTidy(k: int, t: Table, i: nat, now: int)
    requires i <= BUCKETS && Tidy(k, t)
    ensures Tidy(k, CheckFrom(t, i, now, Intended))
    decreases BUCKETS - i
  {
    hide Unique;
    if i < BUCKETS {
      assert t[i] == BucketState(t[i].entries, t[i].lastChanged);
      GoodOnesUnique(t[i].entries, now, t[i].lastChanged);
      CheckFromTidy(k, t[i := Check(t[i], now, Intended).0], i + 1, now);
    }
  }

  /** A purge never spoils a table, not even one that misses or panics. */
  lemma {:induction false} CheckFromWrittenTidy(k: int, t: Table, i: nat, now: int)
    requires i <= BUCKETS && Tidy(k, t)
    ensures Tidy(k, CheckFrom(t, i, now, AsWritten))
    decreases BUCKETS - i
  {
    hide Unique;
    if i < BUCKETS {
      assert t[i] == BucketState(t[i].entries, t[i].lastChanged);
      DeleteAllUnique(t[i].entries, BadIndexes(t[i].entries, now, 0), t[i].lastChanged);
      var (b, panicked) := Check(t[i], now, AsWritten);
      if !panicked { CheckFromWrittenTidy(k, t[i := b], i + 1, now); }
    }
  }

  /** The operations that take the replacement branch. */
  predicate Replacing(root: Hash, k: int, t: Table, op: Op) {
    match op
    case Add(n, now) => n.id != root && Replaces(t[BucketOf(root, n.id)], n, now, k)
    case Load(n, at) => Replaces(t[BucketOf(root, n.id)], n, at, k)
    case CheckAll(_) => false
  }

  lemma AddTidyIff(root: Hash, k: int, t: Table, n: Node, now: int)
    requires Tidy(k, t)
    ensures Tidy(k, AddAt(root, k, t, n, now, AsWritten)) <==> !Replaces(t[BucketOf(root, n.id)], n, now, k)
  {
    hide AddTo, BucketOf, Replaces, Unique, Small;
    var b := BucketOf(root, n.id);
    AddWrittenSmallIff(t[b], n, now, k);
    AddKeepsUnique(t[b], n, now, k);
    assert AddAt(root, k, t, n, now, AsWritten)[b] == AddTo(t[b], n, now, k, AsWritten).0;
  }

  /** The code keeps a tidy table tidy exactly unless it replaces a bad node. */
  lemma StepTidyIff(root: Hash, k: int, t: Table, op: Op)
    requires Tidy(k, t)
    ensures Tidy(k, Step(root, k, t, op, AsWritten)) <==> !Replacing(root, k, t, op)
  {
    hide Tidy, AddAt, BucketOf, CheckFrom, Replaces;
    match op
    case Add(n, now) => AddTidyIff(root, k, t, n, now);
    case Load(n, at) => AddTidyIff(root, k, t, n, at);
    case CheckAll(now) => CheckFromWrittenTidy(k, t, 0, now);
  }

  lemma StepTidy(root: Hash, k: int, t: Table, op: Op)
    requires Tidy(k, t)
    ensures Tidy(k, Step(root, k, t, op, Intended))
  {
    hide AddTo, Unique, Small, BucketOf, CheckFrom;
    match op
    case Add(n, now) =>
      AddKeepsSmall(t[BucketOf(root, n.id)], n, now, k);
      AddKeepsUnique(t[BucketOf(root, n.id)], n, now, k);
    case Load(n, at) =>
      AddKeepsSmall(t[BucketOf(root, n.id)], n, at, k);
      AddKeepsUnique(t[BucketOf(root, n.id)], n, at, k);
    case CheckAll(now) =>
      CheckFromTidy(k, t, 0, now);
  }

  // ------------------------------------------------------------ where code and intent part

  lemma {:induction false} CheckFromKeepsBelow(t: Table, i: nat, now: int, variant: Variant, j: nat)
    requires j < i <= BUCKETS
    ensures CheckFrom(t, i, now, variant)[j] == t[j]
    decreases BUCKETS - i
  {
    hide Check;
    if i < BUCKETS {
      var r := Check(t[i], now, variant);
      if !r.1 { CheckFromKeepsBelow(t[i := r.0], i + 1, now, variant, j); }
    }
  }

  /** A crowded bucket comes out different from what was intended. */
  lemma CrowdedDiffers(b: BucketState, now: int)
    ensures Crowded(b, now) ==> Check(b, now, AsWritten).0.entries != GoodOnes(b.entries, now)
    ensures Crowded(b, now) ==> Check(b, now, Intended) == (b.(entries := GoodOnes(b.entries, now)), false)
    ensures !Crowded(b, now) ==> Check(b, now, AsWritten) == Check(b, now, Intended) && !Check(b, now, Intended).1
  {
    hide BadIndexes, GoodOnes;
    if Crowded(b, now) {
      BadNodeSurvives(b.entries, now);
      GoodOnesSpec(b.entries, now);
    } else if Due(b, now) {
      PurgeExactIff(b.entries, now);
    }
  }

  /** The check does what it says exactly when no bucket due for it holds two bad nodes. */
  lemma {:induction false} CheckFromIff(t: Table, i: nat, now: int)
    requires i <= BUCKETS
    ensures CheckFrom(t, i, now, AsWritten) == CheckFrom(t, i, now, Intended) <==> !CheckHazard(t, i, now)
    decreases BUCKETS - i
  {
    hide Check, Crowded, GoodOnes;
    if i < BUCKETS {
      CrowdedDiffers(t[i], now);
      var w, n := Check(t[i], now, AsWritten), Check(t[i], now, Intended);
      if Crowded(t[i], now) {
        CheckFromKeepsBelow(t[i := n.0], i + 1, now, Intended, i);
        CheckFromKeepsBelow(t[i := w.0], i + 1, now, AsWritten, i);
        assert CheckFrom(t, i, now, AsWritten)[i] == w.0;
        assert CheckFrom(t, i, now, Intended)[i] == n.0;
        assert w.0 != n.0;
      } else {
        CheckFromIff(t[i := w.0], i + 1, now);
        assert forall j :: i < j < BUCKETS ==> t[i := w.0][j] == t[j];
      }
    }
  }

  /** In a tidy table the code departs from its intent exactly on the hazards. */
  lemma StepAgreesIff(root: Hash, k: int, t: Table, op: Op)
    requires Tidy(k, t)
    ensures Step(root, k, t, op, AsWritten) == Step(root, k, t, op, Intended) <==> !Hazard(root, k, t, op)
  {
    hide AddTo, BucketOf, CheckFrom, Replaces, Unique;
    match op
    case CheckAll(now) =>
      CheckFromIff(t, 0, now);
    case Add(n, now) =>
      var b := BucketOf(root, n.id);
      AddWrittenSmallIff(t[b], n, now, k);
      AddKeepsSmall(t[b], n, now, k);
      assert AddAt(root, k, t, n, now, AsWritten)[b] == AddTo(t[b], n, now, k, AsWritten).0;
      assert AddAt(root, k, t, n, now, Intended)[b] == AddTo(t[b], n, now, k, Intended).0;
    case Load(n, at) =>
      var b := BucketOf(root, n.id);
      AddWrittenSmallIff(t[b], n, at, k);
      AddKeepsSmall(t[b], n, at, k);
      assert AddAt(root, k, t, n, at, AsWritten)[b] == AddTo(t[b], n, at, k, AsWritten).0;
      assert AddAt(root, k, t, n, at, Intended)[b] == AddTo(t[b], n, at, k, Intended).0;
  }

  /** Adding leaves every bucket but the ID's own alone; the owner's own ID changes nothing at all. */
  lemma AddTouchesOne(root: Hash, k: int, t: Table, n: Node, now: int, variant: Variant, j: nat)
    requires j < BUCKETS
    ensures var s := Step(root, k, t, Add(n, now), variant);
            && (n.id == root ==> s == t)
            && (n.id != root && j != BucketOf(root, n.id) ==> s[j] == t[j])
            && (n.id != root && j == BucketOf(root, n.id) ==> s[j] == AddTo(t[j], n, now, k, variant).0)
  {
    hide BucketOf, AddTo;
  }

  /** The check goes through the buckets in order, up to and including the first one that panics, and no further. */
  lemma {:induction false} CheckFromReaches(t: Table, i: nat, now: int, variant: Variant, j: nat)
    requires i <= BUCKETS && j < BUCKETS
    ensures CheckFrom(t, i, now, variant)[j] ==
      if i <= j && (forall m :: i <= m < j ==> !Check(t[m], now, variant).1) then Check(t[j], now, variant).0 else t[j]
    decreases BUCKETS - i
  {
    hide Check;
    if i < BUCKETS {
      var (b, panicked) := Check(t[i], now, variant);
      var s := t[i := b];
      if panicked {
        assert i < j ==> Check(t[i], now, variant).1;
      } else {
        CheckFromReaches(s, i + 1, now, variant, j);
        assert forall m :: i < m < BUCKETS ==> s[m] == t[m];
        assert (forall m :: i <= m < j ==> !Check(t[m], now, variant).1) <==>
               (forall m :: i + 1 <= m < j ==> !Check(s[m], now, variant).1);
      }
    }
  }

  lemma {:induction false} Flattened<T>(ss: seq<seq<T>>, i: nat, x: T)
    requires i < |ss| && x in ss[i]
    ensures x in Flatten(ss)
  {
    if i == |ss| - 1 {
    } else {
      Flattened(ss[..|ss| - 1], i, x);
    }
  }

  /** A node that was added is found: it is the nearest to its own ID that the table knows. */
  lemma AddedIsFound(root: Hash, k: int, t: Table, n: Node, now: int, variant: Variant)
    requires n.id != root && AddTo(t[BucketOf(root, n.id)], n, now, k, variant).1 == NodeAdded
    ensures var r := Take(Sorted(n.id, Flatten(NodeLists(Step(root, k, t, Add(n, now), variant)))), 1);
            |r| == 1 && r[0].id == n.id
  {
    hide BucketOf, AddTo, Sorted, Flatten, Take;
    var b := BucketOf(root, n.id);
    var s := Step(root, k, t, Add(n, now), variant);
    AddedIff(t[b], n, now, k, variant);
    AddTouchesOne(root, k, t, n, now, variant, b);
    var es := s[b].entries;
    assert NodeLists(s)[b] == NodeList(es) && NodeList(es)[|es| - 1] == n;
    Flattened(NodeLists(s), b, n);
    NearestIsItself(n, Flatten(NodeLists(s)));
  }

  lemma NearestIsItself(n: Node, all: seq<Node>)
    requires n in all
    ensures var r := Take(Sorted(n.id, all), 1); |r| == 1 && r[0].id == n.id
  {
    hide Sorted, Dist;
    var others := ClosestAreNearest(n.id, all, 1);
    var r := Take(Sorted(n.id, all), 1);
    assert n in multiset(all);
    assert n in multiset(r) || n in multiset(others);
    SameDistance(n.id, n, r[0]);
    SelfDistance(n);
  }

  lemma SelfDistance(n: Node)
    ensures Dist(n.id, n) == 0
  {
    ZeroDistance(n.id);
  }

  // ------------------------------------------------------------ every run

  const EMPTY: Table := seq(BUCKETS, _ => BucketState([], 0))

  lemma {:induction false} RunPlaced(root: Hash, k: int, t: Table, ops: seq<Op>, variant: Variant)
    requires Placed(root, t)
    ensures Placed(root, Run(root, k, t, ops, variant))
    decreases |ops|
  {
    hide Step, Placed;
    if ops == [] {
    } else {
      StepPlaced(root, k, t, ops[0], variant);
      RunPlaced(root, k, Step(root, k, t, ops[0], variant), ops[1..], variant);
    }
  }

  lemma {:induction false} RunTidy(root: Hash, k: int, t: Table, ops: seq<Op>)
    requires Tidy(k, t)
    ensures Tidy(k, Run(root, k, t, ops, Intended))
    decreases |ops|
  {
    hide Step, Tidy;
    if ops == [] {
    } else {
      StepTidy(root, k, t, ops[0]);
      RunTidy(root, k, Step(root, k, t, ops[0], Intended), ops[1..]);
    }
  }

  /** No operation of the run, as the code performs it, meets a hazard. */
  predicate Calm(root: Hash, k: int, t: Table, ops: seq<Op>)
    decreases |ops|
  {
    ops == [] || (!Hazard(root, k, t, ops[0]) && Calm(root, k, Step(root, k, t, ops[0], AsWritten), ops[1..]))
  }

  lemma {:induction false} CalmRunsAgree(root: Hash, k: int, t: Table, ops: seq<Op>)
    requires Tidy(k, t) && Calm(root, k, t, ops)
    ensures Run(root, k, t, ops, AsWritten) == Run(root, k, t, ops, Intended)
    decreases |ops|
  {
    hide Step, Tidy, Hazard;
    if ops == [] {
    } else {
      StepAgreesIff(root, k, t, ops[0]);
      StepTidy(root, k, t, ops[0]);
      CalmRunsAgree(root, k, Step(root, k, t, ops[0], AsWritten), ops[1..]);
    }
  }

  /** Every table along the code's run is tidy. */
  ghost predicate TidyAlong(root: Hash, k: int, t: Table, ops: seq<Op>)
    decreases |ops|
  {
    Tidy(k, t) && (ops == [] || TidyAlong(root, k, Step(root, k, t, ops[0], AsWritten), ops[1..]))
  }

  /** No operation of the code's run takes the replacement branch. */
  predicate NeverReplaces(root: Hash, k: int, t: Table, ops: seq<Op>)
    decreases |ops|
  {
    ops == [] ||
    (!Replacing(root, k, t, ops[0]) && NeverReplaces(root, k, Step(root, k, t, ops[0], AsWritten), ops[1..]))
  }

  /**
   From a tidy table, the code keeps capacity and unique IDs along a whole run exactly if it never
   replaces a node.
   */
  lemma {:induction false} RunTidyIff(root: Hash, k: int, t: Table, ops: seq<Op>)
    requires Tidy(k, t)
    ensures TidyAlong(root, k, t, ops) <==> NeverReplaces(root, k, t, ops)
    decreases |ops|
  {
    hide Step, Tidy, Replacing;
    if ops == [] {
    } else {
      var n := Step(root, k, t, ops[0], AsWritten);
      StepTidyIff(root, k, t, ops[0]);
      if Tidy(k, n) {
        RunTidyIff(root, k, n, ops[1..]);
      } else {
        assert !TidyAlong(root, k, n, ops[1..]);
      }
    }
  }

  /**
   From the empty table: placement holds after every run of the code; capacity and unique IDs
   hold after every run of the intended operations, and of the code when the run is calm.
   */
  lemma RunInvariant(root: Hash, k: int, ops: seq<Op>, variant: Variant)
    ensures Placed(root, Run(root, k, EMPTY, ops, variant))
    ensures variant.Intended? || Calm(root, k, EMPTY, ops) ==> Tidy(k, Run(root, k, EMPTY, ops, variant))
  {
    RunPlaced(root, k, EMPTY, ops, variant);
    RunTidy(root, k, EMPTY, ops);
    if Calm(root, k, EMPTY, ops) { CalmRunsAgree(root, k, EMPTY, ops); }
  }

  /** Placement turns uniqueness inside buckets into uniqueness across the table. */
  lemma UniqueAcross(root: Hash, k: int, t: Table, i: nat, x: nat, j: nat, y: nat)
    requires Placed(root, t) && Tidy(k, t)
    requires i < BUCKETS && j < BUCKETS && x < |t[i].entries| && y < |t[j].entries|
    requires t[i].entries[x].node.id == t[j].entries[y].node.id
    ensures i == j && x == y
  {
    assert BucketPlaced(root, t[i], i) && BucketPlaced(root, t[j], j);
    assert Unique(t[i]);
  }

  /** Two stale nodes and a third arriving in a bucket of two: the survivor is stored twice. */
  lemma ReplacementBreaks(a: Node, b: Node, c: Node)
    requires a.id != b.id && b.id != c.id && a.id != c.id
    ensures var late := BAD_TIMEOUT + 1;
            var full := BucketState([Entry(a, 0), Entry(b, late)], late);
            AddTo(full, c, late, 2, AsWritten).0.entries == [Entry(b, late), Entry(b, late), Entry(c, late)]
  {
    var late := BAD_TIMEOUT + 1;
    var es := [Entry(a, 0), Entry(b, late)];
    assert FindId(es, c.id).None?;
    assert FirstBad(es, late) == Some(0);
    assert ShiftDown(es, 0) == [Entry(b, late), Entry(b, late)];
  }

  /** Two bad nodes side by side at the end: one goes, then the purge panics and the other stays. */
  lemma PurgeBreaks(a: Node, b: Node, now: int)
    requires now > BAD_TIMEOUT
    ensures Check(BucketState([Entry(a, 0), Entry(b, 0)], 0), now, AsWritten) == (BucketState([Entry(b, 0)], 0), true)
  {
    var es := [Entry(a, 0), Entry(b, 0)];
    assert es[1..] == [Entry(b, 0)] && [Entry(b, 0)][1..] == [];
    assert BadIndexes([Entry(b, 0)], now, 1) == [1] + BadIndexes([], now, 2);
    assert BadIndexes(es, now, 0) == [0] + BadIndexes(es[1..], now, 1) == [0, 1];
    assert RemoveAt(es, 0) == [Entry(b, 0)];
    assert [0, 1][1..] == [1];
    assert DeleteAll([Entry(b, 0)], [1]) == Purge([Entry(b, 0)], true);
  }

  // ------------------------------------------------------------ the object

  class BucketTable {
    const k: int
    const root: Hash
    const bkts: seq<Bucket>

    /** `newRoutingTable`, before the stored nodes are loaded. */
    constructor (root: Hash, k: int)
      ensures Valid() && this.root == root && this.k == k && View() == EMPTY
    {
      var all: seq<Bucket> := [];
      for i := 0 to BUCKETS
        invariant |all| == i && forall x :: 0 <= x < i ==> all[x].nodes == [] && all[x].lastChanged == 0
        invariant forall x, y :: 0 <= x < y < i ==> all[x] != all[y]
      {
        var b := new Bucket();
        all := all + [b];
      }
      this.root, this.k, bkts := root, k, all;
      new;
      assert forall i :: 0 <= i < BUCKETS ==> View()[i] == BucketState([], 0);
    }

    /** Buckets are separate objects, and placement keeps their node objects apart. */
    ghost predicate Valid()
      reads this, bkts
    {
      && |bkts| == BUCKETS
      && (forall i, j :: 0 <= i < j < BUCKETS ==> bkts[i] != bkts[j])
      && (forall i :: 0 <= i < BUCKETS ==> bkts[i].Valid() && Holds(i, bkts[i].nodes))
    }

    ghost predicate Holds(i: nat, nodes: seq<WrappedNode>) {
      forall o :: o in nodes ==> BucketOf(root, o.node.id) == i
    }

    /** The node objects of the table. */
    ghost function Nodes(): set<WrappedNode>
      reads bkts
    {
      set b, o | b in bkts && o in b.nodes :: o
    }

    ghost function View(): Table
      requires |bkts| == BUCKETS
      reads bkts, Nodes()
    {
      seq(BUCKETS, i requires 0 <= i < BUCKETS reads bkts, Nodes() =>
        assert bkts[i] in bkts && forall o :: o in bkts[i].nodes ==> o in Nodes(); bkts[i].View())
    }

    method Insert(n: Node, now: int) returns (status: AddStatus)
      requires Valid()
      modifies bkts[BucketOf(root, n.id)], bkts[BucketOf(root, n.id)].nodes
      ensures Valid()
      ensures status == AddTo(old(View())[BucketOf(root, n.id)], n, now, k, AsWritten).1
      ensures View() == AddAt(root, k, old(View()), n, now, AsWritten)
    {
      hide BucketOf, AddTo;
      var bktid := BucketId(root, n.id);
      var bkt := bkts[bktid];
      status := bkt.AddNode(n, now, k);
      forall i | 0 <= i < BUCKETS && i != bktid
        ensures bkts[i].nodes == old(bkts[i].nodes) && bkts[i].View() == old(bkts[i].View())
      {
        assert forall o :: o in bkts[i].nodes ==> o !in old(bkt.nodes);
      }
      assert forall i :: 0 <= i < BUCKETS ==> old(View())[i] == old(bkts[i].View());
    }

    method AddNode(n: Node, now: int) returns (status: AddStatus)
      requires Valid()
      modifies bkts[BucketOf(root, n.id)], bkts[BucketOf(root, n.id)].nodes
      ensures Valid()
      ensures n.id == root ==> status == NodeNotAdded
      ensures n.id != root ==> status == AddTo(old(View())[BucketOf(root, n.id)], n, now, k, AsWritten).1
      ensures View() == Step(root, k, old(View()), Add(n, now), AsWritten)
    {
      if n.id == root { return NodeNotAdded; }
      status := Insert(n, now);
    }

    /** `checkAllBuckets`: a panic in one bucket ends the round. */
    method CheckAllBuckets(now: int)
      requires Valid()
      modifies bkts
      ensures Valid()
      ensures View() == Step(root, k, old(View()), CheckAll(now), AsWritten)
    {
      hide Check, BucketOf, CheckFrom;
      ghost var start := View();
      for i := 0 to BUCKETS
        invariant Valid()
        invariant CheckFrom(start, 0, now, AsWritten) == CheckFrom(View(), i, now, AsWritten)
      {
        ghost var before := View();
        CheckFromStep(before, i, now);
        var panicked, _ := bkts[i].CheckAllNodes(now);
        assert View() == before[i := bkts[i].View()];
        if panicked { return; }
      }
      CheckFromEnd(View(), now);
    }

    method Closest(target: Hash, maxnum: int) returns (nodes: seq<Node>)
      requires Valid()
      ensures nodes == Take(Sorted(target, Flatten(NodeLists(View()))), maxnum)
    {
      hide Take, Sorted, Flatten;
      var lists: seq<seq<Node>> := [];
      for i := 0 to BUCKETS
        invariant |lists| == i
        invariant forall x :: 0 <= x < i ==> lists[x] == NodeLists(View())[x]
      {
        var list := [];
        for x := 0 to |bkts[i].nodes|
          invariant |list| == x && forall y :: 0 <= y < x ==> list[y] == bkts[i].nodes[y].node
        {
          list := list + [bkts[i].nodes[x].node];
        }
        assert list == NodeList(bkts[i].View().entries);
        lists := lists + [list];
      }
      ghost var t := View();
      assert lists == NodeLists(t);
      nodes := ClosestOf(lists, target, maxnum);
      assert View() == t;
    }
  }

  function NodeList(es: seq<Entry>): seq<Node> {
    seq(|es|, i requires 0 <= i < |es| => es[i].node)
  }

  function NodeLists(t: Table): seq<seq<Node>> {
    seq(BUCKETS, i requires 0 <= i < BUCKETS => NodeList(t[i].entries))
  }
}
