/**
 Where a torrent stands after any run of the queue manager: queued, active, or neither. Nothing here
 needs the listing invariant unless it says so, so the laws cover managers that a re-addition has broken.
 */
module QueueLaws {
  import opened Prelude
  import opened Queues

  // ------------------------------------------------------------ a pass over any queue

  /** How many IDs leave the list, one after the other, before one has no item left and stays at the front. */
  ghost function Clear(keys: set<int>, order: seq<int>): (n: nat)
    ensures n <= |order|
    decreases |order|
  {
    if order == [] || order[0] !in keys then 0 else 1 + Clear(keys - {order[0]}, order[1..])
  }

  ghost function Free(active: set<int>, enabled: bool, limit: int): nat {
    if enabled && limit > 0 then Max(limit - |active|, 0) else 0
  }

  /** The IDs at the front that a pass with `free` slots activates, and those that it takes off the queue. */
  ghost function Woken(q: Queue, free: nat): seq<int> {
    q.order[..Min(free, Min(Clear(q.items.Keys, q.order) + 1, |q.order|))]
  }

  ghost function Drained(q: Queue, free: nat): seq<int> {
    q.order[..Min(free, Clear(q.items.Keys, q.order))]
  }

  /** An ID without an item at the front takes every slot that is left. */
  lemma {:induction false} Blocked(q: Queue, active: set<int>, count: int, limit: int)
    requires q.order != [] && q.order[0] !in q.items
    ensures var p := Process(q, active, count, limit);
            p.queue == q && p.active == active + (if count < limit then {q.order[0]} else {})
    decreases limit - count
  {
    if count < limit {
      Blocked(q, active + {q.order[0]}, count + 1, limit);
    }
  }

  /** Removing an ID that has an item takes out the first place where it is listed. */
  lemma FrontTaken(q: Queue)
    requires q.order != [] && q.order[0] in q.items
    ensures var r := Remove(q, q.order[0]);
            r.order == q.order[1..] && r.items.Keys == q.items.Keys - {q.order[0]}
  {
    assert IndexOf(q.order, q.order[0]) == Some(0);
    assert RemoveAt(q.order, 0) == q.order[1..];
  }

  ghost predicate PassIs(q: Queue, active: set<int>, free: nat, p: Pass) {
    && p.active == active + Elements(Woken(q, free))
    && p.queue.items.Keys == q.items.Keys - Elements(Drained(q, free))
    && p.queue.order == q.order[|Drained(q, free)|..]
  }

  lemma NothingTaken(q: Queue, active: set<int>, count: int)
    ensures PassIs(q, active, 0, Pass(q, active, count))
  {
    NoElements<int>();
  }

  lemma OneTaken(q: Queue, active: set<int>, free: nat, p: Pass)
    requires q.order != [] && q.order[0] in q.items && free > 0
    requires PassIs(Remove(q, q.order[0]), active + {q.order[0]}, free - 1, p)
    ensures PassIs(q, active, free, p)
  {
    hide Remove, Elements;
    FrontTaken(q);
    var id, r := q.order[0], Remove(q, q.order[0]);
    var n, m := |Woken(r, free - 1)|, |Drained(r, free - 1)|;
    assert |Woken(q, free)| == n + 1 && |Drained(q, free)| == m + 1;
    FrontElements(q.order, n + 1);
    FrontElements(q.order, m + 1);
    OneThenRest(active, id, Elements(q.order[1..][..n]));
    OneThenRest(q.items.Keys, id, Elements(q.order[1..][..m]));
  }

  /** A pass over any queue whatever. */
  lemma {:induction false} ProcessAny(q: Queue, active: set<int>, count: int, limit: int)
    ensures PassIs(q, active, Max(limit - count, 0), Process(q, active, count, limit))
    decreases limit - count
  {
    hide PassIs, Remove;
    if count >= limit || q.order == [] {
      NothingTaken(q, active, count);
      EmptyPass(q, active, Max(limit - count, 0), count);
    } else if q.order[0] !in q.items {
      Blocked(q, active, count, limit);
      BlockedPass(q, active, limit - count, Process(q, active, count, limit));
    } else {
      ProcessAny(Remove(q, q.order[0]), active + {q.order[0]}, count + 1, limit);
      OneTaken(q, active, limit - count, Process(q, active, count, limit));
    }
  }

  lemma EmptyPass(q: Queue, active: set<int>, free: nat, count: int)
    requires free == 0 || q.order == []
    ensures PassIs(q, active, free, Pass(q, active, count))
  {
    NoElements<int>();
  }

  lemma BlockedPass(q: Queue, active: set<int>, free: nat, p: Pass)
    requires q.order != [] && q.order[0] !in q.items && free > 0
    requires p.queue == q && p.active == active + {q.order[0]}
    ensures PassIs(q, active, free, p)
  {
    NoElements<int>();
    assert Woken(q, free) == [q.order[0]];
    assert Elements([q.order[0]]) == {q.order[0]};
  }

  lemma {:induction false} NothingBlocks(order: seq<int>)
    requires NoDuplicates(order)
    ensures Clear(Elements(order), order) == |order|
  {
    hide Elements;
    if order == [] {
    } else {
      var rest := order[1..];
      assert order == [] + [order[0]] + rest && [] + rest == rest;
      ElementsInsert([], order[0], rest);
      NotRepeated(order);
      assert Elements(order) - {order[0]} == Elements(rest);
      NothingBlocks(rest);
    }
  }

  lemma NotRepeated(order: seq<int>)
    requires NoDuplicates(order) && order != []
    ensures order[0] !in Elements(order[1..]) && NoDuplicates(order[1..])
  {
  }

  /** In a well-formed queue nothing blocks: every free slot is filled from the front. */
  lemma ListingWakes(q: Queue, free: nat)
    requires Listing(q)
    ensures Woken(q, free) == Drained(q, free) == q.order[..Min(free, |q.order|)]
  {
    hide Clear, Elements;
    NothingBlocks(q.order);
  }

  // ------------------------------------------------------------ one operation, one torrent

  /** The active torrents of one kind, and the queue of that kind. */
  function Active(s: State, seeding: bool): set<int> {
    if seeding then s.activeSeeds else s.activeDownloads
  }

  function QueueOf(s: State, seeding: bool): Queue {
    if seeding then s.seed else s.download
  }

  predicate QueuedAs(s: State, id: int, seeding: bool) {
    id in QueueOf(s, seeding).items
  }

  predicate ActiveAs(s: State, id: int, seeding: bool) {
    id in Active(s, seeding)
  }

  predicate Enabled(cfg: Config, seeding: bool) {
    if seeding then cfg.seedsEnabled else cfg.downloadsEnabled
  }

  function Limit(cfg: Config, seeding: bool): int {
    if seeding then cfg.maxSeeds else cfg.maxDownloads
  }

  /** How many of a kind the next pass may activate. */
  ghost function Slots(cfg: Config, s: State, seeding: bool): nat {
    Free(Active(s, seeding), Enabled(cfg, seeding), Limit(cfg, seeding))
  }

  ghost predicate Wakes(cfg: Config, s: State, op: Op, id: int, seeding: bool) {
    match op
    case ForceActivate(x, kind) => x == id && kind == seeding
    case ProcessQueues => id in Woken(QueueOf(s, seeding), Slots(cfg, s, seeding))
    case _ => false
  }

  predicate Sleeps(op: Op, id: int) {
    op == RemoveFromQueue(id)
  }

  predicate Enters(cfg: Config, op: Op, id: int, seeding: bool) {
    op.AddToQueue? && op.id == id && op.seeding == seeding && Enabled(cfg, seeding)
  }

  ghost predicate Leaves(cfg: Config, s: State, op: Op, id: int, seeding: bool) {
    match op
    case AddToQueue(x, kind, _, _) => x == id && kind != seeding && Enabled(cfg, kind)
    case RemoveFromQueue(x) => x == id
    case SetQueuePosition(_, _) => false
    case ForceActivate(x, _) => x == id
    case ProcessQueues => id in Drained(QueueOf(s, seeding), Slots(cfg, s, seeding))
  }

  /** What a pass does to the queue and the active set of one kind. */
  lemma PassStep(cfg: Config, s: State, seeding: bool)
    ensures var t := Step(cfg, s, ProcessQueues);
            var q, free := QueueOf(s, seeding), Slots(cfg, s, seeding);
            && Active(t, seeding) == Active(s, seeding) + Elements(Woken(q, free))
            && QueueOf(t, seeding).items.Keys == q.items.Keys - Elements(Drained(q, free))
            && QueueOf(t, seeding).order == q.order[|Drained(q, free)|..]
  {
    hide Process, Clear, Elements, Woken, Drained;
    var q, active := QueueOf(s, seeding), Active(s, seeding);
    if Enabled(cfg, seeding) && Limit(cfg, seeding) > 0 {
      ProcessAny(q, active, |active|, Limit(cfg, seeding));
    } else {
      NothingTaken(q, active, 0);
    }
  }

  /** An ID is active after an operation exactly if the operation activated it, or it was and is not removed. */
  lemma ActiveStep(cfg: Config, s: State, op: Op, id: int, seeding: bool)
    ensures ActiveAs(Step(cfg, s, op), id, seeding) <==>
            Wakes(cfg, s, op, id, seeding) || (ActiveAs(s, id, seeding) && !Sleeps(op, id))
  {
    hide Process, Remove, Add, Move, Woken, Drained;
    if op.ProcessQueues? { PassStep(cfg, s, seeding); }
  }

  lemma RemoveKeys(q: Queue, id: int)
    ensures Remove(q, id).items.Keys == q.items.Keys - {id}
  {
  }

  /** An ID is queued after an operation exactly if the operation queued it, or it was and does not leave. */
  lemma QueuedStep(cfg: Config, s: State, op: Op, id: int, seeding: bool)
    ensures QueuedAs(Step(cfg, s, op), id, seeding) <==>
            Enters(cfg, op, id, seeding) || (QueuedAs(s, id, seeding) && !Leaves(cfg, s, op, id, seeding))
  {
    hide Process, Remove, Woken, Drained, Number;
    match op
    case AddToQueue(x, _, _, _) => RemoveKeys(QueueOf(s, seeding), x);
    case RemoveFromQueue(x) => RemoveKeys(QueueOf(s, seeding), x);
    case SetQueuePosition(x, pos) =>
    case ForceActivate(x, _) => RemoveKeys(QueueOf(s, seeding), x);
    case ProcessQueues => PassStep(cfg, s, seeding);
  }

  // ------------------------------------------------------------ runs

  ghost predicate WakesAt(cfg: Config, s: State, ops: seq<Op>, k: nat, id: int, seeding: bool) {
    k < |ops| && Wakes(cfg, Run(cfg, s, ops[..k]), ops[k], id, seeding)
  }

  ghost predicate SleepsAt(ops: seq<Op>, k: nat, id: int) {
    k < |ops| && Sleeps(ops[k], id)
  }

  ghost predicate EntersAt(cfg: Config, ops: seq<Op>, k: nat, id: int, seeding: bool) {
    k < |ops| && Enters(cfg, ops[k], id, seeding)
  }

  ghost predicate LeavesAt(cfg: Config, s: State, ops: seq<Op>, k: nat, id: int, seeding: bool) {
    k < |ops| && Leaves(cfg, Run(cfg, s, ops[..k]), ops[k], id, seeding)
  }

  /** From operation `from` on nothing removes the ID. */
  ghost predicate Undisturbed(ops: seq<Op>, from: nat, id: int) {
    forall j :: from <= j < |ops| ==> !SleepsAt(ops, j, id)
  }

  /** From operation `from` on nothing takes the ID off the queue. */
  ghost predicate Waiting(cfg: Config, s: State, ops: seq<Op>, from: nat, id: int, seeding: bool) {
    forall j :: from <= j < |ops| ==> !LeavesAt(cfg, s, ops, j, id, seeding)
  }

  lemma {:induction false} RunLast(cfg: Config, s: State, ops: seq<Op>)
    requires ops != []
    ensures Run(cfg, s, ops) == Step(cfg, Run(cfg, s, ops[..|ops| - 1]), ops[|ops| - 1])
    decreases |ops|
  {
    hide Step;
    var front := ops[..|ops| - 1];
    if |ops| == 1 {
      assert ops[1..] == [] && front == [];
    } else {
      RunLast(cfg, Step(cfg, s, ops[0]), ops[1..]);
      assert front[1..] == ops[1..][..|ops[1..]| - 1];
    }
  }

  /** Some operation activates the ID as that, and no later one removes it. */
  ghost predicate LastWoken(cfg: Config, s: State, ops: seq<Op>, id: int, seeding: bool) {
    exists k: nat :: WakesAt(cfg, s, ops, k, id, seeding) && Undisturbed(ops, k + 1, id)
  }

  /** Some operation queues the ID there, and no later one takes it off. */
  ghost predicate LastEntered(cfg: Config, s: State, ops: seq<Op>, id: int, seeding: bool) {
    exists k: nat :: EntersAt(cfg, ops, k, id, seeding) && Waiting(cfg, s, ops, k + 1, id, seeding)
  }

  lemma FrontAt(cfg: Config, s: State, ops: seq<Op>, k: nat, id: int, seeding: bool)
    requires k + 1 < |ops|
    ensures var front := ops[..|ops| - 1];
            && (WakesAt(cfg, s, front, k, id, seeding) <==> WakesAt(cfg, s, ops, k, id, seeding))
            && (LeavesAt(cfg, s, front, k, id, seeding) <==> LeavesAt(cfg, s, ops, k, id, seeding))
            && (SleepsAt(front, k, id) <==> SleepsAt(ops, k, id))
            && (EntersAt(cfg, front, k, id, seeding) <==> EntersAt(cfg, ops, k, id, seeding))
  {
    hide Wakes, Leaves, Sleeps, Enters;
    assert ops[..|ops| - 1][..k] == ops[..k];
  }

  lemma UndisturbedLast(ops: seq<Op>, from: nat, id: int)
    requires from < |ops|
    ensures Undisturbed(ops, from, id) <==>
            Undisturbed(ops[..|ops| - 1], from, id) && !SleepsAt(ops, |ops| - 1, id)
  {
    hide Sleeps;
    var front := ops[..|ops| - 1];
    forall j: nat | j < |front|
      ensures SleepsAt(front, j, id) <==> SleepsAt(ops, j, id)
    {
    }
  }

  lemma WaitingLast(cfg: Config, s: State, ops: seq<Op>, from: nat, id: int, seeding: bool)
    requires from < |ops|
    ensures Waiting(cfg, s, ops, from, id, seeding) <==>
            Waiting(cfg, s, ops[..|ops| - 1], from, id, seeding) && !LeavesAt(cfg, s, ops, |ops| - 1, id, seeding)
  {
    hide Leaves, Run;
    var front := ops[..|ops| - 1];
    forall j: nat | j < |front|
      ensures LeavesAt(cfg, s, front, j, id, seeding) <==> LeavesAt(cfg, s, ops, j, id, seeding)
    {
      FrontAt(cfg, s, ops, j, id, seeding);
    }
  }

  lemma LastWokenStep(cfg: Config, s: State, ops: seq<Op>, id: int, seeding: bool)
    requires ops != []
    ensures var front, n := ops[..|ops| - 1], |ops| - 1;
            LastWoken(cfg, s, ops, id, seeding) <==>
            WakesAt(cfg, s, ops, n, id, seeding) ||
              (LastWoken(cfg, s, front, id, seeding) && !SleepsAt(ops, n, id))
  {
    hide WakesAt, SleepsAt, Undisturbed;
    var front, n := ops[..|ops| - 1], |ops| - 1;
    NothingAfter(cfg, s, ops, id, seeding);
    forall k: nat | k < n
      ensures WakesAt(cfg, s, front, k, id, seeding) && Undisturbed(front, k + 1, id) && !SleepsAt(ops, n, id) <==>
              WakesAt(cfg, s, ops, k, id, seeding) && Undisturbed(ops, k + 1, id)
    {
      FrontAt(cfg, s, ops, k, id, seeding);
      UndisturbedLast(ops, k + 1, id);
    }
    WithinRun(cfg, s, ops, id, seeding);
    WithinRun(cfg, s, front, id, seeding);
  }

  lemma LastEnteredStep(cfg: Config, s: State, ops: seq<Op>, id: int, seeding: bool)
    requires ops != []
    ensures var front, n := ops[..|ops| - 1], |ops| - 1;
            LastEntered(cfg, s, ops, id, seeding) <==>
            EntersAt(cfg, ops, n, id, seeding) ||
              (LastEntered(cfg, s, front, id, seeding) && !LeavesAt(cfg, s, ops, n, id, seeding))
  {
    hide EntersAt, LeavesAt, Waiting;
    var front, n := ops[..|ops| - 1], |ops| - 1;
    NothingAfter(cfg, s, ops, id, seeding);
    forall k: nat | k < n
      ensures EntersAt(cfg, front, k, id, seeding) && Waiting(cfg, s, front, k + 1, id, seeding) &&
                !LeavesAt(cfg, s, ops, n, id, seeding) <==>
              EntersAt(cfg, ops, k, id, seeding) && Waiting(cfg, s, ops, k + 1, id, seeding)
    {
      FrontAt(cfg, s, ops, k, id, seeding);
      WaitingLast(cfg, s, ops, k + 1, id, seeding);
    }
    WithinRun(cfg, s, ops, id, seeding);
    WithinRun(cfg, s, front, id, seeding);
  }

  lemma LastAt(cfg: Config, s: State, ops: seq<Op>, id: int, seeding: bool)
    requires ops != []
    ensures var n, t := |ops| - 1, Run(cfg, s, ops[..|ops| - 1]);
            && (WakesAt(cfg, s, ops, n, id, seeding) <==> Wakes(cfg, t, ops[n], id, seeding))
            && (SleepsAt(ops, n, id) <==> Sleeps(ops[n], id))
            && (EntersAt(cfg, ops, n, id, seeding) <==> Enters(cfg, ops[n], id, seeding))
            && (LeavesAt(cfg, s, ops, n, id, seeding) <==> Leaves(cfg, t, ops[n], id, seeding))
  {
  }

  lemma EmptyRun(cfg: Config, s: State, id: int, seeding: bool)
    ensures Run(cfg, s, []) == s && Undisturbed([], 0, id) && Waiting(cfg, s, [], 0, id, seeding)
    ensures !LastWoken(cfg, s, [], id, seeding) && !LastEntered(cfg, s, [], id, seeding)
  {
  }

  lemma NothingAfter(cfg: Config, s: State, ops: seq<Op>, id: int, seeding: bool)
    ensures Undisturbed(ops, |ops|, id) && Waiting(cfg, s, ops, |ops|, id, seeding)
  {
  }

  lemma WithinRun(cfg: Config, s: State, ops: seq<Op>, id: int, seeding: bool)
    ensures forall k: nat :: WakesAt(cfg, s, ops, k, id, seeding) ==> k < |ops|
    ensures forall k: nat :: EntersAt(cfg, ops, k, id, seeding) ==> k < |ops|
  {
  }

  /**
   After every run from every state, an ID is active as a download or as a seed exactly if some
   operation activated it as that, or it was at the start, and no later operation removed it.
   */
  lemma {:induction false} ActiveIff(cfg: Config, s: State, ops: seq<Op>, id: int, seeding: bool)
    ensures ActiveAs(Run(cfg, s, ops), id, seeding) <==>
            LastWoken(cfg, s, ops, id, seeding) || (ActiveAs(s, id, seeding) && Undisturbed(ops, 0, id))
    decreases |ops|
  {
    hide Step, Run, Wakes, WakesAt, Sleeps, SleepsAt, Undisturbed, ActiveAs, LastWoken;
    if ops == [] {
      EmptyRun(cfg, s, id, seeding);
    } else {
      var front, n := ops[..|ops| - 1], |ops| - 1;
      ActiveIff(cfg, s, front, id, seeding);
      RunLast(cfg, s, ops);
      LastAt(cfg, s, ops, id, seeding);
      ActiveStep(cfg, Run(cfg, s, front), ops[n], id, seeding);
      LastWokenStep(cfg, s, ops, id, seeding);
      UndisturbedLast(ops, 0, id);
    }
  }

  /**
   After every run from every state, an ID is queued as a download or as a seed exactly if some
   operation queued it there, or it was at the start, and no later operation took it off: a removal,
   a forced activation, an addition to the other queue, or a pass that reached it.
   */
  lemma {:induction false} QueuedIff(cfg: Config, s: State, ops: seq<Op>, id: int, seeding: bool)
    ensures QueuedAs(Run(cfg, s, ops), id, seeding) <==>
            LastEntered(cfg, s, ops, id, seeding) || (QueuedAs(s, id, seeding) && Waiting(cfg, s, ops, 0, id, seeding))
    decreases |ops|
  {
    hide Step, Run, Enters, EntersAt, Leaves, LeavesAt, Waiting, QueuedAs, LastEntered;
    if ops == [] {
      EmptyRun(cfg, s, id, seeding);
    } else {
      var front, n := ops[..|ops| - 1], |ops| - 1;
      QueuedIff(cfg, s, front, id, seeding);
      RunLast(cfg, s, ops);
      LastAt(cfg, s, ops, id, seeding);
      QueuedStep(cfg, Run(cfg, s, front), ops[n], id, seeding);
      LastEnteredStep(cfg, s, ops, id, seeding);
      WaitingLast(cfg, s, ops, 0, id, seeding);
    }
  }

  // ------------------------------------------------------------ what else an operation keeps

  /** The list without any entry for an ID. */
  function Without(s: seq<int>, id: int): seq<int> {
    if s == [] then [] else (if s[0] == id then [] else [s[0]]) + Without(s[1..], id)
  }

  lemma {:induction false} WithoutAbsent(s: seq<int>, id: int)
    requires id !in s
    ensures Without(s, id) == s
  {
    if s == [] {
    } else {
      WithoutAbsent(s[1..], id);
    }
  }

  lemma {:induction false} RemoveFirstIsWithout(s: seq<int>, id: int)
    requires NoDuplicates(s)
    ensures RemoveFirst(s, id) == Without(s, id)
  {
    if s == [] {
    } else if s[0] == id {
      assert id !in s[1..];
      WithoutAbsent(s[1..], id);
    } else {
      RemoveFirstIsWithout(s[1..], id);
      var i := IndexOf(s[1..], id);
      if i.Some? { assert RemoveAt(s, i.value + 1) == [s[0]] + RemoveAt(s[1..], i.value); }
    }
  }

  lemma RemoveOrder(q: Queue, id: int)
    requires Listing(q)
    ensures Remove(q, id).order == Without(q.order, id)
  {
    hide RemoveFirst, Without;
    RemoveListing(q, id);
    RemoveFirstIsWithout(q.order, id);
  }

  /** The list after an operation: no other ID changes its place among the rest. */
  ghost predicate OrderAfter(cfg: Config, s: State, op: Op, t: State, seeding: bool) {
    var before, after := QueueOf(s, seeding).order, QueueOf(t, seeding).order;
    match op
    case AddToQueue(id, kind, _, order) =>
      after == if !Enabled(cfg, kind) then before else if kind == seeding then order else Without(before, id)
    case RemoveFromQueue(id) => after == Without(before, id)
    case ForceActivate(id, _) => after == Without(before, id)
    case SetQueuePosition(id, pos) =>
      if id in QueueOf(s, seeding).items
      then 0 <= Clamp(pos, |before|) < |after| && after[Clamp(pos, |before|)] == id &&
           Without(after, id) == Without(before, id)
      else after == before
    case ProcessQueues => after == before[Min(Slots(cfg, s, seeding), |before|)..]
  }

  lemma OrderLaw(cfg: Config, s: State, op: Op, seeding: bool)
    requires Valid(s)
    ensures OrderAfter(cfg, s, op, Step(cfg, s, op), seeding)
  {
    hide Process, Remove, Move, Without, Number, Listing, Woken, Drained, Clamp;
    var q := QueueOf(s, seeding);
    match op
    case AddToQueue(id, _, _, _) => RemoveOrder(q, id);
    case RemoveFromQueue(id) => RemoveOrder(q, id);
    case ForceActivate(id, _) => RemoveOrder(q, id);
    case SetQueuePosition(id, pos) => MovedWithout(q, id, pos);
    case ProcessQueues =>
      PassStep(cfg, s, seeding);
      ListingWakes(q, Slots(cfg, s, seeding));
  }

  lemma MovedWithout(q: Queue, id: int, pos: int)
    requires Listing(q)
    ensures Move(q, id, pos).Some? <==> id in q.items
    ensures id in q.items ==>
      var r := Move(q, id, pos).value.order;
      && 0 <= Clamp(pos, |q.order|) < |r| && r[Clamp(pos, |q.order|)] == id
      && Without(r, id) == Without(q.order, id)
  {
    hide Move, Without, RemoveFirst, Clamp;
    MoveListing(q, id, pos);
    RemoveFirstIsWithout(q.order, id);
    if id in q.items { RemoveFirstIsWithout(Move(q, id, pos).value.order, id); }
  }

  /** A position asked for is replaced by the nearest one there is. */
  lemma ClampNearest(pos: int, n: nat, to: int)
    requires 0 <= to < n
    ensures 0 <= Clamp(pos, n) < n && Away(pos, Clamp(pos, n)) <= Away(pos, to)
  {
  }

  function Away(a: int, b: int): int {
    Max(a - b, b - a)
  }

  /** Numbering changes positions only. */
  lemma {:induction false} NumberKeeps(items: map<int, Item>, order: seq<int>, n: nat, id: int)
    requires n <= |order| && id in items
    ensures Number(items, order, n)[id].(position := 0) == items[id].(position := 0)
  {
    if n == 0 {
    } else {
      NumberKeeps(items, order, n - 1, id);
    }
  }

  lemma {:induction false} ProcessKeepsItem(q: Queue, active: set<int>, count: int, limit: int, id: int)
    ensures var r := Process(q, active, count, limit).queue.items;
            id in r ==> id in q.items && r[id].(position := 0) == q.items[id].(position := 0)
    decreases limit - count
  {
    hide Number;
    if count < limit && |q.order| > 0 {
      var x := q.order[0];
      ProcessKeepsItem(Remove(q, x), active + {x}, count + 1, limit, id);
      RemoveKeepsItem(q, x, id);
    }
  }

  lemma RemoveKeepsItem(q: Queue, x: int, id: int)
    ensures var r := Remove(q, x).items;
            id in r ==> id in q.items && r[id].(position := 0) == q.items[id].(position := 0)
  {
    hide Number;
    var left := RemoveFirst(q.order, x);
    if x in q.items && id in q.items && id != x { NumberKeeps(q.items - {x}, left, |left|, id); }
  }

  /** Priority and arrival of a queued torrent are those it was last added with. */
  lemma ItemLaw(cfg: Config, s: State, op: Op, id: int, seeding: bool)
    requires id in QueueOf(Step(cfg, s, op), seeding).items
    ensures var item := QueueOf(Step(cfg, s, op), seeding).items[id].(position := 0);
            if Enters(cfg, op, id, seeding) then item == op.item.(position := 0)
            else id in QueueOf(s, seeding).items && item == QueueOf(s, seeding).items[id].(position := 0)
  {
    hide Process, Remove, Number, Leaves;
    var q := QueueOf(s, seeding);
    QueuedStep(cfg, s, op, id, seeding);
    match op
    case AddToQueue(x, kind, item, order) =>
      if kind == seeding && Enabled(cfg, kind) {
        NumberKeeps(q.items[x := item], order, |order|, id);
      } else {
        RemoveKeepsItem(q, x, id);
      }
    case RemoveFromQueue(x) => RemoveKeepsItem(q, x, id);
    case ForceActivate(x, _) => RemoveKeepsItem(q, x, id);
    case SetQueuePosition(x, pos) => if Move(q, x, pos).Some? { MoveKeepsItem(q, x, pos, id); }
    case ProcessQueues => ProcessKeepsItem(q, Active(s, seeding), |Active(s, seeding)|, Limit(cfg, seeding), id);
  }

  lemma MoveKeepsItem(q: Queue, x: int, pos: int, id: int)
    requires Move(q, x, pos).Some? && id in q.items
    ensures var r := Move(q, x, pos).value.items; id in r && r[id].(position := 0) == q.items[id].(position := 0)
  {
    hide Number;
    var order := Move(q, x, pos).value.order;
    NumberKeeps(q.items, order, |order|, id);
  }
}
