/**
 The download and the seed queue. The source writes every queue operation twice, once per queue;
 here `TorrentQueue` is either of them and `QueueManager` owns two.
 */
module Queues {
  import opened Prelude

  datatype Item = Item(position: int, addedTime: int, priority: int)

  datatype Queue = Queue(items: map<int, Item>, order: seq<int>)

  /** The order lists the map's keys, each once, and the item at index `i` stores position `i`. */
  ghost predicate Listing(q: Queue) {
    && NoDuplicates(q.order) && Elements(q.order) == q.items.Keys
    && forall i :: 0 <= i < |q.order| ==> q.order[i] in q.items && q.items[q.order[i]].position == i
  }

  // ------------------------------------------------------------ one queue

  /** The position loop: every listed item that exists gets its index, a later one overriding an earlier one. */
  function Number(items: map<int, Item>, order: seq<int>, n: nat): (r: map<int, Item>)
    requires n <= |order|
    ensures r.Keys == items.Keys
  {
    if n == 0 then items
    else
      var m := Number(items, order, n - 1);
      var id := order[n - 1];
      if id in m then m[id := m[id].(position := n - 1)] else m
  }

  function Renumber(items: map<int, Item>, order: seq<int>): Queue {
    Queue(Number(items, order, |order|), order)
  }

  function IndexOf(s: seq<int>, id: int): (r: Option<nat>)
    ensures r.Some? ==> r.value < |s| && s[r.value] == id && id !in s[..r.value]
    ensures r.None? ==> id !in s
  {
    if s == [] then None
    else if s[0] == id then Some(0)
    else match IndexOf(s[1..], id)
      case None => None
      case Some(i) => assert s[..i + 1] == [s[0]] + s[1..][..i]; Some(i + 1)
  }

  function RemoveFirst(s: seq<int>, id: int): seq<int> {
    match IndexOf(s, id) case None => s case Some(i) => RemoveAt(s, i)
  }

  /** `removeFrom…QueueUnsafe`. */
  function Remove(q: Queue, id: int): Queue {
    if id !in q.items then q else Renumber(q.items - {id}, RemoveFirst(q.order, id))
  }

  function Clamp(pos: int, n: int): int {
    if pos < 0 then (if 0 >= n then n - 1 else 0) else if pos >= n then n - 1 else pos
  }

  function InsertAt(s: seq<int>, i: nat, id: int): seq<int>
    requires i <= |s|
  {
    s[..i] + [id] + s[i..]
  }

  /** `moveIn…Queue`; the error is "not found in queue". */
  function Move(q: Queue, id: int, pos: int): Option<Queue> {
    match IndexOf(q.order, id)
    case None => None
    case Some(cur) =>
      var to := Clamp(pos, |q.order|);
      if to == cur then Some(q)
      else Some(Renumber(q.items, InsertAt(RemoveAt(q.order, cur), to, id)))
  }

  /** The comparison that the sort is given. */
  predicate Goes(items: map<int, Item>, a: int, b: int)
    requires a in items && b in items
  {
    if items[a].priority != items[b].priority then items[a].priority > items[b].priority
    else items[a].addedTime < items[b].addedTime
  }

  /** Higher priority first, then earlier arrival. */
  ghost predicate InTurn(a: Item, b: Item) {
    a.priority > b.priority || (a.priority == b.priority && a.addedTime <= b.addedTime)
  }

  ghost predicate SortedBy(items: map<int, Item>, order: seq<int>) {
    && (forall i :: 0 <= i < |order| ==> order[i] in items)
    && forall i, j :: 0 <= i < j < |order| ==> InTurn(items[order[i]], items[order[j]])
  }

  /** What sorting may make of the list with one more ID; ties may end up in any order. */
  ghost predicate Sorting(q: Queue, id: int, item: Item, order: seq<int>) {
    multiset(order) == multiset(q.order + [id]) && SortedBy(q.items[id := item], order)
  }

  /** Some ID other than this one is listed but has no item, so that sorting with this one reads a nil item. */
  predicate Orphan(q: Queue, id: int) {
    exists i :: 0 <= i < |q.order| && q.order[i] != id && q.order[i] !in q.items
  }

  /** Adding, with the outcome of the sort given. */
  function Add(q: Queue, id: int, item: Item, order: seq<int>): Queue {
    Renumber(q.items[id := item], order)
  }

  // ------------------------------------------------------------ laws of one queue

  lemma {:induction false} NumberSpec(items: map<int, Item>, order: seq<int>, n: nat)
    requires n <= |order| && NoDuplicates(order)
    ensures var r := Number(items, order, n);
            && (forall i :: 0 <= i < n && order[i] in items ==> r[order[i]] == items[order[i]].(position := i))
            && (forall id :: id in items && id !in order[..n] ==> r[id] == items[id])
  {
    if n == 0 {
    } else {
      NumberSpec(items, order, n - 1);
      assert order[..n] == order[..n - 1] + [order[n - 1]];
    }
  }

  /** Renumbering any duplicate-free listing of the keys restores the invariant. */
  lemma RenumberListing(items: map<int, Item>, order: seq<int>)
    requires NoDuplicates(order) && Elements(order) == items.Keys
    ensures Listing(Renumber(items, order))
  {
    NumberSpec(items, order, |order|);
    assert forall i :: 0 <= i < |order| ==> order[i] in Elements(order);
  }

  lemma WithoutElements(s: seq<int>, i: nat)
    requires i < |s| && NoDuplicates(s)
    ensures NoDuplicates(RemoveAt(s, i)) && Elements(RemoveAt(s, i)) == Elements(s) - {s[i]}
  {
    assert s == s[..i] + [s[i]] + s[i + 1..];
    ElementsInsert(s[..i], s[i], s[i + 1..]);
    assert s[i] !in RemoveAt(s, i);
  }

  lemma RemoveListing(q: Queue, id: int)
    requires Listing(q)
    ensures Listing(Remove(q, id)) && Remove(q, id).items.Keys == q.items.Keys - {id}
    ensures Remove(q, id).order == RemoveFirst(q.order, id)
  {
    if id in q.items {
      assert id in Elements(q.order);
      var i := IndexOf(q.order, id).value;
      WithoutElements(q.order, i);
      RenumberListing(q.items - {id}, RemoveAt(q.order, i));
    } else {
      assert id !in Elements(q.order);
    }
  }

  lemma InsertElements(s: seq<int>, i: nat, id: int)
    requires i <= |s| && NoDuplicates(s) && id !in s
    ensures NoDuplicates(InsertAt(s, i, id)) && Elements(InsertAt(s, i, id)) == Elements(s) + {id}
    ensures |InsertAt(s, i, id)| == |s| + 1 && InsertAt(s, i, id)[i] == id && RemoveFirst(InsertAt(s, i, id), id) == s
  {
    hide Elements, IndexOf, RemoveAt;
    InsertedIndex(s, i, id);
    assert s == s[..i] + s[i..];
    ElementsInsert(s[..i], id, s[i..]);
    InsertDistinct(s, i, id);
  }

  lemma InsertDistinct(s: seq<int>, i: nat, id: int)
    requires i <= |s| && NoDuplicates(s) && id !in s
    ensures NoDuplicates(InsertAt(s, i, id))
  {
    var t := InsertAt(s, i, id);
    assert forall x :: 0 <= x < i ==> t[x] == s[x];
    assert forall x :: i < x < |t| ==> t[x] == s[x - 1];
  }

  lemma InsertedIndex(s: seq<int>, i: nat, id: int)
    requires i <= |s| && id !in s
    ensures InsertAt(s, i, id)[i] == id
    ensures IndexOf(InsertAt(s, i, id), id) == Some(i) && RemoveAt(InsertAt(s, i, id), i) == s
  {
    var t := InsertAt(s, i, id);
    assert forall x :: 0 <= x < |t| && x != i ==> t[x] != id;
    assert t[..i] == s[..i] && t[i + 1..] == s[i..];
  }

  /**
   Moving succeeds exactly for a queued ID, puts it at the clamped position, keeps all others in
   their relative order and keeps the invariant.
   */
  lemma MoveListing(q: Queue, id: int, pos: int)
    requires Listing(q)
    ensures Move(q, id, pos).Some? <==> id in q.items
    ensures id in q.items ==>
      var r := Move(q, id, pos).value;
      var to := Clamp(pos, |q.order|);
      && Listing(r) && r.items.Keys == q.items.Keys && |r.order| == |q.order|
      && 0 <= to < |q.order| && r.order[to] == id && RemoveFirst(r.order, id) == RemoveFirst(q.order, id)
  {
    hide Listing, Elements, NoDuplicates, IndexOf, RemoveAt, InsertAt, Number;
    Listed(q, id);
    if id in q.items {
      var cur := IndexOf(q.order, id).value;
      var to, left := Clamp(pos, |q.order|), RemoveAt(q.order, cur);
      WithoutElements(q.order, cur);
      Gone(q.order, cur);
      if to != cur {
        InsertElements(left, to, id);
        assert q.items.Keys - {id} + {id} == q.items.Keys;
        RenumberListing(q.items, InsertAt(left, to, id));
      }
    }
  }

  lemma Listed(q: Queue, id: int)
    requires Listing(q)
    ensures NoDuplicates(q.order) && Elements(q.order) == q.items.Keys
    ensures id in q.items <==> IndexOf(q.order, id).Some?
  {
    hide IndexOf;
    assert id in q.order <==> id in Elements(q.order);
    assert IndexOf(q.order, id).Some? ==> id in q.order;
  }

  lemma Gone(s: seq<int>, i: nat)
    requires i < |s| && NoDuplicates(s)
    ensures |RemoveAt(s, i)| == |s| - 1 && s[i] !in RemoveAt(s, i)
  {
  }

  lemma PermutationElements(a: seq<int>, b: seq<int>)
    requires multiset(a) == multiset(b)
    ensures Elements(a) == Elements(b) && (NoDuplicates(a) ==> NoDuplicates(b))
  {
    assert forall x :: x in a <==> x in multiset(a);
    assert forall x :: x in b <==> x in multiset(b);
    if NoDuplicates(a) {
      forall i, j | 0 <= i < j < |b|
        ensures b[i] != b[j]
      {
        if b[i] == b[j] {
          TwiceCounted(b, i, j);
          CountOnce(a, b[i]);
          assert false;
        }
      }
    }
  }

  lemma {:induction false} CountOnce(s: seq<int>, x: int)
    requires NoDuplicates(s)
    ensures multiset(s)[x] <= 1
  {
    if s == [] {
    } else {
      CountOnce(s[1..], x);
      assert s == [s[0]] + s[1..];
    }
  }

  /** Adding keeps the invariant exactly when the ID was not already queued, however ties are sorted. */
  lemma AddListingIff(q: Queue, id: int, item: Item, order: seq<int>)
    requires Listing(q) && Sorting(q, id, item, order)
    ensures Listing(Add(q, id, item, order)) <==> id !in q.items
    ensures Add(q, id, item, order).items.Keys == q.items.Keys + {id}
  {
    hide SortedBy;
    ElementsAppend(q.order, id);
    PermutationElements(q.order + [id], order);
    assert id in q.items <==> id in Elements(q.order);
    if id !in q.items {
      assert NoDuplicates(q.order + [id]);
      RenumberListing(q.items[id := item], order);
    } else {
      PermutationElements(order, q.order + [id]);
      var i := IndexOf(q.order, id).value;
      assert (q.order + [id])[i] == (q.order + [id])[|q.order|];
      assert !NoDuplicates(q.order + [id]);
    }
  }

  // ------------------------------------------------------------ processing

  datatype Pass = Pass(queue: Queue, active: set<int>, count: int)

  /** The processing loop; an ID at the front that has no item is activated but stays in the list. */
  function Process(q: Queue, active: set<int>, count: int, limit: int): Pass
    decreases limit - count
  {
    if count < limit && |q.order| > 0 then
      var id := q.order[0];
      Process(Remove(q, id), active + {id}, count + 1, limit)
    else Pass(q, active, count)
  }

  lemma FrontRemoved(q: Queue)
    requires Listing(q) && q.order != []
    ensures var r := Remove(q, q.order[0]);
            Listing(r) && r.order == q.order[1..] && r.items.Keys == q.items.Keys - {q.order[0]}
  {
    RemoveListing(q, q.order[0]);
    assert IndexOf(q.order, q.order[0]) == Some(0);
    assert RemoveAt(q.order, 0) == q.order[1..];
  }

  /** The elements of a front, taken one at a time. */
  lemma FrontElements(s: seq<int>, n: nat)
    requires 0 < n <= |s|
    ensures Elements(s[..n]) == {s[0]} + Elements(s[1..][..n - 1])
    ensures s[1..][n - 1..] == s[n..]
  {
    var rest := s[1..][..n - 1];
    assert s[..n] == [] + [s[0]] + rest && [] + rest == rest;
    ElementsInsert([], s[0], rest);
  }

  /** The first `n` IDs have moved, in order, from the queue to the active set. */
  ghost predicate Moved(q: Queue, active: set<int>, count: int, n: nat, p: Pass)
    requires n <= |q.order|
  {
    && p.queue.order == q.order[n..] && Listing(p.queue) && p.queue.items.Keys == q.items.Keys - Elements(q.order[..n])
    && p.active == active + Elements(q.order[..n]) && p.count == count + n
  }

  /**
   A pass activates exactly the first `min(free slots, length)` IDs, in order, keeps the others
   queued in order and does not push the active set above the limit.
   */
  lemma {:induction false} ProcessExact(q: Queue, active: set<int>, count: int, limit: int)
    requires Listing(q) && |active| <= count
    ensures var n := Min(Max(limit - count, 0), |q.order|);
            var p := Process(q, active, count, limit);
            Moved(q, active, count, n, p) && |p.active| <= p.count <= Max(count, limit)
    decreases limit - count
  {
    hide Remove, Listing, Elements, Moved;
    var n := Min(Max(limit - count, 0), |q.order|);
    if n > 0 {
      FrontRemoved(q);
      OneMore(active, q.order[0]);
      ProcessExact(Remove(q, q.order[0]), active + {q.order[0]}, count + 1, limit);
      MovedOneMore(q, active, count, n, Process(q, active, count, limit));
    } else {
      MovedNone(q, active, count);
    }
  }

  lemma OneMore(s: set<int>, id: int)
    ensures |s + {id}| <= |s| + 1
  {
    if id in s { assert s + {id} == s; }
  }

  lemma MovedNone(q: Queue, active: set<int>, count: int)
    requires Listing(q)
    ensures Moved(q, active, count, 0, Pass(q, active, count))
  {
    hide Listing, Elements;
    assert q.order[..0] == [] && q.order[0..] == q.order;
    NoElements<int>();
  }

  lemma MovedOneMore(q: Queue, active: set<int>, count: int, n: nat, p: Pass)
    requires Listing(q) && 0 < n <= |q.order| && |Remove(q, q.order[0]).order| == |q.order| - 1
    requires Moved(Remove(q, q.order[0]), active + {q.order[0]}, count + 1, n - 1, p)
    ensures Moved(q, active, count, n, p)
  {
    hide Remove, Listing, Elements;
    FrontRemoved(q);
    FrontElements(q.order, n);
    OneThenRest(active, q.order[0], Elements(q.order[1..][..n - 1]));
    OneThenRest(q.items.Keys, q.order[0], Elements(q.order[1..][..n - 1]));
  }

  lemma OneThenRest(s: set<int>, id: int, rest: set<int>)
    ensures s + {id} + rest == s + ({id} + rest) && s - {id} - rest == s - ({id} + rest)
  {
  }

  /** The reported count is the size of the active set exactly when no ID was activated a second time. */
  lemma CountExactIff(q: Queue, active: set<int>, limit: int)
    requires Listing(q)
    ensures var n := Min(Max(limit - |active|, 0), |q.order|);
            var p := Process(q, active, |active|, limit);
            p.count == |p.active| <==> active * Elements(q.order[..n]) == {}
  {
    hide Process, Listing;
    var n := Min(Max(limit - |active|, 0), |q.order|);
    ProcessExact(q, active, |active|, limit);
    var front := q.order[..n];
    FrontDistinct(q, n);
    NoDuplicatesSize(front);
    var e := Elements(front);
    assert |active + e| == |active| + |e| - |active * e|;
    assert |active * e| == 0 <==> active * e == {};
  }

  lemma FrontDistinct(q: Queue, n: nat)
    requires Listing(q) && n <= |q.order|
    ensures NoDuplicates(q.order[..n])
  {
  }

  // ------------------------------------------------------------ the object for one queue

  class TorrentQueue {
    var items: map<int, Item>
    var order: seq<int>

    constructor ()
      ensures View() == Queue(map[], [])
    {
      items, order := map[], [];
    }

    ghost function View(): Queue
      reads this
    {
      Queue(items, order)
    }

    method UpdatePositions()
      modifies this`items
      ensures View() == Renumber(old(items), old(order))
    {
      for i := 0 to |order|
        invariant items == Number(old(items), order, i)
      {
        var id := order[i];
        if id in items { items := items[id := items[id].(position := i)]; }
      }
    }

    method FindIndex(id: int) returns (r: Option<nat>)
      ensures r == IndexOf(order, id)
    {
      for i := 0 to |order|
        invariant id !in order[..i]
      {
        if order[i] == id {
          FirstIndex(order, id, i);
          return Some(i);
        }
      }
      assert order[..|order|] == order;
      return None;
    }

    method RemoveUnsafe(id: int)
      modifies this
      ensures View() == Remove(old(View()), id)
    {
      if id in items {
        items := items - {id};
        var i := FindIndex(id);
        if i.Some? { order := order[..i.value] + order[i.value + 1..]; }
        UpdatePositions();
      }
    }

    method MoveTo(id: int, newPosition: int) returns (found: bool)
      modifies this
      ensures found == Move(old(View()), id, newPosition).Some?
      ensures View() == if found then Move(old(View()), id, newPosition).value else old(View())
    {
      var cur := FindIndex(id);
      if cur.None? { return false; }
      var queueLen := |order|;
      var to := newPosition;
      if to < 0 { to := 0; }
      if to >= queueLen { to := queueLen - 1; }
      if to == cur.value { return true; }
      order := order[..cur.value] + order[cur.value + 1..];
      order := order[..to] + [id] + order[to..];
      UpdatePositions();
      return true;
    }

    /** `sort.Slice`, here an insertion sort; reading the item of an ID that has none is a nil dereference. */
    method Sort() returns (panicked: bool)
      modifies this`order
      ensures panicked <==> |old(order)| >= 2 && exists i :: 0 <= i < |old(order)| && old(order)[i] !in items
      ensures multiset(order) == multiset(old(order))
      ensures !panicked && (forall i :: 0 <= i < |old(order)| ==> old(order)[i] in items) ==> SortedBy(items, order)
    {
      hide InTurn, SortedBy;
      AnyOrder(items, []);
      if |order| < 2 {
        AnyOrder(items, order);
        return false;
      }
      if exists i :: 0 <= i < |order| && order[i] !in items { return true; }
      var r := [];
      for i := 0 to |order|
        invariant order == old(order) && SortedBy(items, r) && multiset(r) == multiset(order[..i])
      {
        assert order[..i + 1] == order[..i] + [order[i]];
        r := InsertSorted(items, r, order[i]);
      }
      assert order[..|order|] == order;
      order := r;
      return false;
    }

    /** The body of one case of `AddToQueue`. */
    method Append(id: int, now: int, priority: int) returns (panicked: bool)
      modifies this
      ensures panicked <==> Orphan(old(View()), id)
      ensures !panicked ==>
        var item := Item(0, now, priority);
        exists o :: Sorting(old(View()), id, item, o) && View() == Add(old(View()), id, item, o)
    {
      hide InTurn, Number;
      var item := Item(0, now, priority);
      items := items[id := item];
      order := order + [id];
      ghost var all := order;
      assert all[|all| - 1] == id;
      assert forall i :: 0 <= i < |old(order)| ==> all[i] == old(order)[i];
      panicked := Sort();
      if panicked { return; }
      ghost var o := order;
      UpdatePositions();
      assert Sorting(old(View()), id, item, o);
    }

    /** `process…Queue`: fills the free slots from the front. */
    method ProcessQueue(active: set<int>, maxActive: int) returns (now: set<int>, count: int)
      modifies this
      ensures Pass(View(), now, count) == Process(old(View()), active, |active|, maxActive)
    {
      now, count := active, |active|;
      while count < maxActive && |order| > 0
        invariant Process(old(View()), active, |active|, maxActive) == Process(View(), now, count, maxActive)
        decreases maxActive - count
      {
        var id := order[0];
        RemoveUnsafe(id);
        now := now + {id};
        count := count + 1;
      }
    }
  }

  lemma FirstIndex(s: seq<int>, id: int, i: nat)
    requires i < |s| && s[i] == id && id !in s[..i]
    ensures IndexOf(s, id) == Some(i)
  {
    assert s == s[..i] + [id] + s[i + 1..];
    assert s[i] in s;
  }

  /** One round of an insertion sort. */
  method InsertSorted(items: map<int, Item>, r: seq<int>, x: int) returns (t: seq<int>)
    requires SortedBy(items, r) && x in items
    ensures SortedBy(items, t) && multiset(t) == multiset(r) + multiset{x}
  {
    hide Goes, InTurn;
    var j := 0;
    while j < |r| && !Goes(items, x, r[j])
      invariant j <= |r| && forall i :: 0 <= i < j ==> InTurn(items[r[i]], items[x])
    {
      GoesIff(items, r[j], x);
      j := j + 1;
    }
    if j < |r| {
      GoesIff(items, r[j], x);
      InTurnOrder(items[x], items[r[j]], items[x]);
    }
    SortedInsert(items, r, j, x);
    return r[..j] + [x] + r[j..];
  }

  lemma SortedInsert(items: map<int, Item>, r: seq<int>, j: nat, x: int)
    requires SortedBy(items, r) && j <= |r| && x in items
    requires forall i :: 0 <= i < j ==> InTurn(items[r[i]], items[x])
    requires j < |r| ==> InTurn(items[x], items[r[j]])
    ensures SortedBy(items, r[..j] + [x] + r[j..]) && multiset(r[..j] + [x] + r[j..]) == multiset(r) + multiset{x}
  {
    hide InTurn;
    InsertMultiset(r, j, x);
    forall i | j <= i < |r|
      ensures InTurn(items[x], items[r[i]])
    {
      InTurnOrder(items[x], items[r[j]], items[r[i]]);
    }
  }

  lemma AnyOrder(items: map<int, Item>, order: seq<int>)
    requires |order| < 2
    ensures (forall i :: 0 <= i < |order| ==> order[i] in items) ==> SortedBy(items, order)
  {
  }

  /** The comparison refuses to put one item before another exactly if they are in turn the other way round. */
  lemma GoesIff(items: map<int, Item>, a: int, b: int)
    requires a in items && b in items
    ensures !Goes(items, b, a) <==> InTurn(items[a], items[b])
  {
  }

  lemma InTurnOrder(a: Item, b: Item, c: Item)
    ensures InTurn(a, b) && InTurn(b, c) ==> InTurn(a, c)
    ensures InTurn(a, b) || InTurn(b, a)
  {
  }

  // ------------------------------------------------------------ both queues

  datatype Config = Config(maxDownloads: int, maxSeeds: int, downloadsEnabled: bool, seedsEnabled: bool)

  datatype State = State(download: Queue, seed: Queue, activeDownloads: set<int>, activeSeeds: set<int>)

  const EMPTY := State(Queue(map[], []), Queue(map[], []), {}, {})

  /** The locked operations; an addition carries the time and the outcome of the sort. */
  datatype Op =
    | AddToQueue(id: int, seeding: bool, item: Item, order: seq<int>)
    | RemoveFromQueue(id: int)
    | SetQueuePosition(id: int, position: int)
    | ForceActivate(id: int, seeding: bool)
    | ProcessQueues

  function Step(cfg: Config, s: State, op: Op): State {
    match op
    case AddToQueue(id, seeding, item, order) =>
      if !seeding then
        if !cfg.downloadsEnabled then s
          else s.(seed := Remove(s.seed, id), download := Add(s.download, id, item, order))
      else
        if !cfg.seedsEnabled then s else s.(download := Remove(s.download, id), seed := Add(s.seed, id, item, order))
    case RemoveFromQueue(id) =>
      State(Remove(s.download, id), Remove(s.seed, id), s.activeDownloads - {id}, s.activeSeeds - {id})
    case SetQueuePosition(id, position) =>
      if id in s.download.items then
        match Move(s.download, id, position) case None => s case Some(q) => s.(download := q)
      else if id in s.seed.items then
        match Move(s.seed, id, position) case None => s case Some(q) => s.(seed := q)
      else s
    case ForceActivate(id, seeding) =>
      State(Remove(s.download, id), Remove(s.seed, id),
            if seeding then s.activeDownloads else s.activeDownloads + {id},
            if seeding then s.activeSeeds + {id} else s.activeSeeds)
    case ProcessQueues =>
      var t := if cfg.downloadsEnabled && cfg.maxDownloads > 0
               then var p := Process(s.download, s.activeDownloads, |s.activeDownloads|, cfg.maxDownloads);
                    s.(download := p.queue, activeDownloads := p.active)
               else s;
      if cfg.seedsEnabled && cfg.maxSeeds > 0
      then var p := Process(t.seed, t.activeSeeds, |t.activeSeeds|, cfg.maxSeeds);
           t.(seed := p.queue, activeSeeds := p.active)
      else t
  }

  ghost predicate Valid(s: State) {
    Listing(s.download) && Listing(s.seed) && s.download.items.Keys !! s.seed.items.Keys
  }

  /** An addition that reaches its queue sorts it; nothing is said of the ID. */
  ghost predicate Sorts(cfg: Config, s: State, op: Op) {
    op.AddToQueue? ==>
      && (!op.seeding && cfg.downloadsEnabled ==> Sorting(s.download, op.id, op.item, op.order))
      && (op.seeding && cfg.seedsEnabled ==> Sorting(s.seed, op.id, op.item, op.order))
  }

  /** The one call that breaks the listing: adding an ID to the queue it is already in. */
  predicate ReAdds(cfg: Config, s: State, op: Op) {
    op.AddToQueue? &&
      ((!op.seeding && cfg.downloadsEnabled && op.id in s.download.items) ||
        (op.seeding && cfg.seedsEnabled && op.id in s.seed.items))
  }

  /** Every operation keeps both listings and their separation, exactly unless it re-adds a queued ID. */
  lemma StepValidIff(cfg: Config, s: State, op: Op)
    requires Valid(s) && Sorts(cfg, s, op)
    ensures Valid(Step(cfg, s, op)) <==> !ReAdds(cfg, s, op)
  {
    hide Remove, Move, Add, Process, Listing, Sorting, Moved;
    var d, e := s.download.items.Keys, s.seed.items.Keys;
    match op
    case AddToQueue(id, seeding, item, order) =>
      RemoveListing(s.download, id);
      RemoveListing(s.seed, id);
      StillApart(d, e, id);
      if !seeding && cfg.downloadsEnabled { AddListingIff(s.download, id, item, order); }
      if seeding && cfg.seedsEnabled { AddListingIff(s.seed, id, item, order); }
    case RemoveFromQueue(id) =>
      RemoveListing(s.download, id);
      RemoveListing(s.seed, id);
      StillApart(d, e, id);
    case SetQueuePosition(id, position) =>
      MoveListing(s.download, id, position);
      MoveListing(s.seed, id, position);
    case ForceActivate(id, seeding) =>
      RemoveListing(s.download, id);
      RemoveListing(s.seed, id);
      StillApart(d, e, id);
    case ProcessQueues =>
      ProcessShrinks(s.download, s.activeDownloads, cfg.maxDownloads);
      ProcessShrinks(s.seed, s.activeSeeds, cfg.maxSeeds);
  }

  lemma StillApart(a: set<int>, b: set<int>, id: int)
    requires a !! b
    ensures a - {id} !! b - {id} && a + {id} !! b - {id} && a - {id} !! b + {id}
  {
  }

  lemma ProcessShrinks(q: Queue, active: set<int>, limit: int)
    requires Listing(q)
    ensures var p := Process(q, active, |active|, limit).queue; Listing(p) && p.items.Keys <= q.items.Keys
  {
    hide Process, Listing, Elements;
    ProcessExact(q, active, |active|, limit);
  }

  function Run(cfg: Config, s: State, ops: seq<Op>): State
    decreases |ops|
  {
    if ops == [] then s else Run(cfg, Step(cfg, s, ops[0]), ops[1..])
  }

  /** Along the run additions sort and none re-adds a queued ID. */
  ghost predicate Proper(cfg: Config, s: State, ops: seq<Op>)
    decreases |ops|
  {
    ops == [] || (Sorts(cfg, s, ops[0]) && !ReAdds(cfg, s, ops[0]) && Proper(cfg, Step(cfg, s, ops[0]), ops[1..]))
  }

  /** Along the run additions sort. */
  ghost predicate AllSort(cfg: Config, s: State, ops: seq<Op>)
    decreases |ops|
  {
    ops == [] || (Sorts(cfg, s, ops[0]) && AllSort(cfg, Step(cfg, s, ops[0]), ops[1..]))
  }

  /** Every item is listed, perhaps more than once or beside IDs without an item. */
  ghost predicate Loose(q: Queue) {
    q.items.Keys <= Elements(q.order)
  }

  /** How many entries of the order list are too many. */
  ghost function Excess(q: Queue): int {
    |q.order| - |q.items.Keys|
  }

  lemma ListingIsTight(q: Queue)
    requires Listing(q)
    ensures Loose(q) && Excess(q) == 0
  {
    NoDuplicatesSize(q.order);
  }

  lemma RemoveKeepsExcess(q: Queue, id: int)
    requires Loose(q)
    ensures Loose(Remove(q, id)) && Excess(Remove(q, id)) == Excess(q)
  {
    if id in q.items {
      assert id in Elements(q.order);
      var i := IndexOf(q.order, id).value;
      assert q.order == q.order[..i] + [id] + q.order[i + 1..];
      ElementsInsert(q.order[..i], id, q.order[i + 1..]);
      assert (q.items - {id}).Keys == q.items.Keys - {id};
    }
  }

  lemma AddExcess(q: Queue, id: int, item: Item, order: seq<int>)
    requires Loose(q) && Sorting(q, id, item, order)
    ensures Loose(Add(q, id, item, order))
    ensures Excess(Add(q, id, item, order)) == Excess(q) + (if id in q.items then 1 else 0)
  {
    hide SortedBy;
    ElementsAppend(q.order, id);
    PermutationElements(q.order + [id], order);
    assert |multiset(order)| == |order| && |multiset(q.order + [id])| == |q.order| + 1;
    assert q.items[id := item].Keys == q.items.Keys + {id};
  }

  /** Taking an entry out and putting it in elsewhere keeps what is listed. */
  lemma MovedElements(s: seq<int>, i: nat, to: nat)
    requires i < |s| && to < |s|
    ensures var t := InsertAt(RemoveAt(s, i), to, s[i]); |t| == |s| && Elements(t) == Elements(s)
  {
    hide Elements;
    var left := RemoveAt(s, i);
    assert s == s[..i] + [s[i]] + s[i + 1..];
    ElementsInsert(s[..i], s[i], s[i + 1..]);
    assert left == left[..to] + left[to..];
    ElementsInsert(left[..to], s[i], left[to..]);
  }

  lemma MoveKeepsExcess(q: Queue, id: int, pos: int)
    requires Loose(q) && Move(q, id, pos).Some?
    ensures Loose(Move(q, id, pos).value) && Excess(Move(q, id, pos).value) == Excess(q)
  {
    hide Elements, IndexOf, InsertAt, RemoveAt, Number;
    MovedElements(q.order, IndexOf(q.order, id).value, Clamp(pos, |q.order|));
  }

  lemma {:induction false} ProcessKeepsExcess(q: Queue, active: set<int>, count: int, limit: int)
    requires Loose(q)
    ensures var p := Process(q, active, count, limit).queue; Loose(p) && Excess(p) == Excess(q)
    decreases limit - count
  {
    hide Loose, Excess, Remove;
    if count < limit && |q.order| > 0 {
      RemoveKeepsExcess(q, q.order[0]);
      ProcessKeepsExcess(Remove(q, q.order[0]), active + {q.order[0]}, count + 1, limit);
    }
  }

  /** Every operation keeps items listed; a re-addition adds one entry too many and nothing takes one away. */
  lemma StepExcess(cfg: Config, s: State, op: Op)
    requires Loose(s.download) && Loose(s.seed) && Sorts(cfg, s, op)
    ensures var t := Step(cfg, s, op);
            && Loose(t.download) && Loose(t.seed)
            && Excess(t.download) + Excess(t.seed) ==
               Excess(s.download) + Excess(s.seed) + (if ReAdds(cfg, s, op) then 1 else 0)
  {
    hide Remove, Move, Add, Process, Sorting, Loose, Excess;
    match op
    case AddToQueue(id, seeding, item, order) =>
      RemoveKeepsExcess(s.download, id);
      RemoveKeepsExcess(s.seed, id);
      if !seeding && cfg.downloadsEnabled { AddExcess(s.download, id, item, order); }
      if seeding && cfg.seedsEnabled { AddExcess(s.seed, id, item, order); }
    case RemoveFromQueue(id) =>
      RemoveKeepsExcess(s.download, id);
      RemoveKeepsExcess(s.seed, id);
    case SetQueuePosition(id, position) =>
      if Move(s.download, id, position).Some? { MoveKeepsExcess(s.download, id, position); }
      if Move(s.seed, id, position).Some? { MoveKeepsExcess(s.seed, id, position); }
    case ForceActivate(id, seeding) =>
      RemoveKeepsExcess(s.download, id);
      RemoveKeepsExcess(s.seed, id);
    case ProcessQueues =>
      ProcessKeepsExcess(s.download, s.activeDownloads, |s.activeDownloads|, cfg.maxDownloads);
      ProcessKeepsExcess(s.seed, s.activeSeeds, |s.activeSeeds|, cfg.maxSeeds);
  }

  lemma {:induction false} ExcessStays(cfg: Config, s: State, ops: seq<Op>)
    requires Loose(s.download) && Loose(s.seed) && AllSort(cfg, s, ops)
    ensures var t := Run(cfg, s, ops);
            Excess(t.download) + Excess(t.seed) >= Excess(s.download) + Excess(s.seed)
    decreases |ops|
  {
    hide Step, Sorts, ReAdds, Loose, Excess;
    if ops == [] {
    } else {
      StepExcess(cfg, s, ops[0]);
      ExcessStays(cfg, Step(cfg, s, ops[0]), ops[1..]);
    }
  }

  /** A run keeps the invariant exactly if it never re-adds a queued ID: what a re-addition breaks is never healed. */
  lemma {:induction false} RunValidIff(cfg: Config, s: State, ops: seq<Op>)
    requires Valid(s) && AllSort(cfg, s, ops)
    ensures Valid(Run(cfg, s, ops)) <==> Proper(cfg, s, ops)
    decreases |ops|
  {
    hide Step, Sorts, ReAdds, Loose, Excess, Listing;
    if ops == [] {
    } else {
      var t := Step(cfg, s, ops[0]);
      StepValidIff(cfg, s, ops[0]);
      if ReAdds(cfg, s, ops[0]) {
        ListingIsTight(s.download);
        ListingIsTight(s.seed);
        StepExcess(cfg, s, ops[0]);
        ExcessStays(cfg, t, ops[1..]);
        var end := Run(cfg, s, ops);
        if Valid(end) {
          ListingIsTight(end.download);
          ListingIsTight(end.seed);
          assert false;
        }
      } else {
        RunValidIff(cfg, t, ops[1..]);
      }
    }
  }

  /** From the empty manager. */
  lemma RunFromEmptyIff(cfg: Config, ops: seq<Op>)
    requires AllSort(cfg, EMPTY, ops)
    ensures Valid(Run(cfg, EMPTY, ops)) <==> Proper(cfg, EMPTY, ops)
  {
    assert Valid(EMPTY);
    RunValidIff(cfg, EMPTY, ops);
  }

  /** A processing pass never leaves more active than the limit, unless more were active already. */
  lemma ProcessingRespectsLimits(cfg: Config, s: State)
    requires Valid(s)
    ensures var t := Step(cfg, s, ProcessQueues);
            && |t.activeDownloads| <= Max(|s.activeDownloads|, cfg.maxDownloads)
            && |t.activeSeeds| <= Max(|s.activeSeeds|, cfg.maxSeeds)
            && s.activeDownloads <= t.activeDownloads && s.activeSeeds <= t.activeSeeds
  {
    hide Process, Listing;
    ProcessExact(s.download, s.activeDownloads, |s.activeDownloads|, cfg.maxDownloads);
    ProcessExact(s.seed, s.activeSeeds, |s.activeSeeds|, cfg.maxSeeds);
  }

  /**
   Where a re-added ID leads: removed once, it is still listed, has no item, and a pass activates it
   and keeps it listed.
   */
  lemma ReAddLeavesGhost(id: int, a: Item, b: Item)
    ensures var once := Add(Queue(map[], []), id, a, [id]);
            var twice := Add(once, id, b, [id, id]);
            var gone := Remove(twice, id);
            && id !in gone.items && gone.order == [id]
            && Process(gone, {}, 0, 1) == Pass(gone, {id}, 1)
  {
    var once := Add(Queue(map[], []), id, a, [id]);
    var twice := Add(once, id, b, [id, id]);
    assert RemoveFirst([id, id], id) == [id];
    var gone := Remove(twice, id);
    assert gone.items == map[];
    assert Remove(gone, id) == gone;
  }

  class QueueManager {
    const cfg: Config
    const download: TorrentQueue
    const seed: TorrentQueue
    var activeDownloads: set<int>
    var activeSeeds: set<int>

    constructor (cfg: Config)
      ensures this.cfg == cfg && Apart() && View() == EMPTY
      ensures fresh(download) && fresh(seed)
    {
      this.cfg := cfg;
      download := new TorrentQueue();
      seed := new TorrentQueue();
      activeDownloads, activeSeeds := {}, {};
    }

    ghost predicate Apart() {
      download != seed
    }

    ghost function View(): State
      reads this, download, seed
    {
      State(download.View(), seed.View(), activeDownloads, activeSeeds)
    }

    /** A step of the manager for some order the sort may produce; a panic only where a queue lists an orphan. */
    method AddToQueue(id: int, seeding: bool, priority: int, now: int) returns (panicked: bool)
      requires Apart()
      modifies download, seed
      ensures panicked <==>
        if seeding then cfg.seedsEnabled && Orphan(old(View()).seed, id)
        else cfg.downloadsEnabled && Orphan(old(View()).download, id)
      ensures !panicked ==>
        exists o :: var op := Op.AddToQueue(id, seeding, Item(0, now, priority), o);
          Sorts(cfg, old(View()), op) && View() == Step(cfg, old(View()), op)
      ensures Valid(old(View())) ==> !panicked
    {
      hide Listing, Sorting, Add, Remove, Orphan;
      panicked := false;
      ghost var item := Item(0, now, priority);
      if Valid(View()) {
        NoOrphan(download.View(), id);
        NoOrphan(seed.View(), id);
      }
      ghost var before := View();
      ghost var o := [];
      if !seeding {
        if cfg.downloadsEnabled {
          seed.RemoveUnsafe(id);
          panicked := download.Append(id, now, priority);
          if panicked { return; }
          o :| Sorting(before.download, id, item, o) && download.View() == Add(before.download, id, item, o);
        }
      } else {
        if cfg.seedsEnabled {
          download.RemoveUnsafe(id);
          panicked := seed.Append(id, now, priority);
          if panicked { return; }
          o :| Sorting(before.seed, id, item, o) && seed.View() == Add(before.seed, id, item, o);
        }
      }
      ghost var op := Op.AddToQueue(id, seeding, item, o);
      assert Sorts(cfg, before, op) && View() == Step(cfg, before, op);
    }

    method RemoveFromQueue(id: int)
      requires Apart()
      modifies this, download, seed
      ensures View() == Step(cfg, old(View()), Op.RemoveFromQueue(id))
      ensures id !in download.items && id !in seed.items
      ensures activeDownloads == old(activeDownloads) - {id} && activeSeeds == old(activeSeeds) - {id}
    {
      download.RemoveUnsafe(id);
      seed.RemoveUnsafe(id);
      activeDownloads := activeDownloads - {id};
      activeSeeds := activeSeeds - {id};
    }

    method SetQueuePosition(id: int, position: int) returns (found: bool)
      requires Apart()
      modifies download, seed
      ensures View() == Step(cfg, old(View()), Op.SetQueuePosition(id, position))
      ensures Valid(old(View())) ==> found == (id in old(View()).download.items || id in old(View()).seed.items)
    {
      hide Listing, Move;
      if Valid(View()) {
        MoveListing(download.View(), id, position);
        MoveListing(seed.View(), id, position);
      }
      if id in download.items {
        found := download.MoveTo(id, position);
      } else if id in seed.items {
        found := seed.MoveTo(id, position);
      } else {
        found := false;
      }
    }

    method ForceActivate(id: int, seeding: bool)
      requires Apart()
      modifies this, download, seed
      ensures View() == Step(cfg, old(View()), Op.ForceActivate(id, seeding))
      ensures id !in download.items && id !in seed.items
      ensures seeding ==> activeSeeds == old(activeSeeds) + {id} && activeDownloads == old(activeDownloads)
      ensures !seeding ==> activeDownloads == old(activeDownloads) + {id} && activeSeeds == old(activeSeeds)
    {
      download.RemoveUnsafe(id);
      seed.RemoveUnsafe(id);
      if seeding { activeSeeds := activeSeeds + {id}; } else { activeDownloads := activeDownloads + {id}; }
    }

    method ProcessQueues()
      requires Apart()
      modifies this, download, seed
      ensures View() == Step(cfg, old(View()), Op.ProcessQueues)
    {
      hide Process;
      var count;
      if cfg.downloadsEnabled && cfg.maxDownloads > 0 {
        activeDownloads, count := download.ProcessQueue(activeDownloads, cfg.maxDownloads);
      }
      if cfg.seedsEnabled && cfg.maxSeeds > 0 {
        activeSeeds, count := seed.ProcessQueue(activeSeeds, cfg.maxSeeds);
      }
    }
  }

  lemma NoOrphan(q: Queue, id: int)
    requires Listing(q)
    ensures !Orphan(q, id)
  {
  }
}
