/**
 The get_peers search of the DHT server: its transactions, and what every interleaving of
 responses, errors, timeouts and sends keeps.
 */
module Search {
  import opened Prelude
  import Closest
  import XorMetric

  type Id = XorMetric.Hash
  type Addr = Closest.Address
  type Node = Closest.Node

  /** A node in a response, with the answer the routing table gives if it is asked to add it. */
  datatype Listed = Listed(node: Node, added: bool)

  datatype Response = Response(values: seq<Addr>, nodes: seq<Listed>, nodes6: seq<Listed>, readOnly: bool)

  /** A query to send. `chain` is a history variable: the IDs queried from the root down to this one. */
  datatype Task = Task(addr: Addr, depth: int, visited: seq<Id>, chain: seq<Id>)

  datatype Key = Key(tid: nat, addr: Addr)

  /** A stored transaction; `serial` tells transactions apart, as their pointers do in the source. */
  datatype Transaction = Transaction(task: Task, serial: nat, time: int)

  /** `pending` holds the queries that running handlers have still to send. */
  datatype State = State(trans: map<Key, Transaction>, pending: seq<Task>, sent: nat, done: seq<nat>)

  datatype Outcome = Disabled | Failed | Sent

  datatype Op =
    | Issue(index: nat, outcome: Outcome, tid: nat, now: int)
    | Respond(key: Key, response: Response)
    | Finish(key: Key)

  // ------------------------------------------------------------ one response

  function Ids(nodes: seq<Node>): (r: seq<Id>)
    ensures |r| == |nodes|
  {
    seq(|nodes|, i requires 0 <= i < |nodes| => nodes[i].id)
  }

  /** The nodes of one list worth querying: not visited before the list, and new to the routing table. */
  function Fresh(list: seq<Listed>, visited: seq<Id>, readOnly: bool): seq<Node> {
    if list == [] then []
    else
      var rest, l := Fresh(list[..|list| - 1], visited, readOnly), list[|list| - 1];
      if l.node.id !in visited && !readOnly && l.added then rest + [l.node] else rest
  }

  predicate Mentions(list: seq<Listed>, target: Id) {
    exists i :: 0 <= i < |list| && list[i].node.id == target
  }

  /** The second list is filtered against what the first one left, and only if the first did not name the target. */
  function NewNodes(r: Response, target: Id, visited: seq<Id>): seq<Node> {
    var four := Fresh(r.nodes, visited, r.readOnly);
    if Mentions(r.nodes, target) then four
    else four + Fresh(r.nodes6, visited + Ids(four), r.readOnly)
  }

  predicate Found(r: Response, target: Id) {
    Mentions(r.nodes, target) || Mentions(r.nodes6, target)
  }

  function Children(nodes: seq<Node>, depth: int, visited: seq<Id>, chain: seq<Id>): (r: seq<Task>)
    ensures |r| == |nodes|
  {
    seq(|nodes|, i requires 0 <= i < |nodes| => Task(nodes[i].addr, depth, visited, chain + [nodes[i].id]))
  }

  /** The queries that a response to `t` leads to. */
  function Next(t: Task, r: Response, target: Id): seq<Task> {
    if r.values != [] || t.depth - 1 < 1 || Found(r, target) then []
    else
      var nodes := NewNodes(r, target, t.visited);
      Children(nodes, t.depth - 1, t.visited + Ids(nodes), t.chain)
  }

  // ------------------------------------------------------------ steps

  function Complete(s: State, key: Key): State
    requires key in s.trans
  {
    s.(trans := s.trans - {key}, done := s.done + [s.trans[key].serial])
  }

  function Send(s: State, t: Task, outcome: Outcome, tid: nat, now: int): State {
    match outcome
    case Disabled => s
    case Failed => s.(sent := s.sent + 1)
    case Sent => s.(sent := s.sent + 1, trans := s.trans[Key(tid, t.addr) := Transaction(t, s.sent, now)])
  }

  function Step(s: State, op: Op, target: Id): State {
    match op
    case Issue(i, outcome, tid, now) =>
      if i < |s.pending| then Send(s.(pending := RemoveAt(s.pending, i)), s.pending[i], outcome, tid, now) else s
    case Respond(key, r) =>
      if key in s.trans then
        Complete(s, key).(pending := s.pending + Next(s.trans[key].task, r, target))
      else s
    case Finish(key) => if key in s.trans then Complete(s, key) else s
  }

  function Run(s: State, ops: seq<Op>, target: Id): State
    decreases |ops|
  {
    if ops == [] then s else Run(Step(s, ops[0], target), ops[1..], target)
  }

  /** `GetPeers` with the closest known nodes. */
  function Start(nodes: seq<Node>, depth: int): State {
    State(map[], Children(nodes, depth, Ids(nodes), []), 0, [])
  }

  // ------------------------------------------------------------ what one step does

  /** The node at `i` was not visited and the routing table takes it. */
  predicate Taken(list: seq<Listed>, i: nat, visited: seq<Id>, readOnly: bool)
    requires i < |list|
  {
    list[i].node.id !in visited && list[i].added && !readOnly
  }

  /** Some node of the list with this ID is taken. */
  ghost predicate TakenFrom(list: seq<Listed>, id: Id, visited: seq<Id>, readOnly: bool) {
    exists i :: 0 <= i < |list| && Taken(list, i, visited, readOnly) && list[i].node.id == id
  }

  /** The query that `t` leads to for `n`: to its own address, one level deeper, one ID further down the chain. */
  predicate Asks(q: Task, n: Node, t: Task) {
    q.addr == n.addr && q.depth == t.depth - 1 && q.chain == t.chain + [n.id]
  }

  /** A node that a response to `t` makes worth asking. */
  ghost predicate Worth(n: Node, t: Task, r: Response) {
    || (exists i :: 0 <= i < |r.nodes| && Taken(r.nodes, i, t.visited, r.readOnly) && r.nodes[i].node == n)
    || (!TakenFrom(r.nodes, n.id, t.visited, r.readOnly) &&
        exists i :: 0 <= i < |r.nodes6| && Taken(r.nodes6, i, t.visited, r.readOnly) && r.nodes6[i].node == n)
  }

  /** The search goes on from a response that brings no peers, does not name the target, and is not at the end. */
  predicate GoesOn(t: Task, r: Response, target: Id) {
    && r.values == [] && t.depth >= 2
    && (forall i :: 0 <= i < |r.nodes| ==> r.nodes[i].node.id != target)
    && (forall i :: 0 <= i < |r.nodes6| ==> r.nodes6[i].node.id != target)
  }

  lemma FreshIds(list: seq<Listed>, visited: seq<Id>, readOnly: bool, id: Id)
    ensures id in Ids(Fresh(list, visited, readOnly)) <==> TakenFrom(list, id, visited, readOnly)
  {
    hide Fresh;
    FreshIsNew(list, visited, readOnly);
    var f := Fresh(list, visited, readOnly);
    if id in Ids(f) {
      var j :| 0 <= j < |f| && f[j].id == id;
      assert f[j] in f;
      var i :| 0 <= i < |list| && list[i] == Listed(f[j], true);
      assert Taken(list, i, visited, readOnly);
    }
    if TakenFrom(list, id, visited, readOnly) {
      var i :| 0 <= i < |list| && Taken(list, i, visited, readOnly) && list[i].node.id == id;
      var j :| 0 <= j < |f| && f[j] == list[i].node;
      assert Ids(f)[j] == id;
    }
  }

  lemma FreshMembers(list: seq<Listed>, visited: seq<Id>, readOnly: bool, n: Node)
    ensures n in Fresh(list, visited, readOnly) <==>
            exists i :: 0 <= i < |list| && Taken(list, i, visited, readOnly) && list[i].node == n
  {
    hide Fresh;
    FreshIsNew(list, visited, readOnly);
    if n in Fresh(list, visited, readOnly) {
      var i :| 0 <= i < |list| && list[i] == Listed(n, true);
      assert Taken(list, i, visited, readOnly);
    }
  }

  lemma NewNodesAreWorth(t: Task, r: Response, target: Id, n: Node)
    requires GoesOn(t, r, target)
    ensures n in NewNodes(r, target, t.visited) <==> Worth(n, t, r)
  {
    hide Fresh;
    var four := Fresh(r.nodes, t.visited, r.readOnly);
    FreshMembers(r.nodes, t.visited, r.readOnly, n);
    FreshMembers(r.nodes6, t.visited + Ids(four), r.readOnly, n);
    FreshIds(r.nodes, t.visited, r.readOnly, n.id);
    assert n.id in t.visited + Ids(four) <==> n.id in t.visited || n.id in Ids(four);
    forall i | 0 <= i < |r.nodes6| && r.nodes6[i].node == n
      ensures Taken(r.nodes6, i, t.visited + Ids(four), r.readOnly) <==>
              Taken(r.nodes6, i, t.visited, r.readOnly) && n.id !in Ids(four)
    {
    }
  }

  lemma NextIsChildren(t: Task, r: Response, target: Id)
    ensures GoesOn(t, r, target) ==>
      var nodes := NewNodes(r, target, t.visited);
      Next(t, r, target) == Children(nodes, t.depth - 1, t.visited + Ids(nodes), t.chain)
    ensures !GoesOn(t, r, target) ==> Next(t, r, target) == []
  {
    hide NewNodes, Children;
  }

  /** Some query of the list from `lo` on asks `n`. */
  ghost predicate Asked(p: seq<Task>, lo: nat, n: Node, t: Task) {
    exists j :: lo <= j < |p| && Asks(p[j], n, t)
  }

  /** The query asks some node worth asking. */
  ghost predicate Deserved(q: Task, t: Task, r: Response) {
    exists n :: Worth(n, t, r) && Asks(q, n, t)
  }

  /**
   What a response adds to the queries still to send: nothing where the search does not go on; where
   it does, a query for each node worth asking, and no other.
   */
  lemma FollowUps(s: State, key: Key, r: Response, target: Id)
    requires key in s.trans
    ensures var t, p := s.trans[key].task, Step(s, Respond(key, r), target).pending;
            && |s.pending| <= |p| && p[..|s.pending|] == s.pending
            && (!GoesOn(t, r, target) ==> p == s.pending)
            && (GoesOn(t, r, target) ==>
                  && (forall n :: Worth(n, t, r) ==> Asked(p, |s.pending|, n, t))
                  && (forall j :: |s.pending| <= j < |p| ==> Deserved(p[j], t, r)))
  {
    hide NewNodes, Next, Worth, GoesOn, Asked, Deserved, Children;
    var t, p := s.trans[key].task, Step(s, Respond(key, r), target).pending;
    var lo := |s.pending|;
    assert p == s.pending + Next(t, r, target);
    assert s.pending + [] == s.pending;
    NextIsChildren(t, r, target);
    if GoesOn(t, r, target) {
      forall n | Worth(n, t, r)
        ensures Asked(p, lo, n, t)
      {
        ChildAsks(s.pending, t, r, target, n);
      }
      forall j | lo <= j < |p|
        ensures Deserved(p[j], t, r)
      {
        ChildDeserves(s.pending, t, r, target, j - lo);
      }
    }
  }

  lemma ChildAsks(before: seq<Task>, t: Task, r: Response, target: Id, n: Node)
    requires GoesOn(t, r, target) && Worth(n, t, r)
    ensures Asked(before + Next(t, r, target), |before|, n, t)
  {
    hide NewNodes, Next, Worth, GoesOn;
    NextIsChildren(t, r, target);
    NewNodesAreWorth(t, r, target, n);
    var nodes := NewNodes(r, target, t.visited);
    var i :| 0 <= i < |nodes| && nodes[i] == n;
    assert Asks((before + Next(t, r, target))[|before| + i], n, t);
  }

  lemma ChildDeserves(before: seq<Task>, t: Task, r: Response, target: Id, j: nat)
    requires GoesOn(t, r, target) && j < |Next(t, r, target)|
    ensures Deserved((before + Next(t, r, target))[|before| + j], t, r)
  {
    hide NewNodes, Next, Worth, GoesOn;
    NextIsChildren(t, r, target);
    var n := NewNodes(r, target, t.visited)[j];
    NewNodesAreWorth(t, r, target, n);
    assert Asks((before + Next(t, r, target))[|before| + j], n, t);
  }

  /** Every follow-up query knows what its parent knew and the IDs of all queries it was made with, and nothing more. */
  lemma FollowUpsVisited(s: State, key: Key, r: Response, target: Id, j: nat, id: Id)
    requires key in s.trans && |s.pending| <= j < |Step(s, Respond(key, r), target).pending|
    ensures var t, p := s.trans[key].task, Step(s, Respond(key, r), target).pending;
            id in p[j].visited <==>
              id in t.visited || exists i :: |s.pending| <= i < |p| && p[i].chain == t.chain + [id]
  {
    hide NewNodes, Next, GoesOn;
    var t, p := s.trans[key].task, Step(s, Respond(key, r), target).pending;
    assert p == s.pending + Next(t, r, target);
    NextIsChildren(t, r, target);
    var nodes := NewNodes(r, target, t.visited);
    assert p[j].visited == t.visited + Ids(nodes);
    if id in Ids(nodes) {
      var i :| 0 <= i < |nodes| && nodes[i].id == id;
      assert p[|s.pending| + i].chain == t.chain + [id];
    }
    forall i | |s.pending| <= i < |p| && p[i].chain == t.chain + [id]
      ensures id in Ids(nodes)
    {
      assert p[i].chain[|t.chain|] == nodes[i - |s.pending|].id;
      assert Ids(nodes)[i - |s.pending|] == id;
    }
  }

  /**
   A query is taken off the list once. Unless its address family is off it counts as sent; only if
   the send succeeds is it stored, under its own id and address, where one later message finds it.
   */
  lemma SendLaw(s: State, i: nat, outcome: Outcome, tid: nat, now: int, target: Id)
    requires i < |s.pending|
    ensures var t := s.pending[i];
            var key := Key(tid, t.addr);
            var n := Step(s, Issue(i, outcome, tid, now), target);
            && multiset(s.pending) == multiset(n.pending) + multiset{t} && n.done == s.done
            && n.sent == s.sent + (if outcome == Disabled then 0 else 1)
            && (outcome != Sent ==> n.trans == s.trans)
            && (outcome == Sent ==>
                  && key in n.trans && n.trans[key].task == t
                  && n.trans[key].time == now && n.trans[key].serial == s.sent
                  && n.trans - {key} == s.trans - {key})
  {
    RemoveMultiset(s.pending, i);
    assert s.pending[..i] + s.pending[i + 1..] == RemoveAt(s.pending, i);
  }

  /** A message for a stored transaction takes it out and completes it; one for no stored transaction does nothing. */
  lemma CompletionLaw(s: State, key: Key, r: Response, target: Id)
    ensures var a, b := Step(s, Respond(key, r), target), Step(s, Finish(key), target);
            && a.trans == b.trans == s.trans - {key} && a.sent == b.sent == s.sent
            && (key in s.trans ==> a.done == b.done == s.done + [s.trans[key].serial])
            && (key !in s.trans ==> a == b == s)
            && b.pending == s.pending
  {
    hide Next;
    assert key !in s.trans ==> s.trans - {key} == s.trans;
  }

  /** A search starts with one query for each node, at its address, with every node's ID visited. */
  lemma StartLaw(nodes: seq<Node>, depth: int, i: nat, id: Id)
    requires i < |nodes|
    ensures var s := Start(nodes, depth);
            && s.trans == map[] && s.sent == 0 && s.done == [] && |s.pending| == |nodes|
            && s.pending[i].addr == nodes[i].addr && s.pending[i].depth == depth && s.pending[i].chain == [nodes[i].id]
            && (id in s.pending[i].visited <==> exists j :: 0 <= j < |nodes| && nodes[j].id == id)
  {
    assert [] + [nodes[i].id] == [nodes[i].id];
    if exists j :: 0 <= j < |nodes| && nodes[j].id == id {
      var j :| 0 <= j < |nodes| && nodes[j].id == id;
      assert Ids(nodes)[j] == id;
    }
  }

  // ------------------------------------------------------------ the number of queries

  function Power(b: nat, n: nat): nat {
    if n == 0 then 1 else b * Power(b, n - 1)
  }

  /** The geometric sum of the powers of `b` below `n`. */
  function Geometric(b: nat, n: nat): nat {
    if n == 0 then 0 else Geometric(b, n - 1) + Power(b, n - 1)
  }

  lemma {:induction false} GeometricUnfold(b: nat, n: nat)
    ensures Geometric(b, n + 1) == 1 + b * Geometric(b, n)
  {
    if n == 0 {
    } else {
      GeometricUnfold(b, n - 1);
      calc {
        Geometric(b, n + 1);
        1 + b * Geometric(b, n - 1) + b * Power(b, n - 1);
        1 + b * (Geometric(b, n - 1) + Power(b, n - 1));
      }
    }
  }

  /** The most queries that one query of this depth can lead to, itself included. */
  function Weight(b: nat, depth: int): (w: nat)
    ensures w >= 1
  {
    if depth <= 1 then 1
    else
      GeometricUnfold(b, depth - 1);
      Geometric(b, depth)
  }

  lemma WeightUnfold(b: nat, depth: int)
    requires depth > 1
    ensures Weight(b, depth) == 1 + b * Weight(b, depth - 1)
  {
    GeometricUnfold(b, depth - 1);
    if depth == 2 { assert Power(b, 0) == 1 && Geometric(b, 1) == 1; }
  }

  function Waiting(b: nat, tasks: seq<Task>): nat {
    if tasks == [] then 0 else Weight(b, tasks[0].depth) + Waiting(b, tasks[1..])
  }

  /** What the stored transactions can still lead to. */
  ghost function Load(b: nat, m: map<Key, Transaction>): nat {
    if m == map[] then 0
    else
      var k :| k in m;
      Weight(b, m[k].task.depth) - 1 + Load(b, m - {k})
  }

  lemma {:induction false} LoadRemove(b: nat, m: map<Key, Transaction>, k: Key)
    requires k in m
    ensures Load(b, m) == Weight(b, m[k].task.depth) - 1 + Load(b, m - {k})
    decreases |m|
  {
    var c :| c in m && Load(b, m) == Weight(b, m[c].task.depth) - 1 + Load(b, m - {c});
    if c != k {
      LoadRemove(b, m - {c}, k);
      LoadRemove(b, m - {k}, c);
      assert m - {c} - {k} == m - {k} - {c};
    }
  }

  lemma LoadInsert(b: nat, m: map<Key, Transaction>, k: Key, t: Transaction)
    ensures Load(b, m[k := t]) <= Load(b, m) + Weight(b, t.task.depth) - 1
    ensures |m[k := t]| <= |m| + 1
  {
    var n := m[k := t];
    LoadRemove(b, n, k);
    assert n - {k} == m - {k};
    if k in m {
      LoadRemove(b, m, k);
      assert n.Keys == m.Keys;
    } else {
      assert m - {k} == m && n.Keys == m.Keys + {k};
    }
  }

  lemma {:induction false} WaitingAppend(b: nat, x: seq<Task>, y: seq<Task>)
    ensures Waiting(b, x + y) == Waiting(b, x) + Waiting(b, y)
  {
    if x == [] {
      assert x + y == y;
    } else {
      assert (x + y)[1..] == x[1..] + y;
      WaitingAppend(b, x[1..], y);
    }
  }

  lemma WaitingRemove(b: nat, x: seq<Task>, i: nat)
    requires i < |x|
    ensures Waiting(b, x) == Waiting(b, RemoveAt(x, i)) + Weight(b, x[i].depth)
  {
    assert x == x[..i] + ([x[i]] + x[i + 1..]);
    WaitingAppend(b, x[..i], [x[i]] + x[i + 1..]);
    WaitingAppend(b, [x[i]], x[i + 1..]);
    WaitingAppend(b, x[..i], x[i + 1..]);
  }

  lemma {:induction false} WaitingUniform(b: nat, x: seq<Task>, depth: int)
    requires forall t :: t in x ==> t.depth == depth
    ensures Waiting(b, x) == |x| * Weight(b, depth)
  {
    if x == [] {
    } else {
      assert x[0] in x;
      WaitingUniform(b, x[1..], depth);
      assert |x| * Weight(b, depth) == Weight(b, depth) + (|x| - 1) * Weight(b, depth);
    }
  }

  lemma ChildrenWeight(b: nat, nodes: seq<Node>, depth: int, visited: seq<Id>, chain: seq<Id>)
    ensures Waiting(b, Children(nodes, depth, visited, chain)) == |nodes| * Weight(b, depth)
  {
    WaitingUniform(b, Children(nodes, depth, visited, chain), depth);
  }

  /** A response leads to no more than the transaction was reckoned for. */
  lemma NextWeight(b: nat, t: Task, r: Response, target: Id)
    requires |NewNodes(r, target, t.visited)| <= b
    ensures Waiting(b, Next(t, r, target)) <= Weight(b, t.depth) - 1
  {
    hide Weight, NewNodes, Found, Children;
    var nodes := NewNodes(r, target, t.visited);
    if Next(t, r, target) != [] {
      ChildrenWeight(b, nodes, t.depth - 1, t.visited + Ids(nodes), t.chain);
      WeightUnfold(b, t.depth);
      assert |nodes| * Weight(b, t.depth - 1) <= b * Weight(b, t.depth - 1);
    }
  }

  /** Queries still possible. */
  ghost function Potential(b: nat, s: State): nat {
    Waiting(b, s.pending) + Load(b, s.trans)
  }

  /** No response of the run brings more than `b` new nodes. */
  predicate Bounded(b: nat, s: State, op: Op, target: Id) {
    match op
    case Respond(key, r) => key in s.trans ==> |NewNodes(r, target, s.trans[key].task.visited)| <= b
    case _ => true
  }

  predicate BoundedRun(b: nat, s: State, ops: seq<Op>, target: Id)
    decreases |ops|
  {
    ops == [] || (Bounded(b, s, ops[0], target) && BoundedRun(b, Step(s, ops[0], target), ops[1..], target))
  }

  /** Twice the potential plus the stored transactions: every step that changes the state lowers it. */
  ghost function Fuel(b: nat, s: State): nat {
    2 * Potential(b, s) + |s.trans|
  }

  lemma IssueCosts(b: nat, s: State, i: nat, outcome: Outcome, tid: nat, now: int, target: Id)
    requires i < |s.pending|
    ensures var n := Step(s, Issue(i, outcome, tid, now), target);
            n.sent + Potential(b, n) <= s.sent + Potential(b, s) && Fuel(b, n) < Fuel(b, s)
  {
    hide Weight, Waiting, Load;
    WaitingRemove(b, s.pending, i);
    LoadInsert(b, s.trans, Key(tid, s.pending[i].addr), Transaction(s.pending[i], s.sent, now));
  }

  lemma CompletionCosts(b: nat, s: State, key: Key, next: seq<Task>)
    requires key in s.trans && Waiting(b, next) <= Weight(b, s.trans[key].task.depth) - 1
    ensures var n := Complete(s, key).(pending := s.pending + next);
            n.sent + Potential(b, n) <= s.sent + Potential(b, s) && Fuel(b, n) < Fuel(b, s)
  {
    hide Weight, Waiting, Load;
    LoadRemove(b, s.trans, key);
    WaitingAppend(b, s.pending, next);
    assert (s.trans - {key}).Keys == s.trans.Keys - {key};
  }

  lemma StepCosts(b: nat, s: State, op: Op, target: Id)
    requires Bounded(b, s, op, target)
    ensures var n := Step(s, op, target);
            n.sent + Potential(b, n) <= s.sent + Potential(b, s) && (n != s ==> Fuel(b, n) < Fuel(b, s))
  {
    hide Weight, Load, NewNodes, Next, Potential, Fuel;
    match op
    case Issue(i, outcome, tid, now) =>
      if i < |s.pending| { IssueCosts(b, s, i, outcome, tid, now, target); }
    case Respond(key, r) =>
      if key in s.trans {
        NextWeight(b, s.trans[key].task, r, target);
        CompletionCosts(b, s, key, Next(s.trans[key].task, r, target));
      }
    case Finish(key) =>
      if key in s.trans {
        CompletionCosts(b, s, key, []);
        assert s.pending + [] == s.pending;
      }
  }

  /** The steps of a run that change anything. */
  function Effective(s: State, ops: seq<Op>, target: Id): nat
    decreases |ops|
  {
    if ops == [] then 0
    else
      var n := Step(s, ops[0], target);
      (if n == s then 0 else 1) + Effective(n, ops[1..], target)
  }

  lemma {:induction false} RunCosts(b: nat, s: State, ops: seq<Op>, target: Id)
    requires BoundedRun(b, s, ops, target)
    ensures var n := Run(s, ops, target); n.sent + Potential(b, n) <= s.sent + Potential(b, s)
    ensures Effective(s, ops, target) <= Fuel(b, s)
    decreases |ops|
  {
    hide Step, Bounded, Potential, Fuel;
    if ops == [] {
    } else {
      StepCosts(b, s, ops[0], target);
      RunCosts(b, Step(s, ops[0], target), ops[1..], target);
    }
  }

  /**
   However responses, errors, timeouts and sends interleave, a search from `n` nodes at depth `d`
   sends at most n (1 + b + ... + b^(d-1)) queries when no response brings more than `b` new nodes,
   and is over after twice as many steps that do anything.
   */
  lemma SearchIsFinite(nodes: seq<Node>, depth: int, ops: seq<Op>, target: Id, b: nat)
    requires BoundedRun(b, Start(nodes, depth), ops, target)
    ensures var most := |nodes| * (if depth <= 1 then 1 else Geometric(b, depth));
            && Run(Start(nodes, depth), ops, target).sent <= most
            && Effective(Start(nodes, depth), ops, target) <= 2 * most
  {
    hide Run, BoundedRun, Effective, Geometric;
    RunCosts(b, Start(nodes, depth), ops, target);
    ChildrenWeight(b, nodes, depth, Ids(nodes), []);
  }

  // ------------------------------------------------------------ what a chain keeps

  /** Every ID on the chain is marked visited, none is there twice, and the chain has grown as the depth has shrunk. */
  ghost predicate Honest(t: Task, depth: int) {
    && NoDuplicates(t.chain) && Elements(t.chain) <= Elements(t.visited)
    && |t.chain| >= 1 && |t.chain| + t.depth == depth + 1 && (t.depth >= 1 || |t.chain| == 1)
  }

  lemma {:induction false} FreshIsNew(list: seq<Listed>, visited: seq<Id>, readOnly: bool)
    ensures forall n :: n in Fresh(list, visited, readOnly) ==>
              n.id !in visited && !readOnly && exists i :: 0 <= i < |list| && list[i] == Listed(n, true)
    ensures forall i :: 0 <= i < |list| && list[i].node.id !in visited && list[i].added && !readOnly ==>
              list[i].node in Fresh(list, visited, readOnly)
    ensures |Fresh(list, visited, readOnly)| <= |list|
  {
    if list == [] {
    } else {
      var init := list[..|list| - 1];
      FreshIsNew(init, visited, readOnly);
      assert forall i :: 0 <= i < |list| ==> list[i] == list[|list| - 1] || list[i] == init[i];
    }
  }

  lemma NewNodesAreNew(r: Response, target: Id, visited: seq<Id>, i: nat)
    requires i < |NewNodes(r, target, visited)|
    ensures NewNodes(r, target, visited)[i].id !in visited
  {
    hide Fresh;
    var four := Fresh(r.nodes, visited, r.readOnly);
    FreshIsNew(r.nodes, visited, r.readOnly);
    FreshIsNew(r.nodes6, visited + Ids(four), r.readOnly);
    assert forall x :: x in visited ==> x in visited + Ids(four);
  }

  lemma ChainGrows(chain: seq<Id>, id: Id, visited: seq<Id>, more: seq<Id>)
    requires NoDuplicates(chain) && Elements(chain) <= Elements(visited) && id !in visited && id in more
    ensures NoDuplicates(chain + [id]) && Elements(chain + [id]) <= Elements(visited + more)
  {
    assert forall x :: x in chain ==> x in Elements(chain);
    assert forall x :: x in chain ==> x in visited;
    ElementsAppend(chain, id);
  }

  lemma NextHonest(t: Task, r: Response, target: Id, depth: int, k: nat)
    requires Honest(t, depth) && k < |Next(t, r, target)|
    ensures Honest(Next(t, r, target)[k], depth)
  {
    hide NewNodes, Found;
    var nodes := NewNodes(r, target, t.visited);
    NewNodesAreNew(r, target, t.visited, k);
    assert Ids(nodes)[k] == nodes[k].id;
    ChainGrows(t.chain, nodes[k].id, t.visited, Ids(nodes));
  }

  ghost predicate AllHonest(s: State, depth: int) {
    && (forall i :: 0 <= i < |s.pending| ==> Honest(s.pending[i], depth))
    && (forall k :: k in s.trans ==> Honest(s.trans[k].task, depth))
  }

  lemma StepHonest(s: State, op: Op, target: Id, depth: int)
    requires AllHonest(s, depth)
    ensures AllHonest(Step(s, op, target), depth)
  {
    hide Honest, Next;
    if op.Respond? && op.key in s.trans {
      var t := s.trans[op.key].task;
      forall k | 0 <= k < |Next(t, op.response, target)|
        ensures Honest(Next(t, op.response, target)[k], depth)
      {
        NextHonest(t, op.response, target, depth, k);
      }
    }
  }

  // ------------------------------------------------------------ completions

  /** Serial numbers are fresh; a transaction is either stored once or completed once. */
  ghost predicate Accounted(s: State) {
    && (forall k :: k in s.trans ==> s.trans[k].serial < s.sent && s.trans[k].serial !in s.done)
    && (forall k, j :: k in s.trans && j in s.trans && s.trans[k].serial == s.trans[j].serial ==> k == j)
    && (forall x :: x in s.done ==> x < s.sent) && NoDuplicates(s.done)
  }

  lemma PendingIsFree(s: State, pending: seq<Task>)
    requires Accounted(s)
    ensures Accounted(s.(pending := pending))
  {
  }

  lemma SendAccounted(s: State, t: Task, outcome: Outcome, tid: nat, now: int)
    requires Accounted(s)
    ensures Accounted(Send(s, t, outcome, tid, now))
  {
  }

  lemma CompleteAccounted(s: State, key: Key)
    requires Accounted(s) && key in s.trans
    ensures Accounted(Complete(s, key))
  {
  }

  lemma StepAccounted(s: State, op: Op, target: Id)
    requires Accounted(s)
    ensures Accounted(Step(s, op, target))
  {
    hide Accounted, Next, RemoveAt;
    match op
    case Issue(i, outcome, tid, now) =>
      if i < |s.pending| {
        PendingIsFree(s, RemoveAt(s.pending, i));
        SendAccounted(s.(pending := RemoveAt(s.pending, i)), s.pending[i], outcome, tid, now);
      }
    case Respond(key, r) =>
      if key in s.trans {
        CompleteAccounted(s, key);
        PendingIsFree(Complete(s, key), s.pending + Next(s.trans[key].task, r, target));
      }
    case Finish(key) =>
      if key in s.trans { CompleteAccounted(s, key); }
  }

  lemma {:induction false} RunKeeps(s: State, ops: seq<Op>, target: Id, depth: int)
    requires AllHonest(s, depth) && Accounted(s)
    ensures AllHonest(Run(s, ops, target), depth) && Accounted(Run(s, ops, target))
    decreases |ops|
  {
    hide Step, AllHonest, Accounted;
    if ops == [] {
    } else {
      StepHonest(s, ops[0], target, depth);
      StepAccounted(s, ops[0], target);
      RunKeeps(Step(s, ops[0], target), ops[1..], target, depth);
    }
  }

  lemma StartHonest(nodes: seq<Node>, depth: int)
    ensures AllHonest(Start(nodes, depth), depth) && Accounted(Start(nodes, depth))
  {
    forall i | 0 <= i < |nodes|
      ensures Honest(Children(nodes, depth, Ids(nodes), [])[i], depth)
    {
      assert Ids(nodes)[i] == nodes[i].id;
      assert [] + [nodes[i].id] == [nodes[i].id];
    }
  }

  /**
   In every state a search can reach: no chain of queries meets an ID twice or is longer than the
   search is deep, and no stored transaction has been completed, nor any transaction twice.
   */
  lemma SearchIsSound(nodes: seq<Node>, depth: int, ops: seq<Op>, target: Id)
    ensures var s := Run(Start(nodes, depth), ops, target);
            && Accounted(s)
            && (forall i :: 0 <= i < |s.pending| ==>
               NoDuplicates(s.pending[i].chain) && |s.pending[i].chain| <= Max(1, depth))
            && (forall k :: k in s.trans ==>
               NoDuplicates(s.trans[k].task.chain) && |s.trans[k].task.chain| <= Max(1, depth))
  {
    hide Run, Start, Accounted;
    StartHonest(nodes, depth);
    RunKeeps(Start(nodes, depth), ops, target, depth);
  }
}
