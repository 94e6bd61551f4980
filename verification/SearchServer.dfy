/** The part of the DHT server that runs a get_peers search, one handler at a time, against the steps of `Search`. */
module SearchServer {
  import opened Prelude
  import opened Search

  /** What the network and the clock answer for the i-th query that a handler sends. */
  type Oracle = nat -> (Outcome, int)

  /** Transaction ids come from a 32-bit counter that wraps around. */
  function NextId(tid: nat): nat {
    (tid + 1) % 0x1_0000_0000
  }

  /** The id `n` requests later. */
  function IdAfter(tid: nat, n: nat): nat {
    if n == 0 then tid else NextId(IdAfter(tid, n - 1))
  }

  lemma {:induction false} IdAfterIs(tid: nat, n: nat) returns (q: nat)
    requires tid < 0x1_0000_0000
    ensures tid + n == 0x1_0000_0000 * q + IdAfter(tid, n) && IdAfter(tid, n) < 0x1_0000_0000
  {
    if n == 0 {
      q := 0;
    } else {
      q := IdAfterIs(tid, n - 1);
      var x := IdAfter(tid, n - 1);
      assert IdAfter(tid, n) == if x == 0xffff_ffff then 0 else x + 1;
      if x == 0xffff_ffff { q := q + 1; }
    }
  }

  /** Fewer than 2^32 requests apart, two requests have different ids. */
  lemma IdsDiffer(tid: nat, m: nat, n: nat)
    requires tid < 0x1_0000_0000 && m < n < m + 0x1_0000_0000
    ensures IdAfter(tid, m) != IdAfter(tid, n)
  {
    var p := IdAfterIs(tid, m);
    var q := IdAfterIs(tid, n);
    if p < q {
      assert 0x1_0000_0000 * q >= 0x1_0000_0000 * p + 0x1_0000_0000;
    } else {
      assert 0x1_0000_0000 * q <= 0x1_0000_0000 * p;
    }
  }

  /** The sends of one uninterrupted handler, each of the first query still pending. */
  function Sends(oracle: Oracle, i: nat, n: nat, tid: nat): seq<Op>
    requires i <= n
    decreases n - i
  {
    if i == n then []
    else
      var (outcome, now) := oracle(i);
      [Issue(0, outcome, NextId(tid), now)] + Sends(oracle, i + 1, n, if outcome.Disabled? then tid else NextId(tid))
  }

  /** How many of the `k` sends from the i-th on take an id: those whose address family is not off. */
  function Used(oracle: Oracle, i: nat, k: nat): (u: nat)
    ensures u <= k
    decreases k
  {
    if k == 0 then 0 else (if oracle(i).0.Disabled? then 0 else 1) + Used(oracle, i + 1, k - 1)
  }

  lemma {:induction false} IdAfterNext(tid: nat, n: nat)
    ensures IdAfter(NextId(tid), n) == IdAfter(tid, n + 1)
  {
    hide NextId;
    if n == 0 {
      assert IdAfter(tid, 1) == NextId(IdAfter(tid, 0));
    } else {
      IdAfterNext(tid, n - 1);
    }
  }

  /** The k-th send has the id that the sends before it leave. */
  lemma {:induction false} SendAt(oracle: Oracle, i: nat, n: nat, tid: nat, k: nat)
    requires i + k < n
    ensures |Sends(oracle, i, n, tid)| == n - i
    ensures Sends(oracle, i, n, tid)[k] ==
      Issue(0, oracle(i + k).0, IdAfter(tid, Used(oracle, i, k) + 1), oracle(i + k).1)
    decreases n - i
  {
    hide NextId;
    SendsLength(oracle, i, n, tid);
    if k == 0 {
      assert IdAfter(tid, 1) == NextId(IdAfter(tid, 0));
    } else {
      var left := if oracle(i).0.Disabled? then tid else NextId(tid);
      SendAt(oracle, i + 1, n, left, k - 1);
      IdAfterNext(tid, Used(oracle, i + 1, k - 1) + 1);
    }
  }

  lemma {:induction false} SendsLength(oracle: Oracle, i: nat, n: nat, tid: nat)
    requires i <= n
    ensures |Sends(oracle, i, n, tid)| == n - i
    decreases n - i
  {
    if i < n {
      SendsLength(oracle, i + 1, n, if oracle(i).0.Disabled? then tid else NextId(tid));
    }
  }

  lemma {:induction false} UsedBetween(oracle: Oracle, i: nat, j: nat, k: nat)
    requires j < k && !oracle(i + j).0.Disabled?
    ensures Used(oracle, i, j) < Used(oracle, i, k) <= Used(oracle, i, j) + k - j
    decreases j
  {
    if j > 0 { UsedBetween(oracle, i + 1, j - 1, k - 1); }
  }

  /** Two queries of one handler that go out have different ids. */
  lemma SendsDiffer(oracle: Oracle, n: nat, tid: nat, j: nat, k: nat)
    requires tid < 0x1_0000_0000 && j < k < n < 0x1_0000_0000 && !oracle(j).0.Disabled?
    ensures |Sends(oracle, 0, n, tid)| == n && Sends(oracle, 0, n, tid)[j].Issue? && Sends(oracle, 0, n, tid)[k].Issue?
    ensures Sends(oracle, 0, n, tid)[j].tid != Sends(oracle, 0, n, tid)[k].tid
  {
    hide Sends, IdAfter, Used;
    SendAt(oracle, 0, n, tid, j);
    SendAt(oracle, 0, n, tid, k);
    UsedBetween(oracle, 0, j, k);
    IdsDiffer(tid, Used(oracle, 0, j) + 1, Used(oracle, 0, k) + 1);
  }

  /** The transactions that are not among those finished. */
  function Minus(m: map<Key, Transaction>, order: seq<Key>): map<Key, Transaction> {
    map k | k in m && k !in order :: m[k]
  }

  lemma MinusNone(m: map<Key, Transaction>)
    ensures Minus(m, []) == m
  {
  }

  lemma MinusOne(m: map<Key, Transaction>, order: seq<Key>, k: Key)
    requires k in m && k !in order
    ensures k in Minus(m, order) && Minus(m, order)[k] == m[k]
    ensures Minus(m, order + [k]) == Minus(m, order) - {k}
  {
  }

  function Finishes(keys: seq<Key>): seq<Op> {
    seq(|keys|, i requires 0 <= i < |keys| => Finish(keys[i]))
  }

  predicate Expired(t: Transaction, now: int, interval: int) {
    now - t.time > interval
  }

  lemma ZeroIff(id: Id)
    ensures IsZero(id) <==> id == seq(|id|, _ => 0)
  {
  }

  predicate IsZero(id: Id) {
    forall i :: 0 <= i < |id| ==> id[i] == 0
  }

  lemma {:induction false} RunAppend(s: State, a: seq<Op>, b: seq<Op>, target: Id)
    ensures Run(s, a + b, target) == Run(Run(s, a, target), b, target)
    decreases |a|
  {
    if a == [] {
      assert a + b == b;
    } else {
      assert (a + b)[1..] == a[1..] + b;
      RunAppend(Step(s, a[0], target), a[1..], b, target);
    }
  }

  /** One list of a response: what is new in it goes to `nodes` and to the visited IDs. */
  method ProcessNodeList(list: seq<Listed>, target: Id, ids: seq<Id>, readOnly: bool, nodes: seq<Node>,
      visited: seq<Id>)
    returns (found: bool, moreNodes: seq<Node>, updated: seq<Id>)
    ensures found == Mentions(list, target)
    ensures moreNodes == nodes + Fresh(list, ids, readOnly)
    ensures updated == visited + Ids(Fresh(list, ids, readOnly))
  {
    found, moreNodes, updated := false, nodes, visited;
    for i := 0 to |list|
      invariant found == Mentions(list[..i], target)
      invariant moreNodes == nodes + Fresh(list[..i], ids, readOnly)
      invariant updated == visited + Ids(Fresh(list[..i], ids, readOnly))
    {
      assert list[..i + 1][..i] == list[..i];
      assert Mentions(list[..i + 1], target) <==> Mentions(list[..i], target) || list[i].node.id == target by {
        assert list[..i + 1][i] == list[i];
        assert forall j :: 0 <= j < i ==> list[..i + 1][j] == list[..i][j];
      }
      var node := list[i].node;
      if node.id == target { found := true; }
      if node.id in ids { continue; }
      if !readOnly && list[i].added {
        moreNodes := moreNodes + [node];
        updated := updated + [node.id];
      }
    }
    assert list[..|list|] == list;
  }

  method ProcessResponseNodes(t: Task, r: Response, target: Id) returns (found: bool, nodes: seq<Node>, ids: seq<Id>)
    ensures found == Found(r, target)
    ensures nodes == NewNodes(r, target, t.visited) && ids == t.visited + Ids(nodes)
  {
    hide Fresh, Mentions;
    found, nodes, ids := ProcessNodeList(r.nodes, target, t.visited, r.readOnly, [], t.visited);
    if !found {
      found, nodes, ids := ProcessNodeList(r.nodes6, target, ids, r.readOnly, nodes, ids);
    }
  }

  class Server {
    var trans: map<Key, Transaction>
    var tid: nat
    // A record of the queries sent and of the transactions completed; the source keeps neither.
    var sent: nat
    var done: seq<nat>

    ghost function View(pending: seq<Task>): State
      reads this
    {
      State(trans, pending, sent, done)
    }

    constructor ()
      ensures View([]) == State(map[], [], 0, []) && tid == 0
    {
      trans, tid, sent, done := map[], 0, 0, [];
    }

    method PopTransaction(key: Key) returns (t: Option<Transaction>)
      modifies `trans
      ensures t == if key in old(trans) then Some(old(trans)[key]) else None
      ensures trans == old(trans) - {key}
    {
      t := None;
      if key in trans {
        t := Some(trans[key]);
        trans := trans - {key};
      }
    }

    /** `getPeers` and `request`: a query gets an id unless its address family is off, and is stored if it was sent. */
    method Request(t: Task, oracle: Oracle, i: nat, ghost pending: seq<Task>, ghost target: Id)
      modifies this
      ensures var (outcome, now) := oracle(i);
              && View(pending) == Step(old(View([t] + pending)), Issue(0, outcome, NextId(old(tid)), now), target)
              && tid == (if outcome.Disabled? then old(tid) else NextId(old(tid)))
    {
      assert RemoveAt([t] + pending, 0) == pending;
      var (outcome, now) := oracle(i);
      if outcome.Disabled? { return; }
      tid := NextId(tid);
      if outcome.Sent? { trans := trans[Key(tid, t.addr) := Transaction(t, sent, now)]; }
      sent := sent + 1;
    }

    method ContinueRecursiveSearch(nodes: seq<Node>, depth: int, ids: seq<Id>, chain: seq<Id>, oracle: Oracle,
        ghost target: Id)
      modifies this
      ensures View([]) ==
        Run(old(View(Children(nodes, depth, ids, chain))), Sends(oracle, 0, |nodes|, old(tid)), target)
    {
      hide Step;
      ghost var tasks := Children(nodes, depth, ids, chain);
      ghost var goal := Run(View(tasks), Sends(oracle, 0, |nodes|, tid), target);
      assert tasks[0..] == tasks;
      for i := 0 to |nodes|
        invariant Run(View(tasks[i..]), Sends(oracle, i, |nodes|, tid), target) == goal
      {
        assert tasks[i..] == [tasks[i]] + tasks[i + 1..];
        assert Sends(oracle, i, |nodes|, tid)[1..] ==
               Sends(oracle, i + 1, |nodes|, if oracle(i).0.Disabled? then tid else NextId(tid));
        Request(Task(nodes[i].addr, depth, ids, chain + [nodes[i].id]), oracle, i, tasks[i + 1..], target);
      }
    }

    /** The response handler of a transaction taken from the store. */
    method OnGetPeersResp(t: Transaction, r: Response, target: Id, oracle: Oracle)
      modifies this
      ensures var next := Next(t.task, r, target);
              View([]) == Run(old(View([])).(pending := next, done := old(done) + [t.serial]),
                              Sends(oracle, 0, |next|, old(tid)), target)
    {
      hide Fresh, Mentions, NewNodes, Found, Step;
      done := done + [t.serial];
      if r.values != [] { return; }
      var depth := t.task.depth - 1;
      if depth < 1 { return; }
      var found, nodes, ids := ProcessResponseNodes(t.task, r, target);
      if found || |nodes| == 0 { return; }
      ContinueRecursiveSearch(nodes, depth, ids, t.task.chain, oracle, target);
    }

    /** A response is the response step, followed by the handler's own sends; an unknown one changes nothing. */
    method HandleResponse(key: Key, r: Response, target: Id, oracle: Oracle)
      modifies this
      ensures var next := if key in old(trans) then Next(old(trans)[key].task, r, target) else [];
              View([]) == Run(old(View([])), [Respond(key, r)] + Sends(oracle, 0, |next|, old(tid)), target)
    {
      hide Next;
      ghost var next := if key in trans then Next(trans[key].task, r, target) else [];
      ghost var s0, tid0 := View([]), tid;
      RunAppend(s0, [Respond(key, r)], Sends(oracle, 0, |next|, tid), target);
      assert [Respond(key, r)][1..] == [];
      assert [] + next == next;
      assert key !in trans ==> trans - {key} == trans;
      var t := PopTransaction(key);
      if t.Some? {
        OnGetPeersResp(t.value, r, target, oracle);
      }
    }

    /**
     `handleResponseMessage`: a response without a sender's ID, or from a known ID at another
     address, is dropped before the store is looked at.
     */
    method HandleResponseMessage(key: Key, r: Response, sender: Id, changed: bool, target: Id, oracle: Oracle)
      modifies this
      ensures IsZero(sender) || changed ==> View([]) == old(View([])) && tid == old(tid)
      ensures !IsZero(sender) && !changed ==>
        var next := if key in old(trans) then Next(old(trans)[key].task, r, target) else [];
        View([]) == Run(old(View([])), [Respond(key, r)] + Sends(oracle, 0, |next|, old(tid)), target)
    {
      hide Next, Run, Sends;
      if !IsZero(sender) {
        if changed { return; }
        HandleResponse(key, r, target, oracle);
      }
    }

    method HandleError(key: Key, ghost target: Id)
      modifies this
      ensures View([]) == Step(old(View([])), Finish(key), target)
    {
      assert key !in trans ==> trans - {key} == trans;
      var t := PopTransaction(key);
      if t.Some? { done := done + [t.value.serial]; }
    }

    /** Every expired transaction is completed once, in some order, and no other is touched. */
    method CleanupExpired(now: int, interval: int, ghost target: Id) returns (ghost order: seq<Key>)
      modifies this
      ensures View([]) == Run(old(View([])), Finishes(order), target) && NoDuplicates(order)
      ensures forall k :: k in order <==> k in old(trans) && now - old(trans)[k].time > interval
      ensures trans == map k | k in old(trans) && now - old(trans)[k].time <= interval :: old(trans)[k]
    {
      var keys := trans.Keys;
      order := [];
      ghost var s0 := View([]);
      MinusNone(trans);
      while keys != {}
        invariant keys <= old(trans).Keys && NoDuplicates(order)
        invariant forall k :: k in order <==> k in old(trans) && k !in keys && Expired(old(trans)[k], now, interval)
        invariant trans == Minus(old(trans), order)
        invariant View([]) == Run(s0, Finishes(order), target)
        decreases |keys|
      {
        hide Run, Minus;
        var k :| k in keys;
        MinusOne(old(trans), order, k);
        keys := keys - {k};
        if Expired(trans[k], now, interval) {
          FinishOne(s0, order, k, target);
          done := done + [trans[k].serial];
          trans := trans - {k};
          order := order + [k];
        }
      }
    }

    /** `GetPeers` asks every closest node; with none it only reports the empty result. A zero infohash is a panic. */
    method GetPeers(target: Id, nodes: seq<Node>, depth: int, oracle: Oracle) returns (empty: bool, panicked: bool)
      modifies this
      ensures panicked == IsZero(target) && empty == (!panicked && nodes == [])
      ensures panicked ==> View([]) == old(View([]))
      ensures !panicked ==>
        View([]) == Run(old(View(Start(nodes, depth).pending)), Sends(oracle, 0, |nodes|, old(tid)), target)
    {
      empty, panicked := false, IsZero(target);
      if panicked { return; }
      empty := |nodes| == 0;
      if empty { return; }
      ContinueRecursiveSearch(nodes, depth, Ids(nodes), [], oracle, target);
    }
  }

  lemma FinishOne(s: State, order: seq<Key>, k: Key, target: Id)
    ensures Run(s, Finishes(order + [k]), target) == Step(Run(s, Finishes(order), target), Finish(k), target)
  {
    hide Step;
    assert Finishes(order + [k]) == Finishes(order) + [Finish(k)];
    RunAppend(s, Finishes(order), [Finish(k)], target);
    assert [Finish(k)][1..] == [];
  }
}
