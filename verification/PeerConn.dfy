/** The per-connection state machine behind `HandleMessage`, and the two ends of a connection. */
module PeerConn {
  import opened Prelude
  import opened PeerWire

  /** The extension bits of the local peer. */
  datatype ExtBits = ExtBits(dht: bool, fast: bool, extended: bool)

  datatype Conn = Conn(
    ext: ExtBits, choked: bool, interested: bool, peerChoked: bool, peerInterested: bool,
    fasts: seq<U32>, suggests: seq<U32>, bitField: Bytes, notFirstMsg: bool, extHandshake: bool)

  /** `NewPeerConn`. */
  function NewConn(ext: ExtBits): Conn {
    Conn(ext, true, false, true, false, [], [], [], false, false)
  }

  datatype Error =
    | NotFirstMsg | NotSupportDHT | NotSupportFast | NotSupportExtended
    | SecondExtHandshake | NoExtHandshake | BadHandshake | HandlerError

  /** What reached the handler. */
  datatype Call = NoCall | Called | HandshakeCalled | PayloadCalled

  datatype Outcome = Outcome(err: Option<Error>, call: Call, handshake: bool)

  /**
   A message together with what the environment contributes: whether the handler implements the
   extension interface, whether it fails, and whether a handshake payload decodes.
   */
  datatype Input = Input(msg: Message, bep10: bool, handlerFails: bool, payloadDecodes: bool)

  function Reply(i: Input, call: Call): Outcome {
    Outcome(if i.handlerFails then Some(HandlerError) else None, call, false)
  }

  function Refuse(e: Error): Outcome {
    Outcome(Some(e), NoCall, false)
  }

  // ------------------------------------------------------------ Pieces

  ghost predicate Ascending(s: seq<U32>) {
    forall i, j :: 0 <= i < j < |s| ==> s[i] < s[j]
  }

  /** The sorted list with one more index; an index already there changes nothing. */
  function Insert(s: seq<U32>, x: U32): seq<U32> {
    if s == [] then [x]
    else if x < s[0] then [x] + s
    else if x == s[0] then s
    else [s[0]] + Insert(s[1..], x)
  }

  lemma {:induction false} InsertMembers(s: seq<U32>, x: U32, y: U32)
    ensures y in Insert(s, x) <==> y in s || y == x
  {
    if s == [] {
    } else {
      InsertMembers(s[1..], x, y);
      assert y in s <==> y == s[0] || y in s[1..];
    }
  }

  lemma InsertElements(s: seq<U32>, x: U32)
    ensures Elements(Insert(s, x)) == Elements(s) + {x}
  {
    hide Insert;
    forall y: U32
      ensures y in Elements(Insert(s, x)) <==> y in Elements(s) + {x}
    {
      InsertMembers(s, x, y);
    }
  }

  lemma ConsAscending(x: U32, t: seq<U32>)
    requires Ascending(t) && forall y :: y in t ==> x < y
    ensures Ascending([x] + t)
  {
    var r := [x] + t;
    assert forall i :: 0 < i < |r| ==> r[i] == t[i - 1] && t[i - 1] in t;
  }

  lemma {:induction false} InsertAscends(s: seq<U32>, x: U32)
    requires Ascending(s)
    ensures Ascending(Insert(s, x))
  {
    if s == [] {
    } else if x < s[0] {
      assert forall y :: y in s ==> x < y;
      ConsAscending(x, s);
    } else if x > s[0] {
      hide Elements;
      InsertAscends(s[1..], x);
      forall y | y in Insert(s[1..], x)
        ensures s[0] < y
      {
        InsertMembers(s[1..], x, y);
      }
      ConsAscending(s[0], Insert(s[1..], x));
    }
  }

  lemma InsertAscending(s: seq<U32>, x: U32)
    requires Ascending(s)
    ensures Ascending(Insert(s, x))
    ensures Elements(Insert(s, x)) == Elements(s) + {x}
  {
    InsertAscends(s, x);
    InsertElements(s, x);
  }

  lemma {:induction false} AscendingUnique(a: seq<U32>, b: seq<U32>)
    requires Ascending(a) && Ascending(b) && Elements(a) == Elements(b)
    ensures a == b
  {
    assert a != [] ==> a[0] in Elements(b);
    assert b != [] ==> b[0] in Elements(a);
    if a == [] {
    } else {
      assert a == [a[0]] + a[1..] && b == [b[0]] + b[1..];
      assert a[0] == b[0];
      assert Elements(a[1..]) == Elements(a) - {a[0]};
      assert Elements(b[1..]) == Elements(b) - {b[0]};
      AscendingUnique(a[1..], b[1..]);
    }
  }

  /** `Pieces.Append`: a linear search, then append and sort. */
  method Append(ps: seq<U32>, index: U32) returns (r: seq<U32>)
    requires Ascending(ps)
    ensures r == Insert(ps, index)
  {
    InsertAscending(ps, index);
    for i := 0 to |ps|
      invariant index !in ps[..i]
    {
      if ps[i] == index {
        assert Elements(ps) == Elements(Insert(ps, index));
        AscendingUnique(ps, Insert(ps, index));
        return ps;
      }
    }
    assert ps[..|ps|] == ps;
    r := SortPieces(ps + [index]);
    ElementsAppend(ps, index);
    AscendingUnique(r, Insert(ps, index));
  }

  lemma PlaceAscending(r: seq<U32>, x: U32, j: nat)
    requires Ascending(r) && j <= |r| && x !in Elements(r)
    requires (forall k :: 0 <= k < j ==> r[k] < x) && (j < |r| ==> x <= r[j])
    ensures Ascending(r[..j] + [x] + r[j..]) && Elements(r[..j] + [x] + r[j..]) == Elements(r) + {x}
  {
    hide Elements;
    assert j < |r| ==> x < r[j] by {
      assert j < |r| ==> r[j] in r;
      NotAmong(r, x);
    }
    ElementsInsert(r[..j], x, r[j..]);
    assert r == r[..j] + r[j..];
  }

  lemma NotAmong(r: seq<U32>, x: U32)
    requires x !in Elements(r)
    ensures x !in r
  {
  }

  /** `sort.Sort` on distinct indexes. */
  method SortPieces(s: seq<U32>) returns (r: seq<U32>)
    requires NoDuplicates(s)
    ensures Ascending(r) && Elements(r) == Elements(s)
  {
    r := [];
    for i := 0 to |s|
      invariant Ascending(r) && Elements(r) == Elements(s[..i])
    {
      var j := 0;
      while j < |r| && r[j] < s[i]
        invariant j <= |r| && forall x :: 0 <= x < j ==> r[x] < s[i]
      {
        j := j + 1;
      }
      assert s[..i + 1] == s[..i] + [s[i]];
      ElementsAppend(s[..i], s[i]);
      assert s[i] !in Elements(s[..i]);
      PlaceAscending(r, s[i], j);
      r := r[..j] + [s[i]] + r[j..];
    }
    assert s[..|s|] == s;
  }

  // ------------------------------------------------------------ HandleMessage

  predicate Bep3(kind: Byte) {
    kind == CHOKE || kind == UNCHOKE || kind == INTERESTED || kind == NOT_INTERESTED || kind == HAVE ||
    kind == BITFIELD || kind == REQUEST || kind == PIECE || kind == CANCEL
  }

  predicate Bep6(kind: Byte) {
    kind == SUGGEST || kind == HAVE_ALL || kind == HAVE_NONE || kind == REJECT || kind == ALLOWED_FAST
  }

  /** Sent in real, not a keepalive, and of this kind. */
  predicate Is(i: Input, kind: Byte) {
    !i.msg.keepalive && i.msg.kind == kind
  }

  /** The message the connection processes as its extended handshake. */
  predicate Shakes(c: Conn, i: Input) {
    Is(i, EXTENDED) && c.ext.extended && i.bep10 && i.msg.extendedId == 0 && !c.extHandshake
  }

  /** The state after a message, field by field. */
  function NextState(c: Conn, i: Input): Conn {
    Conn(
      c.ext, c.choked, c.interested,
      if Is(i, CHOKE) then true else if Is(i, UNCHOKE) then false else c.peerChoked,
      if Is(i, INTERESTED) then true else if Is(i, NOT_INTERESTED) then false else c.peerInterested,
      if Is(i, ALLOWED_FAST) && c.ext.fast then Insert(c.fasts, i.msg.index) else c.fasts,
      if Is(i, SUGGEST) && c.ext.fast then Insert(c.suggests, i.msg.index) else c.suggests,
      if Is(i, BITFIELD) && !c.notFirstMsg then i.msg.bitField else c.bitField,
      c.notFirstMsg || !i.msg.keepalive,
      c.extHandshake || Shakes(c, i))
  }

  /** Why a message is refused, in the order the reasons are looked for. */
  function Refusal(c: Conn, i: Input): Option<Error> {
    if i.msg.keepalive then None
    else
      var kind := i.msg.kind;
      if (kind == BITFIELD || kind == HAVE_ALL || kind == HAVE_NONE) && c.notFirstMsg then Some(NotFirstMsg)
      else if kind == PORT && !c.ext.dht then Some(NotSupportDHT)
      else if Bep6(kind) && !c.ext.fast then Some(NotSupportFast)
      else if kind == EXTENDED && !c.ext.extended then Some(NotSupportExtended)
      else if kind == EXTENDED && i.bep10 && i.msg.extendedId == 0 && c.extHandshake then Some(SecondExtHandshake)
      else if kind == EXTENDED && i.bep10 && i.msg.extendedId != 0 && !c.extHandshake then Some(NoExtHandshake)
      else None
  }

  function Result(c: Conn, i: Input): Outcome {
    if i.msg.keepalive then Outcome(None, NoCall, false)
    else if Refusal(c, i).Some? then Outcome(Refusal(c, i), NoCall, false)
    else if i.msg.kind == EXTENDED && i.bep10 then
      if i.msg.extendedId != 0 then Reply(i, PayloadCalled)
      else if i.payloadDecodes then Reply(i, HandshakeCalled).(handshake := true)
      else Outcome(Some(BadHandshake), NoCall, true)
    else Reply(i, Called)
  }

  lemma KeepsAscending(c: Conn, i: Input)
    requires Ascending(c.suggests) && Ascending(c.fasts)
    ensures Ascending(NextState(c, i).suggests) && Ascending(NextState(c, i).fasts)
  {
    hide Insert, Ascending;
    InsertAscending(c.suggests, i.msg.index);
    InsertAscending(c.fasts, i.msg.index);
  }

  /** Keepalives, Port and unknown types leave the state alone, but for the first-message flag. */
  lemma OtherMessage(c: Conn, i: Input)
    ensures i.msg.keepalive ==> NextState(c, i) == c && Result(c, i) == Outcome(None, NoCall, false)
    ensures !i.msg.keepalive && !Bep3(i.msg.kind) && !Bep6(i.msg.kind) && i.msg.kind != EXTENDED ==>
      && NextState(c, i) == c.(notFirstMsg := true)
      && Result(c, i) == (if i.msg.kind == PORT && !c.ext.dht then Refuse(NotSupportDHT) else Reply(i, Called))
  {
  }

  // ------------------------------------------------------------ runs

  /** The state after the inputs. */
  function After(c: Conn, ins: seq<Input>): Conn {
    if ins == [] then c else NextState(After(c, ins[..|ins| - 1]), ins[|ins| - 1])
  }

  /** What input `k` of a run led to. */
  function At(c: Conn, ins: seq<Input>, k: nat): Outcome
    requires k < |ins|
  {
    Result(After(c, ins[..k]), ins[k])
  }

  predicate Real(i: Input) {
    !i.msg.keepalive
  }

  /** The messages that must come first if at all. */
  predicate Opening(i: Input) {
    Real(i) && (i.msg.kind == BITFIELD || i.msg.kind == HAVE_ALL || i.msg.kind == HAVE_NONE)
  }

  lemma {:induction false} FirstFlag(ext: ExtBits, ins: seq<Input>)
    ensures After(NewConn(ext), ins).notFirstMsg <==> exists j :: 0 <= j < |ins| && Real(ins[j])
    ensures After(NewConn(ext), ins).ext == ext
  {
    hide Insert;
    if ins == [] {
    } else {
      var front := ins[..|ins| - 1];
      FirstFlag(ext, front);
      assert forall j :: 0 <= j < |front| ==> front[j] == ins[j];
      assert (exists j :: 0 <= j < |ins| && Real(ins[j])) <==>
        (exists j :: 0 <= j < |front| && Real(front[j])) || Real(ins[|ins| - 1]);
    }
  }

  /** BitField, HaveAll and HaveNone are refused as late exactly when a real message came before them. */
  lemma OpeningOnlyFirst(ext: ExtBits, ins: seq<Input>, k: nat)
    requires k < |ins| && Opening(ins[k])
    ensures At(NewConn(ext), ins, k).err == Some(NotFirstMsg) <==> exists j :: 0 <= j < k && Real(ins[j])
  {
    hide Insert, After;
    FirstFlag(ext, ins[..k]);
    assert forall j :: 0 <= j < k ==> ins[..k][j] == ins[j];
  }

  lemma FlagStep(c: Conn, i: Input)
    ensures NextState(c, i).extHandshake <==> c.extHandshake || Result(c, i).handshake
  {
    hide Insert;
  }

  lemma FrontOutcomes(c: Conn, ins: seq<Input>)
    requires ins != []
    ensures var front := ins[..|ins| - 1]; forall j :: 0 <= j < |front| ==> At(c, front, j) == At(c, ins, j)
  {
    hide After, Result;
    var front := ins[..|ins| - 1];
    forall j | 0 <= j < |front|
      ensures At(c, front, j) == At(c, ins, j)
    {
      assert front[..j] == ins[..j];
    }
  }

  /** The handshake flag says whether one has been processed. */
  lemma {:induction false} HandshakeFlag(ext: ExtBits, ins: seq<Input>)
    ensures After(NewConn(ext), ins).extHandshake <==> exists j :: 0 <= j < |ins| && At(NewConn(ext), ins, j).handshake
  {
    if ins == [] {
    } else {
      hide Insert, NextState, Result;
      var last := |ins| - 1;
      var front := ins[..last];
      HandshakeFlag(ext, front);
      FlagStep(After(NewConn(ext), front), ins[last]);
      FrontOutcomes(NewConn(ext), ins);
      assert After(NewConn(ext), ins).extHandshake <==>
        After(NewConn(ext), front).extHandshake || At(NewConn(ext), ins, last).handshake;
    }
  }

  /** At most one extended handshake is processed, and payloads reach the handler only after it. */
  lemma HandshakeOnce(ext: ExtBits, ins: seq<Input>, j: nat, k: nat)
    requires j < k < |ins|
    ensures At(NewConn(ext), ins, j).handshake ==> !At(NewConn(ext), ins, k).handshake
    ensures At(NewConn(ext), ins, k).call == PayloadCalled ==>
      exists x :: 0 <= x < k && At(NewConn(ext), ins, x).handshake
  {
    hide Insert, After;
    HandshakeFlag(ext, ins[..k]);
    assert forall x :: 0 <= x < k ==> ins[..k][..x] == ins[..x] && ins[..k][x] == ins[x];
    assert forall x :: 0 <= x < k ==> At(NewConn(ext), ins[..k], x) == At(NewConn(ext), ins, x);
  }

  /** A real message came before input `k`. */
  ghost predicate Late(ins: seq<Input>, k: nat) {
    k < |ins| && exists j :: 0 <= j < k && Real(ins[j])
  }

  /** An extended handshake was processed before input `k`. */
  ghost predicate Shaken(ext: ExtBits, ins: seq<Input>, k: nat) {
    k < |ins| && exists j :: 0 <= j < k && At(NewConn(ext), ins, j).handshake
  }

  /** An extended message for a handler that knows extensions, on a connection that supports them. */
  predicate Extends(ext: ExtBits, i: Input) {
    Is(i, EXTENDED) && ext.extended && i.bep10
  }

  /** Which refusal a message gets, if any; `late` and `shaken` say what came before it. */
  predicate RefusedAs(ext: ExtBits, i: Input, late: bool, shaken: bool, e: Error) {
    match e
    case NotFirstMsg => Opening(i) && late
    case NotSupportDHT => Is(i, PORT) && !ext.dht
    case NotSupportFast => Real(i) && 13 <= i.msg.kind <= 17 && !ext.fast && !(Opening(i) && late)
    case NotSupportExtended => Is(i, EXTENDED) && !ext.extended
    case SecondExtHandshake => Extends(ext, i) && i.msg.extendedId == 0 && shaken
    case NoExtHandshake => Extends(ext, i) && i.msg.extendedId != 0 && !shaken
    case BadHandshake => Extends(ext, i) && i.msg.extendedId == 0 && !shaken && !i.payloadDecodes
    case HandlerError => false
  }

  /** What reaches the handler, and as what. */
  predicate Handled(ext: ExtBits, i: Input, o: Outcome) {
    && (o.err == Some(HandlerError) <==> o.call != NoCall && i.handlerFails)
    && (o.call == NoCall <==> !Real(i) || (o.err.Some? && o.err != Some(HandlerError)))
    && (o.call == PayloadCalled ==> Extends(ext, i) && i.msg.extendedId != 0)
    && (o.call == HandshakeCalled ==> Extends(ext, i) && i.msg.extendedId == 0)
    && (o.call == Called ==> !Extends(ext, i))
  }

  lemma ResultRefused(c: Conn, i: Input, e: Error)
    requires e != HandlerError
    ensures Result(c, i).err == Some(e) <==> RefusedAs(c.ext, i, c.notFirstMsg, c.extHandshake, e)
  {
  }

  lemma ResultHandled(c: Conn, i: Input)
    ensures Handled(c.ext, i, Result(c, i))
  {
  }

  /**
   Over every run: a message is refused for the one reason that applies to it, and otherwise reaches
   the handler, whose failure is then the outcome; a keepalive does neither.
   */
  lemma OutcomeLaw(ext: ExtBits, ins: seq<Input>, k: nat, e: Error)
    requires k < |ins|
    ensures e != HandlerError ==>
      (At(NewConn(ext), ins, k).err == Some(e) <==> RefusedAs(ext, ins[k], Late(ins, k), Shaken(ext, ins, k), e))
    ensures Handled(ext, ins[k], At(NewConn(ext), ins, k))
  {
    hide After, Result, RefusedAs, Late, Shaken, Handled;
    var c := After(NewConn(ext), ins[..k]);
    LateIff(ext, ins, k);
    ShakenIff(ext, ins, k);
    FirstFlag(ext, ins[..k]);
    ResultHandled(c, ins[k]);
    if e != HandlerError { ResultRefused(c, ins[k], e); }
  }

  lemma LateIff(ext: ExtBits, ins: seq<Input>, k: nat)
    requires k < |ins|
    ensures Late(ins, k) <==> After(NewConn(ext), ins[..k]).notFirstMsg
  {
    hide After;
    FirstFlag(ext, ins[..k]);
    assert forall j :: 0 <= j < k ==> ins[..k][j] == ins[j];
  }

  lemma ShakenIff(ext: ExtBits, ins: seq<Input>, k: nat)
    requires k < |ins|
    ensures Shaken(ext, ins, k) <==> After(NewConn(ext), ins[..k]).extHandshake
  {
    hide After, Result;
    HandshakeFlag(ext, ins[..k]);
    assert forall x :: 0 <= x < k ==> ins[..k][..x] == ins[..x] && ins[..k][x] == ins[x];
    assert forall x :: 0 <= x < k ==> At(NewConn(ext), ins[..k], x) == At(NewConn(ext), ins, x);
  }

  /** The last message about it decides; without one the initial value stands. */
  function LastWord(ms: seq<Message>, yes: Byte, no: Byte, initially: bool): bool {
    if ms == [] then initially
    else Word(ms[|ms| - 1], yes, no, LastWord(ms[..|ms| - 1], yes, no, initially))
  }

  /** What one message makes of it. */
  function Word(m: Message, yes: Byte, no: Byte, before: bool): bool {
    if !m.keepalive && m.kind == yes then true
    else if !m.keepalive && m.kind == no then false
    else before
  }

  function Messages(ins: seq<Input>): seq<Message> {
    seq(|ins|, i requires 0 <= i < |ins| => ins[i].msg)
  }

  lemma {:induction false} StateIsLastWord(c: Conn, ins: seq<Input>)
    ensures After(c, ins).peerChoked == LastWord(Messages(ins), CHOKE, UNCHOKE, c.peerChoked)
    ensures After(c, ins).peerInterested == LastWord(Messages(ins), INTERESTED, NOT_INTERESTED, c.peerInterested)
  {
    hide Insert;
    if ins == [] {
    } else {
      StateIsLastWord(c, ins[..|ins| - 1]);
      assert Messages(ins)[..|ins| - 1] == Messages(ins[..|ins| - 1]);
    }
  }

  /** The indexes of the accepted messages of one kind. */
  function Indexes(ins: seq<Input>, kind: Byte, fast: bool): set<U32> {
    set j | 0 <= j < |ins| && fast && Real(ins[j]) && ins[j].msg.kind == kind :: ins[j].msg.index
  }

  lemma IndexesStep(ins: seq<Input>, kind: Byte, fast: bool)
    requires ins != []
    ensures var i := ins[|ins| - 1];
            Indexes(ins, kind, fast) ==
              Indexes(ins[..|ins| - 1], kind, fast) +
                (if fast && Real(i) && i.msg.kind == kind then {i.msg.index} else {})
  {
    var front := ins[..|ins| - 1];
    assert forall j :: 0 <= j < |front| ==> front[j] == ins[j];
    forall x | x in Indexes(ins, kind, fast)
      ensures x in Indexes(front, kind, fast) ||
        (fast && Real(ins[|ins| - 1]) && ins[|ins| - 1].msg.kind == kind && x == ins[|ins| - 1].msg.index)
    {
      var j :| 0 <= j < |ins| && fast && Real(ins[j]) && ins[j].msg.kind == kind && ins[j].msg.index == x;
      if j < |front| { assert front[j].msg.index == x; }
    }
    forall x | x in Indexes(front, kind, fast)
      ensures x in Indexes(ins, kind, fast)
    {
      var j :| 0 <= j < |front| && fast && Real(front[j]) && front[j].msg.kind == kind && front[j].msg.index == x;
      assert ins[j].msg.index == x;
    }
  }

  /** Suggests and Fasts are always the accepted indexes, each once, in ascending order. */
  lemma {:induction false} SetsAreAccepted(ext: ExtBits, ins: seq<Input>)
    ensures var c := After(NewConn(ext), ins);
            && Ascending(c.suggests) && Elements(c.suggests) == Indexes(ins, SUGGEST, ext.fast)
            && Ascending(c.fasts) && Elements(c.fasts) == Indexes(ins, ALLOWED_FAST, ext.fast)
  {
    hide Insert, Indexes;
    if ins == [] {
      NoIndexes();
    } else {
      var front, i := ins[..|ins| - 1], ins[|ins| - 1];
      var c := After(NewConn(ext), front);
      SetsAreAccepted(ext, front);
      FirstFlag(ext, front);
      IndexesStep(ins, SUGGEST, ext.fast);
      IndexesStep(ins, ALLOWED_FAST, ext.fast);
      InsertAscending(c.suggests, i.msg.index);
      InsertAscending(c.fasts, i.msg.index);
    }
  }

  lemma NoIndexes()
    ensures forall kind, fast :: Indexes([], kind, fast) == {}
  {
  }

  /** The first real message of the run. */
  ghost predicate Leads(ins: seq<Input>, k: int) {
    0 <= k < |ins| && Real(ins[k]) && forall j :: 0 <= j < k ==> !Real(ins[j])
  }

  /** The stored bit field is that of the first real message, if that is a BitField, and empty otherwise. */
  lemma {:induction false} BitFieldIsFirst(ext: ExtBits, ins: seq<Input>)
    ensures forall k :: Leads(ins, k) ==>
              After(NewConn(ext), ins).bitField == if ins[k].msg.kind == BITFIELD then ins[k].msg.bitField else []
    ensures (forall j :: 0 <= j < |ins| ==> !Real(ins[j])) ==> After(NewConn(ext), ins).bitField == []
  {
    hide Insert;
    if ins == [] {
    } else {
      var front := ins[..|ins| - 1];
      BitFieldIsFirst(ext, front);
      FirstFlag(ext, front);
      assert forall j :: 0 <= j < |front| ==> front[j] == ins[j];
      forall k | Leads(ins, k)
        ensures After(NewConn(ext), ins).bitField == if ins[k].msg.kind == BITFIELD then ins[k].msg.bitField else []
      {
        if k < |front| { assert Leads(front, k); }
      }
    }
  }

  // ------------------------------------------------------------ the object

  class Connection {
    const ext: ExtBits
    var choked: bool
    var interested: bool
    var peerChoked: bool
    var peerInterested: bool
    var fasts: seq<U32>
    var suggests: seq<U32>
    var bitField: Bytes
    var notFirstMsg: bool
    var extHandshake: bool

    constructor (ext: ExtBits)
      ensures View() == NewConn(ext) && Valid()
    {
      this.ext := ext;
      choked, interested, peerChoked, peerInterested := true, false, true, false;
      fasts, suggests, bitField := [], [], [];
      notFirstMsg, extHandshake := false, false;
    }

    ghost function View(): Conn
      reads this
    {
      Conn(ext, choked, interested, peerChoked, peerInterested, fasts, suggests, bitField, notFirstMsg, extHandshake)
    }

    ghost predicate Valid()
      reads this
    {
      Ascending(fasts) && Ascending(suggests)
    }

    method HandleBep3Message(i: Input) returns (o: Outcome)
      requires !i.msg.keepalive && Bep3(i.msg.kind)
      modifies this
      ensures View().(notFirstMsg := true) == NextState(old(View()), i) && o == Result(old(View()), i)
    {
      var kind := i.msg.kind;
      if kind == CHOKE {
        peerChoked := true;
      } else if kind == UNCHOKE {
        peerChoked := false;
      } else if kind == INTERESTED {
        peerInterested := true;
      } else if kind == NOT_INTERESTED {
        peerInterested := false;
      } else if kind == BITFIELD {
        if notFirstMsg { return Refuse(NotFirstMsg); }
        bitField := i.msg.bitField;
      }
      o := Reply(i, Called);
    }

    method HandleSuggestMessage(i: Input) returns (o: Outcome)
      requires Is(i, SUGGEST) && Ascending(suggests)
      modifies this
      ensures View().(notFirstMsg := true) == NextState(old(View()), i) && o == Result(old(View()), i)
    {
      hide Insert, Ascending;
      if !ext.fast { return Refuse(NotSupportFast); }
      suggests := Append(suggests, i.msg.index);
      o := Reply(i, Called);
    }

    method HandleAllowedFastMessage(i: Input) returns (o: Outcome)
      requires Is(i, ALLOWED_FAST) && Ascending(fasts)
      modifies this
      ensures View().(notFirstMsg := true) == NextState(old(View()), i) && o == Result(old(View()), i)
    {
      hide Insert, Ascending;
      if !ext.fast { return Refuse(NotSupportFast); }
      fasts := Append(fasts, i.msg.index);
      o := Reply(i, Called);
    }

    method HandleBep6Message(i: Input) returns (o: Outcome)
      requires !i.msg.keepalive && Bep6(i.msg.kind) && Valid()
      modifies this
      ensures View().(notFirstMsg := true) == NextState(old(View()), i) && o == Result(old(View()), i)
    {
      hide Insert, Ascending;
      var kind := i.msg.kind;
      if kind == SUGGEST {
        o := HandleSuggestMessage(i);
      } else if kind == ALLOWED_FAST {
        o := HandleAllowedFastMessage(i);
      } else if kind != REJECT && notFirstMsg {
        o := Refuse(NotFirstMsg);
      } else if !ext.fast {
        o := Refuse(NotSupportFast);
      } else {
        o := Reply(i, Called);
      }
    }

    method HandleBep10Message(i: Input) returns (o: Outcome)
      requires Is(i, EXTENDED)
      modifies this
      ensures View().(notFirstMsg := true) == NextState(old(View()), i) && o == Result(old(View()), i)
    {
      if !ext.extended { return Refuse(NotSupportExtended); }
      if !i.bep10 { return Reply(i, Called); }
      if i.msg.extendedId == 0 {
        if extHandshake { return Refuse(SecondExtHandshake); }
        extHandshake := true;
        if i.payloadDecodes {
          o := Reply(i, HandshakeCalled).(handshake := true);
        } else {
          o := Outcome(Some(BadHandshake), NoCall, true);
        }
      } else if extHandshake {
        o := Reply(i, PayloadCalled);
      } else {
        o := Refuse(NoExtHandshake);
      }
    }

    method HandleMessage(i: Input) returns (o: Outcome)
      requires Valid()
      modifies this
      ensures View() == NextState(old(View()), i) && o == Result(old(View()), i)
      ensures Valid()
    {
      hide NextState, Result, Ascending;
      KeepsAscending(View(), i);
      OtherMessage(View(), i);
      if i.msg.keepalive { return Outcome(None, NoCall, false); }
      if Bep3(i.msg.kind) {
        o := HandleBep3Message(i);
      } else if i.msg.kind == PORT {
        o := if !ext.dht then Refuse(NotSupportDHT) else Reply(i, Called);
      } else if Bep6(i.msg.kind) {
        o := HandleBep6Message(i);
      } else if i.msg.kind == EXTENDED {
        o := HandleBep10Message(i);
      } else {
        o := Reply(i, Called);
      }
      if !notFirstMsg { notFirstMsg := true; }
    }

    /** The four setters; `sent` is whether the write succeeds, `out` what went onto the wire. */
    method Set(l: Local, sent: bool) returns (out: seq<Message>)
      modifies this
      ensures (View(), out) == Decide(old(View()), l, sent)
    {
      out := [];
      match l {
        case SetChoked =>
          if !choked && sent { out, choked := [Send(CHOKE)], true; }
        case SetUnchoked =>
          if choked && sent { out, choked := [Send(UNCHOKE)], false; }
        case SetInterested =>
          if !interested && sent { out, interested := [Send(INTERESTED)], true; }
        case SetNotInterested =>
          if interested && sent { out, interested := [Send(NOT_INTERESTED)], false; }
      }
    }
  }

  // ------------------------------------------------------------ two ends

  /** `SetChoked`, `SetUnchoked`, `SetInterested`, `SetNotInterested`; a failed send changes nothing. */
  datatype Local = SetChoked | SetUnchoked | SetInterested | SetNotInterested

  function Send(kind: Byte): Message {
    BLANK.(kind := kind)
  }

  function Decide(c: Conn, l: Local, sent: bool): (Conn, seq<Message>) {
    match l
    case SetChoked => if !c.choked && sent then (c.(choked := true), [Send(CHOKE)]) else (c, [])
    case SetUnchoked => if c.choked && sent then (c.(choked := false), [Send(UNCHOKE)]) else (c, [])
    case SetInterested => if !c.interested && sent then (c.(interested := true), [Send(INTERESTED)]) else (c, [])
    case SetNotInterested => if c.interested && sent then (c.(interested := false), [Send(NOT_INTERESTED)]) else (c, [])
  }

  /** One direction of a connection: a sender, the messages under way in order, a receiver. */
  datatype Link = Link(sender: Conn, wire: seq<Message>, receiver: Conn)

  /** The sender changes its mind or sends another message; the wire delivers; either end's other state moves. */
  datatype Move =
    | Choose(l: Local, sent: bool)
    | Other(msg: Message)
    | Deliver(bep10: bool, handlerFails: bool, payloadDecodes: bool)

  predicate Steers(kind: Byte) {
    kind == CHOKE || kind == UNCHOKE || kind == INTERESTED || kind == NOT_INTERESTED
  }

  /** Messages about choking and interest are only sent by the four setters. */
  predicate Allowed(m: Move) {
    m.Other? ==> m.msg.keepalive || !Steers(m.msg.kind)
  }

  function Next(s: Link, m: Move): Link {
    match m
    case Choose(l, sent) => var (c, out) := Decide(s.sender, l, sent); s.(sender := c, wire := s.wire + out)
    case Other(msg) => s.(wire := s.wire + [msg])
    case Deliver(b, f, p) =>
      if s.wire == [] then s
      else s.(wire := s.wire[1..], receiver := NextState(s.receiver, Input(s.wire[0], b, f, p)))
  }

  function Trace(s: Link, ms: seq<Move>): Link
    decreases |ms|
  {
    if ms == [] then s else Trace(Next(s, ms[0]), ms[1..])
  }

  /** The sender's state is what the receiver will believe once everything under way has arrived. */
  ghost predicate Agree(s: Link) {
    && LastWord(s.wire, CHOKE, UNCHOKE, s.receiver.peerChoked) == s.sender.choked
    && LastWord(s.wire, INTERESTED, NOT_INTERESTED, s.receiver.peerInterested) == s.sender.interested
  }

  lemma LastWordAppend(ms: seq<Message>, m: Message, yes: Byte, no: Byte, b: bool)
    ensures LastWord(ms + [m], yes, no, b) == Word(m, yes, no, LastWord(ms, yes, no, b))
  {
    assert (ms + [m])[..|ms|] == ms;
  }

  /** Delivering the oldest message does not change where the receiver will end up. */
  lemma {:induction false} LastWordDeliver(ms: seq<Message>, yes: Byte, no: Byte, b: bool)
    requires ms != []
    ensures LastWord(ms[1..], yes, no, Word(ms[0], yes, no, b)) == LastWord(ms, yes, no, b)
  {
    if |ms| == 1 {
      assert ms[..0] == [];
    } else {
      var front := ms[..|ms| - 1];
      LastWordDeliver(front, yes, no, b);
      assert ms[1..][..|ms| - 2] == front[1..];
    }
  }

  lemma StepAgrees(s: Link, m: Move)
    requires Agree(s) && Allowed(m)
    ensures Agree(Next(s, m))
  {
    hide Insert, LastWord;
    match m
    case Choose(l, sent) =>
      var out := Decide(s.sender, l, sent).1;
      if out != [] {
        LastWordAppend(s.wire, out[0], CHOKE, UNCHOKE, s.receiver.peerChoked);
        LastWordAppend(s.wire, out[0], INTERESTED, NOT_INTERESTED, s.receiver.peerInterested);
      } else {
        assert s.wire + out == s.wire;
      }
    case Other(msg) =>
      LastWordAppend(s.wire, msg, CHOKE, UNCHOKE, s.receiver.peerChoked);
      LastWordAppend(s.wire, msg, INTERESTED, NOT_INTERESTED, s.receiver.peerInterested);
    case Deliver(b, f, p) =>
      if s.wire != [] {
        LastWordDeliver(s.wire, CHOKE, UNCHOKE, s.receiver.peerChoked);
        LastWordDeliver(s.wire, INTERESTED, NOT_INTERESTED, s.receiver.peerInterested);
      }
  }

  lemma {:induction false} TraceAgrees(s: Link, ms: seq<Move>)
    requires Agree(s) && forall i :: 0 <= i < |ms| ==> Allowed(ms[i])
    ensures Agree(Trace(s, ms))
    decreases |ms|
  {
    hide Next, Agree;
    if ms == [] {
    } else {
      StepAgrees(s, ms[0]);
      assert forall i :: 0 <= i < |ms[1..]| ==> ms[1..][i] == ms[i + 1];
      TraceAgrees(Next(s, ms[0]), ms[1..]);
    }
  }

  /**
   Over every run of a connection, from its opening: whenever nothing is under way, the receiver's
   PeerChoked and PeerInterested are the sender's Choked and Interested.
   */
  lemma EndsAgree(a: ExtBits, b: ExtBits, ms: seq<Move>)
    requires forall i :: 0 <= i < |ms| ==> Allowed(ms[i])
    ensures var s := Trace(Link(NewConn(a), [], NewConn(b)), ms);
            s.wire == [] ==>
              s.receiver.peerChoked == s.sender.choked && s.receiver.peerInterested == s.sender.interested
  {
    TraceAgrees(Link(NewConn(a), [], NewConn(b)), ms);
  }

  /** The flag a setter is about, and what it wants there. */
  function Flag(c: Conn, l: Local): bool {
    if l.SetChoked? || l.SetUnchoked? then c.choked else c.interested
  }

  predicate Wants(l: Local) {
    l.SetChoked? || l.SetInterested?
  }

  /** A setter has its way if the send succeeds, and sends one message exactly if that changes something. */
  lemma SetterLaw(c: Conn, l: Local, sent: bool)
    ensures var (d, out) := Decide(c, l, sent);
            && Flag(d, l) == (if sent then Wants(l) else Flag(c, l))
            && |out| == (if sent && Flag(c, l) != Wants(l) then 1 else 0)
            && d == c.(choked := d.choked, interested := d.interested) && (out == [] ==> d == c)
  {
  }

  /** What a move makes of a choice between two setters; a send that fails is no choice. */
  function Chooses(m: Move, yes: Local, no: Local, before: bool): bool {
    if m == Choose(yes, true) then true else if m == Choose(no, true) then false else before
  }

  function LastChoice(ms: seq<Move>, yes: Local, no: Local, initially: bool): bool
    decreases |ms|
  {
    if ms == [] then initially else LastChoice(ms[1..], yes, no, Chooses(ms[0], yes, no, initially))
  }

  lemma SenderStep(s: Link, m: Move)
    ensures var t := Next(s, m).sender;
            && t.choked == Chooses(m, SetChoked, SetUnchoked, s.sender.choked)
            && t.interested == Chooses(m, SetInterested, SetNotInterested, s.sender.interested)
  {
    hide NextState;
    match m
    case Choose(l, sent) => assert Next(s, m).sender == Decide(s.sender, l, sent).0;
    case Other(msg) =>
    case Deliver(_, _, _) => assert Next(s, m).sender == s.sender;
  }

  lemma {:induction false} SenderIsLastChoice(s: Link, ms: seq<Move>)
    ensures var t := Trace(s, ms).sender;
            && t.choked == LastChoice(ms, SetChoked, SetUnchoked, s.sender.choked)
            && t.interested == LastChoice(ms, SetInterested, SetNotInterested, s.sender.interested)
    decreases |ms|
  {
    hide Next, Chooses;
    if ms == [] {
    } else {
      SenderStep(s, ms[0]);
      SenderIsLastChoice(Next(s, ms[0]), ms[1..]);
    }
  }

  /**
   Over every run of a connection: whenever nothing is under way, the receiver knows the sender's
   last choices, those of sends that succeeded; before any choice it is choked and not interesting.
   */
  lemma ReceiverKnowsChoices(a: ExtBits, b: ExtBits, ms: seq<Move>)
    requires forall i :: 0 <= i < |ms| ==> Allowed(ms[i])
    ensures var s := Trace(Link(NewConn(a), [], NewConn(b)), ms);
            s.wire == [] ==>
              && s.receiver.peerChoked == LastChoice(ms, SetChoked, SetUnchoked, true)
              && s.receiver.peerInterested == LastChoice(ms, SetInterested, SetNotInterested, false)
  {
    hide Trace, LastChoice;
    EndsAgree(a, b, ms);
    SenderIsLastChoice(Link(NewConn(a), [], NewConn(b)), ms);
  }

  lemma {:induction false} TraceAppend(s: Link, ms: seq<Move>, ds: seq<Move>)
    ensures Trace(s, ms + ds) == Trace(Trace(s, ms), ds)
    decreases |ms|
  {
    hide Next;
    if ms == [] {
      assert ms + ds == ds;
    } else {
      TraceAppend(Next(s, ms[0]), ms[1..], ds);
      assert (ms + ds)[1..] == ms[1..] + ds;
    }
  }

  /** As many deliveries as there are messages under way leave none. */
  lemma {:induction false} DeliveriesEmpty(s: Link, ds: seq<Move>)
    requires |s.wire| <= |ds| && forall i :: 0 <= i < |ds| ==> ds[i].Deliver?
    ensures Trace(s, ds).wire == [] && Trace(s, ds).sender == s.sender
    decreases |ds|
  {
    hide NextState;
    if ds == [] {
    } else {
      DeliveriesEmpty(Next(s, ds[0]), ds[1..]);
    }
  }

  /** After any run and enough deliveries the receiver has learned the sender's last choices. */
  lemma ReceiverLearns(a: ExtBits, b: ExtBits, ms: seq<Move>, ds: seq<Move>)
    requires (forall i :: 0 <= i < |ms| ==> Allowed(ms[i])) && forall i :: 0 <= i < |ds| ==> ds[i].Deliver?
    requires |ds| >= |Trace(Link(NewConn(a), [], NewConn(b)), ms).wire|
    ensures var s := Trace(Link(NewConn(a), [], NewConn(b)), ms + ds);
            && s.receiver.peerChoked == LastChoice(ms, SetChoked, SetUnchoked, true)
            && s.receiver.peerInterested == LastChoice(ms, SetInterested, SetNotInterested, false)
  {
    hide Trace, LastChoice;
    var start := Link(NewConn(a), [], NewConn(b));
    TraceAppend(start, ms, ds);
    DeliveriesEmpty(Trace(start, ms), ds);
    EndsAgree(a, b, ms + ds);
    SenderIsLastChoice(start, ms);
  }
}
