/** Assembling the info dictionary: pieces arrive in any order, any number of times. */
module Assembly {
  import opened Prelude
  import opened Metadata

  /** The variables of `runMetadataExchangeLoop`; `pieces` is nil before the handshake. */
  datatype Exchange = Exchange(utId: Byte, size: int, num: int, pieces: Option<seq<Bytes>>)

  const START := Exchange(0, 0, 0, None)

  /** The messages that matter: the extended handshake (as decoded), a `ut_metadata` payload, anything else. */
  datatype Event = Handshake(decodes: bool, utId: Byte, size: int) | Payload(payload: Bytes) | Other

  datatype Step = Next(x: Exchange) | Stopped | Panicked

  /** Go's `/` and `%` by the block size: both truncate toward zero. */
  function Quot(n: int): int {
    if n >= 0 then n / BLOCK else -(-n / BLOCK)
  }

  function Rem(n: int): int {
    if n >= 0 then n % BLOCK else -(-n % BLOCK)
  }

  function PiecesNum(size: int): (n: int)
    ensures size >= 0 ==> n >= 0
  {
    Quot(size) + (if Rem(size) != 0 then 1 else 0)
  }

  /** The length `validatePieceData` asks of a piece. */
  function Expected(i: int, num: int, size: int): int {
    if i == num - 1 then (if Rem(size) == 0 then BLOCK else Rem(size)) else BLOCK
  }

  function OnHandshake(x: Exchange, decodes: bool, utId: Byte, size: int): Step {
    if x.utId > 0 || !decodes || utId == 0 then Stopped
    else if PiecesNum(size) < 0 then Panicked
    else Next(Exchange(utId, size, PiecesNum(size), Some(seq(PiecesNum(size), _ => []))))
  }

  function OnPayload(x: Exchange, payload: Bytes): Step {
    if x.pieces.None? then Next(x)
    else match DecodePayload(payload)
      case Err(_) => Stopped
      case Ok(m, _) =>
        if m.msgType != DATA then Next(x)
        else if |m.data| != Expected(m.piece, x.num, x.size) then Stopped
        else if !(0 <= m.piece < |x.pieces.value|) then Panicked
        else Next(x.(pieces := Some(x.pieces.value[m.piece := m.data])))
  }

  function OnEvent(x: Exchange, e: Event): Step {
    match e
    case Handshake(decodes, utId, size) => OnHandshake(x, decodes, utId, size)
    case Payload(payload) => OnPayload(x, payload)
    case Other => Next(x)
  }

  function Run(x: Exchange, es: seq<Event>): Step
    decreases |es|
  {
    if es == [] then Next(x)
    else match OnEvent(x, es[0]) case Next(y) => Run(y, es[1..]) case stop => stop
  }

  /** `isMetadataComplete`. */
  predicate Complete(x: Exchange) {
    x.pieces.Some? && forall i :: 0 <= i < |x.pieces.value| ==> x.pieces.value[i] != []
  }

  /** `bytes.Join` without a separator. */
  function Join(pieces: seq<Bytes>): Bytes {
    if pieces == [] then [] else Join(pieces[..|pieces| - 1]) + pieces[|pieces| - 1]
  }

  // ------------------------------------------------------------ the invariant

  /** A slot is empty or holds a piece of the length asked for at its index. */
  ghost predicate Valid(x: Exchange) {
    x.pieces.Some? ==>
      && x.num == PiecesNum(x.size) == |x.pieces.value|
      && forall i :: 0 <= i < |x.pieces.value| ==>
         x.pieces.value[i] == [] || |x.pieces.value[i]| == Expected(i, x.num, x.size)
  }

  lemma EventKeepsValid(x: Exchange, e: Event)
    requires Valid(x) && OnEvent(x, e).Next?
    ensures Valid(OnEvent(x, e).x)
  {
    hide DecodePayload, Quot, Rem;
  }

  lemma {:induction false} RunKeepsValid(x: Exchange, es: seq<Event>)
    requires Valid(x) && Run(x, es).Next?
    ensures Valid(Run(x, es).x)
    decreases |es|
  {
    hide OnEvent, Valid;
    if es == [] {
    } else {
      EventKeepsValid(x, es[0]);
      RunKeepsValid(OnEvent(x, es[0]).x, es[1..]);
    }
  }

  /** The first pieces of a valid, complete exchange are full blocks. */
  lemma {:induction false} JoinBlocks(pieces: seq<Bytes>, num: int, size: int)
    requires |pieces| < num && forall i :: 0 <= i < |pieces| ==> |pieces[i]| == Expected(i, num, size)
    ensures |Join(pieces)| == |pieces| * BLOCK
  {
    if pieces == [] {
    } else {
      var front := pieces[..|pieces| - 1];
      assert forall i :: 0 <= i < |front| ==> front[i] == pieces[i];
      JoinBlocks(front, num, size);
    }
  }

  lemma {:induction false} JoinSlot(pieces: seq<Bytes>, num: int, size: int, i: nat)
    requires i < |pieces| <= num && forall j :: 0 <= j < |pieces| ==> |pieces[j]| == Expected(j, num, size)
    ensures i * BLOCK + |pieces[i]| <= |Join(pieces)| && Join(pieces)[i * BLOCK..i * BLOCK + |pieces[i]|] == pieces[i]
  {
    var last := |pieces| - 1;
    var front := pieces[..last];
    assert forall j :: 0 <= j < |front| ==> front[j] == pieces[j];
    JoinBlocks(front, num, size);
    hide Expected;
    if i == last {
      SliceOfTail(Join(front), pieces[last]);
    } else {
      JoinSlot(front, num, size, i);
      SliceOfPrefix(Join(front), pieces[last], i * BLOCK, i * BLOCK + |pieces[i]|);
    }
  }

  lemma SizeOfBlocks(size: int)
    requires size > 0
    ensures PiecesNum(size) >= 1 &&
      (PiecesNum(size) - 1) * BLOCK + Expected(PiecesNum(size) - 1, PiecesNum(size), size) == size
  {
  }

  /** Which sizes lead to how many slots. */
  lemma PiecesNumCases(size: int)
    ensures size == 0 ==> PiecesNum(size) == 0
    ensures -BLOCK < size < 0 ==> PiecesNum(size) == 1 && Expected(0, 1, size) < 0
    ensures size <= -BLOCK ==> (PiecesNum(size) >= 0 <==> -2 * BLOCK < size < -BLOCK)
    ensures -2 * BLOCK < size < -BLOCK ==> PiecesNum(size) == 0
  {
  }

  /**
   Over every run: when the loop finds the pieces complete, the joined bytes have the announced
   size exactly when that size is not negative, and then slot `i` stands at `i * BLOCK`.
   */
  lemma CompleteSizeIff(es: seq<Event>)
    requires Run(START, es).Next? && Complete(Run(START, es).x)
    ensures var x := Run(START, es).x; |Join(x.pieces.value)| == x.size <==> x.size >= 0
    ensures var x := Run(START, es).x;
            forall i :: 0 <= i < |x.pieces.value| ==>
              i * BLOCK + |x.pieces.value[i]| <= |Join(x.pieces.value)| &&
                Join(x.pieces.value)[i * BLOCK..i * BLOCK + |x.pieces.value[i]|] == x.pieces.value[i]
  {
    hide Run, PiecesNum, Expected, Quot, Rem;
    RunKeepsValid(START, es);
    var x := Run(START, es).x;
    var ps := x.pieces.value;
    forall i | 0 <= i < |ps|
      ensures |ps[i]| == Expected(i, x.num, x.size)
    {
    }
    forall i | 0 <= i < |ps|
      ensures i * BLOCK + |ps[i]| <= |Join(ps)| && Join(ps)[i * BLOCK..i * BLOCK + |ps[i]|] == ps[i]
    {
      JoinSlot(ps, x.num, x.size, i);
    }
    assert ps != [] ==> |ps[0]| == Expected(0, x.num, x.size);
    PiecesNumCases(x.size);
    if x.size > 0 {
      SizeOfBlocks(x.size);
      var front := ps[..|ps| - 1];
      assert forall i :: 0 <= i < |front| ==> front[i] == ps[i];
      JoinBlocks(front, x.num, x.size);
    }
  }

  /** A negative announced size between one and two blocks is taken as complete at once, with no bytes. */
  lemma NegativeSizeCompletes()
    ensures var r := Run(START, [Handshake(true, 3, -20000)]); r.Next? && Complete(r.x) && Join(r.x.pieces.value) == []
  {
    PiecesNumCases(-20000);
    assert [Handshake(true, 3, -20000)][1..] == [];
  }

  // ------------------------------------------------------------ any order, any duplicates

  /** Piece `i` of the metadata. */
  function Chunk(meta: Bytes, i: nat): Bytes
    requires i * BLOCK <= |meta|
  {
    meta[i * BLOCK..Min((i + 1) * BLOCK, |meta|)]
  }

  predicate InRange(meta: Bytes, i: int) {
    0 <= i < PiecesNum(|meta|)
  }

  lemma ChunkInRange(meta: Bytes, i: int)
    ensures InRange(meta, i) ==> 0 <= i && i * BLOCK < |meta|
    ensures i == PiecesNum(|meta|) ==> i * BLOCK >= |meta| && (i > 0 ==> (i - 1) * BLOCK < |meta|)
  {
  }

  /** Data messages for a piece of `meta` carry that piece's bytes. */
  ghost predicate Honest(es: seq<Event>, meta: Bytes) {
    forall k :: 0 <= k < |es| && es[k].Payload? ==> HonestPayload(es[k].payload, meta)
  }

  ghost predicate HonestPayload(payload: Bytes, meta: Bytes) {
    var d := DecodePayload(payload);
    d.Ok? && d.value.msgType == DATA && InRange(meta, d.value.piece) ==>
      d.value.piece * BLOCK <= |meta| && d.value.data == Chunk(meta, d.value.piece)
  }

  /** A slot is empty or holds its piece of the metadata. */
  ghost predicate Follows(x: Exchange, meta: Bytes) {
    && x.pieces.Some? && x.size == |meta| && x.num == PiecesNum(x.size) == |x.pieces.value|
    && forall i :: 0 <= i < |x.pieces.value| ==>
         i * BLOCK <= |meta| && (x.pieces.value[i] == [] || x.pieces.value[i] == Chunk(meta, i))
  }

  lemma EventFollows(x: Exchange, e: Event, meta: Bytes)
    requires Follows(x, meta) && x.utId > 0 && OnEvent(x, e).Next? && (e.Payload? ==> HonestPayload(e.payload, meta))
    ensures Follows(OnEvent(x, e).x, meta) && OnEvent(x, e).x.utId > 0
  {
    hide DecodePayload, PiecesNum, Chunk;
  }

  lemma {:induction false} RunFollows(x: Exchange, es: seq<Event>, meta: Bytes)
    requires Follows(x, meta) && x.utId > 0 && Run(x, es).Next? && Honest(es, meta)
    ensures Follows(Run(x, es).x, meta)
    decreases |es|
  {
    hide OnEvent, Follows, HonestPayload;
    if es == [] {
    } else {
      EventFollows(x, es[0], meta);
      assert forall k :: 0 <= k < |es[1..]| ==> es[1..][k] == es[k + 1];
      RunFollows(OnEvent(x, es[0]).x, es[1..], meta);
    }
  }

  lemma {:induction false} JoinChunks(pieces: seq<Bytes>, meta: Bytes)
    requires forall i :: 0 <= i < |pieces| ==> i * BLOCK < |meta| && pieces[i] == Chunk(meta, i)
    ensures Join(pieces) == meta[..Min(|pieces| * BLOCK, |meta|)]
  {
    if pieces == [] {
    } else {
      var last := |pieces| - 1;
      var front := pieces[..last];
      assert forall i :: 0 <= i < |front| ==> front[i] == pieces[i];
      JoinChunks(front, meta);
      assert last * BLOCK < |meta|;
      assert meta[..Min(|pieces| * BLOCK, |meta|)] == meta[..last * BLOCK] + Chunk(meta, last);
    }
  }

  /**
   Whatever the order of arrival and however often a piece comes again: after a handshake that
   announces the true size, honest pieces can only complete to the metadata itself.
   */
  lemma CompletesToMetadata(utId: Byte, meta: Bytes, es: seq<Event>)
    requires utId > 0 && Honest(es, meta)
    requires Run(START, [Handshake(true, utId, |meta|)] + es).Next? &&
      Complete(Run(START, [Handshake(true, utId, |meta|)] + es).x)
    ensures Join(Run(START, [Handshake(true, utId, |meta|)] + es).x.pieces.value) == meta
  {
    hide PiecesNum, Chunk;
    var all := [Handshake(true, utId, |meta|)] + es;
    assert all[1..] == es;
    var x := OnEvent(START, all[0]).x;
    forall i | 0 <= i < |x.pieces.value|
      ensures i * BLOCK <= |meta|
    {
      ChunkInRange(meta, i);
    }
    RunFollows(x, es, meta);
    var y := Run(x, es).x;
    forall i | 0 <= i < |y.pieces.value|
      ensures i * BLOCK < |meta| && y.pieces.value[i] == Chunk(meta, i)
    {
      ChunkInRange(meta, i);
    }
    JoinChunks(y.pieces.value, meta);
    ChunkInRange(meta, PiecesNum(|meta|));
    assert meta[..|meta|] == meta;
  }

  /** A data message for piece `i`. */
  predicate Brings(e: Event, i: int) {
    e.Payload? && var d := DecodePayload(e.payload);
    d.Ok? && d.value.msgType == DATA && d.value.piece == i
  }

  ghost predicate Brought(es: seq<Event>, i: int) {
    exists k :: 0 <= k < |es| && Brings(es[k], i)
  }

  lemma EventFillsSlot(x: Exchange, e: Event, i: nat)
    requires Valid(x) && x.size >= 0 && x.utId > 0 && x.pieces.Some? && i < |x.pieces.value| && OnEvent(x, e).Next?
    ensures var y := OnEvent(x, e).x;
            && y.pieces.Some? && |y.pieces.value| == |x.pieces.value| && y.size == x.size && y.num == x.num &&
               y.utId == x.utId
            && (y.pieces.value[i] != [] <==> x.pieces.value[i] != [] || Brings(e, i))
  {
    hide DecodePayload, Valid, PiecesNum;
    ExpectedPositive(x.size);
    assert x.num == PiecesNum(x.size) == |x.pieces.value| by { ValidShape(x); }
  }

  lemma ValidShape(x: Exchange)
    requires Valid(x) && x.pieces.Some?
    ensures x.num == PiecesNum(x.size) == |x.pieces.value|
  {
  }

  lemma ExpectedPositive(size: int)
    ensures size >= 0 ==> forall i :: Expected(i, PiecesNum(size), size) > 0
  {
  }

  lemma {:induction false} FilledIff(x: Exchange, es: seq<Event>, i: nat)
    requires Valid(x) && x.size >= 0 && x.utId > 0 && x.pieces.Some? && i < |x.pieces.value| && Run(x, es).Next?
    ensures var y := Run(x, es).x;
            && y.pieces.Some? && |y.pieces.value| == |x.pieces.value|
            && (y.pieces.value[i] != [] <==> x.pieces.value[i] != [] || Brought(es, i))
    decreases |es|
  {
    hide OnEvent, Valid, Brings;
    if es == [] {
    } else {
      EventFillsSlot(x, es[0], i);
      EventKeepsValid(x, es[0]);
      var y := OnEvent(x, es[0]).x;
      FilledIff(y, es[1..], i);
      assert forall k :: 0 <= k < |es[1..]| ==> es[1..][k] == es[k + 1];
      assert Brought(es, i) <==> Brings(es[0], i) || Brought(es[1..], i);
    }
  }

  /**
   After a handshake with a size that is not negative, the pieces are complete exactly when every
   index has been brought.
   */
  lemma CompleteIff(utId: Byte, size: int, es: seq<Event>)
    requires utId > 0 && size >= 0 && Run(START, [Handshake(true, utId, size)] + es).Next?
    ensures Complete(Run(START, [Handshake(true, utId, size)] + es).x) <==>
            forall i :: 0 <= i < PiecesNum(size) ==> Brought(es, i)
  {
    hide PiecesNum, Brought, Run, Valid;
    var x := Exchange(utId, size, PiecesNum(size), Some(seq(PiecesNum(size), _ => [])));
    Opening(utId, size, es);
    RunKeepsPieces(x, es);
    var ps := Run(x, es).x.pieces.value;
    forall i: nat | i < PiecesNum(size)
      ensures ps[i] != [] <==> Brought(es, i)
    {
      FilledIff(x, es, i);
    }
  }

  /** The handshake opens a fresh exchange. */
  lemma Opening(utId: Byte, size: int, es: seq<Event>)
    requires utId > 0 && size >= 0
    ensures var x := Exchange(utId, size, PiecesNum(size), Some(seq(PiecesNum(size), _ => [])));
            Valid(x) && Run(START, [Handshake(true, utId, size)] + es) == Run(x, es)
  {
    assert ([Handshake(true, utId, size)] + es)[1..] == es;
  }

  lemma {:induction false} RunKeepsPieces(x: Exchange, es: seq<Event>)
    requires x.pieces.Some? && x.utId > 0 && Run(x, es).Next?
    ensures var y := Run(x, es).x; y.pieces.Some? && |y.pieces.value| == |x.pieces.value|
    decreases |es|
  {
    hide DecodePayload;
    if es == [] {
    } else {
      RunKeepsPieces(OnEvent(x, es[0]).x, es[1..]);
    }
  }

  // ------------------------------------------------------------ which exchanges go on

  /** Before the handshake everything else is ignored, payloads of any kind included. */
  lemma {:induction false} IgnoredBefore(es: seq<Event>, more: seq<Event>)
    requires forall k :: 0 <= k < |es| ==> !es[k].Handshake?
    ensures Run(START, es + more) == Run(START, more)
    decreases |es|
  {
    if es == [] {
      assert es + more == more;
    } else {
      assert OnEvent(START, es[0]) == Next(START);
      assert (es + more)[1..] == es[1..] + more;
      IgnoredBefore(es[1..], more);
    }
  }

  /**
   The first handshake stops the exchange exactly if it does not decode or has no extension id, panics
   exactly for the sizes that would need a negative number of slots, and otherwise opens empty slots.
   */
  lemma HandshakeLaw(decodes: bool, utId: Byte, size: int)
    ensures var r := Run(START, [Handshake(decodes, utId, size)]);
            && (r.Stopped? <==> !decodes || utId == 0)
            && (r.Panicked? <==> decodes && utId > 0 && (size <= -2 * BLOCK || size == -BLOCK))
            && (r.Next? ==>
                  && r.x.utId == utId && r.x.size == size && r.x.pieces.Some?
                  && forall i :: 0 <= i < |r.x.pieces.value| ==> r.x.pieces.value[i] == [])
            && (r.Next? && size == 0 ==> r.x.pieces.value == [])
            && (r.Next? && size > 0 ==> (|r.x.pieces.value| - 1) * BLOCK < size <= |r.x.pieces.value| * BLOCK)
  {
    hide Quot, Rem;
    assert [Handshake(decodes, utId, size)][1..] == [];
    PiecesNumCases(size);
    if size > 0 { SlotsNeeded(size); }
  }

  lemma SlotsNeeded(size: nat)
    requires size > 0
    ensures (PiecesNum(size) - 1) * BLOCK < size <= PiecesNum(size) * BLOCK
  {
  }

  /** After the handshake: no second one, payloads that decode, and data for a piece there is, of its length. */
  predicate Welcome(e: Event, size: nat) {
    match e
    case Handshake(_, _, _) => false
    case Other => true
    case Payload(payload) =>
      var d := DecodePayload(payload);
      d.Ok? && (d.value.msgType == DATA ==>
        0 <= d.value.piece < PiecesNum(size) && |d.value.data| == Min(BLOCK, size - d.value.piece * BLOCK))
  }

  /** The length asked for is what the metadata has left at that piece. */
  lemma ExpectedIsRest(size: nat, i: int)
    requires 0 <= i < PiecesNum(size)
    ensures Expected(i, PiecesNum(size), size) == Min(BLOCK, size - i * BLOCK)
  {
  }

  lemma GoesOnStep(x: Exchange, e: Event)
    requires Valid(x) && x.utId > 0 && x.pieces.Some? && x.size >= 0
    ensures OnEvent(x, e).Next? <==> Welcome(e, x.size)
    ensures OnEvent(x, e).Next? ==>
      var y := OnEvent(x, e).x; Valid(y) && y.utId == x.utId && y.pieces.Some? && y.size == x.size
  {
    hide DecodePayload, PiecesNum, Expected, Valid;
    ValidShape(x);
    if OnEvent(x, e).Next? { EventKeepsValid(x, e); }
    if e.Payload? && DecodePayload(e.payload).Ok? {
      var i := DecodePayload(e.payload).value.piece;
      if 0 <= i < PiecesNum(x.size) { ExpectedIsRest(x.size, i); }
    }
  }

  lemma {:induction false} GoesOn(x: Exchange, es: seq<Event>)
    requires Valid(x) && x.utId > 0 && x.pieces.Some? && x.size >= 0
    ensures Run(x, es).Next? <==> forall k :: 0 <= k < |es| ==> Welcome(es[k], x.size)
    decreases |es|
  {
    hide OnEvent, Valid, Welcome;
    if es == [] {
    } else {
      GoesOnStep(x, es[0]);
      assert forall k :: 0 <= k < |es[1..]| ==> es[1..][k] == es[k + 1];
      assert forall k :: 0 < k < |es| ==> es[k] == es[1..][k - 1];
      if Welcome(es[0], x.size) { GoesOn(OnEvent(x, es[0]).x, es[1..]); }
    }
  }

  /** After a handshake with a size that is not negative, the loop goes on exactly as long as messages are welcome. */
  lemma GoesOnIff(utId: Byte, size: nat, es: seq<Event>)
    requires utId > 0
    ensures Run(START, [Handshake(true, utId, size)] + es).Next? <==>
            forall k :: 0 <= k < |es| ==> Welcome(es[k], size)
  {
    hide Run, Valid, Welcome;
    Opening(utId, size, es);
    GoesOn(Exchange(utId, size, PiecesNum(size), Some(seq(PiecesNum(size), _ => []))), es);
  }

  /**
   Welcome, honest messages in any order and with any repetition end in the metadata itself as soon
   as every piece has come, and not before.
   */
  lemma AssemblesMetadata(utId: Byte, meta: Bytes, es: seq<Event>)
    requires utId > 0 && Honest(es, meta) && forall k :: 0 <= k < |es| ==> Welcome(es[k], |meta|)
    ensures var r := Run(START, [Handshake(true, utId, |meta|)] + es);
            && r.Next?
            && (Complete(r.x) <==> forall i :: 0 <= i < PiecesNum(|meta|) ==> Brought(es, i))
            && (Complete(r.x) ==> Join(r.x.pieces.value) == meta)
  {
    hide Run, Welcome, Honest, PiecesNum, Complete, Brought;
    GoesOnIff(utId, |meta|, es);
    CompleteIff(utId, |meta|, es);
    if Complete(Run(START, [Handshake(true, utId, |meta|)] + es).x) { CompletesToMetadata(utId, meta, es); }
  }

  // ------------------------------------------------------------ the loop's variables

  class MetadataExchange {
    var utmetadataID: Byte
    var metadataSize: int
    var piecesNum: int
    var pieces: Option<seq<Bytes>>

    constructor ()
      ensures View() == START
    {
      utmetadataID, metadataSize, piecesNum, pieces := 0, 0, 0, None;
    }

    ghost function View(): Exchange
      reads this
    {
      Exchange(utmetadataID, metadataSize, piecesNum, pieces)
    }

    /** The outcome of a handler in the terms of the step functions. */
    ghost predicate Outcome(s: Step, ok: bool, panicked: bool)
      reads this
    {
      match s
      case Next(x) => ok && !panicked && View() == x
      case Stopped => !ok && !panicked
      case Panicked => panicked
    }

    method ProcessExtendedHandshake(decodes: bool, utId: Byte, size: int) returns (ok: bool, panicked: bool)
      modifies this
      ensures Outcome(OnHandshake(old(View()), decodes, utId, size), ok, panicked)
    {
      if utmetadataID > 0 { return false, false; }
      if !decodes { return false, false; }
      utmetadataID := utId;
      if utmetadataID == 0 { return false, false; }
      metadataSize := size;
      piecesNum := Quot(metadataSize);
      if Rem(metadataSize) != 0 { piecesNum := piecesNum + 1; }
      if piecesNum < 0 { return false, true; }
      pieces := Some(seq(piecesNum, _ => []));
      return true, false;
    }

    method ProcessMetadataPiece(payload: Bytes) returns (ok: bool, panicked: bool)
      modifies this
      ensures Outcome(OnPayload(old(View()), payload), ok, panicked)
    {
      hide DecodePayload, Quot, Rem;
      if pieces.None? { return true, false; }
      var m, err := DecodeFromPayload(payload);
      if err.Some? { return false, false; }
      if m.msgType != DATA { return true, false; }
      var pieceLen := |m.data|;
      if m.piece == piecesNum - 1 {
        var expectedLen := Rem(metadataSize);
        if expectedLen == 0 { expectedLen := BLOCK; }
        if pieceLen != expectedLen { return false, false; }
      } else if pieceLen != BLOCK {
        return false, false;
      }
      if !(0 <= m.piece < |pieces.value|) { return false, true; }
      pieces := Some(pieces.value[m.piece := m.data]);
      return true, false;
    }

    method IsMetadataComplete() returns (r: bool)
      requires pieces.Some?
      ensures r == Complete(View())
    {
      for i := 0 to |pieces.value|
        invariant forall j :: 0 <= j < i ==> pieces.value[j] != []
      {
        if |pieces.value[i]| == 0 { return false; }
      }
      return true;
    }

    method FinalizeMetadata() returns (r: Bytes)
      requires pieces.Some?
      ensures r == Join(pieces.value)
    {
      r := [];
      for i := 0 to |pieces.value|
        invariant r == Join(pieces.value[..i])
      {
        assert pieces.value[..i + 1][..i] == pieces.value[..i];
        r := r + pieces.value[i];
      }
      assert pieces.value[..|pieces.value|] == pieces.value;
    }
  }
}
