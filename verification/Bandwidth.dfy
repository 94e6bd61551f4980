/** The token bucket of the bandwidth limiter, in exact arithmetic: times in nanoseconds, tokens in bytes. */
module Bandwidth {
  import opened Prelude

  const SECOND: int := 1_000_000_000

  datatype Bucket = Bucket(rate: int, enabled: bool, tokens: int, maxTokens: int, lastFill: int)

  predicate Limiting(b: Bucket) {
    b.enabled && b.rate > 0
  }

  ghost predicate Valid(b: Bucket) {
    0 <= b.tokens <= b.maxTokens && b.maxTokens == (if Limiting(b) then b.rate else 0)
  }

  /** `NewBandwidthLimiter` starts with a full bucket. */
  function NewBucket(rate: int, enabled: bool, now: int): (b: Bucket)
    ensures Valid(b) && b.tokens == b.maxTokens && b.lastFill == now && b.rate == rate && b.enabled == enabled
  {
    var full := if enabled && rate > 0 then rate else 0;
    Bucket(rate, enabled, full, full, now)
  }

  /** `updateTokenBucket`: what the elapsed time earned, up to one second's worth. */
  function Refill(b: Bucket, now: int): Bucket {
    if !Limiting(b) then b.(maxTokens := 0, tokens := 0)
    else b.(maxTokens := b.rate, tokens := Min(b.tokens + b.rate * (now - b.lastFill) / SECOND, b.rate),
      lastFill := now)
  }

  /** The wait for tokens that are missing, truncated to whole nanoseconds. */
  function WaitTime(needed: nat, rate: int): int
    requires rate > 0
  {
    needed * SECOND / rate
  }

  datatype Decision = Pass | Take | Wait(time: int)

  /** What `WaitForTokens` decides before it blocks. */
  function Decide(b: Bucket, now: int, bytes: int): Decision {
    if !Limiting(b) || bytes <= 0 then Pass
    else
      var r := Refill(b, now);
      if r.tokens >= bytes then Take else Wait(WaitTime(bytes - r.tokens, b.rate))
  }

  function AfterCall(b: Bucket, now: int, bytes: int): Bucket {
    match Decide(b, now, bytes)
    case Pass => b
    case Take => Refill(b, now).(tokens := Refill(b, now).tokens - bytes)
    case Wait(_) => Refill(b, now).(tokens := 0)
  }

  lemma RefillValid(b: Bucket, now: int)
    requires Valid(b) && now >= b.lastFill
    ensures Valid(Refill(b, now))
  {
    if Limiting(b) { EarnedNotNegative(b.rate, now - b.lastFill); }
  }

  lemma EarnedNotNegative(rate: int, elapsed: int)
    requires rate > 0 && elapsed >= 0
    ensures rate * elapsed / SECOND >= 0 && rate * elapsed / SECOND * SECOND <= rate * elapsed
  {
    assert rate * elapsed >= 0;
  }

  lemma CallValid(b: Bucket, now: int, bytes: int)
    requires Valid(b) && now >= b.lastFill
    ensures Valid(AfterCall(b, now, bytes))
  {
    RefillValid(b, now);
  }

  // ------------------------------------------------------------ runs

  /**
   A call of `WaitForTokens`, which holds the lock until it returns: when it starts, how much it
   asks for, whether the context ends the wait, and when it returns.
   */
  datatype Call = Call(start: int, bytes: int, cancelled: bool, end: int)

  /** Totals so far: bytes granted, calls that waited and were granted, their waiting time, the current time. */
  datatype Ledger = Ledger(bucket: Bucket, granted: int, waits: int, waited: int, clock: int)

  function Opening(b: Bucket): Ledger {
    Ledger(b, 0, 0, 0, b.lastFill)
  }

  /** The lock orders the calls, and an uncancelled wait takes its time. */
  predicate Possible(l: Ledger, c: Call) {
    l.clock <= c.start <= c.end &&
    match Decide(l.bucket, c.start, c.bytes)
    case Wait(t) => c.cancelled || c.start + t <= c.end
    case _ => true
  }

  function Record(l: Ledger, c: Call): Ledger {
    var b := AfterCall(l.bucket, c.start, c.bytes);
    match Decide(l.bucket, c.start, c.bytes)
    case Pass => l.(bucket := b, clock := c.end)
    case Take => Ledger(b, l.granted + c.bytes, l.waits, l.waited, c.end)
    case Wait(t) =>
      if c.cancelled then l.(bucket := b, clock := c.end)
      else Ledger(b, l.granted + c.bytes, l.waits + 1, l.waited + t, c.end)
  }

  function Run(l: Ledger, cs: seq<Call>): Ledger
    decreases |cs|
  {
    if cs == [] then l else Run(Record(l, cs[0]), cs[1..])
  }

  predicate PossibleRun(l: Ledger, cs: seq<Call>)
    decreases |cs|
  {
    cs == [] || (Possible(l, cs[0]) && PossibleRun(Record(l, cs[0]), cs[1..]))
  }

  /** What the ledger keeps, relative to the tokens `t0` and the time `s0` the run started with. */
  ghost predicate Balanced(l: Ledger, rate: int, t0: int, s0: int) {
    && Valid(l.bucket) && Limiting(l.bucket) && l.bucket.rate == rate
    && s0 <= l.bucket.lastFill <= l.clock && 0 <= l.waits && 0 <= l.waited <= l.clock - s0
    && SECOND * (l.granted + l.bucket.tokens) <=
       SECOND * t0 + rate * (l.bucket.lastFill - s0) + rate * (l.waited + l.waits)
  }

  lemma Distribute(r: int, a: int, b: int)
    ensures r * (a + b) == r * a + r * b
  {
  }

  /** A refill is paid for by the time since the last one. */
  lemma RefillPaid(b: Bucket, now: int, s0: int)
    requires Valid(b) && Limiting(b) && s0 <= b.lastFill <= now
    ensures SECOND * Refill(b, now).tokens <= SECOND * b.tokens + b.rate * (now - s0) - b.rate * (b.lastFill - s0)
  {
    EarnedNotNegative(b.rate, now - b.lastFill);
    Distribute(b.rate, now - b.lastFill, b.lastFill - s0);
  }

  /** The wait is the whole number of nanoseconds that the missing bytes take at this rate. */
  lemma WaitExact(needed: nat, rate: int)
    requires rate > 0
    ensures 0 <= WaitTime(needed, rate)
    ensures rate * WaitTime(needed, rate) <= SECOND * needed < rate * WaitTime(needed, rate) + rate
  {
    var t := WaitTime(needed, rate);
    assert needed * SECOND == rate * t + (needed * SECOND) % rate;
  }

  lemma RecordBalanced(l: Ledger, c: Call, rate: int, t0: int, s0: int)
    requires Balanced(l, rate, t0, s0) && Possible(l, c)
    ensures Balanced(Record(l, c), rate, t0, s0)
  {
    hide Refill, WaitTime;
    var b := l.bucket;
    CallValid(b, c.start, c.bytes);
    RefillFields(b, c.start);
    RefillValid(b, c.start);
    RefillPaid(b, c.start, s0);
    var r := Refill(b, c.start);
    match Decide(b, c.start, c.bytes)
    case Pass =>
    case Take =>
    case Wait(t) =>
      WaitExact(c.bytes - r.tokens, rate);
      Distribute(rate, l.waited + l.waits, t + 1);
      Distribute(rate, t, 1);
  }

  lemma RefillFields(b: Bucket, now: int)
    requires Limiting(b)
    ensures var r := Refill(b, now); r.rate == b.rate && r.enabled == b.enabled && r.lastFill == now
  {
  }

  lemma {:induction false} RunBalanced(l: Ledger, cs: seq<Call>, rate: int, t0: int, s0: int)
    requires Balanced(l, rate, t0, s0) && PossibleRun(l, cs)
    ensures Balanced(Run(l, cs), rate, t0, s0)
    decreases |cs|
  {
    hide Balanced, Record, Possible;
    if cs == [] {
    } else {
      RecordBalanced(l, cs[0], rate, t0, s0);
      RunBalanced(Record(l, cs[0]), cs[1..], rate, t0, s0);
    }
  }

  /** The account of a whole run: tokens at the start, time passed, time waited and a nanosecond per granted wait. */
  lemma GrantAccount(b: Bucket, cs: seq<Call>)
    requires Valid(b) && Limiting(b) && PossibleRun(Opening(b), cs)
    ensures var l := Run(Opening(b), cs);
            && 0 <= l.bucket.tokens <= l.bucket.maxTokens == b.rate && 0 <= l.waited <= l.clock - b.lastFill
            && SECOND * l.granted <=
               SECOND * b.tokens + b.rate * (l.clock - b.lastFill) + b.rate * l.waited + b.rate * l.waits
  {
    hide Run, PossibleRun;
    assert Balanced(Opening(b), b.rate, b.tokens, b.lastFill);
    RunBalanced(Opening(b), cs, b.rate, b.tokens, b.lastFill);
    var l := Run(Opening(b), cs);
    Distribute(b.rate, l.waited, l.waits);
    Monotone(b.rate, l.bucket.lastFill - b.lastFill, l.clock - b.lastFill);
  }

  /**
   Every run of a limiting bucket keeps `0 <= tokens <= maxTokens`, and grants at most its initial
   tokens plus twice the rate over the elapsed time, plus a nanosecond's worth per granted wait.
   */
  lemma GrantBound(b: Bucket, cs: seq<Call>)
    requires Valid(b) && Limiting(b) && PossibleRun(Opening(b), cs)
    ensures var l := Run(Opening(b), cs);
            && 0 <= l.bucket.tokens <= l.bucket.maxTokens == b.rate
            && SECOND * l.granted <= SECOND * b.tokens + 2 * (b.rate * (l.clock - b.lastFill)) + b.rate * l.waits
  {
    hide Run, PossibleRun;
    GrantAccount(b, cs);
    var l := Run(Opening(b), cs);
    Monotone(b.rate, l.waited, l.clock - b.lastFill);
  }

  /** Wait one second for a second's worth, then spend what the same second refills. */
  function Round(b: Bucket): seq<Call> {
    var end := b.lastFill + SECOND;
    [Call(b.lastFill, b.tokens + b.rate, false, end), Call(end, b.rate, false, end)]
  }

  function Rounds(b: Bucket, m: nat): seq<Call>
    decreases m
  {
    if m == 0 then [] else Round(b) + Rounds(b.(tokens := 0, lastFill := b.lastFill + SECOND), m - 1)
  }

  lemma MulDiv(q: nat, d: int)
    requires d > 0
    ensures (q * d) / d == q
  {
    var r := (q * d) / d;
    assert q * d == r * d + (q * d) % d;
    if r < q { LessProduct(r, q, d); }
    if q < r { LessProduct(q, r, d); }
  }

  lemma LessProduct(x: int, y: int, d: int)
    requires x < y && d > 0
    ensures x * d + d <= y * d
  {
    Distribute(d, x, 1);
    Monotone(d, x + 1, y);
  }

  lemma SecondsWorth(rate: int)
    requires rate > 0
    ensures WaitTime(rate, rate) == SECOND && rate * SECOND / SECOND == rate && rate * 0 / SECOND == 0
  {
    MulDiv(SECOND, rate);
    MulDiv(rate, SECOND);
    assert rate * SECOND == SECOND * rate;
  }

  lemma RoundWaits(l: Ledger)
    requires Valid(l.bucket) && Limiting(l.bucket) && l.clock == l.bucket.lastFill
    ensures var b, c := l.bucket, Round(l.bucket)[0];
            && Possible(l, c)
            && Record(l, c) == Ledger(b.(tokens := 0), l.granted + b.tokens + b.rate, l.waits + 1, l.waited + SECOND,
                                      b.lastFill + SECOND)
  {
    hide WaitTime;
    SecondsWorth(l.bucket.rate);
    assert Refill(l.bucket, l.bucket.lastFill) == l.bucket;
  }

  lemma RoundSpends(l: Ledger)
    requires Valid(l.bucket) && Limiting(l.bucket) && l.bucket.tokens == 0 && l.clock == l.bucket.lastFill + SECOND
    ensures var b, d := l.bucket, Call(l.clock, l.bucket.rate, false, l.clock);
            && Possible(l, d)
            && Record(l, d) == l.(bucket := b.(lastFill := l.clock), granted := l.granted + b.rate)
  {
    hide WaitTime;
    var b := l.bucket;
    SecondsWorth(b.rate);
    assert Refill(b, l.clock) == b.(tokens := b.rate, lastFill := l.clock);
  }

  lemma OneRound(l: Ledger)
    requires Valid(l.bucket) && Limiting(l.bucket) && l.clock == l.bucket.lastFill
    ensures var b, c, d := l.bucket, Round(l.bucket)[0], Round(l.bucket)[1];
            && Possible(l, c) && Possible(Record(l, c), d)
            && Record(Record(l, c), d) ==
               Ledger(b.(tokens := 0, lastFill := b.lastFill + SECOND), l.granted + b.tokens + 2 * b.rate, l.waits + 1,
                      l.waited + SECOND, b.lastFill + SECOND)
  {
    hide Record, Possible;
    RoundWaits(l);
    RoundSpends(Record(l, Round(l.bucket)[0]));
  }

  function Times(m: nat, x: int): int {
    m * x
  }

  lemma TimesNext(m: nat, x: int)
    ensures Times(m + 1, x) == Times(m, x) + x && Times(0, x) == 0
  {
  }

  lemma {:induction false} RoundsGrant(l: Ledger, m: nat)
    requires Valid(l.bucket) && Limiting(l.bucket) && l.clock == l.bucket.lastFill
    ensures PossibleRun(l, Rounds(l.bucket, m))
    ensures var r := Run(l, Rounds(l.bucket, m));
            && r.clock == l.clock + Times(m, SECOND)
            && r.granted == l.granted + (if m == 0 then 0 else l.bucket.tokens) + 2 * Times(m, l.bucket.rate)
    decreases m
  {
    if m == 0 {
    } else {
      hide Record, Possible, Run, PossibleRun, Times;
      OneRound(l);
      var b, cs := l.bucket, Rounds(l.bucket, m);
      var c, d, n := Round(b)[0], Round(b)[1], Record(Record(l, Round(b)[0]), Round(b)[1]);
      RoundsGrant(n, m - 1);
      var rest := Rounds(n.bucket, m - 1);
      assert cs == [c, d] + rest;
      RunTwo(l, c, d, rest);
      TimesNext(m - 1, SECOND);
      TimesNext(m - 1, b.rate);
    }
  }

  lemma RunTwo(l: Ledger, c: Call, d: Call, rest: seq<Call>)
    ensures var n := Record(Record(l, c), d);
            && Run(l, [c, d] + rest) == Run(n, rest)
            && (PossibleRun(l, [c, d] + rest) <==>
                  Possible(l, c) && Possible(Record(l, c), d) && PossibleRun(n, rest))
  {
    hide Record, Possible;
    var cs := [c, d] + rest;
    assert cs[1..] == [d] + rest && ([d] + rest)[1..] == rest;
  }

  /** The factor two is needed: from every limiting bucket, for any number of seconds, it is reached exactly. */
  lemma FactorTwoReached(b: Bucket, m: nat)
    requires Valid(b) && Limiting(b) && m > 0
    ensures PossibleRun(Opening(b), Rounds(b, m))
    ensures var l := Run(Opening(b), Rounds(b, m));
            && l.clock == b.lastFill + m * SECOND
            && SECOND * l.granted == SECOND * b.tokens + 2 * (b.rate * (l.clock - b.lastFill))
  {
    hide Run, PossibleRun;
    RoundsGrant(Opening(b), m);
    assert b.rate * (m * SECOND) == SECOND * (m * b.rate);
  }

  lemma Monotone(r: int, x: int, y: int)
    requires r > 0 && x <= y
    ensures r * x <= r * y
  {
  }

  lemma {:induction false} NoWaitsNoWaiting(l: Ledger, cs: seq<Call>)
    requires l.waits >= 0 && l.waited >= 0 && (l.waits == 0 ==> l.waited == 0)
    ensures var r := Run(l, cs); r.waits >= l.waits && (r.waits == 0 ==> r.waited == 0)
    decreases |cs|
  {
    hide Decide, AfterCall;
    if cs == [] {
    } else {
      var m := Record(l, cs[0]);
      if m.waits == 0 {
        NoWaitsNoWaiting(m, cs[1..]);
      } else {
        WaitsGrow(m, cs[1..]);
      }
    }
  }

  lemma {:induction false} WaitsGrow(l: Ledger, cs: seq<Call>)
    ensures Run(l, cs).waits >= l.waits
    decreases |cs|
  {
    hide Decide, AfterCall;
    if cs == [] {
    } else {
      WaitsGrow(Record(l, cs[0]), cs[1..]);
    }
  }

  /** Burst plus rate times time. */
  ghost predicate PlainBound(b: Bucket, l: Ledger) {
    SECOND * l.granted <= SECOND * b.tokens + b.rate * (l.clock - b.lastFill)
  }

  lemma PlainBoundWithoutWaits(b: Bucket, cs: seq<Call>)
    requires Valid(b) && Limiting(b) && PossibleRun(Opening(b), cs) && Run(Opening(b), cs).waits == 0
    ensures PlainBound(b, Run(Opening(b), cs))
  {
    hide Run, PossibleRun;
    GrantAccount(b, cs);
    NoWaitsNoWaiting(Opening(b), cs);
  }

  /** What a refill brings after the time `t`, from an empty bucket. */
  function Earned(rate: int, t: int): int {
    Min(rate * t / SECOND, rate)
  }

  /** Two calls: one that waits, and one that spends the credit of the same wait again. */
  function WaitAndSpend(b: Bucket, extra: nat): seq<Call>
    requires b.rate > 0
  {
    var t := WaitTime(extra, b.rate);
    var end := b.lastFill + t;
    [Call(b.lastFill, b.tokens + extra, false, end), Call(end, Earned(b.rate, t), false, end)]
  }

  /**
   From every limiting bucket: a first request that exceeds the tokens, by any amount, starts a run
   that breaks the plain bound, because the time of the wait is credited again at the next refill.
   */
  lemma PlainBoundFails(b: Bucket, extra: nat)
    requires Valid(b) && Limiting(b) && extra > 0
    ensures var cs := WaitAndSpend(b, extra);
            && PossibleRun(Opening(b), cs)
            && var l := Run(Opening(b), cs); l.waits == 1 && !PlainBound(b, l)
  {
    hide WaitTime, Earned, Record, Possible;
    var t := WaitTime(extra, b.rate);
    WaitExact(extra, b.rate);
    var cs := WaitAndSpend(b, extra);
    var l1 := Ledger(b.(tokens := 0), b.tokens + extra, 1, t, b.lastFill + t);
    FirstCall(b, extra);
    SecondCall(b, t, l1);
    CreditedTwice(b.rate, extra);
    assert cs[1..] == [cs[1]] && [cs[1]][1..] == [];
    assert PossibleRun(l1, [cs[1]]) && Run(l1, [cs[1]]) == Record(l1, cs[1]);
  }

  /**
   The plain bound holds of every run with at most `k` granted waits exactly if `k` is zero,
   whatever the rate and however many tokens the bucket holds at the start.
   */
  lemma PlainBoundIff(b: Bucket, k: nat)
    requires Valid(b) && Limiting(b)
    ensures (forall cs :: PossibleRun(Opening(b), cs) && Run(Opening(b), cs).waits <= k ==>
               PlainBound(b, Run(Opening(b), cs))) <==> k == 0
  {
    hide Run, PossibleRun, PlainBound;
    if k == 0 {
      forall cs | PossibleRun(Opening(b), cs) && Run(Opening(b), cs).waits <= k
        ensures PlainBound(b, Run(Opening(b), cs))
      {
        WaitsGrow(Opening(b), cs);
        PlainBoundWithoutWaits(b, cs);
      }
    } else {
      PlainBoundFails(b, 1);
    }
  }

  lemma FirstCall(b: Bucket, extra: nat)
    requires Valid(b) && Limiting(b) && extra > 0
    ensures var t := WaitTime(extra, b.rate);
            var c := Call(b.lastFill, b.tokens + extra, false, b.lastFill + t);
            && Possible(Opening(b), c)
            && Record(Opening(b), c) == Ledger(b.(tokens := 0), b.tokens + extra, 1, t, b.lastFill + t)
  {
    hide WaitTime;
    WaitExact(extra, b.rate);
    assert b.rate * 0 / SECOND == 0;
    assert Refill(b, b.lastFill) == b;
    assert Decide(b, b.lastFill, b.tokens + extra) == Wait(WaitTime(extra, b.rate));
  }

  lemma SecondCall(b: Bucket, t: int, l: Ledger)
    requires Valid(b) && Limiting(b) && t >= 0 && l.bucket == b.(tokens := 0) && l.clock == b.lastFill + t
    ensures var d := Call(l.clock, Earned(b.rate, t), false, l.clock);
            var r := Record(l, d);
            Possible(l, d) && r.granted == l.granted + Earned(b.rate, t) && r.clock == l.clock && r.waits == l.waits
  {
    EarnedNotNegative(b.rate, t);
    assert Refill(l.bucket, l.clock).tokens == Earned(b.rate, t);
  }

  lemma CreditedTwice(rate: int, extra: nat)
    requires rate > 0 && extra > 0
    ensures var t := WaitTime(extra, rate); SECOND * (extra + Earned(rate, t)) > rate * t
  {
    var t := WaitTime(extra, rate);
    assert rate * t <= extra * SECOND;
    assert SECOND * (rate * t / SECOND) > rate * t - SECOND;
  }

  // ------------------------------------------------------------ what the bucket owes its callers

  /**
   A refill earns exactly the whole bytes that rate times time is worth: one byte more would not be
   paid for, unless the bucket is full, and then the time was worth at least what was missing.
   */
  lemma RefillExact(b: Bucket, now: int)
    requires Valid(b) && Limiting(b) && now >= b.lastFill
    ensures var earned, worth := Refill(b, now).tokens - b.tokens, b.rate * (now - b.lastFill);
            && 0 <= earned <= b.rate - b.tokens && SECOND * earned <= worth
            && (earned < b.rate - b.tokens ==> worth < SECOND * (earned + 1))
  {
    EarnedNotNegative(b.rate, now - b.lastFill);
  }

  /** A call that has to wait takes every token there is, and is granted unless it is cancelled. */
  lemma WaitEmpties(l: Ledger, c: Call)
    requires Limiting(l.bucket) && c.bytes > Max(Refill(l.bucket, c.start).tokens, 0)
    ensures var r := Record(l, c);
            && r.bucket == l.bucket.(tokens := 0, maxTokens := l.bucket.rate, lastFill := c.start) && r.clock == c.end
            && r.granted == l.granted + (if c.cancelled then 0 else c.bytes)
            && r.waits == l.waits + (if c.cancelled then 0 else 1)
  {
    hide WaitTime;
  }

  /** A second refill at the same time brings nothing. */
  lemma RefillTwice(b: Bucket, now: int)
    requires Valid(b) && Limiting(b) && now >= b.lastFill
    ensures var r := Refill(b, now);
            Valid(r) && Limiting(r) && r.lastFill == now && forall n | 0 <= n <= r.tokens :: SameTime(r, now, n)
  {
    RefillValid(b, now);
    var r := Refill(b, now);
    assert r.rate * 0 / SECOND == 0;
  }

  ghost predicate SameTime(r: Bucket, now: int, n: int) {
    Refill(r.(tokens := n), now) == r.(tokens := n)
  }

  /** What a call asks for; nothing is asked for by zero or a negative number. */
  function Asks(c: Call): nat {
    Max(c.bytes, 0)
  }

  function AsksFor(cs: seq<Call>): nat
    decreases |cs|
  {
    if cs == [] then 0 else Asks(cs[0]) + AsksFor(cs[1..])
  }

  /** Every call starts and returns at the same time. */
  ghost predicate AtOnce(cs: seq<Call>, now: int) {
    forall i :: 0 <= i < |cs| ==> cs[i].start == cs[i].end == now
  }

  /** Along the run no call is made to wait. */
  predicate NoneWaits(l: Ledger, cs: seq<Call>)
    decreases |cs|
  {
    cs == [] || (!Decide(l.bucket, cs[0].start, cs[0].bytes).Wait? && NoneWaits(Record(l, cs[0]), cs[1..]))
  }

  /** One call that the tokens cover. */
  lemma CallCovered(l: Ledger, c: Call, now: int)
    requires Valid(l.bucket) && Limiting(l.bucket) && l.bucket.lastFill <= now && c.start == c.end == now
    ensures var r := Refill(l.bucket, now);
            if Decide(l.bucket, now, c.bytes).Wait? then Asks(c) > r.tokens
            else
              var m := Record(l, c);
              && Asks(c) <= r.tokens && m.granted == l.granted + Asks(c) && m.waits == l.waits && m.waited == l.waited
              && Valid(m.bucket) && Limiting(m.bucket) && m.bucket.lastFill <= now
              && Refill(m.bucket, now) == r.(tokens := r.tokens - Asks(c))
  {
    hide Refill, WaitTime;
    CallValid(l.bucket, now, c.bytes);
    RefillFields(l.bucket, now);
    RefillTwice(l.bucket, now);
    var r := Refill(l.bucket, now);
    assert SameTime(r, now, r.tokens);
    if 0 < c.bytes <= r.tokens { assert SameTime(r, now, r.tokens - c.bytes); }
  }

  /**
   Calls at one time are all granted without a wait exactly if the tokens of that time cover them
   together, in whatever order they come; the tokens left are the difference.
   */
  lemma {:induction false} AtOnceIff(l: Ledger, cs: seq<Call>, now: int)
    requires Valid(l.bucket) && Limiting(l.bucket) && l.bucket.lastFill <= now && AtOnce(cs, now)
    ensures NoneWaits(l, cs) <==> AsksFor(cs) <= Refill(l.bucket, now).tokens
    ensures NoneWaits(l, cs) ==>
      var m := Run(l, cs);
      && m.granted == l.granted + AsksFor(cs) && m.waits == l.waits && m.waited == l.waited
      && Refill(m.bucket, now) == Refill(l.bucket, now).(tokens := Refill(l.bucket, now).tokens - AsksFor(cs))
    decreases |cs|
  {
    hide Refill, Record, Decide, Asks, Valid;
    if cs == [] {
      RefillValid(l.bucket, now);
      EnoughForNothing(l.bucket, now);
    } else {
      var c := cs[0];
      CallCovered(l, c, now);
      if !Decide(l.bucket, now, c.bytes).Wait? { AtOnceIff(Record(l, c), cs[1..], now); }
    }
  }

  lemma EnoughForNothing(b: Bucket, now: int)
    requires Valid(b) && now >= b.lastFill
    ensures Refill(b, now).tokens >= 0
  {
    RefillValid(b, now);
  }

  // ------------------------------------------------------------ the object

  class BandwidthLimiter {
    var maxBytesPerSecond: int
    var enabled: bool
    var tokens: int
    var maxTokens: int
    var lastFill: int

    constructor (rate: int, enabled: bool, now: int)
      ensures View() == NewBucket(rate, enabled, now)
    {
      maxBytesPerSecond, this.enabled, lastFill := rate, enabled, now;
      tokens, maxTokens := 0, 0;
      if enabled && rate > 0 {
        maxTokens := rate;
        tokens := rate;
      }
    }

    ghost function View(): Bucket
      reads this
    {
      Bucket(maxBytesPerSecond, enabled, tokens, maxTokens, lastFill)
    }

    method UpdateTokenBucket(now: int)
      modifies this
      ensures View() == Refill(old(View()), now)
    {
      if !enabled || maxBytesPerSecond <= 0 {
        maxTokens := 0;
        tokens := 0;
        return;
      }
      var elapsed := now - lastFill;
      maxTokens := maxBytesPerSecond;
      var tokensToAdd := maxBytesPerSecond * elapsed / SECOND;
      tokens := tokens + tokensToAdd;
      if tokens > maxTokens { tokens := maxTokens; }
      lastFill := now;
    }

    /** The wait itself is not modelled: the decision carries how long the caller is held, with the lock. */
    method WaitForTokens(now: int, bytes: int) returns (decision: Decision)
      requires Valid(View()) && now >= lastFill
      modifies this
      ensures Valid(View())
      ensures decision == Decide(old(View()), now, bytes) && View() == AfterCall(old(View()), now, bytes)
      ensures !Limiting(old(View())) || bytes <= 0 ==> decision == Pass && View() == old(View())
    {
      hide Refill;
      CallValid(View(), now, bytes);
      RefillValid(View(), now);
      if !enabled || maxBytesPerSecond <= 0 { return Pass; }
      if bytes <= 0 { return Pass; }
      RefillFields(View(), now);
      UpdateTokenBucket(now);
      if tokens >= bytes {
        tokens := tokens - bytes;
        return Take;
      }
      var tokensNeeded := bytes - tokens;
      var waitTime := tokensNeeded * SECOND / maxBytesPerSecond;
      tokens := 0;
      return Wait(waitTime);
    }

    /**
     A new rate starts from the tokens left, cut down to the new maximum. The clock is read a second
     time, at `later`, by the refill.
     */
    method UpdateConfiguration(rate: int, on: bool, now: int, later: int)
      requires Valid(View()) && now <= later
      modifies this
      ensures Valid(View()) && maxBytesPerSecond == rate && enabled == on
      ensures on && rate > 0 ==>
        tokens == Min(old(tokens) + rate * (later - now) / SECOND, rate) && lastFill == later
      ensures !(on && rate > 0) ==> tokens == 0 && lastFill == now
    {
      maxBytesPerSecond := rate;
      enabled := on;
      lastFill := now;
      if rate > 0 { EarnedNotNegative(rate, later - now); }
      UpdateTokenBucket(later);
    }
  }
}
