/** Decimal text, as printed by `%d` and read back by `strconv.ParseInt`/`ParseUint` in base 10. */
module Decimal {
  import opened Prelude

  const ZERO: Byte := 48
  const PLUS: Byte := 43
  const MINUS: Byte := 45
  const INT32_CUTOFF: nat := 0x8000_0000
  const INT64_CUTOFF: nat := 0x8000_0000_0000_0000
  const UINT64_CUTOFF: nat := 0x1_0000_0000_0000_0000

  predicate IsDigit(b: Byte) {
    ZERO <= b <= ZERO + 9
  }

  predicate AllDigits(s: Bytes) {
    forall i :: 0 <= i < |s| ==> IsDigit(s[i])
  }

  function Digits(n: nat): (s: Bytes)
    ensures s != [] && AllDigits(s)
    ensures s[0] == ZERO ==> n == 0 && s == [ZERO]
  {
    if n < 10 then [ZERO + n] else Digits(n / 10) + [ZERO + n % 10]
  }

  function Format(n: int): Bytes {
    if n < 0 then [MINUS] + Digits(-n) else Digits(n)
  }

  function NatOf(s: Bytes): nat
    requires AllDigits(s)
  {
    if s == [] then 0 else NatOf(s[..|s| - 1]) * 10 + (s[|s| - 1] - ZERO)
  }

  /** The digits of an unsigned number below `cutoff`: at least one digit, no sign. */
  function ParseUint(s: Bytes, cutoff: nat): Option<nat> {
    if s != [] && AllDigits(s) && NatOf(s) < cutoff then Some(NatOf(s)) else None
  }

  /** A signed number in `-cutoff .. cutoff - 1`: an optional sign, then digits; leading zeros are fine. */
  function ParseInt(s: Bytes, cutoff: nat): (r: Option<int>)
    requires cutoff > 0
    ensures r.Some? ==> 0 - cutoff <= r.value < cutoff
  {
    if s != [] && s[0] == MINUS then
      match ParseUint(s[1..], cutoff + 1) case None => None case Some(n) => Some(0 - n)
    else if s != [] && s[0] == PLUS then
      match ParseUint(s[1..], cutoff) case None => None case Some(n) => Some(n)
    else
      match ParseUint(s, cutoff) case None => None case Some(n) => Some(n)
  }

  /** The text `%d` prints: no sign on zero, no plus sign, no leading zero. */
  predicate Minimal(s: Bytes) {
    if s != [] && s[0] == MINUS then MinimalNat(s[1..]) && s[1] != ZERO else MinimalNat(s)
  }

  predicate MinimalNat(s: Bytes) {
    s != [] && AllDigits(s) && (s[0] == ZERO ==> |s| == 1)
  }

  lemma {:induction false} NatOfDigits(n: nat)
    ensures NatOf(Digits(n)) == n
  {
    if n >= 10 {
      NatOfDigits(n / 10);
      var s := Digits(n);
      assert s[..|s| - 1] == Digits(n / 10);
    } else {
      assert [ZERO + n][..0] == [];
    }
  }

  lemma {:induction false} DigitsOfNat(s: Bytes)
    requires MinimalNat(s)
    ensures Digits(NatOf(s)) == s
    ensures |s| > 1 ==> NatOf(s) >= 10
    ensures s[0] != ZERO ==> NatOf(s) > 0
  {
    if |s| == 1 {
      assert NatOf(s[..0]) == 0;
    } else {
      var front := s[..|s| - 1];
      DigitsOfNat(front);
      assert s == front + [s[|s| - 1]];
      assert NatOf(front) > 0;
    }
  }

  /** Printing then parsing gives the number back, for every number of the width. */
  lemma ParseFormat(n: int, cutoff: nat)
    requires 0 - cutoff <= n < cutoff
    ensures ParseInt(Format(n), cutoff) == Some(n)
    ensures Minimal(Format(n))
  {
    if n < 0 {
      NatOfDigits(-n);
      assert Format(n)[1..] == Digits(-n);
    } else {
      NatOfDigits(n);
    }
  }

  /** The accepted texts that are already in printed form are exactly the minimal ones. */
  lemma FormatParse(s: Bytes, cutoff: nat)
    requires cutoff > 0 && ParseInt(s, cutoff).Some?
    ensures Minimal(s) <==> Format(ParseInt(s, cutoff).value) == s
  {
    var n := ParseInt(s, cutoff).value;
    if Minimal(s) {
      if s[0] == MINUS {
        DigitsOfNat(s[1..]);
        assert s == [MINUS] + s[1..];
      } else {
        DigitsOfNat(s);
      }
    }
    if Format(n) == s {
      ParseFormat(n, cutoff);
    }
  }

  /** The part of a text behind its sign. */
  function Magnitude(s: Bytes): Bytes {
    if s != [] && (s[0] == '-' as int || s[0] == '+' as int) then s[1..] else s
  }

  /** A text is a number of the width exactly if it is digits behind at most one sign, and in range. */
  lemma AcceptedTexts(s: Bytes, cutoff: nat, n: int)
    requires cutoff > 0
    ensures ParseInt(s, cutoff) == Some(n) <==>
            && Magnitude(s) != [] && AllDigits(Magnitude(s)) && 0 - cutoff <= n < cutoff
            && n == if s[0] == '-' as int then 0 - NatOf(Magnitude(s)) else NatOf(Magnitude(s))
  {
    hide NatOf, AllDigits;
    if s != [] && (s[0] == MINUS || s[0] == PLUS) { SignsAreNoDigits(s); }
  }

  lemma SignsAreNoDigits(s: Bytes)
    requires s != [] && (s[0] == '-' as int || s[0] == '+' as int)
    ensures !AllDigits(s)
  {
  }
}
