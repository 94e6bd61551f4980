/** `FilePieces.Merge`: adjacent ranges become one; nothing else changes. */
module Merge {
  import opened Prelude
  import opened Pieces

  ghost predicate AllFit(s: seq<Range>) {
    forall i :: 0 <= i < |s| ==> Fits(s[i])
  }

  predicate Covers(r: Range, index: nat, pos: nat) {
    r.index == index && r.offset <= pos < r.offset + r.length
  }

  /** How many of the ranges cover one byte of one piece. */
  function Cover(s: seq<Range>, index: nat, pos: nat): nat {
    if s == [] then 0 else (if Covers(s[0], index, pos) then 1 else 0) + Cover(s[1..], index, pos)
  }

  lemma {:induction false} CoverConcat(a: seq<Range>, b: seq<Range>, index: nat, pos: nat)
    ensures Cover(a + b, index, pos) == Cover(a, index, pos) + Cover(b, index, pos)
  {
    if a == [] {
      assert a + b == b;
    } else {
      assert (a + b)[1..] == a[1..] + b;
      CoverConcat(a[1..], b, index, pos);
    }
  }

  lemma CoverRemove(b: seq<Range>, j: nat, index: nat, pos: nat)
    requires j < |b|
    ensures Cover(b, index, pos) == (if Covers(b[j], index, pos) then 1 else 0) + Cover(b[..j] + b[j + 1..], index, pos)
    ensures multiset(b) == multiset(b[..j] + b[j + 1..]) + multiset{b[j]}
  {
    hide Covers;
    var tail := [b[j]] + b[j + 1..];
    assert b == b[..j] + tail && tail[1..] == b[j + 1..];
    CoverConcat(b[..j], b[j + 1..], index, pos);
    CoverConcat(b[..j], tail, index, pos);
  }

  lemma SameRest(x: multiset<Range>, y: multiset<Range>, r: Range)
    requires x + multiset{r} == y + multiset{r}
    ensures x == y
  {
    assert x == x + multiset{r} - multiset{r};
  }

  /** The first entry of one list, found in the other, and the same multiset without it. */
  lemma FindFirst(a: seq<Range>, b: seq<Range>) returns (j: nat)
    requires multiset(a) == multiset(b) && a != []
    ensures j < |b| && b[j] == a[0] && multiset(a[1..]) == multiset(b[..j] + b[j + 1..])
  {
    assert a[0] in multiset(b);
    j :| 0 <= j < |b| && b[j] == a[0];
    var left := b[..j] + b[j + 1..];
    RemoveMultiset(b, j);
    assert a == [a[0]] + a[1..];
    SameRest(multiset(a[1..]), multiset(left), a[0]);
  }

  lemma {:induction false} CoverMultiset(a: seq<Range>, b: seq<Range>, index: nat, pos: nat)
    requires multiset(a) == multiset(b)
    ensures Cover(a, index, pos) == Cover(b, index, pos)
  {
    hide Cover, Covers;
    if a == [] {
      assert |multiset(b)| == 0;
    } else {
      var j := FindFirst(a, b);
      CoverRemove(b, j, index, pos);
      CoverRemove(a, 0, index, pos);
      assert a[..0] + a[1..] == a[1..];
      CoverMultiset(a[1..], b[..j] + b[j + 1..], index, pos);
    }
  }

  // ------------------------------------------------------------ sorting

  /** `Less` of the sort interface, and its reflexive form. */
  predicate Less(a: Range, b: Range) {
    a.index < b.index || (a.index == b.index && a.offset < b.offset)
  }

  ghost predicate Sorted(s: seq<Range>) {
    forall i, j :: 0 <= i < j < |s| ==> !Less(s[j], s[i])
  }

  lemma SortedInsert(r: seq<Range>, j: nat, x: Range)
    requires Sorted(r) && j <= |r| && forall i :: 0 <= i < j ==> !Less(x, r[i])
    requires j < |r| ==> Less(x, r[j])
    ensures Sorted(r[..j] + [x] + r[j..]) && multiset(r[..j] + [x] + r[j..]) == multiset(r) + multiset{x}
  {
    hide Less;
    InsertMultiset(r, j, x);
    forall i | j <= i < |r|
      ensures !Less(r[i], x)
    {
      LessOrder(x, r[j], r[i]);
      LessOrder(x, r[j], r[j]);
    }
  }

  lemma LessOrder(x: Range, a: Range, b: Range)
    ensures Less(x, a) && !Less(b, a) ==> !Less(b, x)
    ensures !Less(a, a)
  {
  }

  /** `sort.Sort`; the order of ranges with equal index and offset is not fixed. */
  method Sort(s: seq<Range>) returns (r: seq<Range>)
    ensures Sorted(r) && multiset(r) == multiset(s)
  {
    r := [];
    for i := 0 to |s|
      invariant Sorted(r) && multiset(r) == multiset(s[..i])
    {
      var j := 0;
      while j < |r| && !Less(s[i], r[j])
        invariant j <= |r| && forall x :: 0 <= x < j ==> !Less(s[i], r[x])
      {
        j := j + 1;
      }
      assert s[..i + 1] == s[..i] + [s[i]];
      SortedInsert(r, j, s[i]);
      r := r[..j] + [s[i]] + r[j..];
    }
    assert s[..|s|] == s;
  }

  // ------------------------------------------------------------ merging

  /** `cur` grown by the ranges that continue it; the others start anew. Equality is on uint32. */
  function Absorb(cur: Range, s: seq<Range>): seq<Range>
    decreases |s|
  {
    if s == [] then [cur]
    else if s[0].index == cur.index && U32(cur.offset + cur.length) == s[0].offset
      then Absorb(cur.(length := U32(cur.length + s[0].length)), s[1..])
    else [cur] + Absorb(s[0], s[1..])
  }

  function Coalesce(s: seq<Range>): seq<Range> {
    if s == [] then [] else Absorb(s[0], s[1..])
  }

  lemma {:induction false} AbsorbBoundary(cur: Range, a: seq<Range>, b: seq<Range>)
    requires b != [] && b[0].index != (if a == [] then cur else a[|a| - 1]).index
    requires forall i :: 0 <= i < |a| ==> a[i].index == cur.index
    ensures Absorb(cur, a + b) == Absorb(cur, a) + Coalesce(b)
    decreases |a|
  {
    if a == [] {
      assert a + b == b;
    } else {
      assert (a + b)[1..] == a[1..] + b;
      if a[0].index == cur.index && U32(cur.offset + cur.length) == a[0].offset {
        AbsorbBoundary(cur.(length := U32(cur.length + a[0].length)), a[1..], b);
      } else {
        AbsorbBoundary(a[0], a[1..], b);
      }
    }
  }

  /** The unexported `merge`: one group of ranges with the same index. */
  method MergeGroup(fpset: seq<Range>, results: seq<Range>) returns (r: seq<Range>)
    requires forall i :: 0 <= i < |fpset| ==> fpset[i].index == fpset[0].index
    ensures r == results + Coalesce(fpset)
  {
    r := results;
    if |fpset| == 0 {
    } else if |fpset| == 1 {
      r := r + [fpset[0]];
    } else {
      var index: nat, offset: nat, length: nat := fpset[0].index, fpset[0].offset, fpset[0].length;
      for i := 1 to |fpset|
        invariant r + Absorb(Range(index, offset, length), fpset[i..]) == results + Coalesce(fpset)
      {
        var fp := fpset[i];
        assert fpset[i..][0] == fp && fpset[i..][1..] == fpset[i + 1..];
        if U32(offset + length) == fp.offset {
          length := U32(length + fp.length);
          continue;
        }
        r := r + [Range(index, offset, length)];
        offset, length := fp.offset, fp.length;
      }
      r := r + [Range(index, offset, length)];
    }
  }

  /** The loop that cuts a sorted list into groups of one piece each. */
  method MergeGroups(s: seq<Range>) returns (results: seq<Range>)
    requires s != []
    ensures results == Coalesce(s)
  {
    hide Coalesce;
    results := [];
    var lastpos, curindex := 0, s[0].index;
    assert s[0..] == s;
    for i := 0 to |s|
      invariant lastpos <= i && (i > 0 ==> lastpos < i) && (i == 0 ==> lastpos == 0)
      invariant curindex == s[lastpos].index
      invariant forall j :: lastpos <= j < i ==> s[j].index == curindex
      invariant results + Coalesce(s[lastpos..]) == Coalesce(s)
    {
      if s[i].index != curindex {
        GroupEnds(s, lastpos, i);
        results := MergeGroup(s[lastpos..i], results);
        lastpos := i;
        curindex := s[i].index;
      }
    }
    assert s[lastpos..|s|] == s[lastpos..];
    results := MergeGroup(s[lastpos..|s|], results);
  }

  /**
   `Merge` keeps the count of every byte's cover; and when the input is non-empty ranges that do
   not overlap, the answer is the one list in which no two ranges touch.
   */
  method Merge(fps: seq<Range>) returns (results: seq<Range>)
    ensures |fps| < 2 ==> results == fps
    ensures |fps| >= 2 ==> exists s :: Sorted(s) && multiset(s) == multiset(fps) && results == Coalesce(s)
    ensures AllFit(fps) ==> forall index: nat, pos: nat :: Cover(results, index, pos) == Cover(fps, index, pos)
    ensures AllFit(fps) && Separate(fps) ==> Coalesced(results)
  {
    if |fps| < 2 { return fps; }
    var s := Sort(fps);
    results := MergeGroups(s);
    assert results == Coalesce(s);
    if AllFit(fps) { Merged(fps, s); }
  }

  lemma Merged(fps: seq<Range>, s: seq<Range>)
    requires AllFit(fps) && Sorted(s) && multiset(s) == multiset(fps)
    ensures forall index: nat, pos: nat :: Cover(Coalesce(s), index, pos) == Cover(fps, index, pos)
    ensures Separate(fps) ==> Coalesced(Coalesce(s))
  {
    SameFit(fps, s);
    forall index: nat, pos: nat
      ensures Cover(Coalesce(s), index, pos) == Cover(fps, index, pos)
    {
      CoalesceCover(s, index, pos);
      CoverMultiset(s, fps, index, pos);
    }
    if Separate(fps) {
      SortedSeparate(fps, s);
      CoalesceSeparate(s);
    }
  }

  lemma SameFit(a: seq<Range>, b: seq<Range>)
    requires AllFit(a) && multiset(a) == multiset(b)
    ensures AllFit(b)
  {
    forall i | 0 <= i < |b|
      ensures Fits(b[i])
    {
      assert b[i] in multiset(a);
    }
  }

  lemma GroupEnds(s: seq<Range>, lastpos: nat, i: nat)
    requires lastpos < i < |s| && s[i].index != s[lastpos].index
    requires forall j :: lastpos <= j < i ==> s[j].index == s[lastpos].index
    ensures Coalesce(s[lastpos..]) == Coalesce(s[lastpos..i]) + Coalesce(s[i..])
  {
    hide Absorb;
    var g := s[lastpos..i];
    SplitSuffix(s, lastpos, i);
    TailOfAppend(g, s[i..]);
    AbsorbBoundary(g[0], g[1..], s[i..]);
  }

  // ------------------------------------------------------------ what merging keeps

  lemma U32Below(x: nat)
    ensures x < UINT32 ==> U32(x) == x
  {
  }

  /** On a sorted list the wrapped comparison is the plain one, and joining two ranges covers what they covered. */
  lemma JoinCovers(cur: Range, next: Range, index: nat, pos: nat)
    requires Fits(cur) && Fits(next) && cur.index == next.index && U32(cur.offset + cur.length) == next.offset
    ensures var j := cur.(length := U32(cur.length + next.length));
            && Fits(j) && j.length == cur.length + next.length
            && cur.offset + cur.length == next.offset
            && (if Covers(j, index, pos) then 1 else 0) ==
               (if Covers(cur, index, pos) then 1 else 0) + (if Covers(next, index, pos) then 1 else 0)
  {
    U32Below(cur.offset + cur.length);
    U32Below(cur.length + next.length);
  }

  lemma {:induction false} AbsorbCover(cur: Range, s: seq<Range>, index: nat, pos: nat)
    requires Fits(cur) && AllFit(s)
    ensures Cover(Absorb(cur, s), index, pos) == (if Covers(cur, index, pos) then 1 else 0) + Cover(s, index, pos)
    decreases |s|
  {
    hide U32, Covers;
    if s != [] {
      if s[0].index == cur.index && U32(cur.offset + cur.length) == s[0].offset {
        JoinCovers(cur, s[0], index, pos);
        AbsorbCover(cur.(length := U32(cur.length + s[0].length)), s[1..], index, pos);
      } else {
        AbsorbCover(s[0], s[1..], index, pos);
        assert ([cur] + Absorb(s[0], s[1..]))[1..] == Absorb(s[0], s[1..]);
      }
    } else {
      assert [cur][1..] == [];
    }
  }

  lemma CoalesceCover(s: seq<Range>, index: nat, pos: nat)
    requires AllFit(s)
    ensures Cover(Coalesce(s), index, pos) == Cover(s, index, pos)
  {
    if s != [] { AbsorbCover(s[0], s[1..], index, pos); }
  }

  // ------------------------------------------------------------ separate input

  /** Non-empty ranges, no byte in two of them. */
  ghost predicate Separate(s: seq<Range>) {
    && (forall i :: 0 <= i < |s| ==> s[i].length > 0)
    && (forall i, j :: 0 <= i < j < |s| ==> !Overlap(s[i], s[j]))
  }

  predicate Overlap(a: Range, b: Range) {
    a.index == b.index && a.offset < b.offset + b.length && b.offset < a.offset + a.length
  }

  /** `b` starts where `a` ends or later. */
  predicate Follows(b: Range, a: Range) {
    a.index < b.index || (a.index == b.index && a.offset + a.length <= b.offset)
  }

  /** `b` starts later than where `a` ends, so that the two cannot be joined. */
  predicate Clears(b: Range, a: Range) {
    a.index < b.index || (a.index == b.index && a.offset + a.length < b.offset)
  }

  /** Each range ends before the next begins. */
  ghost predicate Spaced(s: seq<Range>) {
    && (forall i :: 0 <= i < |s| ==> s[i].length > 0)
    && (forall i, j :: 0 <= i < j < |s| ==> Follows(s[j], s[i]))
  }

  /** Spaced, and with a gap between ranges of the same piece: nothing is left to merge. */
  ghost predicate Coalesced(s: seq<Range>) {
    && (forall i :: 0 <= i < |s| ==> s[i].length > 0)
    && (forall i, j :: 0 <= i < j < |s| ==> Clears(s[j], s[i]))
  }

  lemma {:induction false} SeparateCount(s: seq<Range>, x: Range)
    requires Separate(s)
    ensures multiset(s)[x] <= 1
  {
    if s == [] {
    } else {
      SeparateCount(s[1..], x);
      assert s == [s[0]] + s[1..];
      forall j | 0 <= j < |s[1..]|
        ensures s[1..][j] != s[0]
      {
        assert !Overlap(s[0], s[j + 1]);
      }
    }
  }

  lemma SortedSeparate(a: seq<Range>, s: seq<Range>)
    requires Separate(a) && Sorted(s) && multiset(a) == multiset(s)
    ensures Spaced(s)
  {
    forall i | 0 <= i < |s|
      ensures s[i].length > 0
    {
      assert s[i] in multiset(a);
    }
    forall i, j | 0 <= i < j < |s|
      ensures s[i].index < s[j].index || (s[i].index == s[j].index && s[i].offset + s[i].length <= s[j].offset)
    {
      assert s[i] in multiset(a) && s[j] in multiset(a);
      var x :| 0 <= x < |a| && a[x] == s[i];
      var y :| 0 <= y < |a| && a[y] == s[j];
      if x == y {
        TwiceCounted(s, i, j);
        SeparateCount(a, s[i]);
        assert false;
      }
      if x < y { assert !Overlap(a[x], a[y]); } else { assert !Overlap(a[y], a[x]); }
      assert !Less(s[j], s[i]);
    }
  }

  lemma {:induction false} AbsorbSeparate(cur: Range, s: seq<Range>)
    requires Fits(cur) && AllFit(s) && Spaced([cur] + s)
    ensures var r := Absorb(cur, s);
            Coalesced(r) && r != [] && r[0].index == cur.index && r[0].offset == cur.offset
    decreases |s|
  {
    hide U32, Spaced, Coalesced;
    if s == [] {
      OneRange(cur);
      assert [cur] + [] == [cur];
    } else {
      SpacedHead(cur, s);
      U32Below(cur.offset + cur.length);
      if s[0].index == cur.index && U32(cur.offset + cur.length) == s[0].offset {
        JoinCovers(cur, s[0], 0, 0);
        var joined := cur.(length := U32(cur.length + s[0].length));
        SpacedJoin(cur, s, joined);
        AbsorbSeparate(joined, s[1..]);
      } else {
        assert s == [s[0]] + s[1..];
        AbsorbSeparate(s[0], s[1..]);
        ConsCoalesced(cur, Absorb(s[0], s[1..]));
      }
    }
  }

  lemma OneRange(cur: Range)
    ensures Spaced([cur]) ==> Coalesced([cur])
  {
  }

  lemma SpacedHead(cur: Range, s: seq<Range>)
    requires s != [] && Spaced([cur] + s)
    ensures Spaced(s) && cur.length > 0 && Follows(s[0], cur)
  {
    hide Follows;
    var all := [cur] + s;
    assert all[0] == cur && forall i :: 0 <= i < |s| ==> s[i] == all[i + 1];
  }

  lemma SpacedJoin(cur: Range, s: seq<Range>, joined: Range)
    requires s != [] && Spaced([cur] + s) && cur.index == s[0].index
    requires joined == cur.(length := cur.length + s[0].length) && cur.offset + cur.length == s[0].offset
    ensures Spaced([joined] + s[1..])
  {
    var all, out := [cur] + s, [joined] + s[1..];
    assert forall i :: 0 < i < |out| ==> out[i] == all[i + 1];
    assert forall j :: 1 < j < |all| ==> Follows(all[j], all[1]);
  }

  lemma ConsCoalesced(cur: Range, r: seq<Range>)
    requires cur.length > 0 && Coalesced(r) && r != [] && Clears(r[0], cur)
    ensures Coalesced([cur] + r)
  {
  }

  lemma CoalesceSeparate(s: seq<Range>)
    requires AllFit(s) && Spaced(s)
    ensures Coalesced(Coalesce(s))
  {
    if s != [] {
      assert s == [s[0]] + s[1..];
      AbsorbSeparate(s[0], s[1..]);
    }
  }

  // ------------------------------------------------------------ uniqueness

  /** Nothing before the first range is covered. */
  lemma {:induction false} NothingBefore(s: seq<Range>, index: nat, pos: nat)
    requires Coalesced(s) && (s != [] ==> index < s[0].index || (index == s[0].index && pos < s[0].offset))
    ensures Cover(s, index, pos) == 0
  {
    if s == [] {
    } else {
      assert forall i :: 0 <= i < |s[1..]| ==> s[1..][i] == s[i + 1];
      NothingBefore(s[1..], index, pos);
    }
  }

  /** The byte right after the first range of a coalesced list is in none of them. */
  lemma NothingRightAfter(s: seq<Range>)
    requires Coalesced(s) && s != []
    ensures Cover(s, s[0].index, s[0].offset + s[0].length) == 0
    ensures Coalesced(s[1..])
  {
    assert forall i :: 0 <= i < |s[1..]| ==> s[1..][i] == s[i + 1];
    NothingBefore(s[1..], s[0].index, s[0].offset + s[0].length);
  }

  /** A list with nothing left to merge is determined by the bytes it covers. */
  lemma {:induction false} CoalescedUnique(a: seq<Range>, b: seq<Range>)
    requires Coalesced(a) && Coalesced(b)
    requires forall index: nat, pos: nat :: Cover(a, index, pos) == Cover(b, index, pos)
    ensures a == b
  {
    assert a != [] ==> Cover(a, a[0].index, a[0].offset) > 0;
    assert b != [] ==> Cover(b, b[0].index, b[0].offset) > 0;
    assert a == [] <==> b == [];
    if a == [] {
    } else {
      SameHead(a, b);
      SameHead(b, a);
      NothingRightAfter(a);
      NothingRightAfter(b);
      assert a[0] == b[0];
      forall index: nat, pos: nat
        ensures Cover(a[1..], index, pos) == Cover(b[1..], index, pos)
      {
        assert Cover(a, index, pos) == Cover(b, index, pos);
      }
      CoalescedUnique(a[1..], b[1..]);
      assert a == [a[0]] + a[1..] && b == [b[0]] + b[1..];
    }
  }

  /** The first range of `b` starts no later than that of `a`, and ends no later either. */
  lemma SameHead(a: seq<Range>, b: seq<Range>)
    requires Coalesced(a) && Coalesced(b) && a != [] && b != []
    requires forall index: nat, pos: nat :: Cover(a, index, pos) == Cover(b, index, pos)
    ensures !Less(a[0], b[0])
    ensures a[0].index == b[0].index && a[0].offset == b[0].offset ==> a[0].length >= b[0].length
  {
    assert Cover(a, a[0].index, a[0].offset) > 0;
    if Less(a[0], b[0]) {
      NothingBefore(b, a[0].index, a[0].offset);
      assert false;
    }
    if a[0].index == b[0].index && a[0].offset == b[0].offset && a[0].length < b[0].length {
      NothingRightAfter(a);
      assert false;
    }
  }
}
