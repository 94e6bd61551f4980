/** File pieces, blocks, and the merging of adjacent ranges. */
module Pieces {
  import opened Prelude
  import opened Layout

  const BLOCK_SIZE: nat := 16384
  const UINT32: nat := 0x1_0000_0000

  /** A `uint32(x)` conversion. */
  function U32(x: int): nat {
    x % UINT32
  }

  /** A range inside one piece; `PieceBlock` has the same three fields. */
  datatype Range = Range(index: nat, offset: nat, length: nat)

  ghost predicate Fits(r: Range) {
    r.index < UINT32 && r.offset + r.length < UINT32
  }

  function TotalOffset(r: Range, pieceLength: int): int {
    r.index * pieceLength + r.offset
  }

  // ------------------------------------------------------------ the pieces of a file

  /** The first file with this path. */
  ghost predicate IsFirst(fs: seq<File>, path: string, i: nat) {
    i < |fs| && fs[i].path == path && forall j :: 0 <= j < i ==> fs[j].path != path
  }

  /** `File.Offset`: the lengths of the files listed before the first one with the path; none is a panic. */
  method FileOffset(fs: seq<File>, path: string) returns (r: Option<nat>)
    ensures r.None? <==> forall i :: 0 <= i < |fs| ==> fs[i].path != path
    ensures forall i: nat :: IsFirst(fs, path, i) ==> r == Some(Start(fs, i))
  {
    var ret := 0;
    StartEnds(fs);
    for i := 0 to |fs|
      invariant ret == Start(fs, i) && forall j :: 0 <= j < i ==> fs[j].path != path
    {
      if fs[i].path == path { return Some(ret); }
      StartNext(fs, i);
      ret := ret + fs[i].length;
    }
    return None;
  }

  /** The ranges follow each other without gap or overlap from flat position `lo` to `hi`. */
  ghost predicate Tiles(rs: seq<Range>, pieceLength: int, lo: int, hi: int)
    decreases |rs|
  {
    if rs == [] then lo == hi
    else
      var last := rs[|rs| - 1];
      TotalOffset(last, pieceLength) + last.length == hi &&
        Tiles(rs[..|rs| - 1], pieceLength, lo, TotalOffset(last, pieceLength))
  }

  lemma TilesAppend(rs: seq<Range>, r: Range, pieceLength: int, lo: int, hi: int)
    requires Tiles(rs, pieceLength, lo, hi) && TotalOffset(r, pieceLength) == hi
    ensures Tiles(rs + [r], pieceLength, lo, hi + r.length)
  {
    assert (rs + [r])[..|rs|] == rs;
  }

  function SumLengths(rs: seq<Range>): nat {
    if rs == [] then 0 else SumLengths(rs[..|rs| - 1]) + rs[|rs| - 1].length
  }

  lemma {:induction false} TilesSum(rs: seq<Range>, pieceLength: int, lo: int, hi: int)
    requires Tiles(rs, pieceLength, lo, hi)
    ensures SumLengths(rs) == hi - lo
  {
    if rs == [] {
    } else {
      TilesSum(rs[..|rs| - 1], pieceLength, lo, TotalOffset(rs[|rs| - 1], pieceLength));
    }
  }

  /** No range reaches past the end of its piece. */
  ghost predicate InPieces(rs: seq<Range>, pieceLength: int) {
    forall i :: 0 <= i < |rs| ==> rs[i].offset + rs[i].length <= pieceLength
  }

  /** Every range but the last holds something. */
  ghost predicate FrontFull(rs: seq<Range>) {
    forall i :: 0 <= i < |rs| - 1 ==> rs[i].length > 0
  }

  ghost predicate AllFull(rs: seq<Range>) {
    forall i :: 0 <= i < |rs| ==> rs[i].length > 0
  }

  lemma ShapeNext(rs: seq<Range>, r: Range, pieceLength: int)
    requires InPieces(rs, pieceLength) && AllFull(rs) && r.offset + r.length <= pieceLength
    ensures InPieces(rs + [r], pieceLength) && FrontFull(rs + [r]) && (r.length > 0 ==> AllFull(rs + [r]))
    ensures rs + [r] != [] && (rs + [r])[|rs + [r]| - 1] == r
  {
  }

  lemma ShapeNothing(pieceLength: int)
    ensures InPieces([], pieceLength) && AllFull([])
  {
  }

  function Quotient(a: nat, p: nat): nat
    requires p > 0
  {
    a / p
  }

  function Remainder(a: nat, p: nat): (r: nat)
    requires p > 0
    ensures r < p
  {
    a % p
  }

  lemma DivModFacts(a: nat, b: nat, p: nat)
    requires p > 0 && a < b
    ensures Quotient(a, p) * p + Remainder(a, p) == a && Quotient(b, p) * p + Remainder(b, p) == b
    ensures Quotient(a, p) <= Quotient(b, p) && (Quotient(a, p) == Quotient(b, p) ==> Remainder(a, p) < Remainder(b, p))
  {
    MulMonotone(b / p + 1, a / p, p);
    assert (b / p + 1) * p == (b / p) * p + p;
  }

  lemma MulMonotone(x: int, y: int, p: nat)
    ensures x <= y ==> x * p <= y * p
  {
  }

  lemma TilesNothing(p: int, lo: int)
    ensures Tiles([], p, lo, lo)
  {
  }

  // The ranges as numbers of any size; the code stores each field in 32 bits.

  /** From offset `o` of piece `i` to the start of piece `k`. */
  function FullPieces(p: nat, i: nat, o: nat, k: nat): seq<Range>
    requires i < k && o < p
  {
    if k == i + 1 then [Range(i, o, p - o)] else FullPieces(p, i, o, k - 1) + [Range(k - 1, 0, p)]
  }

  /** From offset `o` of piece `i` to offset `e` of piece `j`. */
  function RangesFrom(p: nat, i: nat, o: nat, j: nat, e: nat): seq<Range>
    requires i <= j && o < p && e < p && (i == j ==> o < e)
  {
    if i == j then [Range(i, o, e - o)] else FullPieces(p, i, o, j) + [Range(j, 0, e)]
  }

  function PieceRanges(pieceLength: nat, lo: nat, hi: nat): seq<Range>
    requires 0 < pieceLength && lo < hi
  {
    DivModFacts(lo, hi, pieceLength);
    RangesFrom(pieceLength, Quotient(lo, pieceLength), Remainder(lo, pieceLength),
               Quotient(hi, pieceLength), Remainder(hi, pieceLength))
  }

  lemma {:induction false} FullPiecesTile(p: nat, i: nat, o: nat, k: nat)
    requires i < k && o < p
    ensures Tiles(FullPieces(p, i, o, k), p, i * p + o, k * p)
    ensures InPieces(FullPieces(p, i, o, k), p) && AllFull(FullPieces(p, i, o, k))
    decreases k
  {
    hide Tiles, InPieces, FrontFull, AllFull;
    NextMultiple(k - 1, p);
    if k == i + 1 {
      TilesNothing(p, i * p + o);
      ShapeNothing(p);
      TilesAppend([], Range(i, o, p - o), p, i * p + o, i * p + o);
      ShapeNext([], Range(i, o, p - o), p);
      assert [] + [Range(i, o, p - o)] == [Range(i, o, p - o)];
    } else {
      FullPiecesTile(p, i, o, k - 1);
      TilesAppend(FullPieces(p, i, o, k - 1), Range(k - 1, 0, p), p, i * p + o, (k - 1) * p);
      ShapeNext(FullPieces(p, i, o, k - 1), Range(k - 1, 0, p), p);
    }
  }

  lemma RangesFromTile(p: nat, i: nat, o: nat, j: nat, e: nat)
    requires i <= j && o < p && e < p && (i == j ==> o < e)
    ensures var rs := RangesFrom(p, i, o, j, e);
            && Tiles(rs, p, i * p + o, j * p + e) && InPieces(rs, p) && FrontFull(rs)
            && rs != [] && (rs[|rs| - 1].length == 0 <==> e == 0)
  {
    hide Tiles, InPieces, FrontFull, AllFull, FullPieces;
    if i == j {
      TilesNothing(p, i * p + o);
      ShapeNothing(p);
      TilesAppend([], Range(i, o, e - o), p, i * p + o, i * p + o);
      ShapeNext([], Range(i, o, e - o), p);
      assert [] + [Range(i, o, e - o)] == [Range(i, o, e - o)];
    } else {
      FullPiecesTile(p, i, o, j);
      TilesAppend(FullPieces(p, i, o, j), Range(j, 0, e), p, i * p + o, j * p);
      ShapeNext(FullPieces(p, i, o, j), Range(j, 0, e), p);
    }
  }

  /**
   The ranges of a file tile its bytes and stay inside their pieces. When the file ends on a piece
   boundary a last, empty range of the next piece is listed too.
   */
  lemma PieceRangesTile(pieceLength: nat, lo: nat, hi: nat)
    requires 0 < pieceLength && lo < hi
    ensures var rs := PieceRanges(pieceLength, lo, hi);
            && Tiles(rs, pieceLength, lo, hi) && InPieces(rs, pieceLength) && FrontFull(rs)
            && rs != [] && (rs[|rs| - 1].length == 0 <==> Remainder(hi, pieceLength) == 0)
  {
    hide Tiles, InPieces, FrontFull, RangesFrom, Quotient, Remainder;
    DivModFacts(lo, hi, pieceLength);
    RangesFromTile(pieceLength, Quotient(lo, pieceLength), Remainder(lo, pieceLength),
                   Quotient(hi, pieceLength), Remainder(hi, pieceLength));
  }

  function Narrow(r: Range): Range {
    Range(U32(r.index), U32(r.offset), U32(r.length))
  }

  function NarrowAll(rs: seq<Range>): (ns: seq<Range>)
    ensures |ns| == |rs|
  {
    seq(|rs|, i requires 0 <= i < |rs| => Narrow(rs[i]))
  }

  predicate Narrowed(r: Range) {
    r.index < UINT32 && r.offset < UINT32 && r.length < UINT32
  }

  lemma NarrowIff(r: Range)
    ensures Narrow(r) == r <==> Narrowed(r)
  {
  }

  /** The stored ranges are the true ones exactly if every field is below 2^32. */
  lemma NarrowAllIff(rs: seq<Range>)
    ensures NarrowAll(rs) == rs <==> forall i :: 0 <= i < |rs| ==> Narrowed(rs[i])
  {
    hide Narrow, Narrowed;
    forall i | 0 <= i < |rs|
      ensures Narrow(rs[i]) == rs[i] <==> Narrowed(rs[i])
    {
      NarrowIff(rs[i]);
    }
    if NarrowAll(rs) == rs {
      assert forall i :: 0 <= i < |rs| ==> NarrowAll(rs)[i] == rs[i];
    }
  }

  lemma {:induction false} FullPiecesNarrow(p: nat, i: nat, o: nat, k: nat, x: nat)
    requires i < k <= UINT32 && o < p < UINT32 && x < |FullPieces(p, i, o, k)|
    ensures Narrowed(FullPieces(p, i, o, k)[x])
  {
    if k > i + 1 && x < |FullPieces(p, i, o, k - 1)| { FullPiecesNarrow(p, i, o, k - 1, x); }
  }

  /** It is enough that the piece length and the number of the last piece are. */
  lemma SmallTorrentsFit(pieceLength: nat, lo: nat, hi: nat)
    requires 0 < pieceLength < UINT32 && lo < hi && Quotient(hi, pieceLength) < UINT32
    ensures NarrowAll(PieceRanges(pieceLength, lo, hi)) == PieceRanges(pieceLength, lo, hi)
  {
    hide FullPieces, Quotient, Remainder, Narrow;
    DivModFacts(lo, hi, pieceLength);
    var i, j := Quotient(lo, pieceLength), Quotient(hi, pieceLength);
    if i < j {
      forall x: nat | x < |FullPieces(pieceLength, i, Remainder(lo, pieceLength), j)|
        ensures Narrowed(FullPieces(pieceLength, i, Remainder(lo, pieceLength), j)[x])
      {
        FullPiecesNarrow(pieceLength, i, Remainder(lo, pieceLength), j, x);
      }
    }
    NarrowAllIff(PieceRanges(pieceLength, lo, hi));
  }

  /** `File.FilePieces`; a path that is not in the torrent, and a division by zero, are panics. */
  method FilePieces(info: Info, f: File) returns (r: Option<seq<Range>>)
    requires info.pieceLength >= 0
    ensures f.length == 0 ==> r == Some([])
    ensures r.None? <==>
      f.length > 0 && (info.pieceLength == 0 || forall i :: 0 <= i < |Slots(info)| ==> Slots(info)[i].path != f.path)
    ensures forall i: nat :: f.length > 0 && info.pieceLength > 0 && IsFirst(Slots(info), f.path, i) ==>
      var lo := Start(Slots(info), i);
      r == Some(NarrowAll(PieceRanges(info.pieceLength, lo, lo + f.length)))
  {
    hide Total, PieceRanges, NarrowAll;
    if f.length < 1 { return Some([]); }
    var off := FileOffset(Slots(info), f.path);
    if off.None? || info.pieceLength == 0 { return None; }
    var fps := PiecesBetween(info.pieceLength, off.value, off.value + f.length);
    return Some(fps);
  }

  method PiecesBetween(pieceLength: nat, startOffset: nat, endOffset: nat) returns (fps: seq<Range>)
    requires 0 < pieceLength && startOffset < endOffset
    ensures fps == NarrowAll(PieceRanges(pieceLength, startOffset, endOffset))
  {
    hide Quotient, Remainder, RangesFrom, NarrowAll;
    DivModFacts(startOffset, endOffset, pieceLength);
    var startPieceIndex, startPieceOffset := Quotient(startOffset, pieceLength), Remainder(startOffset, pieceLength);
    var endPieceIndex, endPieceOffset := Quotient(endOffset, pieceLength), Remainder(endOffset, pieceLength);
    fps := PiecesFrom(pieceLength, startPieceIndex, startPieceOffset, endPieceIndex, endPieceOffset);
  }

  method PiecesFrom(p: nat, i: nat, o: nat, j: nat, e: nat) returns (fps: seq<Range>)
    requires i <= j && o < p && e < p && (i == j ==> o < e)
    ensures fps == NarrowAll(RangesFrom(p, i, o, j, e))
  {
    hide Narrow;
    if i == j { return [Narrow(Range(i, o, e - o))]; }
    fps := [Narrow(Range(i, o, p - o))];
    for k := i + 1 to j
      invariant fps == NarrowAll(FullPieces(p, i, o, k))
    {
      NarrowAppend(FullPieces(p, i, o, k), Range(k, 0, p));
      fps := fps + [Narrow(Range(k, 0, p))];
    }
    NarrowAppend(FullPieces(p, i, o, j), Range(j, 0, e));
    fps := fps + [Narrow(Range(j, 0, e))];
  }

  lemma NarrowAppend(rs: seq<Range>, r: Range)
    ensures NarrowAll(rs + [r]) == NarrowAll(rs) + [Narrow(r)]
  {
  }

  lemma NextMultiple(i: nat, p: nat)
    ensures (i + 1) * p == i * p + p
  {
  }

  // ------------------------------------------------------------ blocks

  /** The range from `offset` cut into full blocks and one shorter rest. */
  function BlockRanges(index: nat, offset: nat, rest: nat): seq<Range>
    decreases rest
  {
    if rest <= BLOCK_SIZE then (if rest == 0 then [] else [Range(index, offset, rest)])
    else [Range(index, offset, BLOCK_SIZE)] + BlockRanges(index, offset + BLOCK_SIZE, rest - BLOCK_SIZE)
  }

  lemma {:induction false} TilesPrepend(r: Range, rs: seq<Range>, p: int, hi: int)
    requires Tiles(rs, p, TotalOffset(r, p) + r.length, hi)
    ensures Tiles([r] + rs, p, TotalOffset(r, p), hi)
  {
    if rs == [] {
      assert ([r] + rs)[..0] == [];
    } else {
      var front := rs[..|rs| - 1];
      TilesPrepend(r, front, p, TotalOffset(rs[|rs| - 1], p));
      assert ([r] + rs)[..|rs|] == [r] + front;
    }
  }

  /** Blocks of one piece up to `end`, each of at most 16384 bytes, all but the last full. */
  ghost predicate BlockShape(bs: seq<Range>, index: nat, end: nat) {
    && (forall i :: 0 <= i < |bs| ==>
          bs[i].index == index && 0 < bs[i].length <= BLOCK_SIZE && bs[i].offset + bs[i].length <= end)
    && (forall i :: 0 <= i < |bs| - 1 ==> bs[i].length == BLOCK_SIZE)
  }

  lemma ShapePrepend(index: nat, offset: nat, bs: seq<Range>, end: nat)
    requires BlockShape(bs, index, end) && offset + BLOCK_SIZE <= end
    ensures BlockShape([Range(index, offset, BLOCK_SIZE)] + bs, index, end)
  {
  }

  lemma OneBlock(index: nat, offset: nat, rest: nat)
    requires rest <= BLOCK_SIZE
    ensures var bs := BlockRanges(index, offset, rest);
            Tiles(bs, 0, offset, offset + rest) && BlockShape(bs, index, offset + rest)
  {
    TilesNothing(0, offset + rest);
    if rest > 0 {
      TilesPrepend(Range(index, offset, rest), [], 0, offset + rest);
      assert [Range(index, offset, rest)] + [] == [Range(index, offset, rest)];
    }
  }

  lemma {:induction false} BlockRangesTile(index: nat, offset: nat, rest: nat)
    ensures var bs := BlockRanges(index, offset, rest);
            Tiles(bs, 0, offset, offset + rest) && BlockShape(bs, index, offset + rest)
    decreases rest
  {
    hide Tiles, BlockShape;
    if rest <= BLOCK_SIZE {
      OneBlock(index, offset, rest);
    } else {
      var more := BlockRanges(index, offset + BLOCK_SIZE, rest - BLOCK_SIZE);
      BlockRangesTile(index, offset + BLOCK_SIZE, rest - BLOCK_SIZE);
      TilesPrepend(Range(index, offset, BLOCK_SIZE), more, 0, offset + rest);
      ShapePrepend(index, offset, more, offset + rest);
    }
  }

  /** A range that ends below 2^32 has its true blocks stored. */
  lemma FittingBlocks(fp: Range)
    requires Fits(fp)
    ensures NarrowAll(BlockRanges(fp.index, fp.offset, fp.length)) == BlockRanges(fp.index, fp.offset, fp.length)
  {
    BlockRangesTile(fp.index, fp.offset, fp.length);
    NarrowAllIff(BlockRanges(fp.index, fp.offset, fp.length));
  }

  /** `FilePiece.Blocks`, with the offset wrapping around at 2^32. */
  method Blocks(fp: Range) returns (bs: seq<Range>)
    requires Narrowed(fp)
    ensures bs == NarrowAll(BlockRanges(fp.index, fp.offset, fp.length))
    ensures Fits(fp) ==> Tiles(bs, 0, fp.offset, fp.offset + fp.length)
  {
    hide Tiles;
    bs := [];
    var offset: nat, rest: nat := fp.offset, fp.length;
    ghost var at: nat := fp.offset;
    ghost var goal := NarrowAll(BlockRanges(fp.index, fp.offset, fp.length));
    while rest > 0
      invariant rest < UINT32 && offset == U32(at) && bs + NarrowAll(BlockRanges(fp.index, at, rest)) == goal
    {
      var length := BLOCK_SIZE;
      if rest < length { length := rest; }
      ghost var more := BlockRanges(fp.index, at + length, rest - length);
      assert BlockRanges(fp.index, at, rest) == [Range(fp.index, at, length)] + more;
      NarrowPrepend(Range(fp.index, at, length), more);
      assert Narrow(Range(fp.index, at, length)) == Range(fp.index, offset, length);
      Regroup(bs, [Range(fp.index, offset, length)], NarrowAll(more));
      bs := bs + [Range(fp.index, offset, length)];
      WrapAdd(at, length);
      offset := U32(offset + length);
      at := at + length;
      rest := rest - length;
    }
    if Fits(fp) {
      FittingBlocks(fp);
      BlockRangesTile(fp.index, fp.offset, fp.length);
    }
  }

  lemma NarrowPrepend(r: Range, rs: seq<Range>)
    ensures NarrowAll([r] + rs) == [Narrow(r)] + NarrowAll(rs)
  {
  }

  lemma WrapAdd(x: nat, y: nat)
    ensures U32(U32(x) + y) == U32(x + y)
  {
  }
}
