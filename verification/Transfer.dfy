/** Writing a file block by block, as a download does: the pieces of the file, their blocks, and the flat view. */
module Transfer {
  import opened Prelude
  import opened Layout
  import opened Storage
  import opened Pieces

  /** In a tiling each range starts where the lengths before it end. */
  lemma {:induction false} TileStarts(rs: seq<Range>, p: int, lo: int, hi: int, k: nat)
    requires Tiles(rs, p, lo, hi) && k <= |rs|
    ensures k < |rs| ==> TotalOffset(rs[k], p) == lo + SumLengths(rs[..k])
    ensures SumLengths(rs[..k]) <= hi - lo
  {
    if rs == [] {
    } else {
      var front, last := rs[..|rs| - 1], rs[|rs| - 1];
      if k == |rs| {
        TilesSum(rs, p, lo, hi);
        assert rs[..k] == rs;
      } else {
        TileStarts(front, p, lo, TotalOffset(last, p), k);
        assert front[..k] == rs[..k];
        if k == |front| { TilesSum(front, p, lo, TotalOffset(last, p)); }
      }
    }
  }

  lemma SumNext(rs: seq<Range>, k: nat)
    requires k < |rs|
    ensures SumLengths(rs[..k + 1]) == SumLengths(rs[..k]) + rs[k].length
  {
    assert rs[..k + 1][..k] == rs[..k];
  }

  lemma InsideTorrent(info: Info, at: int)
    requires 0 <= at <= Total(Slots(info))
    ensures at <= Limit(info) && Effective(info, at) == at
  {
  }

  /** One block, wholly inside the torrent. */
  method WriteOne(store: Store, b: Range, p: Bytes)
    requires DistinctPaths(Slots(store.info)) && |p| == b.length
    requires 0 <= TotalOffset(b, store.info.pieceLength)
    requires TotalOffset(b, store.info.pieceLength) + b.length <= Total(Slots(store.info))
    modifies store
    ensures store.Contents() ==
      Overwrite(old(store.Contents()), TotalOffset(b, store.info.pieceLength), p)
  {
    hide Flat, Total, Overwrite, DistinctPaths, Effective, Limit;
    InsideTorrent(store.info, TotalOffset(b, store.info.pieceLength));
    var n, err := store.WriteBlock(b.index, b.offset, p);
    assert p[..n] == p;
  }

  /**
   Writing the blocks of a range one after the other overwrites exactly that range of the flat
   view: block numbers, block offsets and flat positions agree.
   */
  method WriteRange(store: Store, fp: Range, data: Bytes)
    requires DistinctPaths(Slots(store.info)) && Fits(fp) && |data| == fp.length
    requires 0 <= TotalOffset(fp, store.info.pieceLength)
    requires TotalOffset(fp, store.info.pieceLength) + fp.length <= Total(Slots(store.info))
    modifies store
    ensures store.Contents() == Overwrite(old(store.Contents()), TotalOffset(fp, store.info.pieceLength), data)
  {
    hide Flat, Total, Overwrite, DistinctPaths, BlockRanges, Tiles, SumLengths, TotalOffset;
    var bs := Blocks(fp);
    BlockRangesTile(fp.index, fp.offset, fp.length);
    FittingBlocks(fp);
    ghost var at := TotalOffset(fp, store.info.pieceLength);
    ghost var end := fp.offset + fp.length;
    OverwriteNothing(store.Contents(), at);
    SumNone(bs);
    for i := 0 to |bs|
      invariant SumLengths(bs[..i]) <= |data|
      invariant store.Contents() == Overwrite(old(store.Contents()), at, data[..SumLengths(bs[..i])])
    {
      var b := bs[i];
      ghost var done := SumLengths(bs[..i]);
      TileStarts(bs, 0, fp.offset, end, i);
      TileStarts(bs, 0, fp.offset, end, i + 1);
      SumNext(bs, i);
      BlockPlace(b, fp, store.info.pieceLength);
      WriteOne(store, b, data[b.offset - fp.offset..b.offset - fp.offset + b.length]);
      OverwriteMore(old(store.Contents()), at, data, done, done + b.length);
    }
    TilesSum(bs, 0, fp.offset, end);
    assert bs[..|bs|] == bs && data[..|data|] == data;
  }

  lemma SumNone(rs: seq<Range>)
    ensures SumLengths(rs[..0]) == 0
  {
  }

  /** A block stands as far into the flat view behind its range as it stands behind it in the piece. */
  lemma BlockPlace(b: Range, fp: Range, p: int)
    requires b.index == fp.index
    ensures TotalOffset(b, p) == TotalOffset(fp, p) + (b.offset - fp.offset) && TotalOffset(b, 0) == b.offset
  {
  }

  /**
   Writing a file through its pieces and their blocks overwrites exactly the file's own range of
   the flat view.
   */
  method WriteFile(store: Store, f: File, data: Bytes, ghost i: nat)
    requires DistinctPaths(Slots(store.info)) && i < |Slots(store.info)| && Slots(store.info)[i] == f
    requires IsFirst(Slots(store.info), f.path, i)
    requires 0 < store.info.pieceLength < UINT32 && Total(Slots(store.info)) / store.info.pieceLength < UINT32
    requires |data| == f.length
    modifies store
    ensures Start(Slots(store.info), i) + f.length <= Total(Slots(store.info))
    ensures store.Contents() == Overwrite(old(store.Contents()), Start(Slots(store.info), i), data)
  {
    hide Flat, Total, Overwrite, DistinctPaths, PieceRanges, Tiles, SumLengths, NarrowAll, InPieces, FrontFull, IsFirst;
    ghost var fs, p, lo := Slots(store.info), store.info.pieceLength, Start(Slots(store.info), i);
    FileInRange(fs, i);
    OverwriteNothing(store.Contents(), lo);
    var fps := FilePieces(store.info, f);
    assert data[..0] == [] && data[..|data|] == data;
    if f.length == 0 { return; }
    FilePiecesFit(p, lo, lo + f.length, Total(fs));
    PieceRangesTile(p, lo, lo + f.length);
    var rs := fps.value;
    SumNone(rs);
    for k := 0 to |rs|
      invariant SumLengths(rs[..k]) <= |data|
      invariant store.Contents() == Overwrite(old(store.Contents()), lo, data[..SumLengths(rs[..k])])
    {
      var done := DoneBefore(rs, k);
      TileStarts(rs, p, lo, lo + f.length, k);
      TileStarts(rs, p, lo, lo + f.length, k + 1);
      SumNext(rs, k);
      RangeFits(p, lo, lo + f.length, k);
      WriteRange(store, rs[k], data[done..done + rs[k].length]);
      OverwriteMore(old(store.Contents()), lo, data, done, done + rs[k].length);
    }
    TilesSum(rs, p, lo, lo + f.length);
    assert rs[..|rs|] == rs;
  }

  /** How much of the file the first `k` ranges hold. */
  method DoneBefore(rs: seq<Range>, k: nat) returns (done: nat)
    requires k <= |rs|
    ensures done == SumLengths(rs[..k])
  {
    done := 0;
    SumNone(rs);
    for j := 0 to k
      invariant done == SumLengths(rs[..j])
    {
      SumNext(rs, j);
      done := done + rs[j].length;
    }
  }

  lemma FilePiecesFit(p: nat, lo: nat, hi: nat, total: nat)
    requires 0 < p < UINT32 && lo < hi <= total && total / p < UINT32
    ensures NarrowAll(PieceRanges(p, lo, hi)) == PieceRanges(p, lo, hi)
    ensures Quotient(hi, p) < UINT32
  {
    hide PieceRanges, NarrowAll;
    if hi < total { DivModFacts(hi, total, p); }
    SmallTorrentsFit(p, lo, hi);
  }

  /** Ranges of a torrent with few enough pieces end below 2^32. */
  lemma RangeFits(p: nat, lo: nat, hi: nat, k: nat)
    requires 0 < p < UINT32 && lo < hi && Quotient(hi, p) < UINT32 && k < |PieceRanges(p, lo, hi)|
    ensures Fits(PieceRanges(p, lo, hi)[k])
  {
    hide PieceRanges, Tiles, Quotient, FrontFull;
    SmallTorrentsFit(p, lo, hi);
    NarrowAllIff(PieceRanges(p, lo, hi));
    PieceRangesTile(p, lo, hi);
  }
}
