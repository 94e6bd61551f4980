/** The verifier's own piece reader and completion counter: the same arithmetic a second time. */
module PieceReader {
  import opened Prelude
  import opened Layout
  import opened Storage

  predicate ShouldSkipFile(currentOffset: int, fileSize: int, pieceOffset: int, pieceLength: int) {
    currentOffset + fileSize <= pieceOffset
  }

  predicate IsFileAfterPiece(currentOffset: int, pieceOffset: int, pieceLength: int) {
    currentOffset >= pieceOffset + pieceLength
  }

  /** How much of the piece lies before flat position `p`. */
  function Before(p: int, pieceOffset: int, pieceLength: nat): nat {
    Min(Max(p, pieceOffset), pieceOffset + pieceLength) - pieceOffset
  }

  /** Where to start in a file that touches the piece, and how much to read: just what the file adds to the piece. */
  function CalculateReadParameters(currentOffset: int, fileSize: nat, pieceOffset: int,
      pieceLength: nat): (r: (nat, nat))
    requires !ShouldSkipFile(currentOffset, fileSize, pieceOffset, pieceLength)
    requires !IsFileAfterPiece(currentOffset, pieceOffset, pieceLength)
    ensures r.0 + r.1 <= fileSize
    ensures currentOffset + r.0 == pieceOffset + Before(currentOffset, pieceOffset, pieceLength)
    ensures Before(currentOffset, pieceOffset, pieceLength) + r.1 ==
      Before(currentOffset + fileSize, pieceOffset, pieceLength)
  {
    var fileStartInPiece := if currentOffset < pieceOffset then pieceOffset - currentOffset else 0;
    var readStart := currentOffset + fileStartInPiece;
    var readLength := fileSize - fileStartInPiece;
    (fileStartInPiece,
     if readStart + readLength > pieceOffset + pieceLength then pieceOffset + pieceLength - readStart else readLength)
  }

  /** A file that touches the piece exists and, if anything is to be read, holds its first byte. */
  predicate Readable(disk: Disk, f: File, currentOffset: int, pieceOffset: int, pieceLength: nat) {
    ShouldSkipFile(currentOffset, f.length, pieceOffset, pieceLength) ||
    IsFileAfterPiece(currentOffset, pieceOffset, pieceLength) ||
    (f.path in disk &&
     var (start, len) := CalculateReadParameters(currentOffset, f.length, pieceOffset, pieceLength);
     len == 0 || start < |disk[f.path]|)
  }

  /** `readFileSegment`: a truncated file gives a short segment, one with nothing there an error. */
  function ReadFileSegment(disk: Disk, path: string, offset: nat, length: nat): Option<Bytes> {
    if path !in disk then None
    else if length > 0 && |disk[path]| <= offset then None
    else Some(if length == 0 then [] else disk[path][offset..Min(offset + length, |disk[path]|)])
  }

  lemma SegmentIsFlat(disk: Disk, fs: seq<File>, i: nat, start: nat, len: nat, seg: Bytes)
    requires i < |fs| && start + len <= fs[i].length && ReadFileSegment(disk, fs[i].path, start, len) == Some(seg)
    ensures |seg| <= len && Start(fs, i) + start + len <= Total(fs)
    ensures Flat(disk, fs)[Start(fs, i) + start..Start(fs, i) + start + len] == Padded(seg, len)
  {
    hide Flat;
    SliceOfFile(disk, fs, i, start, len);
    var c := disk[fs[i].path];
    assert Padded(c, start + len)[start..] == Padded(seg, len);
  }

  lemma ReadableCases(disk: Disk, f: File, currentOffset: int, pieceOffset: int, pieceLength: nat)
    ensures ShouldSkipFile(currentOffset, f.length, pieceOffset, pieceLength) ==>
      Readable(disk, f, currentOffset, pieceOffset, pieceLength)
    ensures IsFileAfterPiece(currentOffset, pieceOffset, pieceLength) ==>
      Readable(disk, f, currentOffset, pieceOffset, pieceLength)
    ensures !ShouldSkipFile(currentOffset, f.length, pieceOffset, pieceLength) &&
            !IsFileAfterPiece(currentOffset, pieceOffset, pieceLength) ==>
              var (start, len) := CalculateReadParameters(currentOffset, f.length, pieceOffset, pieceLength);
              ReadFileSegment(disk, f.path, start, len).Some? <==>
                Readable(disk, f, currentOffset, pieceOffset, pieceLength)
  {
  }

  /** The first `n` files are all readable for the piece. */
  ghost predicate AllReadable(disk: Disk, fs: seq<File>, n: nat, pieceOffset: int, pieceLength: nat)
    requires n <= |fs|
  {
    forall i :: 0 <= i < n ==> Readable(disk, fs[i], Start(fs, i), pieceOffset, pieceLength)
  }

  /** Behind the piece every file is readable, since none of it is read. */
  lemma RestReadable(disk: Disk, fs: seq<File>, i: nat, pieceOffset: int, pieceLength: nat)
    requires i <= |fs| && AllReadable(disk, fs, i, pieceOffset, pieceLength) &&
      IsFileAfterPiece(Start(fs, i), pieceOffset, pieceLength)
    ensures AllReadable(disk, fs, |fs|, pieceOffset, pieceLength)
  {
    hide Readable;
    forall j | i <= j < |fs|
      ensures Readable(disk, fs[j], Start(fs, j), pieceOffset, pieceLength)
    {
      StartMonotone(fs, i, j);
      ReadableCases(disk, fs[j], Start(fs, j), pieceOffset, pieceLength);
    }
  }

  lemma NextReadable(disk: Disk, fs: seq<File>, i: nat, pieceOffset: int, pieceLength: nat)
    requires i < |fs| && AllReadable(disk, fs, i, pieceOffset, pieceLength)
    ensures AllReadable(disk, fs, i + 1, pieceOffset, pieceLength) <==>
      Readable(disk, fs[i], Start(fs, i), pieceOffset, pieceLength)
    ensures AllReadable(disk, fs, |fs|, pieceOffset, pieceLength) ==>
      Readable(disk, fs[i], Start(fs, i), pieceOffset, pieceLength)
  {
    hide Readable;
  }

  /**
   `readPieceFromFiles`. For a multi-file torrent it succeeds exactly when every file it touches
   is readable, and then returns the flat bytes of the piece's range. A torrent with a single file
   has no file list, and the answer is empty.
   */
  method ReadPieceFromFiles(info: Info, disk: Disk, pieceOffset: nat, pieceLength: nat) returns (r: Option<Bytes>)
    ensures !IsDir(info) ==> r == Some([])
    ensures r.Some? <==> AllReadable(disk, info.files, |info.files|, pieceOffset, pieceLength)
    ensures r.Some? ==>
      var n := Before(Total(info.files), pieceOffset, pieceLength);
      |r.value| == n && (n > 0 ==>
        pieceOffset + n <= Total(info.files) && r.value == Flat(disk, info.files)[pieceOffset..pieceOffset + n])
  {
    hide Flat, Total, Padded, Readable, AllReadable, Filled, ReadFileSegment, CalculateReadParameters, Before;
    var fs := info.files;
    var pieceData: Bytes := seq(pieceLength, _ => 0);
    var currentOffset, piecePos := 0, 0;
    StartEnds(fs);
    NothingRead(disk, fs, pieceData, pieceOffset, pieceLength);
    BeforeFacts(0, 0, pieceOffset, pieceLength);
    var i := 0;
    while i < |fs|
      invariant i <= |fs| && currentOffset == Start(fs, i)
      invariant |pieceData| == pieceLength && piecePos == Before(currentOffset, pieceOffset, pieceLength)
      invariant AllReadable(disk, fs, i, pieceOffset, pieceLength)
      invariant Filled(pieceData, piecePos, Flat(disk, fs), pieceOffset)
    {
      var file := fs[i];
      StartNext(fs, i);
      StartMonotone(fs, i + 1, |fs|);
      ReadableCases(disk, file, currentOffset, pieceOffset, pieceLength);
      NextReadable(disk, fs, i, pieceOffset, pieceLength);
      BeforeFacts(currentOffset, currentOffset + file.length, pieceOffset, pieceLength);
      if ShouldSkipFile(currentOffset, file.length, pieceOffset, pieceLength) {
        currentOffset := currentOffset + file.length;
        i := i + 1;
        continue;
      }
      if IsFileAfterPiece(currentOffset, pieceOffset, pieceLength) {
        RestReadable(disk, fs, i, pieceOffset, pieceLength);
        break;
      }
      var (start, readLength) := CalculateReadParameters(currentOffset, file.length, pieceOffset, pieceLength);
      var seg := ReadFileSegment(disk, file.path, start, readLength);
      if seg.None? { return None; }
      SegmentIsFlat(disk, fs, i, start, readLength, seg.value);
      ghost var was := pieceData;
      pieceData := pieceData[..piecePos] + seg.value + pieceData[piecePos + |seg.value|..];
      AppendSegment(was, piecePos, seg.value, readLength, pieceData, Flat(disk, fs), pieceOffset);
      piecePos := piecePos + readLength;
      currentOffset := currentOffset + file.length;
      i := i + 1;
    }
    StartMonotone(fs, i, |fs|);
    BeforeFacts(currentOffset, Total(fs), pieceOffset, pieceLength);
    AllRead(pieceData, piecePos, Flat(disk, fs), pieceOffset);
    return Some(pieceData[..piecePos]);
  }

  lemma BeforeFacts(p: int, q: int, pieceOffset: nat, pieceLength: nat)
    requires p <= q
    ensures Before(0, pieceOffset, pieceLength) == 0
    ensures Before(p, pieceOffset, pieceLength) <= Before(q, pieceOffset, pieceLength) <= pieceLength
    ensures q <= pieceOffset || p >= pieceOffset + pieceLength ==>
      Before(p, pieceOffset, pieceLength) == Before(q, pieceOffset, pieceLength)
  {
  }

  lemma NothingRead(disk: Disk, fs: seq<File>, data: Bytes, pieceOffset: nat, pieceLength: nat)
    requires forall x :: 0 <= x < |data| ==> data[x] == 0
    ensures AllReadable(disk, fs, 0, pieceOffset, pieceLength) && Filled(data, 0, Flat(disk, fs), pieceOffset)
  {
  }

  lemma AllRead(data: Bytes, pos: nat, flat: Bytes, at: nat)
    requires Filled(data, pos, flat, at)
    ensures pos <= |data| && (pos > 0 ==> at + pos <= |flat| && data[..pos] == flat[at..at + pos])
  {
  }

  /** The first `pos` bytes of the buffer are those of `flat` at `at`, the others still zero. */
  ghost predicate Filled(data: Bytes, pos: nat, flat: Bytes, at: nat) {
    && pos <= |data|
    && (pos > 0 ==> at + pos <= |flat| && data[..pos] == flat[at..at + pos])
    && (forall x :: pos <= x < |data| ==> data[x] == 0)
  }

  /** The buffer after one more segment still starts with the flat bytes read so far. */
  lemma AppendSegment(was: Bytes, pos: nat, seg: Bytes, len: nat, now: Bytes, flat: Bytes, at: nat)
    requires pos + len <= |was| && |seg| <= len && at + pos + len <= |flat|
    requires now == was[..pos] + seg + was[pos + |seg|..]
    requires Filled(was, pos, flat, at)
    requires flat[at + pos..at + pos + len] == Padded(seg, len)
    ensures |now| == |was| && Filled(now, pos + len, flat, at)
  {
    var part := flat[at + pos..at + pos + len];
    forall x | 0 <= x < pos + len
      ensures now[x] == flat[at + x]
    {
      if x < pos {
        assert was[..pos][x] == flat[at..at + pos][x];
      } else {
        assert part[x - pos] == flat[at + x];
      }
    }
  }

  lemma {:induction false} FullFilesReadable(disk: Disk, fs: seq<File>, pieceOffset: nat, pieceLength: nat, i: nat)
    requires i < |fs| && fs[i].path in disk && |disk[fs[i].path]| >= fs[i].length
    ensures Readable(disk, fs[i], Start(fs, i), pieceOffset, pieceLength)
  {
  }

  /** `Piece.Offset` and `Piece.Length`: the last piece takes what is left. */
  function PieceStart(info: Info, index: nat): int {
    index * info.pieceLength
  }

  function PieceSize(info: Info, index: nat): int {
    if index == info.pieces - 1 then Total(Slots(info)) - index * info.pieceLength else info.pieceLength
  }

  /** As many pieces as the total length needs. */
  predicate PiecesFit(info: Info) {
    info.pieceLength > 0 && (info.pieces - 1) * info.pieceLength < Total(Slots(info)) <= info.pieces * info.pieceLength
  }

  /** With the right number of pieces, each is non-empty, they follow each other, and the last ends with the torrent. */
  lemma PiecesTile(info: Info, index: nat)
    requires PiecesFit(info) && index < info.pieces
    ensures 0 < PieceSize(info, index) <= info.pieceLength
    ensures PieceStart(info, index) + PieceSize(info, index) ==
      if index == info.pieces - 1 then Total(Slots(info)) else PieceStart(info, index + 1)
    ensures 0 <= PieceStart(info, index) && PieceStart(info, index) + PieceSize(info, index) <= Total(Slots(info))
    ensures Before(Total(Slots(info)), PieceStart(info, index), PieceSize(info, index)) == PieceSize(info, index)
  {
    hide Total;
    var pl := info.pieceLength;
    assert (index + 1) * pl == index * pl + pl;
    assert (info.pieces - 1) * pl == info.pieces * pl - pl;
    if index < info.pieces - 1 {
      assert (index + 1) * pl <= (info.pieces - 1) * pl;
    }
  }

  /** The bytes of a piece in the torrent's own flat view, whether it has one file or several. */
  function PieceBytes(info: Info, disk: Disk, index: nat): Bytes
    requires PiecesFit(info) && index < info.pieces
  {
    PiecesTile(info, index);
    Flat(disk, Slots(info))[PieceStart(info, index)..PieceStart(info, index) + PieceSize(info, index)]
  }

  /** Reading a piece gives its bytes exactly if the torrent lists files and those touched are readable. */
  method ReadPiece(info: Info, disk: Disk, index: nat) returns (r: Option<Bytes>)
    requires PiecesFit(info) && index < info.pieces
    ensures PieceStart(info, index) >= 0 && PieceSize(info, index) >= 0
    ensures r == Some(PieceBytes(info, disk, index)) <==>
      IsDir(info) && AllReadable(disk, info.files, |info.files|, PieceStart(info, index), PieceSize(info, index))
    ensures !IsDir(info) ==> r == Some([])
  {
    hide AllReadable, Flat, Total;
    PiecesTile(info, index);
    r := ReadPieceFromFiles(info, disk, PieceStart(info, index), PieceSize(info, index));
  }

  /** A torrent of one file of three bytes, all on disk: its only piece is read as empty. */
  method SingleFileUnread() returns (r: Option<Bytes>)
    ensures var info, disk := Info("t", 4, 1, 3, []), map["t" := [7, 8, 9]];
            PiecesFit(info) && PieceBytes(info, disk, 0) == [7, 8, 9] && r == Some([])
  {
    var info, disk := Info("t", 4, 1, 3, []), map["t" := [7, 8, 9]];
    var fs := Slots(info);
    assert fs == [File(3, "t")] && fs[..0] == [];
    StartEnds(fs);
    StartNext(fs, 0);
    r := ReadPiece(info, disk, 0);
    assert FileBytes(disk, fs[0]) == [7, 8, 9];
    assert Flat(disk, fs) == [] + FileBytes(disk, fs[0]);
    assert PieceBytes(info, disk, 0) == Flat(disk, fs)[0..3];
  }

  ghost predicate FullLength(disk: Disk, fs: seq<File>) {
    forall i :: 0 <= i < |fs| ==> fs[i].path in disk && |disk[fs[i].path]| >= fs[i].length
  }

  lemma FullOnDisk(disk: Disk, fs: seq<File>, lo: nat, hi: nat)
    requires FullLength(disk, fs)
    ensures OnDisk(disk, fs, lo, hi)
  {
  }

  lemma FullReadable(disk: Disk, fs: seq<File>, pieceOffset: nat, pieceLength: nat)
    requires FullLength(disk, fs)
    ensures AllReadable(disk, fs, |fs|, pieceOffset, pieceLength)
  {
    hide Readable;
    forall i | 0 <= i < |fs|
      ensures Readable(disk, fs[i], Start(fs, i), pieceOffset, pieceLength)
    {
      FullFilesReadable(disk, fs, pieceOffset, pieceLength, i);
    }
  }

  /**
   Over files of full length the verifier's reader and the torrent's reader return the same bytes,
   without an error.
   */
  method ReadersAgree(store: Store, index: nat) returns (piece: Option<Bytes>, block: Bytes, err: IoError)
    requires PiecesFit(store.info) && index < store.info.pieces
    requires IsDir(store.info) && FullLength(store.disk, Slots(store.info))
    ensures err == NoError && piece == Some(block) && block == PieceBytes(store.info, store.disk, index)
  {
    hide AllReadable, FullLength, OnDisk, Flat, Total;
    var info := store.info;
    PiecesTile(info, index);
    var start, size := PieceStart(info, index), PieceSize(info, index);
    FullReadable(store.disk, info.files, start, size);
    FullOnDisk(store.disk, Slots(info), start, start + size);
    InsideIsTrue(info, start);
    piece := ReadPiece(info, store.disk, index);
    var buf := new Byte[size](_ => 0);
    var n;
    n, err := store.ReadAt(buf, start);
    block := buf[..];
    assert block[..n] == block;
  }

  lemma InsideIsTrue(info: Info, offset: int)
    requires 0 <= offset <= Total(Slots(info))
    ensures offset <= Limit(info) && Effective(info, offset) == offset
  {
  }

  // ------------------------------------------------------------ completion

  function FileCompleted(start: int, length: nat, totalCompleted: int): nat {
    if totalCompleted >= start + length then length
    else if totalCompleted > start then totalCompleted - start
    else 0
  }

  /** `updateFileCompletion`: per-file counts, for as many files as the state lists. */
  method UpdateFileCompletion(fs: seq<File>, completed: array<nat>, totalCompleted: int)
    modifies completed
    ensures forall i :: 0 <= i < completed.Length ==>
      completed[i] == if i < |fs| then FileCompleted(Start(fs, i), fs[i].length, totalCompleted) else old(completed[i])
  {
    var currentOffset := 0;
    StartEnds(fs);
    for i := 0 to |fs|
      invariant currentOffset == Start(fs, i)
      invariant forall j :: 0 <= j < completed.Length ==>
        completed[j] == if j < i then FileCompleted(Start(fs, j), fs[j].length, totalCompleted) else old(completed[j])
    {
      var fileStart, fileEnd := currentOffset, currentOffset + fs[i].length;
      var fileCompleted := 0;
      if totalCompleted >= fileEnd {
        fileCompleted := fs[i].length;
      } else if totalCompleted > fileStart {
        fileCompleted := totalCompleted - fileStart;
      }
      if i < completed.Length { completed[i] := fileCompleted; }
      StartNext(fs, i);
      currentOffset := currentOffset + fs[i].length;
    }
  }

  function SumCompleted(fs: seq<File>, n: nat, totalCompleted: int): nat
    requires n <= |fs|
  {
    if n == 0 then 0
    else SumCompleted(fs, n - 1, totalCompleted) + FileCompleted(Start(fs, n - 1), fs[n - 1].length, totalCompleted)
  }

  /** The per-file counts add up to what was completed, within the files counted. */
  lemma {:induction false} CompletionSums(fs: seq<File>, n: nat, totalCompleted: int)
    requires n <= |fs|
    ensures SumCompleted(fs, n, totalCompleted) == Min(Max(totalCompleted, 0), Start(fs, n))
  {
    if n == 0 {
      StartEnds(fs);
    } else {
      StartNext(fs, n - 1);
      CompletionSums(fs, n - 1, totalCompleted);
    }
  }
}
