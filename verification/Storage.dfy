/** Reading and writing a torrent's bytes through its files refines one flat array. */
module Storage {
  import opened Prelude
  import opened Layout

  datatype IoError = NoError | ShortWrite | EndOfFile | NegativeOffset | NotFound | Panicked

  /** Flat positions `lo .. hi` are really on disk: their files exist and reach that far. */
  ghost predicate OnDisk(disk: Disk, fs: seq<File>, lo: nat, hi: nat) {
    forall i :: 0 <= i < |fs| ==> Reaches(disk, fs[i], Start(fs, i), lo, hi)
  }

  ghost predicate Reaches(disk: Disk, f: File, a: nat, lo: nat, hi: nat) {
    var b := a + f.length;
    lo < b && a < hi && a < b && lo < hi ==> f.path in disk && |disk[f.path]| >= Min(hi, b) - a
  }

  /** Writing the part of one file that continues a run of stored bytes extends the run. */
  lemma ExtendsOnDisk(disk: Disk, fs: seq<File>, lo: nat, i: nat, at: nat, data: Bytes)
    requires i < |fs| && DistinctPaths(fs) && data != [] && at + |data| <= fs[i].length
    requires lo <= Start(fs, i) + at && OnDisk(disk, fs, lo, Start(fs, i) + at)
    ensures OnDisk(disk[fs[i].path := PutBytes(Stored(disk, fs[i].path), at, data)], fs, lo, Start(fs, i) + at + |data|)
  {
    hide PutBytes, Total;
    var d := disk[fs[i].path := PutBytes(Stored(disk, fs[i].path), at, data)];
    var mid := Start(fs, i) + at;
    forall j | 0 <= j < |fs|
      ensures Reaches(d, fs[j], Start(fs, j), lo, mid + |data|)
    {
      assert Reaches(disk, fs[j], Start(fs, j), lo, mid);
      StartNext(fs, i);
      StartNext(fs, j);
      if j < i {
        StartMonotone(fs, j + 1, i);
      } else if i < j {
        StartMonotone(fs, i + 1, j);
      }
    }
  }

  lemma FileInRange(fs: seq<File>, i: nat)
    requires i < |fs|
    ensures Start(fs, i) + fs[i].length <= Total(fs)
  {
    StartNext(fs, i);
    StartMonotone(fs, i + 1, |fs|);
  }

  lemma LimitFacts(info: Info, offset: int)
    ensures 0 <= offset <= Limit(info) ==> 0 <= Effective(info, offset) <= Total(Slots(info))
  {
    FileInRange(Slots(info), |Slots(info)| - 1);
  }

  /** Advancing by bytes that still fit moves the effective position by as much. */
  lemma EffectiveStep(info: Info, offset: int, n: nat)
    ensures 0 <= offset <= Limit(info) && Effective(info, offset) + n <= Total(Slots(info)) ==>
              offset + n <= Limit(info) && Effective(info, offset + n) == Effective(info, offset) + n
  {
    hide Total;
  }

  lemma NothingOnDisk(disk: Disk, fs: seq<File>, at: nat)
    ensures OnDisk(disk, fs, at, at)
  {
  }

  lemma OverwriteNothing(s: Bytes, at: nat)
    requires at <= |s|
    ensures Overwrite(s, at, []) == s
  {
  }

  lemma OverwriteMore(s: Bytes, at: nat, p: Bytes, n: nat, k: nat)
    requires n <= k <= |p| && at + k <= |s|
    ensures Overwrite(Overwrite(s, at, p[..n]), at + n, p[n..k]) == Overwrite(s, at, p[..k])
  {
    OverwriteTwice(s, at, p[..n], p[n..k]);
    assert p[..n] + p[n..k] == p[..k];
  }

  lemma PaddedSlice(c: Bytes, n: nat, at: nat, m: nat)
    requires at + m <= n
    ensures Padded(c, n)[at..at + m] == Padded(c, at + m)[at..]
  {
  }

  lemma SliceOfFile(disk: Disk, fs: seq<File>, i: nat, at: nat, m: nat)
    requires i < |fs| && at + m <= fs[i].length
    ensures Start(fs, i) + at + m <= Total(fs)
    ensures Flat(disk, fs)[Start(fs, i) + at..Start(fs, i) + at + m] == Padded(Stored(disk, fs[i].path), at + m)[at..]
  {
    hide Flat, Padded, Total, Stored;
    FlatAt(disk, fs, i);
    SliceOfSlice(Flat(disk, fs), Start(fs, i), Start(fs, i) + fs[i].length, at, at + m);
    PaddedSlice(Stored(disk, fs[i].path), fs[i].length, at, m);
  }

  lemma FullyRead(disk: Disk, fs: seq<File>, lo: nat, want: nat, i: nat, at: nat, len: nat)
    requires OnDisk(disk, fs, lo, lo + want) && i < |fs|
    requires lo <= Start(fs, i) + at && Start(fs, i) + at + len <= lo + want && 0 < len && at + len <= fs[i].length
    ensures fs[i].path in disk && |disk[fs[i].path]| >= at + len
  {
    assert Reaches(disk, fs[i], Start(fs, i), lo, lo + want);
  }

  /** The first `n` bytes of the buffer are those of `all` at `at`, the others as before. */
  ghost predicate Held(buf: Bytes, before: Bytes, n: nat, all: Bytes, live: bool, at: int) {
    && n <= |buf| == |before| && buf[n..] == before[n..]
    && (live ==> 0 <= at && at + n <= |all| && buf[..n] == all[at..at + n])
  }

  lemma HeldNothing(buf: Bytes, all: Bytes, live: bool, at: int)
    requires live ==> 0 <= at <= |all|
    ensures Held(buf, buf, 0, all, live, at)
  {
  }

  lemma HeldFacts(buf: Bytes, before: Bytes, n: nat, all: Bytes, live: bool, at: int)
    requires Held(buf, before, n, all, live, at)
    ensures n <= |buf| == |before| && buf[n..] == before[n..]
    ensures live ==> 0 <= at && at + n <= |all| && buf[..n] == all[at..at + n]
  {
  }

  lemma HeldMore(was: Bytes, now: Bytes, before: Bytes, n: nat, m: nat, all: Bytes, live: bool, at: int)
    requires Held(was, before, n, all, live, at) && |now| == |was| && n + m <= |was|
    requires now[..n] == was[..n] && now[n + m..] == was[n + m..]
    requires live ==> at + n + m <= |all| && now[n..n + m] == all[at + n..at + n + m]
    ensures Held(now, before, n + m, all, live, at)
  {
    DropDrop(was, n, m);
    DropDrop(before, n, m);
    JoinSlices(now, 0, n, n + m);
    if live { JoinSlices(all, at, at + n, at + n + m); }
  }

  class Store {
    const info: Info
    var disk: Disk

    constructor (info: Info, disk: Disk)
      ensures this.info == info && this.disk == disk
    {
      this.info, this.disk := info, disk;
    }

    ghost function Contents(): (r: Bytes)
      reads this
      ensures |r| == Total(Slots(info))
    {
      Flat(disk, Slots(info))
    }

    /** Only files of the torrent have changed. */
    twostate predicate OthersKept()
      reads this
    {
      forall f :: f !in Paths(Slots(info)) ==>
        (f in disk <==> f in old(disk)) && (f in disk ==> disk[f] == old(disk)[f])
    }

    /** What opening the first file for a write at a negative offset leaves behind: an empty file, if there was none. */
    function Opened(d: Disk): Disk {
      var f := Slots(info)[0];
      if f.length == 0 then d else d[f.path := Stored(d, f.path)]
    }

    lemma OpenedKeeps(d: Disk)
      ensures Flat(Opened(d), Slots(info)) == Flat(d, Slots(info))
    {
      FlatFramed(Opened(d), d, Slots(info));
    }

    /** At most an empty file is new, and only if the first file is not an empty one. */
    lemma OpenedAdds(d: Disk)
      ensures Opened(d).Keys == d.Keys + (if Slots(info)[0].length > 0 then {Slots(info)[0].path} else {})
      ensures forall f :: f in Opened(d) ==> Opened(d)[f] == if f in d then d[f] else []
    {
    }

    /** One round of the write loop: the part of `data` that falls into one file. */
    method WriteStep(data: Bytes, offset: int, ghost lo: nat) returns (m: nat, err: IoError)
      requires data != []
      modifies this
      ensures OthersKept()
      ensures offset > Limit(info) ==> err == Panicked
      ensures offset < 0 ==> err != NoError && disk == Opened(old(disk))
      ensures 0 <= offset <= Limit(info) ==>
        err == (if Effective(info, offset) == Total(Slots(info)) then ShortWrite else NoError)
      ensures err != NoError ==> m == 0 && (offset >= 0 ==> disk == old(disk))
      ensures err == NoError ==>
        0 < m <= |data| && 0 <= Effective(info, offset) && Effective(info, offset) + m <= Total(Slots(info))
      ensures err == NoError && DistinctPaths(Slots(info)) ==>
        var at := Effective(info, offset);
        && Contents() == Overwrite(old(Contents()), at, data[..m])
        && (lo <= at && OnDisk(old(disk), Slots(info), lo, at) ==> OnDisk(disk, Slots(info), lo, at + m))
    {
      hide Flat, Total, PutBytes, Overwrite, DistinctPaths, OnDisk, Effective, Limit;
      ghost var fs := Slots(info);
      LimitFacts(info, offset);
      m, err := 0, NoError;
      var r := GetFileByOffset(info, offset);
      if r.Panic? { err := Panicked; return; }
      var file := Slots(info)[r.index];
      if file.length == 0 || file.length == r.fileOffset { err := ShortWrite; return; }
      var length := file.length - r.fileOffset;
      if |data| < length { length := |data|; }
      if r.fileOffset < 0 {
        disk := disk[file.path := Stored(disk, file.path)];
        err := NegativeOffset;
        return;
      }
      var at: nat := r.fileOffset;
      FileInRange(fs, r.index);
      if DistinctPaths(fs) {
        WriteOneFile(disk, fs, r.index, at, data[..length]);
        if lo <= Start(fs, r.index) + at && OnDisk(disk, fs, lo, Start(fs, r.index) + at) {
          ExtendsOnDisk(disk, fs, lo, r.index, at, data[..length]);
        }
      }
      disk := disk[file.path := PutBytes(Stored(disk, file.path), at, data[..length])];
      m := length;
    }

    /**
     `WriteAt`. How much is written depends on lengths only. With distinct paths, for an offset
     inside the torrent, it overwrites the flat array at that offset as far as the torrent reaches,
     across any number of files, and nothing else. An offset past the end of a multi-file torrent
     is not refused up to `Limit`: it writes at `Effective` instead.
     */
    method WriteAt(p: Bytes, offset: int) returns (n: nat, err: IoError)
      modifies this
      ensures OthersKept()
      ensures p == [] ==> n == 0 && err == NoError && disk == old(disk)
      ensures p != [] && offset > Limit(info) ==> n == 0 && err == Panicked && disk == old(disk)
      ensures p != [] && offset < 0 ==>
        n == 0 && err != NoError && disk == Opened(old(disk)) && Contents() == old(Contents())
      ensures 0 <= offset <= Limit(info) ==>
        n == Min(|p|, Total(Slots(info)) - Effective(info, offset)) && err == (if n == |p| then NoError else ShortWrite)
      ensures 0 <= offset <= Limit(info) && DistinctPaths(Slots(info)) ==>
        var at := Effective(info, offset);
        && Contents() == Overwrite(old(Contents()), at, p[..n])
        && OnDisk(disk, Slots(info), at, at + n)
    {
      hide Flat, Total, PutBytes, Overwrite, DistinctPaths, Effective, Limit, Opened, OnDisk;
      n, err := 0, NoError;
      ghost var fs := Slots(info);
      ghost var at := Effective(info, offset);
      ghost var live := 0 <= offset <= Limit(info);
      ghost var flat := live && DistinctPaths(fs);
      LimitFacts(info, offset);
      OpenedKeeps(disk);
      if live {
        OverwriteNothing(Contents(), at);
        NothingOnDisk(disk, fs, at);
      }
      while n < |p|
        invariant n <= |p| && err == NoError && OthersKept()
        invariant (!live ==> n == 0) && (n == 0 ==> disk == old(disk))
        invariant live ==> at + n <= Total(fs)
        invariant flat ==> Contents() == Overwrite(old(Contents()), at, p[..n]) && OnDisk(disk, fs, at, at + n)
        decreases |p| - n
      {
        EffectiveStep(info, offset, n);
        var m;
        m, err := WriteStep(p[n..], offset + n, if live then at else 0);
        if err != NoError { return; }
        assert p[n..][..m] == p[n..n + m];
        OverwriteMore(old(Contents()), at, p, n, n + m);
        n := n + m;
      }
    }

    /** One `os.File.ReadAt` into `p[n..n + want]`: what the file has, and end-of-file if that is less. */
    method ReadFile(path: string, at: nat, p: array<Byte>, n: nat, want: nat) returns (m: nat, err: IoError)
      requires n + want <= p.Length
      modifies p
      ensures path !in disk ==> m == 0 && err == NotFound
      ensures path in disk ==>
        m == Min(want, Max(0, |disk[path]| - at)) && err == (if m == want then NoError else EndOfFile)
      ensures m <= want && p[..][n..n + m] == Padded(Stored(disk, path), at + m)[at..]
      ensures p[..][..n] == old(p[..])[..n] && p[..][n + m..] == old(p[..])[n + m..]
    {
      if path !in disk { return 0, NotFound; }
      var c := disk[path];
      m := Min(want, Max(0, |c| - at));
      for i := 0 to m
        invariant forall k :: 0 <= k < p.Length && !(n <= k < n + i) ==> p[k] == old(p[k])
        invariant forall k :: n <= k < n + i ==> p[k] == c[at + k - n]
      {
        p[n + i] := c[at + i];
      }
      err := if m == want then NoError else EndOfFile;
    }

    /** One round of the read loop: the part of the buffer from `n` on that one file fills. */
    method ReadStep(p: array<Byte>, n: nat, offset: int, ghost lo: nat, ghost hi: nat) returns (m: nat, err: IoError)
      requires n < p.Length
      modifies p
      ensures n + m <= p.Length && p[..][..n] == old(p[..])[..n] && p[..][n + m..] == old(p[..])[n + m..]
      ensures offset > Limit(info) ==> m == 0 && err == Panicked
      ensures offset < 0 ==> m == 0 && err != NoError
      ensures err == NoError ==> m > 0
      ensures 0 <= offset <= Limit(info) ==>
        var at := Effective(info, offset);
        && 0 <= at && at + m <= Total(Slots(info)) && p[..][n..n + m] == Contents()[at..at + m]
        && (at == Total(Slots(info)) ==> err == EndOfFile)
        && (lo <= at < hi && hi == Min(at + p.Length - n, Total(Slots(info))) && OnDisk(disk, Slots(info), lo, hi) ==>
           err == NoError)
    {
      hide Flat, Total, Padded, Stored, Effective, Limit, OnDisk;
      ghost var fs := Slots(info);
      LimitFacts(info, offset);
      m, err := 0, NoError;
      var r := GetFileByOffset(info, offset);
      if r.Panic? { err := Panicked; return; }
      var file := Slots(info)[r.index];
      if file.length == 0 || file.length == r.fileOffset { err := EndOfFile; return; }
      var pend := n + file.length - r.fileOffset;
      if pend > p.Length { pend := p.Length; }
      if r.fileOffset < 0 { err := NegativeOffset; return; }
      FileInRange(fs, r.index);
      m, err := ReadFile(file.path, r.fileOffset, p, n, pend - n);
      SliceOfFile(disk, fs, r.index, r.fileOffset, m);
      ghost var at := Effective(info, offset);
      if lo <= at < hi && hi == Min(at + p.Length - n, Total(fs)) && OnDisk(disk, fs, lo, hi) {
        FullyRead(disk, fs, lo, hi - lo, r.index, r.fileOffset, pend - n);
      }
    }

    /** `ReadAt` fills the buffer with the flat bytes at that place, as far as they are on disk. */
    method ReadAt(p: array<Byte>, offset: int) returns (n: nat, err: IoError)
      modifies p
      ensures n <= p.Length && p[..][n..] == old(p[..])[n..]
      ensures p.Length > 0 && offset > Limit(info) ==> n == 0 && err == Panicked
      ensures p.Length > 0 && offset < 0 ==> n == 0 && err != NoError
      ensures err == NoError ==> n == p.Length
      ensures 0 <= offset <= Limit(info) ==>
        var at := Effective(info, offset);
        var want := Min(p.Length, Total(Slots(info)) - at);
        && n <= want && p[..][..n] == Contents()[at..at + n]
        && (OnDisk(disk, Slots(info), at, at + want) ==>
           n == want && err == (if n == p.Length then NoError else EndOfFile))
    {
      hide Flat, Total, Effective, Limit, OnDisk, Held;
      n, err := 0, NoError;
      ghost var fs, all, before := Slots(info), Contents(), p[..];
      ghost var at := Effective(info, offset);
      ghost var live := 0 <= offset <= Limit(info);
      LimitFacts(info, offset);
      ghost var hi := if live then at + Min(p.Length, Total(fs) - at) else 0;
      HeldNothing(p[..], all, live, at);
      while n < p.Length
        invariant n <= p.Length && err == NoError && Held(p[..], before, n, all, live, at)
        invariant (!live ==> n == 0) && (live ==> at + n <= hi)
        decreases p.Length - n
      {
        EffectiveStep(info, offset, n);
        ghost var was := p[..];
        var m;
        m, err := ReadStep(p, n, offset + n, if live then at else 0, hi);
        HeldMore(was, p[..], before, n, m, all, live, at);
        n := n + m;
        if err != NoError { break; }
      }
      HeldFacts(p[..], before, n, all, live, at);
    }

    method WriteBlock(pieceIndex: nat, pieceOffset: nat, p: Bytes) returns (n: nat, err: IoError)
      modifies this
      ensures OthersKept()
      ensures p != [] && pieceIndex * info.pieceLength + pieceOffset > Limit(info) ==>
        n == 0 && err == Panicked && disk == old(disk)
      ensures 0 <= pieceIndex * info.pieceLength + pieceOffset <= Limit(info) ==>
        var at := Effective(info, pieceIndex * info.pieceLength + pieceOffset);
        && n == Min(|p|, Total(Slots(info)) - at) && err == (if n == |p| then NoError else ShortWrite)
        && (DistinctPaths(Slots(info)) ==> Contents() == Overwrite(old(Contents()), at, p[..n]))
    {
      hide Flat, Total, Overwrite, DistinctPaths, Effective, Limit, Opened, OnDisk;
      n, err := WriteAt(p, PieceOffset(info, pieceIndex, pieceOffset));
    }

    /**
     What was written is what a read of the same place returns, whatever was on disk before, also
     when the write is cut short at the end of the torrent.
     */
    method WriteThenRead(p: Bytes, offset: int, buf: array<Byte>) returns (n: nat, err: IoError)
      requires DistinctPaths(Slots(info)) && 0 <= offset <= Limit(info) && buf.Length == |p|
      modifies this, buf
      ensures n == Min(|p|, Total(Slots(info)) - Effective(info, offset))
      ensures buf[..][..n] == p[..n] && err == (if n == |p| then NoError else EndOfFile)
    {
      hide Flat, Total, Effective, Limit, Overwrite, OnDisk, DistinctPaths;
      LimitFacts(info, offset);
      n, err := WriteAt(p, offset);
      OverwriteSlice(old(Contents()), Effective(info, offset), p[..n]);
      n, err := ReadAt(buf, offset);
    }
  }

  /** Every flat position is the offset of its place in its piece. */
  lemma PieceOffsetCovers(info: Info, at: nat)
    requires info.pieceLength > 0
    ensures PieceOffset(info, at / info.pieceLength, at % info.pieceLength) == at
  {
  }

  /** `Info.PieceOffset`. */
  function PieceOffset(info: Info, index: nat, offset: nat): int {
    index * info.pieceLength + offset
  }

  ghost function Paths(fs: seq<File>): set<string> {
    set i | 0 <= i < |fs| :: fs[i].path
  }
}
