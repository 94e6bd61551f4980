/** Files of a torrent laid end to end: lengths, offsets, and the flat byte range they stand for. */
module Layout {
  import opened Prelude

  /** A file with its joined path; lengths are those of a well-formed torrent. */
  datatype File = File(length: nat, path: string)

  datatype Info = Info(name: string, pieceLength: int, pieces: nat, length: nat, files: seq<File>)

  predicate IsDir(info: Info) {
    info.files != []
  }

  /** The files as the reader and the writer see them; a single file lives under the torrent's name. */
  function Slots(info: Info): (fs: seq<File>)
    ensures fs != []
  {
    if IsDir(info) then info.files else [File(info.length, info.name)]
  }

  function Total(fs: seq<File>): nat {
    if fs == [] then 0 else Total(fs[..|fs| - 1]) + fs[|fs| - 1].length
  }

  /** Where file `i` starts in the flat range. */
  function Start(fs: seq<File>, i: nat): nat
    requires i <= |fs|
  {
    Total(fs[..i])
  }

  lemma StartNext(fs: seq<File>, i: nat)
    requires i < |fs|
    ensures Start(fs, i + 1) == Start(fs, i) + fs[i].length
  {
    assert fs[..i + 1][..i] == fs[..i];
  }

  lemma StartEnds(fs: seq<File>)
    ensures Start(fs, 0) == 0 && Start(fs, |fs|) == Total(fs)
  {
    assert fs[..|fs|] == fs;
  }

  lemma {:induction false} StartMonotone(fs: seq<File>, i: nat, j: nat)
    requires i <= j <= |fs|
    ensures Start(fs, i) <= Start(fs, j) <= Total(fs)
    decreases |fs| - i
  {
    if i < j {
      StartNext(fs, i);
      StartMonotone(fs, i + 1, j);
    } else if j < |fs| {
      StartNext(fs, j);
      StartMonotone(fs, j + 1, |fs|);
    } else {
      StartEnds(fs);
    }
  }

  ghost predicate DistinctPaths(fs: seq<File>) {
    forall i, j :: 0 <= i < j < |fs| ==> fs[i].path != fs[j].path
  }

  method TotalLength(info: Info) returns (ret: nat)
    ensures ret == Total(Slots(info)) == if info.files == [] then info.length else Total(info.files)
  {
    ret := 0;
    if IsDir(info) {
      for i := 0 to |info.files|
        invariant ret == Start(info.files, i)
      {
        StartNext(info.files, i);
        ret := ret + info.files[i].length;
      }
      StartEnds(info.files);
    } else {
      ret := info.length;
      assert Slots(info)[..0] == [];
    }
  }

  // ------------------------------------------------------------ GetFileByOffset

  /** The largest offset `GetFileByOffset` accepts without a panic. */
  function Limit(info: Info): nat {
    var fs := Slots(info);
    Total(fs) + (if IsDir(info) then fs[|fs| - 1].length else 0)
  }

  /**
   The flat position an offset is taken for. Up to the total length it is the offset itself;
   past the end of a multi-file torrent, the offset is read again into the last file.
   */
  function Effective(info: Info, offset: int): int {
    var fs := Slots(info);
    if offset <= Total(fs) then offset else offset - fs[|fs| - 1].length
  }

  datatype Place = Place(index: nat, fileOffset: int) | Panic

  /**
   The file and the offset inside it. The answer is the true position exactly for offsets up to
   the total length; past `Limit` there is none.
   */
  method GetFileByOffset(info: Info, offset: int) returns (r: Place)
    ensures r.Panic? <==> offset > Limit(info)
    ensures info.files == [] ==> r == if offset > info.length then Panic else Place(0, offset)
    ensures info.files != [] ==> (r.Panic? <==> offset > Total(info.files) + info.files[|info.files| - 1].length)
    ensures r.Place? ==>
      var fs := Slots(info);
      && r.index < |fs| && r.fileOffset <= fs[r.index].length
      && Start(fs, r.index) + r.fileOffset == Effective(info, offset)
      && (Effective(info, offset) == offset <==> offset <= Total(fs))
      && (0 <= Effective(info, offset) < Total(fs) ==> 0 <= r.fileOffset < fs[r.index].length)
      && (Effective(info, offset) == Total(fs) ==> r.fileOffset == fs[r.index].length)
      && (offset < 0 ==> r.index == 0 && r.fileOffset < 0)
  {
    var fs := Slots(info);
    StartEnds(fs);
    if !IsDir(info) {
      StartNext(fs, 0);
      return if offset > info.length then Panic else Place(0, offset);
    }
    var fileOffset := offset;
    var last := |fs| - 1;
    for i := 0 to |fs|
      invariant fileOffset == offset - Start(fs, i)
      invariant i > 0 ==> fileOffset >= 0
      invariant i == |fs| ==> offset > Total(fs)
    {
      StartNext(fs, i);
      StartMonotone(fs, i + 1, |fs|);
      if fileOffset < fs[i].length {
        return Place(i, fileOffset);
      } else if fileOffset == fs[i].length && i == last {
        return Place(i, fileOffset);
      }
      fileOffset := fileOffset - fs[i].length;
    }
    StartNext(fs, last);
    if fileOffset > fs[last].length {
      return Panic;
    }
    return Place(last, fileOffset);
  }

  /** An offset one past the end of two files of four bytes: the answer stands for flat position 2. */
  method PastTheEnd() returns (r: Place)
    ensures r == Place(1, 1)
    ensures Total([File(1, "a"), File(3, "b")]) == 4 && Start([File(1, "a"), File(3, "b")], 1) == 1
  {
    var fs := [File(1, "a"), File(3, "b")];
    StartEnds(fs);
    StartNext(fs, 0);
    StartNext(fs, 1);
    r := GetFileByOffset(Info("t", 4, 1, 0, fs), 5);
  }

  // ------------------------------------------------------------ the flat view

  type Disk = map<string, Bytes>

  function Padded(c: Bytes, n: nat): (r: Bytes)
    ensures |r| == n
    ensures forall i :: 0 <= i < n ==> r[i] == if i < |c| then c[i] else 0
  {
    seq(n, i requires 0 <= i < n => if i < |c| then c[i] else 0)
  }

  function Stored(disk: Disk, path: string): Bytes {
    if path in disk then disk[path] else []
  }

  /** The bytes a file contributes: missing ones read as zero, surplus ones do not count. */
  function FileBytes(disk: Disk, f: File): (r: Bytes)
    ensures |r| == f.length
  {
    Padded(Stored(disk, f.path), f.length)
  }

  function Flat(disk: Disk, fs: seq<File>): (r: Bytes)
    ensures |r| == Total(fs)
  {
    if fs == [] then [] else Flat(disk, fs[..|fs| - 1]) + FileBytes(disk, fs[|fs| - 1])
  }

  function Overwrite(s: Bytes, at: nat, data: Bytes): (r: Bytes)
    requires at + |data| <= |s|
    ensures |r| == |s|
  {
    s[..at] + data + s[at + |data|..]
  }

  /** `os.File.WriteAt`: grows the file as needed, a gap reads as zero. */
  function PutBytes(c: Bytes, at: nat, data: Bytes): (r: Bytes)
    ensures |r| == Max(|c|, at + |data|)
  {
    Overwrite(Padded(c, Max(|c|, at + |data|)), at, data)
  }

  lemma {:induction false} FlatAt(disk: Disk, fs: seq<File>, i: nat)
    requires i < |fs|
    ensures Start(fs, i) + fs[i].length <= Total(fs)
    ensures Flat(disk, fs)[Start(fs, i)..Start(fs, i) + fs[i].length] == FileBytes(disk, fs[i])
  {
    hide FileBytes;
    var front := fs[..|fs| - 1];
    if i == |fs| - 1 {
      assert fs[..i] == front;
    } else {
      FlatAt(disk, front, i);
      assert front[..i] == fs[..i];
      SliceOfPrefix(Flat(disk, front), FileBytes(disk, fs[|fs| - 1]), Start(fs, i), Start(fs, i) + fs[i].length);
    }
  }

  /** A flat view is determined file by file. */
  lemma {:induction false} FlatFramed(d: Disk, e: Disk, fs: seq<File>)
    requires forall i :: 0 <= i < |fs| ==> FileBytes(d, fs[i]) == FileBytes(e, fs[i])
    ensures Flat(d, fs) == Flat(e, fs)
  {
    if fs == [] {
    } else {
      var front := fs[..|fs| - 1];
      assert forall i :: 0 <= i < |front| ==> front[i] == fs[i];
      FlatFramed(d, e, front);
    }
  }

  lemma PaddedPut(c: Bytes, at: nat, data: Bytes, n: nat)
    requires at + |data| <= n
    ensures Padded(PutBytes(c, at, data), n) == Overwrite(Padded(c, n), at, data)
  {
    var x, y := Padded(PutBytes(c, at, data), n), Overwrite(Padded(c, n), at, data);
    forall i | 0 <= i < n
      ensures x[i] == y[i]
    {
      if i < at {
      } else if i < at + |data| {
      } else {
        assert y[i] == Padded(c, n)[i];
      }
    }
  }

  lemma OverwriteLeft(a: Bytes, b: Bytes, at: nat, data: Bytes)
    requires at + |data| <= |a|
    ensures Overwrite(a + b, at, data) == Overwrite(a, at, data) + b
  {
  }

  lemma OverwriteRight(a: Bytes, b: Bytes, at: nat, data: Bytes)
    requires at + |data| <= |b|
    ensures Overwrite(a + b, |a| + at, data) == a + Overwrite(b, at, data)
  {
  }

  lemma PutInFile(disk: Disk, f: File, at: nat, data: Bytes)
    requires at + |data| <= f.length
    ensures FileBytes(disk[f.path := PutBytes(Stored(disk, f.path), at, data)], f) ==
      Overwrite(FileBytes(disk, f), at, data)
  {
    PaddedPut(Stored(disk, f.path), at, data, f.length);
  }

  lemma OtherFile(disk: Disk, path: string, c: Bytes, f: File)
    requires f.path != path
    ensures FileBytes(disk[path := c], f) == FileBytes(disk, f)
  {
  }

  /** Writing inside one file is overwriting the flat range at the file's place. */
  lemma {:induction false} WriteOneFile(disk: Disk, fs: seq<File>, i: nat, at: nat, data: Bytes)
    requires i < |fs| && DistinctPaths(fs) && at + |data| <= fs[i].length
    ensures Start(fs, i) + at + |data| <= Total(fs)
    ensures Flat(disk[fs[i].path := PutBytes(Stored(disk, fs[i].path), at, data)], fs)
         == Overwrite(Flat(disk, fs), Start(fs, i) + at, data)
  {
    hide Overwrite, PutBytes, FileBytes, Stored;
    var d := disk[fs[i].path := PutBytes(Stored(disk, fs[i].path), at, data)];
    var front, last := fs[..|fs| - 1], fs[|fs| - 1];
    assert fs[..i] == front[..i];
    if i == |fs| - 1 {
      assert front[..i] == front;
      forall x | 0 <= x < |front|
        ensures FileBytes(disk, front[x]) == FileBytes(d, front[x])
      {
        OtherFile(disk, fs[i].path, d[fs[i].path], fs[x]);
      }
      FlatFramed(disk, d, front);
      PutInFile(disk, last, at, data);
      OverwriteRight(Flat(disk, front), FileBytes(disk, last), at, data);
    } else {
      WriteOneFile(disk, front, i, at, data);
      OtherFile(disk, fs[i].path, d[fs[i].path], last);
      OverwriteLeft(Flat(disk, front), FileBytes(disk, last), Start(fs, i) + at, data);
    }
  }

  lemma OverwriteTwice(s: Bytes, at: nat, a: Bytes, b: Bytes)
    requires at + |a| + |b| <= |s|
    ensures Overwrite(Overwrite(s, at, a), at + |a|, b) == Overwrite(s, at, a + b)
  {
  }

  lemma OverwriteSlice(s: Bytes, at: nat, data: Bytes)
    requires at + |data| <= |s|
    ensures Overwrite(s, at, data)[at..at + |data|] == data
  {
  }
}
