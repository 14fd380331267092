/** The .dcz archive layout, its two writers and its reader at the level of
    records. A chunk record is a method name, a flags byte (version 3 only)
    and the stored bytes; a file entry is a relative path and its chunk
    records. The version-3 writer (UltraModeManager) starts with the byte 3
    and ends with the empty directories; the ChunkCompressor writer has no
    version byte, no flags and no directory list. The reader (Form1) takes a
    first byte of at most 10 as the version and otherwise rewinds and
    assumes version 1. */
module Archive {
  import opened Common
  import opened Wire

  datatype ChunkRecord = ChunkRecord(methodName: seq<byte>, flags: byte, data: seq<byte>)
  datatype FileEntry = FileEntry(path: seq<byte>, chunks: seq<ChunkRecord>)
  datatype Archive = Archive(version: byte, files: seq<FileEntry>, dirs: seq<seq<byte>>)

  /** The version the Ultra writer stamps. */
  const CurrentVersion: byte := 3
  /** The largest first byte the reader takes for a version. */
  const MaxVersionByte: byte := 10

  // ---------------------------------------------------------------- writers

  function ChunkBytes(withFlags: bool, c: ChunkRecord): seq<byte>
  {
    WriteString(c.methodName) + (if withFlags then [c.flags] else []) + Int32LE(|c.data|) + c.data
  }

  function ChunksBytes(withFlags: bool, cs: seq<ChunkRecord>): seq<byte>
  {
    if |cs| == 0 then [] else ChunkBytes(withFlags, cs[0]) + ChunksBytes(withFlags, cs[1..])
  }

  function FileBytes(withFlags: bool, f: FileEntry): seq<byte>
  {
    WriteString(f.path) + Int32LE(|f.chunks|) + ChunksBytes(withFlags, f.chunks)
  }

  function FilesBytes(withFlags: bool, fs: seq<FileEntry>): seq<byte>
  {
    if |fs| == 0 then [] else FileBytes(withFlags, fs[0]) + FilesBytes(withFlags, fs[1..])
  }

  function StringsBytes(ss: seq<seq<byte>>): seq<byte>
  {
    if |ss| == 0 then [] else WriteString(ss[0]) + StringsBytes(ss[1..])
  }

  /** What UltraModeManager.ProcessEntries leaves in the archive file once
      the count at offset 1 is patched. */
  function SerializeV3(files: seq<FileEntry>, dirs: seq<seq<byte>>): (b: seq<byte>)
    ensures |b| >= 9 && b[0] == CurrentVersion && b[1..5] == Int32LE(|files|)
  {
    [CurrentVersion] + Int32LE(|files|) + FilesBytes(true, files) + Int32LE(|dirs|) + StringsBytes(dirs)
  }

  /** What ChunkCompressor.CompressFiles leaves in the archive file once the
      count at offset 0 is patched. */
  function SerializeUnversioned(files: seq<FileEntry>): (b: seq<byte>)
    ensures |b| >= 4 && b[..4] == Int32LE(|files|)
  {
    Int32LE(|files|) + FilesBytes(false, files)
  }

  /** The writers emit one record after another: appending a record to a
      list appends its bytes to the list's bytes. */
  lemma {:induction false} ChunksBytesAppend(withFlags: bool, cs: seq<ChunkRecord>, c: ChunkRecord)
    ensures ChunksBytes(withFlags, cs + [c]) == ChunksBytes(withFlags, cs) + ChunkBytes(withFlags, c)
    decreases |cs|
  {
    if |cs| == 0 {
      assert [] + [c] == [c];
    } else {
      assert (cs + [c])[1..] == cs[1..] + [c];
      ChunksBytesAppend(withFlags, cs[1..], c);
    }
  }

  lemma {:induction false} FilesBytesAppend(withFlags: bool, fs: seq<FileEntry>, f: FileEntry)
    ensures FilesBytes(withFlags, fs + [f]) == FilesBytes(withFlags, fs) + FileBytes(withFlags, f)
    decreases |fs|
  {
    if |fs| == 0 {
      assert [] + [f] == [f];
    } else {
      assert (fs + [f])[1..] == fs[1..] + [f];
      FilesBytesAppend(withFlags, fs[1..], f);
    }
  }

  lemma {:induction false} StringsBytesAppend(ss: seq<seq<byte>>, x: seq<byte>)
    ensures StringsBytes(ss + [x]) == StringsBytes(ss) + WriteString(x)
    decreases |ss|
  {
    if |ss| == 0 {
      assert [] + [x] == [x];
    } else {
      assert (ss + [x])[1..] == ss[1..] + [x];
      StringsBytesAppend(ss[1..], x);
    }
  }

  // ------------------------------------------------------------ size limits

  /** Every length the writers store fits an Int32. */
  predicate ChunkFits(c: ChunkRecord)
  {
    |c.methodName| < TwoTo31 && |c.data| < TwoTo31
  }

  /** Every record fits, and without a flags byte on the wire every flags
      byte is zero. */
  predicate ChunksFit(cs: seq<ChunkRecord>, withFlags: bool)
  {
    |cs| == 0 || (ChunkFits(cs[0]) && (withFlags || cs[0].flags == 0) && ChunksFit(cs[1..], withFlags))
  }

  predicate FileFits(f: FileEntry, withFlags: bool)
  {
    |f.path| < TwoTo31 && |f.chunks| < TwoTo31 && ChunksFit(f.chunks, withFlags)
  }

  predicate EntriesFit(files: seq<FileEntry>, withFlags: bool)
  {
    |files| == 0 || (FileFits(files[0], withFlags) && EntriesFit(files[1..], withFlags))
  }

  predicate FilesFit(files: seq<FileEntry>, withFlags: bool)
  {
    |files| < TwoTo31 && EntriesFit(files, withFlags)
  }

  predicate NamesFit(dirs: seq<seq<byte>>)
  {
    |dirs| == 0 || (|dirs[0]| < TwoTo31 && NamesFit(dirs[1..]))
  }

  predicate DirsFit(dirs: seq<seq<byte>>)
  {
    |dirs| < TwoTo31 && NamesFit(dirs)
  }

  /** The fit predicates hold when every record, or every entry, fits. */
  lemma {:induction false} ChunksFitAll(cs: seq<ChunkRecord>, withFlags: bool)
    requires forall t :: 0 <= t < |cs| ==> ChunkFits(cs[t]) && (withFlags || cs[t].flags == 0)
    ensures ChunksFit(cs, withFlags)
    decreases |cs|
  {
    if |cs| > 0 {
      ChunksFitAll(cs[1..], withFlags);
    }
  }

  lemma {:induction false} EntriesFitAll(es: seq<FileEntry>, withFlags: bool)
    requires forall i :: 0 <= i < |es| ==> FileFits(es[i], withFlags)
    ensures EntriesFit(es, withFlags)
    decreases |es|
  {
    if |es| > 0 {
      EntriesFitAll(es[1..], withFlags);
    }
  }

  // ---------------------------------------------------------------- readers

  /** The flags byte, present from version 3 on. */
  function ReadFlags(s: seq<byte>, version: byte): (r: Result<(byte, seq<byte>)>)
    ensures version < 3 ==> r == Ok((0, s))
    ensures version >= 3 ==> r == ReadByte(s)
  {
    if version >= 3 then ReadByte(s) else Ok((0, s))
  }

  /** A chunk's size and bytes; fewer bytes than the size is the "failed to
      read chunk" error. */
  function ReadChunkData(s: seq<byte>, index: nat): (r: Result<(seq<byte>, seq<byte>)>)
  {
    match ReadInt32(s)
    case Err(e) => Err(e)
    case Ok((size, t)) =>
      match ReadBytes(t, size)
      case Err(e) => Err(e)
      case Ok((bytes, u)) =>
        if |bytes| != size then Err(ChunkTruncated(index)) else Ok((bytes, u))
  }

  /** The outcomes of ReadChunkData: the end of the stream before the size,
      a negative size, a chunk cut short, or exactly size bytes. */
  lemma ReadChunkDataCases(s: seq<byte>, index: nat)
    ensures |s| < 4 ==> ReadChunkData(s, index) == Err(EndOfStream)
    ensures |s| >= 4 ==> var size := ReadInt32(s).value.0; var r := ReadChunkData(s, index);
              (size < 0 ==> r == Err(NegativeCount)) &&
              (size > |s| - 4 ==> r == Err(ChunkTruncated(index))) &&
              (0 <= size <= |s| - 4 ==> r == Ok((s[4..][..size], s[4..][size..])))
  {
  }

  /** One chunk record: name, flags, size and bytes. */
  function ReadChunkRecord(s: seq<byte>, version: byte, index: nat): (r: Result<(ChunkRecord, seq<byte>)>)
    ensures r.Ok? && version < 3 ==> r.value.0.flags == 0
  {
    match ReadString(s)
    case Err(e) => Err(e)
    case Ok((name, t1)) =>
      match ReadFlags(t1, version)
      case Err(e) => Err(e)
      case Ok((flags, t2)) =>
        match ReadChunkData(t2, index)
        case Err(e) => Err(e)
        case Ok((bytes, t3)) => Ok((ChunkRecord(name, flags, bytes), t3))
  }

  /** How one item is read, from the rest of the stream and the item's
      number. */
  type Reader<T> = (seq<byte>, nat) -> Result<(T, seq<byte>)>

  /** k items read one after the other, the first numbered index; the first
      failure ends the read. */
  function ParseMany<T>(read: Reader<T>, s: seq<byte>, index: nat, k: nat): (r: Result<(seq<T>, seq<byte>)>)
    ensures r.Ok? ==> |r.value.0| == k
    decreases k
  {
    if k == 0 then Ok(([], s))
    else match read(s, index)
      case Err(e) => Err(e)
      case Ok((x, t)) =>
        match ParseMany(read, t, index + 1, k - 1)
        case Err(e) => Err(e)
        case Ok((xs, u)) => Ok(([x] + xs, u))
  }

  /** The chunk record reader of an archive of the given version. */
  function Records(version: byte): Reader<ChunkRecord>
  {
    (s: seq<byte>, index: nat) => ReadChunkRecord(s, version, index)
  }

  /** k chunk records, the first numbered index. */
  function ParseChunks(s: seq<byte>, version: byte, index: nat, k: nat): (r: Result<(seq<ChunkRecord>, seq<byte>)>)
    ensures r.Ok? ==> |r.value.0| == k
  {
    ParseMany(Records(version), s, index, k)
  }

  /** The path and the chunk count of a file; a negative count reads no
      chunk. */
  function ReadFileHeader(s: seq<byte>): (r: Result<(seq<byte>, nat, seq<byte>)>)
  {
    match ReadString(s)
    case Err(e) => Err(e)
    case Ok((path, t1)) =>
      match ReadInt32(t1)
      case Err(e) => Err(e)
      case Ok((count, t2)) => Ok((path, if count < 0 then 0 else count, t2))
  }

  function ReadFileEntry(s: seq<byte>, version: byte): (r: Result<(FileEntry, seq<byte>)>)
  {
    match ReadFileHeader(s)
    case Err(e) => Err(e)
    case Ok((path, count, t)) =>
      match ParseChunks(t, version, 0, count)
      case Err(e) => Err(e)
      case Ok((cs, u)) => Ok((FileEntry(path, cs), u))
  }

  /** The file entry reader of an archive of the given version. */
  function Entries(version: byte): Reader<FileEntry>
  {
    (s: seq<byte>, index: nat) => ReadFileEntry(s, version)
  }

  /** k file entries. */
  function ParseFiles(s: seq<byte>, version: byte, k: nat): (r: Result<(seq<FileEntry>, seq<byte>)>)
    ensures r.Ok? ==> |r.value.0| == k
  {
    ParseMany(Entries(version), s, 0, k)
  }

  /** Up to k directory names; reading stops quietly at the first failure,
      keeping those already read. */
  function ReadDirs(s: seq<byte>, k: nat): (ds: seq<seq<byte>>)
    ensures |ds| <= k
    decreases k
  {
    if k == 0 then []
    else match ReadString(s)
      case Err(_) => []
      case Ok((d, t)) => [d] + ReadDirs(t, k - 1)
  }

  /** The empty-directory list, read only from version 2 on. */
  function ReadDirList(s: seq<byte>, version: byte): (ds: seq<seq<byte>>)
    ensures version < 2 ==> ds == []
  {
    if version < 2 then []
    else match ReadInt32(s)
      case Err(_) => []
      case Ok((count, t)) => ReadDirs(t, if count < 0 then 0 else count)
  }

  /** The version and the bytes from which the file count is read: a first
      byte of at most 10 is the version; otherwise, or for an empty archive,
      the version is 1 and nothing is consumed. */
  function ReadVersion(data: seq<byte>): (r: (byte, seq<byte>))
    ensures |data| > 0 && data[0] <= MaxVersionByte ==> r == (data[0], data[1..])
    ensures |data| == 0 || data[0] > MaxVersionByte ==> r == (1, data)
  {
    if |data| > 0 && data[0] <= MaxVersionByte then (data[0], data[1..]) else (1, data)
  }

  /** The reader's view of a whole archive, chunk records undecoded. */
  function ParseArchive(data: seq<byte>): (r: Result<Archive>)
    ensures r.Ok? ==> r.value.version == ReadVersion(data).0 && (r.value.version < 2 ==> r.value.dirs == [])
  {
    var (version, s) := ReadVersion(data);
    match ReadInt32(s)
    case Err(e) => Err(e)
    case Ok((count, t)) =>
      match ParseFiles(t, version, if count < 0 then 0 else count)
      case Err(e) => Err(e)
      case Ok((files, u)) => Ok(Archive(version, files, ReadDirList(u, version)))
  }

  // ------------------------------------------------------------ round trips

  lemma Assoc(a: seq<byte>, b: seq<byte>, c: seq<byte>)
    ensures (a + b) + c == a + (b + c)
  {
  }

  /** ReadChunkRecord is its three reads in sequence. */
  lemma ChunkReads(s: seq<byte>, version: byte, index: nat, name: seq<byte>, flags: byte, bytes: seq<byte>,
                   t1: seq<byte>, t2: seq<byte>, t3: seq<byte>)
    requires ReadString(s) == Ok((name, t1))
    requires ReadFlags(t1, version) == Ok((flags, t2))
    requires ReadChunkData(t2, index) == Ok((bytes, t3))
    ensures ReadChunkRecord(s, version, index) == Ok((ChunkRecord(name, flags, bytes), t3))
  {
  }

  /** A chunk record reads back; without flags on the wire its flags must be
      zero to come back equal. */
  lemma ChunkRoundTrip(c: ChunkRecord, rest: seq<byte>, version: byte, index: nat)
    requires ChunkFits(c) && (version >= 3 || c.flags == 0)
    ensures ReadChunkRecord(ChunkBytes(version >= 3, c) + rest, version, index) == Ok((c, rest))
  {
    var fl: seq<byte> := if version >= 3 then [c.flags] else [];
    var t2 := Int32LE(|c.data|) + (c.data + rest);
    var t1 := fl + t2;
    assert ChunkBytes(version >= 3, c) + rest == WriteString(c.methodName) + t1;
    StringRoundTrip(c.methodName, t1);
    assert ReadFlags(t1, version) == Ok((c.flags, t2)) by {
      if version >= 3 { assert t1[1..] == t2; } else { assert t1 == t2; }
    }
    Int32RoundTrip(|c.data|, c.data + rest);
    assert (c.data + rest)[..|c.data|] == c.data && (c.data + rest)[|c.data|..] == rest;
    ChunkReads(ChunkBytes(version >= 3, c) + rest, version, index, c.methodName, c.flags, c.data, t1, t2, rest);
  }

  /** ParseMany reads an item, then the rest. */
  lemma ManyStep<T>(read: Reader<T>, s: seq<byte>, index: nat, xs: seq<T>, t: seq<byte>, u: seq<byte>)
    requires |xs| > 0
    requires read(s, index) == Ok((xs[0], t))
    requires ParseMany(read, t, index + 1, |xs| - 1) == Ok((xs[1..], u))
    ensures ParseMany(read, s, index, |xs|) == Ok((xs, u))
  {
    assert [xs[0]] + xs[1..] == xs;
  }

  /** The first record of a non-empty run reads back, and the others still
      fit. */
  lemma ChunksHead(cs: seq<ChunkRecord>, rest: seq<byte>, version: byte, index: nat)
    requires |cs| > 0 && ChunksFit(cs, version >= 3)
    ensures ReadChunkRecord(ChunksBytes(version >= 3, cs) + rest, version, index)
            == Ok((cs[0], ChunksBytes(version >= 3, cs[1..]) + rest))
  {
    var wf := version >= 3;
    var t := ChunksBytes(wf, cs[1..]) + rest;
    Assoc(ChunkBytes(wf, cs[0]), ChunksBytes(wf, cs[1..]), rest);
    ChunkRoundTrip(cs[0], t, version, index);
  }

  /** The chunk records of a file read back, numbered from any index. */
  lemma {:induction false} ChunksRoundTrip(cs: seq<ChunkRecord>, rest: seq<byte>, version: byte, index: nat)
    requires ChunksFit(cs, version >= 3)
    ensures ParseChunks(ChunksBytes(version >= 3, cs) + rest, version, index, |cs|) == Ok((cs, rest))
    decreases |cs|
  {
    var wf := version >= 3;
    if |cs| > 0 {
      ChunksHead(cs, rest, version, index);
      ChunksRoundTrip(cs[1..], rest, version, index + 1);
      ManyStep(Records(version), ChunksBytes(wf, cs) + rest, index, cs, ChunksBytes(wf, cs[1..]) + rest, rest);
    } else {
      assert ChunksBytes(wf, cs) + rest == rest;
    }
  }

  /** ReadFileEntry is its reads in sequence. */
  lemma FileReads(s: seq<byte>, version: byte, path: seq<byte>, count: nat, cs: seq<ChunkRecord>,
                  t1: seq<byte>, t2: seq<byte>, t3: seq<byte>)
    requires ReadString(s) == Ok((path, t1))
    requires ReadInt32(t1) == Ok((count, t2))
    requires ParseChunks(t2, version, 0, count) == Ok((cs, t3))
    ensures ReadFileEntry(s, version) == Ok((FileEntry(path, cs), t3))
  {
    assert ReadFileHeader(s) == Ok((path, count, t2));
  }

  lemma FileRoundTrip(f: FileEntry, rest: seq<byte>, version: byte)
    requires FileFits(f, version >= 3)
    ensures ReadFileEntry(FileBytes(version >= 3, f) + rest, version) == Ok((f, rest))
  {
    var wf := version >= 3;
    var t2 := ChunksBytes(wf, f.chunks) + rest;
    var t1 := Int32LE(|f.chunks|) + t2;
    assert FileBytes(wf, f) + rest == WriteString(f.path) + t1;
    StringRoundTrip(f.path, t1);
    Int32RoundTrip(|f.chunks|, t2);
    ChunksRoundTrip(f.chunks, rest, version, 0);
    FileReads(FileBytes(wf, f) + rest, version, f.path, |f.chunks|, f.chunks, t1, t2, rest);
  }

  /** The first entry of a non-empty list reads back. */
  lemma FilesHead(fs: seq<FileEntry>, rest: seq<byte>, version: byte)
    requires |fs| > 0 && FileFits(fs[0], version >= 3)
    ensures ReadFileEntry(FilesBytes(version >= 3, fs) + rest, version)
            == Ok((fs[0], FilesBytes(version >= 3, fs[1..]) + rest))
  {
    var wf := version >= 3;
    Assoc(FileBytes(wf, fs[0]), FilesBytes(wf, fs[1..]), rest);
    FileRoundTrip(fs[0], FilesBytes(wf, fs[1..]) + rest, version);
  }

  /** The file entries of an archive read back, numbered from any index. */
  lemma {:induction false} FilesRoundTrip(fs: seq<FileEntry>, rest: seq<byte>, version: byte, index: nat)
    requires EntriesFit(fs, version >= 3)
    ensures ParseMany(Entries(version), FilesBytes(version >= 3, fs) + rest, index, |fs|) == Ok((fs, rest))
    decreases |fs|
  {
    var wf := version >= 3;
    if |fs| > 0 {
      FilesHead(fs, rest, version);
      FilesRoundTrip(fs[1..], rest, version, index + 1);
      ManyStep(Entries(version), FilesBytes(wf, fs) + rest, index, fs, FilesBytes(wf, fs[1..]) + rest, rest);
    } else {
      assert FilesBytes(wf, fs) + rest == rest;
    }
  }

  /** The empty-directory names read back. */
  lemma {:induction false} DirsRoundTrip(ds: seq<seq<byte>>, rest: seq<byte>)
    requires NamesFit(ds)
    ensures ReadDirs(StringsBytes(ds) + rest, |ds|) == ds
    decreases |ds|
  {
    if |ds| > 0 {
      var t := StringsBytes(ds[1..]) + rest;
      Assoc(WriteString(ds[0]), StringsBytes(ds[1..]), rest);
      StringRoundTrip(ds[0], t);
      DirsRoundTrip(ds[1..], rest);
      assert [ds[0]] + ds[1..] == ds;
    } else {
      assert ds == [];
    }
  }

  /** ParseArchive is its reads in sequence. */
  lemma ArchiveReads(data: seq<byte>, version: byte, s: seq<byte>, count: nat, t: seq<byte>,
                     files: seq<FileEntry>, u: seq<byte>)
    requires ReadVersion(data) == (version, s)
    requires ReadInt32(s) == Ok((count, t))
    requires ParseFiles(t, version, count) == Ok((files, u))
    ensures ParseArchive(data) == Ok(Archive(version, files, ReadDirList(u, version)))
  {
  }

  /** The main theorem of the format: a version-3 archive reads back as the
      file list, with every chunk record and flags byte, and the empty
      directory list that were written. */
  lemma V3RoundTrip(files: seq<FileEntry>, dirs: seq<seq<byte>>)
    requires FilesFit(files, true) && DirsFit(dirs)
    ensures ParseArchive(SerializeV3(files, dirs)) == Ok(Archive(CurrentVersion, files, dirs))
  {
    var data := SerializeV3(files, dirs);
    var u := Int32LE(|dirs|) + StringsBytes(dirs);
    var t := FilesBytes(true, files) + u;
    var s := Int32LE(|files|) + t;
    V3Layout(files, dirs);
    assert ReadVersion(data) == (CurrentVersion, s) by {
      assert data[1..] == s;
    }
    Int32RoundTrip(|files|, t);
    FilesRoundTrip(files, u, CurrentVersion, 0);
    ArchiveReads(data, CurrentVersion, s, |files|, t, files, u);
    DirListRoundTrip(dirs, CurrentVersion);
  }

  /** The version-3 layout, field after field. */
  lemma V3Layout(files: seq<FileEntry>, dirs: seq<seq<byte>>)
    ensures SerializeV3(files, dirs)
            == [CurrentVersion] + (Int32LE(|files|) + (FilesBytes(true, files) + (Int32LE(|dirs|) + StringsBytes(dirs))))
  {
    var a, b, c, d := Int32LE(|files|), FilesBytes(true, files), Int32LE(|dirs|), StringsBytes(dirs);
    Assoc([CurrentVersion] + a + b, c, d);
    Assoc([CurrentVersion] + a, b, c + d);
    Assoc([CurrentVersion], a, b + (c + d));
  }

  /** The directory list reads back from version 2 on. */
  lemma DirListRoundTrip(dirs: seq<seq<byte>>, version: byte)
    requires DirsFit(dirs) && version >= 2
    ensures ReadDirList(Int32LE(|dirs|) + StringsBytes(dirs), version) == dirs
  {
    Int32RoundTrip(|dirs|, StringsBytes(dirs));
    assert StringsBytes(dirs) + [] == StringsBytes(dirs);
    DirsRoundTrip(dirs, []);
  }

  /** The unversioned layout reads back only through the rewind: when the
      low byte of the file count exceeds 10. */
  lemma UnversionedRoundTrip(files: seq<FileEntry>)
    requires FilesFit(files, false)
    requires |files| % 256 > MaxVersionByte as int
    ensures ParseArchive(SerializeUnversioned(files)) == Ok(Archive(1, files, []))
  {
    var data := SerializeUnversioned(files);
    assert data[0] == Int32LE(|files|)[0] == |files| % TwoTo32 % 256;
    assert |files| % TwoTo32 == |files|;
    UnversionedReads(files, data);
  }

  /** The unversioned layout, when the reader starts the count at its first
      byte, reads as version 1. */
  lemma UnversionedReads(files: seq<FileEntry>, s: seq<byte>)
    requires FilesFit(files, false)
    requires s == Int32LE(|files|) + FilesBytes(false, files)
    ensures ReadInt32(s) == Ok((|files|, FilesBytes(false, files) + []))
    ensures ParseFiles(FilesBytes(false, files) + [], 1, |files|) == Ok((files, []))
  {
    assert s == Int32LE(|files|) + (FilesBytes(false, files) + []);
    Int32RoundTrip(|files|, FilesBytes(false, files) + []);
    FilesRoundTrip(files, [], 1, 0);
  }

  /** The misreading: a ChunkCompressor archive holding one file with no
      chunks starts 01 00 00 00, so the reader takes version 1, reads the
      count from the next four bytes (16777216) and then fails on the path
      string. */
  lemma UnversionedMisread()
    ensures ParseArchive(SerializeUnversioned([FileEntry([0x61], [])])) == Err(EndOfStream)
  {
    var files := [FileEntry([0x61], [])];
    var data := SerializeUnversioned(files);
    assert Int32LE(1) == [1, 0, 0, 0];
    assert WriteString([0x61]) == [1, 0x61];
    assert Int32LE(0) == [0, 0, 0, 0];
    assert FilesBytes(false, files) == FileBytes(false, files[0]) + FilesBytes(false, []);
    assert data == [1, 0, 0, 0, 1, 0x61, 0, 0, 0, 0];
    var s := data[1..];
    assert ReadVersion(data) == (1, s);
    assert ReadInt32(s) == Ok((16777216, [0x61, 0, 0, 0, 0]));
    assert ReadGroups([0x61, 0, 0, 0, 0], 0) == Ok((0x61, [0, 0, 0, 0]));
    assert ReadString([0x61, 0, 0, 0, 0]) == Err(EndOfStream);
  }

  /** The same layout behind a version byte of 1 always reads back. */
  function SerializeV1(files: seq<FileEntry>): (b: seq<byte>)
    ensures |b| >= 5 && b[0] == 1
  {
    [1] + SerializeUnversioned(files)
  }

  lemma V1RoundTrip(files: seq<FileEntry>)
    requires FilesFit(files, false)
    ensures ParseArchive(SerializeV1(files)) == Ok(Archive(1, files, []))
  {
    var data := SerializeV1(files);
    var s := SerializeUnversioned(files);
    assert data[1..] == s;
    assert ReadVersion(data) == (1, s);
    UnversionedReads(files, s);
    ArchiveReads(data, 1, s, |files|, FilesBytes(false, files) + [], files, []);
  }
}
