/** Form1.DecompressFiles: read a .dcz archive and rebuild its files and its
    empty directories. Each chunk is read and at once decompressed by the
    algorithm its method name names (STORE keeps the bytes), then its delta
    and RLE preprocessing is reversed; a file is written once all of its
    chunks are rebuilt. The first failure ends the extraction and leaves the
    files written before it; a failure while restoring the directories is
    swallowed. The output folder and the file system are left out: a file
    written is its relative path and its bytes. */
module Extraction {
  import opened Common
  import opened Algorithms
  import opened Wire
  import opened Archive
  import Rle
  import Delta

  const FlagRle: byte := 0x01
  const FlagDelta: byte := 0x02

  /** flags & bit != 0, for the two single-bit flags. */
  predicate HasFlag(flags: byte, bit: byte)
    requires bit == FlagRle || bit == FlagDelta
  {
    (flags / bit) % 2 == 1
  }

  /** A file as File.WriteAllBytes leaves it, relative to the output folder. */
  datatype Rebuilt = Rebuilt(path: seq<byte>, content: seq<byte>)

  /** Everything DecompressFiles leaves behind: the files written, in order,
      the empty directories created, and the exception it ended with. */
  datatype Extraction = Extraction(written: seq<Rebuilt>, dirs: seq<seq<byte>>, failure: Option<Error>)

  // ------------------------------------------------------------ one chunk

  /** Step 1: STORE keeps the bytes; otherwise the first algorithm of the
      reader's list with that name decompresses them, and a missing name, a
      null result or an exception is an error. */
  function Unpack(lib: Library, path: seq<byte>, index: nat, c: ChunkRecord): Result<seq<byte>>
  {
    if c.methodName == StoreBytes then Ok(c.data)
    else match FindByName(Registry, c.methodName)
      case None => Err(MissingDecompressor(c.methodName))
      case Some(k) =>
        match Decompress(lib, k, c.data)
        case Produced(d) => Ok(d)
        case _ => Err(DecompressFailed(path, index, c.methodName))
  }

  /** Step 2: undo the delta coding, then the RLE coding, as flagged. */
  function Unfilter(flags: byte, d: seq<byte>): seq<byte>
  {
    var undelta := if HasFlag(flags, FlagDelta) then Delta.DeltaDecoding(d) else d;
    if HasFlag(flags, FlagRle) then Rle.Decoding(undelta) else undelta
  }

  function DecodeChunk(lib: Library, path: seq<byte>, index: nat, c: ChunkRecord): Result<seq<byte>>
  {
    match Unpack(lib, path, index, c)
    case Err(e) => Err(e)
    case Ok(d) => Ok(Unfilter(c.flags, d))
  }

  /** How a chunk record becomes bytes, given the file's path and the
      chunk's position in it. */
  type ChunkDecoder = (seq<byte>, nat, ChunkRecord) -> Result<seq<byte>>

  /** The reader's decoder for a given set of libraries. */
  function Decoder(lib: Library): ChunkDecoder
  {
    (path: seq<byte>, index: nat, c: ChunkRecord) => DecodeChunk(lib, path, index, c)
  }

  /** The preprocessing order the writers document is raw, then RLE, then
      delta: with both flags set the decoder undoes it, given the RLE coding
      that escapes a literal FF as a run; with no flag it changes nothing. */
  lemma UnfilterReverses(x: seq<byte>)
    ensures Unfilter(FlagRle + FlagDelta, Delta.DeltaEncoding(Rle.Encoding(x, Rle.RunEscape))) == x
    ensures Unfilter(0, x) == x
  {
    assert !HasFlag(0, FlagDelta) && !HasFlag(0, FlagRle);
    assert HasFlag(FlagRle + FlagDelta, FlagDelta) && HasFlag(FlagRle + FlagDelta, FlagRle);
    var e := Rle.Encoding(x, Rle.RunEscape);
    Delta.DecodeEncode(e);
    Rle.EscapedRoundTrip(x);
  }

  /** The chunk at the front of s, read and rebuilt. */
  function NextChunk(s: seq<byte>, read: Reader<ChunkRecord>, decode: ChunkDecoder, path: seq<byte>, index: nat)
    : Result<(seq<byte>, seq<byte>)>
  {
    match read(s, index)
    case Err(e) => Err(e)
    case Ok((c, t)) =>
      match decode(path, index, c)
      case Err(e) => Err(e)
      case Ok(d) => Ok((d, t))
  }

  /** The body of the chunk loop: read the name, the flags from version 3
      on, the size and the bytes; decompress; reverse the preprocessing. */
  method ReadChunk(lib: Library, s: seq<byte>, version: byte, path: seq<byte>, index: nat)
    returns (r: Result<(seq<byte>, seq<byte>)>)
    ensures r == NextChunk(s, Records(version), Decoder(lib), path, index)
  {
    var name: seq<byte>, rest: seq<byte>;
    match ReadString(s) {
      case Err(e) => return Err(e);
      case Ok((n, t)) => name, rest := n, t;
    }
    ghost var afterName := rest;
    var flags: byte := 0;
    if version >= 3 {
      match ReadByte(rest) {
        case Err(e) => return Err(e);
        case Ok((b, t)) => flags, rest := b, t;
      }
    }
    assert ReadFlags(afterName, version) == Ok((flags, rest));
    ghost var afterFlags := rest;
    var size: int;
    match ReadInt32(rest) {
      case Err(e) => return Err(e);
      case Ok((n, t)) => size, rest := n, t;
    }
    var compressed: seq<byte>;
    match ReadBytes(rest, size) {
      case Err(e) => return Err(e);
      case Ok((b, t)) => compressed, rest := b, t;
    }
    if |compressed| != size {
      return Err(ChunkTruncated(index));
    }
    assert ReadChunkData(afterFlags, index) == Ok((compressed, rest));
    var chunk := ChunkRecord(name, flags, compressed);
    assert ReadChunkRecord(s, version, index) == Ok((chunk, rest));
    var decompressed: seq<byte>;
    if name == StoreBytes {
      decompressed := compressed;
    } else {
      match FindByName(Registry, name) {
        case None => return Err(MissingDecompressor(name));
        case Some(k) =>
          match Decompress(lib, k, compressed) {
            case Produced(d) => decompressed := d;
            case NullResult => return Err(DecompressFailed(path, index, name));
            case Threw => return Err(DecompressFailed(path, index, name));
          }
      }
    }
    assert Unpack(lib, path, index, chunk) == Ok(decompressed);
    ghost var expected := Unfilter(flags, decompressed);
    assert Decoder(lib)(path, index, chunk) == Ok(expected);
    if HasFlag(flags, FlagDelta) {
      var buffer := new byte[|decompressed|](i requires 0 <= i < |decompressed| => decompressed[i]);
      assert buffer[..] == decompressed;
      var decoded := Delta.Decode(buffer);
      decompressed := decoded[..];
    }
    if HasFlag(flags, FlagRle) {
      decompressed := Rle.Decode(decompressed);
    }
    r := Ok((decompressed, rest));
    assert decompressed == expected;
  }

  // ------------------------------------------------------------ one file

  /** k chunks read and rebuilt one after the other, numbered from index:
      their bytes joined and the unread rest, or the first failure. */
  function ExtractChunks(s: seq<byte>, read: Reader<ChunkRecord>, decode: ChunkDecoder, path: seq<byte>, index: nat, k: nat)
    : Result<(seq<byte>, seq<byte>)>
    decreases k
  {
    if k == 0 then Ok(([], s))
    else match NextChunk(s, read, decode, path, index)
      case Err(e) => Err(e)
      case Ok((d, t)) =>
        match ExtractChunks(t, read, decode, path, index + 1, k - 1)
        case Err(e) => Err(e)
        case Ok((ds, u)) => Ok((d + ds, u))
  }

  /** Bytes already rebuilt, in front of a result. */
  function PrependBytes(p: seq<byte>, r: Result<(seq<byte>, seq<byte>)>): Result<(seq<byte>, seq<byte>)>
  {
    match r
    case Err(e) => Err(e)
    case Ok((d, u)) => Ok((p + d, u))
  }

  lemma PrependNothing(r: Result<(seq<byte>, seq<byte>)>)
    ensures PrependBytes([], r) == r
  {
    if r.Ok? {
      assert [] + r.value.0 == r.value.0;
    }
  }

  lemma PrependBytesTwice(a: seq<byte>, b: seq<byte>, r: Result<(seq<byte>, seq<byte>)>)
    ensures PrependBytes(a, PrependBytes(b, r)) == PrependBytes(a + b, r)
  {
    if r.Ok? {
      assert a + (b + r.value.0) == a + b + r.value.0;
    }
  }

  /** ExtractChunks after a chunk that was read and rebuilt. */
  lemma ChunksNext(s: seq<byte>, read: Reader<ChunkRecord>, decode: ChunkDecoder, path: seq<byte>, index: nat, k: nat, d: seq<byte>, t: seq<byte>)
    requires k > 0 && NextChunk(s, read, decode, path, index) == Ok((d, t))
    ensures ExtractChunks(s, read, decode, path, index, k) == PrependBytes(d, ExtractChunks(t, read, decode, path, index + 1, k - 1))
  {
  }

  /** The chunk loop's invariant survives a chunk read and rebuilt. */
  lemma ChunksLoopStep(goal: Result<(seq<byte>, seq<byte>)>, done: seq<byte>, s: seq<byte>, read: Reader<ChunkRecord>,
                       decode: ChunkDecoder, path: seq<byte>, index: nat, k: nat, d: seq<byte>, t: seq<byte>)
    requires k > 0 && NextChunk(s, read, decode, path, index) == Ok((d, t))
    requires goal == PrependBytes(done, ExtractChunks(s, read, decode, path, index, k))
    ensures forall next: nat, left: nat :: next == index + 1 && left == k - 1 ==>
              goal == PrependBytes(done + d, ExtractChunks(t, read, decode, path, next, left))
  {
    ChunksNext(s, read, decode, path, index, k, d, t);
    PrependBytesTwice(done, d, ExtractChunks(t, read, decode, path, index + 1, k - 1));
  }

  /** ExtractChunks when the next chunk fails. */
  lemma ChunksFail(s: seq<byte>, read: Reader<ChunkRecord>, decode: ChunkDecoder, path: seq<byte>, index: nat, k: nat, e: Error)
    requires k > 0 && NextChunk(s, read, decode, path, index) == Err(e)
    ensures ExtractChunks(s, read, decode, path, index, k) == Err(e)
  {
  }

  /** The file at the front of s: its path, its chunk count (none when
      negative) and its chunks. */
  function NextFile(s: seq<byte>, version: byte, decode: ChunkDecoder): Result<(Rebuilt, seq<byte>)>
  {
    match ReadFileHeader(s)
    case Err(e) => Err(e)
    case Ok((path, count, t)) =>
      match ExtractChunks(t, Records(version), decode, path, 0, count)
      case Err(e) => Err(e)
      case Ok((content, u)) => Ok((Rebuilt(path, content), u))
  }

  /** The body of the file loop: the header, then the chunk loop. */
  method ReadFile(lib: Library, s: seq<byte>, version: byte) returns (r: Result<(Rebuilt, seq<byte>)>)
    ensures r == NextFile(s, version, Decoder(lib))
  {
    var path: seq<byte>, rest: seq<byte>;
    match ReadString(s) {
      case Err(e) => return Err(e);
      case Ok((p, t)) => path, rest := p, t;
    }
    var chunkCount: int;
    match ReadInt32(rest) {
      case Err(e) => return Err(e);
      case Ok((n, t)) => chunkCount, rest := n, t;
    }
    ghost var total: nat := if chunkCount < 0 then 0 else chunkCount;
    ghost var start := rest;
    assert ReadFileHeader(s) == Ok((path, total, start));
    var reconstructed: seq<byte> := [];
    ghost var goal := ExtractChunks(start, Records(version), Decoder(lib), path, 0, total);
    PrependNothing(goal);
    ghost var remaining: nat := total;
    var c := 0;
    while c < chunkCount
      invariant c < chunkCount ==> remaining == chunkCount - c
      invariant c >= chunkCount ==> remaining == 0
      invariant goal == PrependBytes(reconstructed, ExtractChunks(rest, Records(version), Decoder(lib), path, c, remaining))
    {
      var next := ReadChunk(lib, rest, version, path, c);
      match next {
        case Err(e) =>
          ChunksFail(rest, Records(version), Decoder(lib), path, c, remaining, e);
          return Err(e);
        case Ok((d, t)) =>
          ChunksLoopStep(goal, reconstructed, rest, Records(version), Decoder(lib), path, c, remaining, d, t);
          reconstructed, rest := reconstructed + d, t;
      }
      c := c + 1;
      remaining := remaining - 1;
    }
    assert reconstructed + [] == reconstructed;
    r := Ok((Rebuilt(path, reconstructed), rest));
  }

  // ------------------------------------------------------------ the archive

  /** k files read and rebuilt one after the other: the files written, the
      failure that stopped the loop, and the unread rest when there was none. */
  function ExtractFiles(s: seq<byte>, version: byte, decode: ChunkDecoder, k: nat): (seq<Rebuilt>, Option<Error>, seq<byte>)
    decreases k
  {
    if k == 0 then ([], None, s)
    else match NextFile(s, version, decode)
      case Err(e) => ([], Some(e), [])
      case Ok((f, t)) =>
        var (fs, failure, u) := ExtractFiles(t, version, decode, k - 1);
        ([f] + fs, failure, u)
  }

  /** Files already written, in front of a result. */
  function PrependFiles(p: seq<Rebuilt>, r: (seq<Rebuilt>, Option<Error>, seq<byte>)): (seq<Rebuilt>, Option<Error>, seq<byte>)
  {
    (p + r.0, r.1, r.2)
  }

  lemma PrependNoFiles(r: (seq<Rebuilt>, Option<Error>, seq<byte>))
    ensures PrependFiles([], r) == r
  {
    assert [] + r.0 == r.0;
  }

  lemma PrependFilesTwice(a: seq<Rebuilt>, b: seq<Rebuilt>, r: (seq<Rebuilt>, Option<Error>, seq<byte>))
    ensures PrependFiles(a, PrependFiles(b, r)) == PrependFiles(a + b, r)
  {
    assert a + (b + r.0) == a + b + r.0;
  }

  /** ExtractFiles after a file that was read and rebuilt. */
  lemma FilesNext(s: seq<byte>, version: byte, decode: ChunkDecoder, k: nat, f: Rebuilt, t: seq<byte>)
    requires k > 0 && NextFile(s, version, decode) == Ok((f, t))
    ensures ExtractFiles(s, version, decode, k) == PrependFiles([f], ExtractFiles(t, version, decode, k - 1))
  {
  }

  /** The file loop's invariant survives a file read and rebuilt. */
  lemma FilesLoopStep(goal: (seq<Rebuilt>, Option<Error>, seq<byte>), written: seq<Rebuilt>, s: seq<byte>, version: byte,
                      decode: ChunkDecoder, k: nat, f: Rebuilt, t: seq<byte>)
    requires k > 0 && NextFile(s, version, decode) == Ok((f, t))
    requires goal == PrependFiles(written, ExtractFiles(s, version, decode, k))
    ensures forall left: nat :: left == k - 1 ==> goal == PrependFiles(written + [f], ExtractFiles(t, version, decode, left))
  {
    FilesNext(s, version, decode, k, f, t);
    PrependFilesTwice(written, [f], ExtractFiles(t, version, decode, k - 1));
  }

  /** ExtractFiles when the next file fails. */
  lemma FilesFail(s: seq<byte>, version: byte, decode: ChunkDecoder, k: nat, e: Error)
    requires k > 0 && NextFile(s, version, decode) == Err(e)
    ensures ExtractFiles(s, version, decode, k) == ([], Some(e), [])
  {
  }

  /** DecompressFiles as a whole: the version byte or the rewind, the file
      count (no file when negative), the files, and from version 2 on the
      directory list unless a file failed. */
  function Extract(decode: ChunkDecoder, data: seq<byte>): Extraction
  {
    var (version, s) := ReadVersion(data);
    match ReadInt32(s)
    case Err(e) => Extraction([], [], Some(e))
    case Ok((count, t)) =>
      var (written, failure, u) := ExtractFiles(t, version, decode, if count < 0 then 0 else count);
      Extraction(written, if failure.None? then ReadDirList(u, version) else [], failure)
  }

  /** Form1.DecompressFiles over the archive's bytes. */
  method DecompressFiles(lib: Library, archive: seq<byte>)
    returns (written: seq<Rebuilt>, dirs: seq<seq<byte>>, failure: Option<Error>)
    ensures Extraction(written, dirs, failure) == Extract(Decoder(lib), archive)
  {
    var version: byte := 1;
    var rest := archive;
    match ReadByte(archive) {
      case Err(_) =>
      case Ok((first, t)) =>
        if first <= MaxVersionByte {
          version, rest := first, t;
        }
    }
    assert ReadVersion(archive) == (version, rest);
    var fileCount: int;
    match ReadInt32(rest) {
      case Err(e) => return [], [], Some(e);
      case Ok((n, t)) => fileCount, rest := n, t;
    }
    var u: seq<byte>;
    written, failure, u := ReadFiles(lib, rest, version, fileCount);
    if failure.None? {
      dirs := RestoreDirectories(u, version);
    } else {
      dirs := [];
    }
  }

  /** The file loop of DecompressFiles: fileCount files (none when negative)
      read and written one after the other, until the first failure. */
  method ReadFiles(lib: Library, s: seq<byte>, version: byte, fileCount: int)
    returns (written: seq<Rebuilt>, failure: Option<Error>, rest: seq<byte>)
    ensures (written, failure, rest) == ExtractFiles(s, version, Decoder(lib), if fileCount < 0 then 0 else fileCount)
  {
    ghost var goal := ExtractFiles(s, version, Decoder(lib), if fileCount < 0 then 0 else fileCount);
    written, rest := [], s;
    PrependNoFiles(goal);
    ghost var remaining: nat := if fileCount < 0 then 0 else fileCount;
    var f := 0;
    while f < fileCount
      invariant f < fileCount ==> remaining == fileCount - f
      invariant f >= fileCount ==> remaining == 0
      invariant goal == PrependFiles(written, ExtractFiles(rest, version, Decoder(lib), remaining))
    {
      var next := ReadFile(lib, rest, version);
      match next {
        case Err(e) =>
          FilesFail(rest, version, Decoder(lib), remaining, e);
          assert written + [] == written;
          return written, Some(e), [];
        case Ok((file, t)) =>
          FilesLoopStep(goal, written, rest, version, Decoder(lib), remaining, file, t);
          written, rest := written + [file], t;
      }
      f := f + 1;
      remaining := remaining - 1;
    }
    assert written + [] == written;
    failure := None;
  }

  /** The directory part of DecompressFiles: from version 2 on, a count and
      that many names, each directory created as it is read; any failure
      only ends the restoring. */
  method RestoreDirectories(s: seq<byte>, version: byte) returns (dirs: seq<seq<byte>>)
    ensures dirs == ReadDirList(s, version)
  {
    dirs := [];
    if version < 2 { return; }
    var dirCount: int, rest: seq<byte>;
    match ReadInt32(s) {
      case Err(_) => return;
      case Ok((n, t)) => dirCount, rest := n, t;
    }
    ghost var total: nat := if dirCount < 0 then 0 else dirCount;
    ghost var start := rest;
    var i := 0;
    while i < dirCount
      invariant 0 <= i <= total
      invariant ReadDirs(start, total) == dirs + ReadDirs(rest, total - i)
    {
      match ReadString(rest) {
        case Err(_) =>
          assert ReadDirs(rest, total - i) == [];
          assert dirs + [] == dirs;
          return;
        case Ok((d, t)) =>
          assert dirs + ([d] + ReadDirs(t, total - i - 1)) == dirs + [d] + ReadDirs(t, total - i - 1);
          dirs, rest := dirs + [d], t;
      }
      i := i + 1;
    }
    assert dirs + [] == dirs;
  }

  // ------------------------------------------------------------ against the reader's view

  /** The records' bytes joined, or the first failure. */
  function DecodeChunks(decode: ChunkDecoder, path: seq<byte>, index: nat, cs: seq<ChunkRecord>): Result<seq<byte>>
    decreases |cs|
  {
    if |cs| == 0 then Ok([])
    else match decode(path, index, cs[0])
      case Err(e) => Err(e)
      case Ok(d) =>
        match DecodeChunks(decode, path, index + 1, cs[1..])
        case Err(e) => Err(e)
        case Ok(ds) => Ok(d + ds)
  }

  function WithRest(r: Result<seq<byte>>, u: seq<byte>): Result<(seq<byte>, seq<byte>)>
  {
    match r
    case Err(e) => Err(e)
    case Ok(d) => Ok((d, u))
  }

  /** A record list read ahead (or the failure reading it) against the
      chunks read and decoded as they go: a failure to read is a failure,
      and records read give exactly what decoding them gives. */
  predicate Agrees(p: Result<(seq<ChunkRecord>, seq<byte>)>, x: Result<(seq<byte>, seq<byte>)>,
                   decode: ChunkDecoder, path: seq<byte>, index: nat)
  {
    match p
    case Err(_) => x.Err?
    case Ok((cs, u)) => x == WithRest(DecodeChunks(decode, path, index, cs), u)
  }

  /** Reading and decoding as they go fails whenever reading the records
      alone fails, and otherwise gives what decoding the records gives. */
  lemma {:induction false} ChunksAgree(s: seq<byte>, read: Reader<ChunkRecord>, decode: ChunkDecoder, path: seq<byte>, index: nat, k: nat)
    ensures Agrees(ParseMany(read, s, index, k), ExtractChunks(s, read, decode, path, index, k), decode, path, index)
    decreases k
  {
    if k > 0 {
      match read(s, index)
      case Err(_) =>
      case Ok((c, t)) =>
        ChunksAgree(t, read, decode, path, index + 1, k - 1);
        AgreesCons(decode, path, index, c, ParseMany(read, t, index + 1, k - 1),
                   ExtractChunks(t, read, decode, path, index + 1, k - 1));
    }
  }

  /** The list with one more record in front. */
  function ConsRecord(c: ChunkRecord, p: Result<(seq<ChunkRecord>, seq<byte>)>): Result<(seq<ChunkRecord>, seq<byte>)>
  {
    match p
    case Err(e) => Err(e)
    case Ok((cs, u)) => Ok(([c] + cs, u))
  }

  /** The bytes of one more decoded chunk in front. */
  function ConsDecoded(r: Result<seq<byte>>, x: Result<(seq<byte>, seq<byte>)>): Result<(seq<byte>, seq<byte>)>
  {
    match r
    case Err(e) => Err(e)
    case Ok(d) => PrependBytes(d, x)
  }

  /** Agreement survives one more chunk in front. */
  lemma AgreesCons(decode: ChunkDecoder, path: seq<byte>, index: nat, c: ChunkRecord,
                   p: Result<(seq<ChunkRecord>, seq<byte>)>, x: Result<(seq<byte>, seq<byte>)>)
    requires Agrees(p, x, decode, path, index + 1)
    ensures Agrees(ConsRecord(c, p), ConsDecoded(decode(path, index, c), x), decode, path, index)
  {
    if p.Ok? {
      var (cs, u) := p.value;
      assert ([c] + cs)[0] == c && ([c] + cs)[1..] == cs;
    }
  }

  /** The files of a list decoded one after the other: those written and
      the first failure. */
  function DecodeFiles(decode: ChunkDecoder, fs: seq<FileEntry>): (seq<Rebuilt>, Option<Error>)
    decreases |fs|
  {
    if |fs| == 0 then ([], None)
    else match DecodeChunks(decode, fs[0].path, 0, fs[0].chunks)
      case Err(e) => ([], Some(e))
      case Ok(content) =>
        var (ws, failure) := DecodeFiles(decode, fs[1..]);
        ([Rebuilt(fs[0].path, content)] + ws, failure)
  }

  lemma FileAgrees(s: seq<byte>, version: byte, decode: ChunkDecoder)
    ensures ReadFileEntry(s, version).Err? ==> NextFile(s, version, decode).Err?
    ensures ReadFileEntry(s, version).Ok? ==>
              NextFile(s, version, decode) == DecodeEntry(decode, ReadFileEntry(s, version).value.0, ReadFileEntry(s, version).value.1)
  {
    match ReadFileHeader(s)
    case Err(_) =>
    case Ok((path, count, t)) =>
      ChunksAgree(t, Records(version), decode, path, 0, count);
  }

  /** A file list read ahead (or the failure reading it) against the files
      read and rebuilt as they go: a failure to read is a failure, and files
      read give exactly what decoding them gives, with the rest only when
      none failed. */
  predicate FilesMatch(p: Result<(seq<FileEntry>, seq<byte>)>, x: (seq<Rebuilt>, Option<Error>, seq<byte>), decode: ChunkDecoder)
  {
    match p
    case Err(_) => x.1.Some?
    case Ok((fs, u)) =>
      var (ws, failure) := DecodeFiles(decode, fs);
      x == (ws, failure, if failure.None? then u else [])
  }

  /** One file entry decoded, with the rest after it. */
  function DecodeEntry(decode: ChunkDecoder, f: FileEntry, t: seq<byte>): Result<(Rebuilt, seq<byte>)>
  {
    match DecodeChunks(decode, f.path, 0, f.chunks)
    case Err(e) => Err(e)
    case Ok(content) => Ok((Rebuilt(f.path, content), t))
  }

  /** The list with one more entry in front. */
  function ConsEntry(f: FileEntry, p: Result<(seq<FileEntry>, seq<byte>)>): Result<(seq<FileEntry>, seq<byte>)>
  {
    match p
    case Err(e) => Err(e)
    case Ok((fs, u)) => Ok(([f] + fs, u))
  }

  /** One more file in front of what the file loop gives: written, or the
      failure that stops it. */
  function ConsWritten(n: Result<(Rebuilt, seq<byte>)>, x: (seq<Rebuilt>, Option<Error>, seq<byte>)): (seq<Rebuilt>, Option<Error>, seq<byte>)
  {
    match n
    case Err(e) => ([], Some(e), [])
    case Ok((w, _)) => PrependFiles([w], x)
  }

  /** Agreement survives one more file in front. */
  lemma FilesMatchCons(decode: ChunkDecoder, f: FileEntry, t: seq<byte>,
                       p: Result<(seq<FileEntry>, seq<byte>)>, x: (seq<Rebuilt>, Option<Error>, seq<byte>))
    requires FilesMatch(p, x, decode)
    ensures FilesMatch(ConsEntry(f, p), ConsWritten(DecodeEntry(decode, f, t), x), decode)
  {
    if p.Ok? {
      var (fs, u) := p.value;
      assert ([f] + fs)[0] == f && ([f] + fs)[1..] == fs;
    }
  }

  /** Reading and rebuilding files as they go fails whenever reading the
      entries alone fails, and otherwise gives what decoding the entries
      gives. */
  lemma {:induction false} FilesAgree(s: seq<byte>, version: byte, decode: ChunkDecoder, index: nat, k: nat)
    ensures FilesMatch(ParseMany(Entries(version), s, index, k), ExtractFiles(s, version, decode, k), decode)
    decreases k
  {
    if k > 0 {
      FileAgrees(s, version, decode);
      match ReadFileEntry(s, version)
      case Err(_) =>
      case Ok((f, t)) =>
        FilesAgree(t, version, decode, index + 1, k - 1);
        FilesMatchCons(decode, f, t, ParseMany(Entries(version), t, index + 1, k - 1), ExtractFiles(t, version, decode, k - 1));
    }
  }

  /** What extracting a parsed archive leaves: its files decoded until the
      first failure, and its directories only when every file was
      rebuilt. */
  function Outcome(decode: ChunkDecoder, a: Archive): Extraction
  {
    var (ws, failure) := DecodeFiles(decode, a.files);
    Extraction(ws, if failure.None? then a.dirs else [], failure)
  }

  /** DecompressFiles against the reader's record-level view of the archive:
      an archive that cannot be read always ends in a failure, and a
      readable one gives exactly its decoded files and directories. */
  lemma ExtractAgrees(decode: ChunkDecoder, data: seq<byte>)
    ensures ParseArchive(data).Err? ==> Extract(decode, data).failure.Some?
    ensures ParseArchive(data).Ok? ==> Extract(decode, data) == Outcome(decode, ParseArchive(data).value)
  {
    var (version, s) := ReadVersion(data);
    match ReadInt32(s)
    case Err(_) =>
    case Ok((count, t)) =>
      FilesAgree(t, version, decode, 0, if count < 0 then 0 else count);
  }

  /** Decoding a list of files fails exactly when one file's chunks fail to
      decode; it writes every file before that one, and all of them when
      none fails. */
  lemma {:induction false} DecodeFilesSpec(decode: ChunkDecoder, fs: seq<FileEntry>)
    ensures var (ws, failure) := DecodeFiles(decode, fs);
            |ws| <= |fs| &&
            (forall i :: 0 <= i < |ws| ==> DecodeChunks(decode, fs[i].path, 0, fs[i].chunks) == Ok(ws[i].content) && ws[i].path == fs[i].path) &&
            (failure.None? <==> |ws| == |fs|) &&
            (failure.Some? ==> DecodeChunks(decode, fs[|ws|].path, 0, fs[|ws|].chunks) == Err(failure.value))
    decreases |fs|
  {
    if |fs| > 0 {
      DecodeFilesSpec(decode, fs[1..]);
    }
  }

  // ------------------------------------------------ records the writers make

  /** rec decodes to raw wherever it sits in an archive. */
  ghost predicate Restores(lib: Library, rec: ChunkRecord, raw: seq<byte>)
  {
    forall path: seq<byte>, index: nat :: DecodeChunk(lib, path, index, rec) == Ok(raw)
  }

  /** A STORE record without flags gives its bytes back. */
  lemma StoreRestores(lib: Library, raw: seq<byte>)
    ensures Restores(lib, ChunkRecord(StoreBytes, 0, raw), raw)
  {
    forall path: seq<byte>, index: nat ensures DecodeChunk(lib, path, index, ChunkRecord(StoreBytes, 0, raw)) == Ok(raw) {
      UnfilterReverses(raw);
    }
  }

  /** A record without flags, named after an algorithm and holding what its
      compressor made of raw, gives raw back: a library codec when the
      libraries are reversible, and the two in-program algorithms, which
      decompress by returning their input, when they returned raw itself. */
  lemma NamedRestores(lib: Library, k: Kind, raw: seq<byte>, data: seq<byte>)
    requires Lossless(lib)
    requires IsLibraryCodec(k) ==> lib.codec(k, raw) == Produced(data)
    requires !IsLibraryCodec(k) ==> data == raw
    ensures Restores(lib, ChunkRecord(NameBytes(k), 0, data), raw)
  {
    RegistryLookup(k);
    NameBytesDistinct(k, k);
    forall path: seq<byte>, index: nat ensures DecodeChunk(lib, path, index, ChunkRecord(NameBytes(k), 0, data)) == Ok(raw) {
      UnfilterReverses(raw);
    }
  }

  /** Records restoring their parts decode to the parts put together. */
  lemma {:induction false} DecodeRestoring(lib: Library, path: seq<byte>, index: nat, rs: seq<ChunkRecord>, parts: seq<seq<byte>>)
    requires |rs| == |parts| && forall t :: 0 <= t < |rs| ==> Restores(lib, rs[t], parts[t])
    ensures DecodeChunks(Decoder(lib), path, index, rs) == Ok(Concat(parts))
    decreases |rs|
  {
    if |rs| > 0 {
      assert DecodeChunk(lib, path, index, rs[0]) == Ok(parts[0]);
      DecodeRestoring(lib, path, index + 1, rs[1..], parts[1..]);
      ConcatCons(parts[0], parts[1..]);
      assert [parts[0]] + parts[1..] == parts;
    }
  }

  /** An entry that lies under path, decodes to content and fits. */
  ghost predicate Built(lib: Library, e: FileEntry, path: seq<byte>, content: seq<byte>, withFlags: bool)
  {
    e.path == path && FileFits(e, withFlags) &&
    DecodeChunks(Decoder(lib), path, 0, e.chunks) == Ok(content)
  }

  /** Each entry builds the file expected at its position. */
  ghost predicate Rebuilds(lib: Library, entries: seq<FileEntry>, expected: seq<Rebuilt>, withFlags: bool)
  {
    |entries| == |expected| &&
    forall i :: 0 <= i < |entries| ==> Built(lib, entries[i], expected[i].path, expected[i].content, withFlags)
  }

  lemma RebuildsNext(lib: Library, entries: seq<FileEntry>, expected: seq<Rebuilt>, withFlags: bool, e: FileEntry, x: Rebuilt)
    requires Rebuilds(lib, entries, expected, withFlags) && Built(lib, e, x.path, x.content, withFlags)
    ensures Rebuilds(lib, entries + [e], expected + [x], withFlags)
  {
  }

  /** An archive whose entries rebuild the expected files gives them back,
      then its directories, without an exception. */
  lemma OutcomeRebuilds(lib: Library, a: Archive, expected: seq<Rebuilt>, withFlags: bool)
    requires Rebuilds(lib, a.files, expected, withFlags)
    ensures Outcome(Decoder(lib), a) == Extraction(expected, a.dirs, None)
  {
    var decode := Decoder(lib);
    DecodeFilesSpec(decode, a.files);
    var (ws, failure) := DecodeFiles(decode, a.files);
    assert failure.None?;
    assert ws == expected;
  }

  /** DecompressFiles on an UltraModeManager archive whose entries rebuild
      the expected files. */
  lemma ExtractV3(lib: Library, entries: seq<FileEntry>, dirs: seq<seq<byte>>, expected: seq<Rebuilt>)
    requires Rebuilds(lib, entries, expected, true) && |entries| < TwoTo31 && DirsFit(dirs)
    ensures Extract(Decoder(lib), SerializeV3(entries, dirs)) == Extraction(expected, dirs, None)
  {
    EntriesFitAll(entries, true);
    V3RoundTrip(entries, dirs);
    ExtractAgrees(Decoder(lib), SerializeV3(entries, dirs));
    OutcomeRebuilds(lib, Archive(CurrentVersion, entries, dirs), expected, true);
  }

  /** DecompressFiles on a ChunkCompressor archive whose entries rebuild
      the expected files, when the low byte of its file count is above the
      largest version byte. */
  lemma ExtractUnversioned(lib: Library, entries: seq<FileEntry>, expected: seq<Rebuilt>)
    requires Rebuilds(lib, entries, expected, false) && |entries| < TwoTo31
    requires |entries| % 256 > MaxVersionByte as int
    ensures Extract(Decoder(lib), SerializeUnversioned(entries)) == Extraction(expected, [], None)
  {
    EntriesFitAll(entries, false);
    UnversionedRoundTrip(entries);
    ExtractAgrees(Decoder(lib), SerializeUnversioned(entries));
    OutcomeRebuilds(lib, Archive(1, entries, []), expected, false);
  }

  /** The same entries behind a version byte of 1 always read back. */
  lemma ExtractV1(lib: Library, entries: seq<FileEntry>, expected: seq<Rebuilt>)
    requires Rebuilds(lib, entries, expected, false) && |entries| < TwoTo31
    ensures Extract(Decoder(lib), SerializeV1(entries)) == Extraction(expected, [], None)
  {
    EntriesFitAll(entries, false);
    V1RoundTrip(entries);
    ExtractAgrees(Decoder(lib), SerializeV1(entries));
    OutcomeRebuilds(lib, Archive(1, entries, []), expected, false);
  }
}
