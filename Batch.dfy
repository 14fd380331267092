/** ChunkCompressor: the batch writer. CompressFiles writes a placeholder
    count, then for every listed path that is not a folder its relative
    path and its chunk records (no flags byte), and finally patches the
    count of entries in at offset 0: there is no version byte and no list
    of empty directories. How a file is stored follows the decision
    engine's verdict. CompressFile lists the chunks of one file, each
    compressed with the picker's algorithm. The file system is a map from
    paths to contents plus the set of folders; the root of a path and
    Path.GetRelativePath are parameters. */
module ChunkCompressor {
  import opened Common
  import opened Algorithms
  import opened Wire
  import opened Archive
  import ChunkAnalyzer
  import ChunkCompressorPicker
  import DecisionEngine
  import FileClassifier
  import FileChunker
  import LosslessImageCompressor
  import Paths
  import Extraction
  import opened UltraModeManager
  import UltraRoundTrip

  /** The candidates CompressFiles hands the decision engine, in its order. */
  const Candidates: seq<Kind> := [Lzma, Brotli, Gzip, Deflate, BZip2, LosslessImage, NoCompression]

  /** The algorithm the picker gives a chunk of file. */
  function Picked(measure: ChunkAnalyzer.EntropyMeasure, file: string, chunk: seq<byte>): (k: Kind)
    ensures k == NoCompression || k == LosslessImage || k == BZip2 || k == Lzma
  {
    ChunkCompressorPicker.SelectBestRange(ChunkAnalyzer.Analyze(measure, chunk), Some(file));
    ChunkCompressorPicker.SelectBest(ChunkAnalyzer.Analyze(measure, chunk), Some(file))
  }

  // ----------------------------------------------------------- CompressFile

  /** One element of CompressFile's list: the algorithm's name and what its
      Compress returned, None for a null array. */
  datatype CompressedChunk = CompressedChunk(methodName: string, compressedData: Option<seq<byte>>)

  /** CompressFile's list for the chunks of a file, in order; the first
      compressor that throws ends the call. */
  function CompressedChunks(lib: Library, measure: ChunkAnalyzer.EntropyMeasure, file: string, chunks: seq<seq<byte>>)
    : (r: Result<seq<CompressedChunk>>)
    ensures r.Ok? ==> |r.value| == |chunks|
    decreases |chunks|
  {
    if |chunks| == 0 then Ok([])
    else
      match CompressedChunks(lib, measure, file, chunks[..|chunks| - 1])
      case Err(e) => Err(e)
      case Ok(cs) =>
        var chunk := chunks[|chunks| - 1];
        var k := Picked(measure, file, chunk);
        match Compress(lib, k, chunk)
        case Threw => Err(CompressorThrew(Name(k)))
        case NullResult => Ok(cs + [CompressedChunk(Name(k), None)])
        case Produced(c) => Ok(cs + [CompressedChunk(Name(k), Some(c))])
  }

  /** A failure on the first n chunks is the failure of the call. */
  lemma {:induction false} CompressedChunksFail(lib: Library, measure: ChunkAnalyzer.EntropyMeasure, file: string,
                                                chunks: seq<seq<byte>>, n: nat, e: Error)
    requires n <= |chunks| && CompressedChunks(lib, measure, file, chunks[..n]) == Err(e)
    ensures CompressedChunks(lib, measure, file, chunks) == Err(e)
    decreases |chunks| - n
  {
    if n < |chunks| {
      assert chunks[..n + 1][..n] == chunks[..n];
      CompressedChunksFail(lib, measure, file, chunks, n + 1, e);
    } else {
      assert chunks[..n] == chunks;
    }
  }

  /** One more chunk for CompressFile, given what its algorithm returned. */
  lemma CompressedChunksStep(lib: Library, measure: ChunkAnalyzer.EntropyMeasure, file: string, chunks: seq<seq<byte>>,
                             j: nat, cs: seq<CompressedChunk>, out: Output)
    requires j < |chunks| && CompressedChunks(lib, measure, file, chunks[..j]) == Ok(cs)
    requires out == Compress(lib, Picked(measure, file, chunks[j]), chunks[j])
    ensures out.Threw? ==>
              CompressedChunks(lib, measure, file, chunks) == Err(CompressorThrew(Name(Picked(measure, file, chunks[j]))))
    ensures !out.Threw? ==>
              CompressedChunks(lib, measure, file, chunks[..j + 1])
              == Ok(cs + [CompressedChunk(Name(Picked(measure, file, chunks[j])), if out.Produced? then Some(out.data) else None)])
  {
    assert chunks[..j + 1][..j] == chunks[..j];
    if out.Threw? {
      CompressedChunksFail(lib, measure, file, chunks, j + 1, CompressorThrew(Name(Picked(measure, file, chunks[j]))));
    }
  }

  /** ChunkCompressor.CompressFile: the file split by FileChunker, each
      chunk profiled, given to the picker's algorithm and listed under that
      algorithm's name, with no fallback to STORE. A missing file fails
      when it is opened. */
  method CompressFile(fs: FileSystem, lib: Library, measure: ChunkAnalyzer.EntropyMeasure, inputFilePath: string)
    returns (r: Result<seq<CompressedChunk>>)
    ensures inputFilePath !in fs ==> r == Err(FileNotFound(inputFilePath))
    ensures inputFilePath in fs ==> r == CompressedChunks(lib, measure, inputFilePath, FileChunker.Split(fs[inputFilePath]))
  {
    if inputFilePath !in fs {
      return Err(FileNotFound(inputFilePath));
    }
    var chunks := FileChunker.SplitFile(fs[inputFilePath]);
    var compressedChunks: seq<CompressedChunk> := [];
    for j := 0 to |chunks|
      invariant CompressedChunks(lib, measure, inputFilePath, chunks[..j]) == Ok(compressedChunks)
    {
      var chunk := chunks[j];
      var profile := ChunkAnalyzer.Analyze(measure, chunk);
      var selectedCompressor := ChunkCompressorPicker.SelectBest(profile, Some(inputFilePath));
      var compressed := Compress(lib, selectedCompressor, chunk);
      CompressedChunksStep(lib, measure, inputFilePath, chunks, j, compressedChunks, compressed);
      if compressed.Threw? {
        return Err(CompressorThrew(Name(selectedCompressor)));
      }
      var data := if compressed.Produced? then Some(compressed.data) else None;
      compressedChunks := compressedChunks + [CompressedChunk(Name(selectedCompressor), data)];
    }
    assert chunks[..|chunks|] == chunks;
    r := Ok(compressedChunks);
  }

  /** cc lists chunk under the name of k, and what it holds decompresses
      back to chunk with k, unless LZMA's library threw on it. */
  predicate Lists(lib: Library, k: Kind, chunk: seq<byte>, cc: CompressedChunk)
  {
    cc.methodName == Name(k) &&
    (cc.compressedData.Some? && !(k == Lzma && lib.codec(Lzma, chunk) == Threw) ==>
       Decompress(lib, k, cc.compressedData.value) == Produced(chunk))
  }

  /** Only BZip2 can throw out of CompressFile: the picker names nothing
      else that throws. */
  lemma {:induction false} CompressedChunksThrow(lib: Library, measure: ChunkAnalyzer.EntropyMeasure, file: string,
                                                 chunks: seq<seq<byte>>)
    ensures var r := CompressedChunks(lib, measure, file, chunks);
            r.Err? ==> r.error == CompressorThrew(Name(BZip2))
    decreases |chunks|
  {
    if |chunks| > 0 {
      CompressedChunksThrow(lib, measure, file, chunks[..|chunks| - 1]);
    }
  }

  /** Each element of cs lists the chunk at its position under the name
      of the picker's algorithm. */
  predicate AllListed(lib: Library, measure: ChunkAnalyzer.EntropyMeasure, file: string, chunks: seq<seq<byte>>,
                      cs: seq<CompressedChunk>)
    decreases |chunks|
  {
    |cs| == |chunks| &&
    (|chunks| == 0 ||
     (AllListed(lib, measure, file, chunks[..|chunks| - 1], cs[..|chunks| - 1]) &&
      Lists(lib, Picked(measure, file, chunks[|chunks| - 1]), chunks[|chunks| - 1], cs[|chunks| - 1])))
  }

  lemma {:induction false} ListedAt(lib: Library, measure: ChunkAnalyzer.EntropyMeasure, file: string,
                                    chunks: seq<seq<byte>>, cs: seq<CompressedChunk>, t: nat)
    requires AllListed(lib, measure, file, chunks, cs) && t < |chunks|
    ensures Lists(lib, Picked(measure, file, chunks[t]), chunks[t], cs[t])
    decreases |chunks|
  {
    var n := |chunks| - 1;
    if t < n {
      ListedAt(lib, measure, file, chunks[..n], cs[..n], t);
      assert chunks[..n][t] == chunks[t] && cs[..n][t] == cs[t];
    }
  }

  /** Every listed output decompresses back to its chunk with the algorithm
      named beside it, when the libraries are reversible and the image
      optimiser keeps its input, except where LZMA's library threw and its
      compressor handed back the raw chunk under LZMA's name. */
  lemma CompressedChunksRestore(lib: Library, measure: ChunkAnalyzer.EntropyMeasure, file: string, chunks: seq<seq<byte>>)
    requires Lossless(lib) && ImagesKept(lib)
    ensures var r := CompressedChunks(lib, measure, file, chunks);
            r.Ok? ==> forall t :: 0 <= t < |chunks| ==> Lists(lib, Picked(measure, file, chunks[t]), chunks[t], r.value[t])
  {
    var r := CompressedChunks(lib, measure, file, chunks);
    if r.Ok? {
      CompressedChunksListed(lib, measure, file, chunks);
      forall t | 0 <= t < |chunks|
        ensures Lists(lib, Picked(measure, file, chunks[t]), chunks[t], r.value[t])
      {
        ListedAt(lib, measure, file, chunks, r.value, t);
      }
    }
  }

  lemma {:induction false} CompressedChunksListed(lib: Library, measure: ChunkAnalyzer.EntropyMeasure, file: string,
                                                  chunks: seq<seq<byte>>)
    requires Lossless(lib) && ImagesKept(lib)
    ensures var r := CompressedChunks(lib, measure, file, chunks);
            r.Ok? ==> AllListed(lib, measure, file, chunks, r.value)
    decreases |chunks|
  {
    var r := CompressedChunks(lib, measure, file, chunks);
    if |chunks| > 0 && r.Ok? {
      var n := |chunks| - 1;
      CompressedChunksListed(lib, measure, file, chunks[..n]);
      LastListed(lib, measure, file, chunks, CompressedChunks(lib, measure, file, chunks[..n]).value);
    }
  }

  /** The last element of CompressFile's list lists the last chunk. */
  lemma LastListed(lib: Library, measure: ChunkAnalyzer.EntropyMeasure, file: string, chunks: seq<seq<byte>>,
                   cs: seq<CompressedChunk>)
    requires Lossless(lib) && ImagesKept(lib) && |chunks| > 0
    requires CompressedChunks(lib, measure, file, chunks[..|chunks| - 1]) == Ok(cs)
    requires CompressedChunks(lib, measure, file, chunks).Ok?
    ensures var r := CompressedChunks(lib, measure, file, chunks).value;
            r[..|chunks| - 1] == cs &&
            Lists(lib, Picked(measure, file, chunks[|chunks| - 1]), chunks[|chunks| - 1], r[|chunks| - 1])
  {
    var n := |chunks| - 1;
    var k := Picked(measure, file, chunks[n]);
    if Compress(lib, k, chunks[n]).Produced? && !(k == Lzma && lib.codec(Lzma, chunks[n]) == Threw) {
      ChunkRestores(lib, k, chunks[n]);
    }
  }

  /** What Compress produced for a chunk decompresses back to it, except
      for LZMA's fallback to the raw chunk. */
  lemma ChunkRestores(lib: Library, k: Kind, chunk: seq<byte>)
    requires Lossless(lib) && ImagesKept(lib)
    requires Compress(lib, k, chunk).Produced? && !(k == Lzma && lib.codec(Lzma, chunk) == Threw)
    ensures Decompress(lib, k, Compress(lib, k, chunk).data) == Produced(chunk)
  {
    if IsLibraryCodec(k) {
      assert Compress(lib, k, chunk) == lib.codec(k, chunk);
    } else if k == LosslessImage {
      assert LosslessImageCompressor.Compress(lib.tool, chunk) == chunk;
    }
  }

  // ---------------------------------------------------------- CompressFiles

  /** The records of a file cut into chunks: each chunk given to the
      picker's algorithm and kept only when that came out shorter. */
  function ChunkRecords(lib: Library, measure: ChunkAnalyzer.EntropyMeasure, file: string, chunks: seq<seq<byte>>)
    : (r: Result<seq<ChunkRecord>>)
    ensures r.Ok? ==> |r.value| == |chunks|
    ensures r.Err? ==> r.error == CompressorThrew(Name(BZip2))
    decreases |chunks|
  {
    if |chunks| == 0 then Ok([])
    else
      match ChunkRecords(lib, measure, file, chunks[..|chunks| - 1])
      case Err(e) => Err(e)
      case Ok(rs) =>
        var chunk := chunks[|chunks| - 1];
        match KeepShorter(lib, Picked(measure, file, chunk), chunk)
        case Err(e) => Err(e)
        case Ok(rec) => Ok(rs + [rec])
  }

  lemma {:induction false} ChunkRecordsFail(lib: Library, measure: ChunkAnalyzer.EntropyMeasure, file: string,
                                            chunks: seq<seq<byte>>, n: nat, e: Error)
    requires n <= |chunks| && ChunkRecords(lib, measure, file, chunks[..n]) == Err(e)
    ensures ChunkRecords(lib, measure, file, chunks) == Err(e)
    decreases |chunks| - n
  {
    if n < |chunks| {
      assert chunks[..n + 1][..n] == chunks[..n];
      ChunkRecordsFail(lib, measure, file, chunks, n + 1, e);
    } else {
      assert chunks[..n] == chunks;
    }
  }

  /** One more chunk for CompressFiles' chunk loop, given what its
      algorithm returned. */
  lemma ChunkRecordsStep(lib: Library, measure: ChunkAnalyzer.EntropyMeasure, file: string, chunks: seq<seq<byte>>,
                         j: nat, rs: seq<ChunkRecord>, out: Output)
    requires j < |chunks| && ChunkRecords(lib, measure, file, chunks[..j]) == Ok(rs)
    requires out == Compress(lib, Picked(measure, file, chunks[j]), chunks[j])
    ensures out.Threw? ==>
              ChunkRecords(lib, measure, file, chunks) == Err(CompressorThrew(Name(Picked(measure, file, chunks[j]))))
    ensures !out.Threw? ==>
              ChunkRecords(lib, measure, file, chunks[..j + 1])
              == Ok(rs + [if out.NullResult? || |out.data| >= |chunks[j]| then StoreRecord(chunks[j])
                          else ChunkRecord(NameBytes(Picked(measure, file, chunks[j])), FlagNone, out.data)])
  {
    assert chunks[..j + 1][..j] == chunks[..j];
    if out.Threw? {
      ChunkRecordsFail(lib, measure, file, chunks, j + 1, CompressorThrew(Name(Picked(measure, file, chunks[j]))));
    }
  }

  /** A verdict of the decision engine: compressing a file whole always
      comes with the algorithm to use. */
  type Decision = d: (DecisionEngine.CompressionDecision, Option<Kind>) | d.0.FullCompress? ==> d.1.Some?
    witness (DecisionEngine.Store, None)

  /** The decision engine as CompressFiles' loop consults it, for a path
      and the content read from it. */
  type Decider = (string, seq<byte>) -> Decision

  /** DecisionEngine.Decide over CompressFiles' candidates. */
  function Engine(lib: Library, measure: ChunkAnalyzer.EntropyMeasure): (decide: Decider)
    ensures forall file, content :: decide(file, content) == DecisionEngine.Decide(lib, measure, file, Some(content), Candidates)
  {
    (file: string, content: seq<byte>) => DecisionEngine.Decide(lib, measure, file, Some(content), Candidates)
  }

  /** A file that already looks compressed is stored whole. */
  lemma AlreadyCompressedStored(lib: Library, measure: ChunkAnalyzer.EntropyMeasure, file: string, content: seq<byte>)
    requires FileClassifier.IsProbablyAlreadyCompressed(file, Some(content))
    ensures FileRecords(lib, measure, file, content, Engine(lib, measure)(file, content)) == Ok([StoreRecord(content)])
  {
  }

  /** The records CompressFiles writes for one file, by the decision
      engine's verdict: the file stored whole; the image optimiser's output
      under LosslessImage whatever its size; the chosen algorithm's output
      on the whole file, kept only when shorter; or the file cut into
      chunks. */
  function FileRecords(lib: Library, measure: ChunkAnalyzer.EntropyMeasure, file: string, content: seq<byte>, d: Decision)
    : (r: Result<seq<ChunkRecord>>)
    ensures r.Ok? && (d.0.Store? || d.0.ImageSpecial? || d.0.FullCompress?) ==> |r.value| == 1
    ensures r.Err? ==> r.error.CompressorThrew? && !d.0.Store? && !d.0.ImageSpecial?
  {
    if d.0.Store? then Ok([StoreRecord(content)])
    else if d.0.ImageSpecial? then
      Ok([ChunkRecord(NameBytes(LosslessImage), FlagNone, LosslessImageCompressor.Compress(lib.tool, content))])
    else if d.0.FullCompress? then
      match KeepShorter(lib, d.1.value, content)
      case Err(e) => Err(e)
      case Ok(rec) => Ok([rec])
    else ChunkRecords(lib, measure, file, FileChunker.Split(content))
  }

  /** The records written for a file given its path and content, or the
      exception a compressor threw. */
  type Writer = (string, seq<byte>) -> Result<seq<ChunkRecord>>

  /** write gives the records FileRecords does under the verdicts of decide. */
  ghost predicate WritesRecords(lib: Library, measure: ChunkAnalyzer.EntropyMeasure, decide: Decider, write: Writer)
  {
    forall file, content {:trigger FileRecords(lib, measure, file, content, decide(file, content))} ::
      write(file, content) == FileRecords(lib, measure, file, content, decide(file, content))
  }

  /** The records CompressFiles writes for each file. */
  function FileWriter(lib: Library, measure: ChunkAnalyzer.EntropyMeasure): (write: Writer)
    ensures WritesRecords(lib, measure, Engine(lib, measure), write)
  {
    (file: string, content: seq<byte>) => FileRecords(lib, measure, file, content, Engine(lib, measure)(file, content))
  }

  /** What CompressFiles has written after some of the listed paths: the
      entries and the progress reports. */
  datatype Batch = Batch(entries: seq<FileEntry>, progress: seq<Progress>)

  /** What one listed path gives: nothing for a folder, FileNotFound for a
      path that is neither folder nor file, otherwise the file's records or
      the exception a compressor threw. */
  function Listed(write: Writer, fs: FileSystem, dirs: set<string>, file: string)
    : (r: Result<Option<seq<ChunkRecord>>>)
    ensures r == Ok(None) <==> file in dirs
    ensures r.Ok? && r.value.Some? ==> file in fs
  {
    if file in dirs then Ok(None)
    else if file !in fs then Err(FileNotFound(file))
    else
      match write(file, fs[file])
      case Err(e) => Err(e)
      case Ok(rs) => Ok(Some(rs))
  }

  /** CompressFiles' loop over the listed paths: a folder is skipped, a
      missing file ends the run, and every other file gets an entry under
      its path relative to baseDir and a progress report. */
  function Compressed(write: Writer, fs: FileSystem, dirs: set<string>,
                      baseDir: string, relative: RelativePath, files: seq<string>): (r: Result<Batch>)
    ensures r.Ok? ==> |r.value.entries| == |r.value.progress| <= |files|
    decreases |files|
  {
    if |files| == 0 then Ok(Batch([], []))
    else
      match Compressed(write, fs, dirs, baseDir, relative, files[..|files| - 1])
      case Err(e) => Err(e)
      case Ok(b) =>
        var file := files[|files| - 1];
        match Listed(write, fs, dirs, file)
        case Err(e) => Err(e)
        case Ok(None) => Ok(b)
        case Ok(Some(rs)) =>
          var path := relative(baseDir, file);
          Ok(Batch(b.entries + [FileEntry(path, rs)],
                   b.progress + [Progress(path, |fs[file]|, DataLength(rs), |b.progress| + 1)]))
  }

  lemma {:induction false} CompressedFail(write: Writer, fs: FileSystem, dirs: set<string>,
                                          baseDir: string, relative: RelativePath, files: seq<string>, n: nat, e: Error)
    requires n <= |files| && Compressed(write, fs, dirs, baseDir, relative, files[..n]) == Err(e)
    ensures Compressed(write, fs, dirs, baseDir, relative, files) == Err(e)
    decreases |files| - n
  {
    if n < |files| {
      assert files[..n + 1][..n] == files[..n];
      CompressedFail(write, fs, dirs, baseDir, relative, files, n + 1, e);
    } else {
      assert files[..n] == files;
    }
  }

  /** A listed path that is neither a folder nor a file ends the run with
      FileNotFoundException once the paths before it went through. */
  lemma CompressedMissing(write: Writer, fs: FileSystem, dirs: set<string>,
                          baseDir: string, relative: RelativePath, files: seq<string>, i: nat)
    requires i < |files| && files[i] !in dirs && files[i] !in fs
    requires Compressed(write, fs, dirs, baseDir, relative, files[..i]).Ok?
    ensures Compressed(write, fs, dirs, baseDir, relative, files) == Err(FileNotFound(files[i]))
  {
    assert files[..i + 1][..i] == files[..i];
    CompressedFail(write, fs, dirs, baseDir, relative, files, i + 1, FileNotFound(files[i]));
  }

  /** CompressFiles: an empty list is refused; otherwise the base folder is
      the common directory of the list (never null for a non-empty list),
      and the archive is the unversioned layout of the entries written. */
  function Batched(files: seq<string>, fs: FileSystem, dirs: set<string>, lib: Library,
                   measure: ChunkAnalyzer.EntropyMeasure, root: Paths.PathRoot, relative: RelativePath): (r: Result<Run>)
    ensures |files| == 0 ==> r == Err(NoFiles)
  {
    if |files| == 0 then Err(NoFiles)
    else
      var baseDir := Paths.BatchCommonDirectory(files, root).value;
      match Compressed(FileWriter(lib, measure), fs, dirs, baseDir, relative, files)
      case Err(e) => Err(e)
      case Ok(b) => Ok(Run(SerializeUnversioned(b.entries), b.progress))
  }

  /** Each progress report names its entry, gives the total of its record
      lengths and counts the files written so far. */
  lemma {:induction false} CompressedReports(write: Writer, fs: FileSystem, dirs: set<string>, baseDir: string,
                                             relative: RelativePath, files: seq<string>)
    requires Compressed(write, fs, dirs, baseDir, relative, files).Ok?
    ensures var b := Compressed(write, fs, dirs, baseDir, relative, files).value;
            Reports(b.entries, b.progress)
    decreases |files|
  {
    if |files| > 0 {
      CompressedReports(write, fs, dirs, baseDir, relative, files[..|files| - 1]);
    }
  }

  /** An entry of a single record. */
  lemma OneRecord(path: seq<byte>, rec: ChunkRecord)
    ensures FileBytes(false, FileEntry(path, [rec])) == WriteString(path) + Int32LE(1) + ChunkBytes(false, rec)
    ensures DataLength([rec]) == |rec.data|
  {
    assert ChunksBytes(false, [rec]) == ChunkBytes(false, rec) + ChunksBytes(false, []);
    assert [rec][..0] == [];
  }

  /** The chunk loop of CompressFiles: each chunk's record and the total of
      the lengths written. */
  method WriteChunked(lib: Library, measure: ChunkAnalyzer.EntropyMeasure, file: string, chunks: seq<seq<byte>>)
    returns (r: Result<(seq<byte>, nat)>)
    ensures var rs := ChunkRecords(lib, measure, file, chunks);
            (rs.Err? ==> r == Err(rs.error)) &&
            (rs.Ok? ==> r == Ok((ChunksBytes(false, rs.value), DataLength(rs.value))))
  {
    var bytes: seq<byte> := [];
    var total: nat := 0;
    ghost var records: seq<ChunkRecord> := [];
    for j := 0 to |chunks|
      invariant ChunkRecords(lib, measure, file, chunks[..j]) == Ok(records)
      invariant bytes == ChunksBytes(false, records) && total == DataLength(records)
    {
      var chunk := chunks[j];
      var profile := ChunkAnalyzer.Analyze(measure, chunk);
      var selectedCompressor := ChunkCompressorPicker.SelectBest(profile, Some(file));
      // the picker never returns null, so its STORE branch is not modelled
      var compressedChunk := Compress(lib, selectedCompressor, chunk);
      ChunkRecordsStep(lib, measure, file, chunks, j, records, compressedChunk);
      if compressedChunk.Threw? {
        return Err(CompressorThrew(Name(selectedCompressor)));
      }
      var rec := if compressedChunk.NullResult? || |compressedChunk.data| >= |chunk| then StoreRecord(chunk)
                 else ChunkRecord(NameBytes(selectedCompressor), FlagNone, compressedChunk.data);
      ChunksBytesAppend(false, records, rec);
      assert (records + [rec])[..|records|] == records;
      bytes := bytes + ChunkBytes(false, rec);
      total := total + |rec.data|;
      records := records + [rec];
    }
    assert chunks[..|chunks|] == chunks;
    r := Ok((bytes, total));
  }

  /** One file of CompressFiles: its entry's bytes and the total of the
      record lengths written, or the exception a compressor threw. */
  method WriteFile(lib: Library, measure: ChunkAnalyzer.EntropyMeasure, decide: Decider, file: string, content: seq<byte>,
                   relativePath: seq<byte>)
    returns (r: Result<(seq<byte>, nat)>)
    ensures var rs := FileRecords(lib, measure, file, content, decide(file, content));
            (rs.Err? ==> r == Err(rs.error)) &&
            (rs.Ok? ==> r == Ok((FileBytes(false, FileEntry(relativePath, rs.value)), DataLength(rs.value))))
  {
    var decision := decide(file, content);
    var chosenAlgo := decision.1;
    if decision.0.Store? {
      var rec := StoreRecord(content);
      OneRecord(relativePath, rec);
      r := Ok((WriteString(relativePath) + Int32LE(1) + ChunkBytes(false, rec), |content|));
    } else if decision.0.ImageSpecial? {
      var outBytes := LosslessImageCompressor.Compress(lib.tool, content);
      var rec := ChunkRecord(NameBytes(LosslessImage), FlagNone, outBytes);
      OneRecord(relativePath, rec);
      r := Ok((WriteString(relativePath) + Int32LE(1) + ChunkBytes(false, rec), |outBytes|));
    } else if decision.0.FullCompress? {
      // the decision engine always names an algorithm here, so the sample
      // test fallback is not modelled
      var algo := chosenAlgo.value;
      var compressed := Compress(lib, algo, content);
      if compressed.Threw? {
        return Err(CompressorThrew(Name(algo)));
      }
      var rec := if compressed.NullResult? || |compressed.data| >= |content| then StoreRecord(content)
                 else ChunkRecord(NameBytes(algo), FlagNone, compressed.data);
      OneRecord(relativePath, rec);
      r := Ok((WriteString(relativePath) + Int32LE(1) + ChunkBytes(false, rec), |rec.data|));
    } else {
      var chunks := FileChunker.SplitFile(content);
      var written := WriteChunked(lib, measure, file, chunks);
      if written.Err? {
        return Err(written.error);
      }
      r := Ok((WriteString(relativePath) + Int32LE(|chunks|) + written.value.0, written.value.1));
    }
  }

  /** What CompressFiles' loop body gives for one listed path, by what
      the path is: nothing for a folder, the exception, or the entry's
      bytes, the original size and the total of the record lengths. */
  ghost predicate Entered(write: Writer, fs: FileSystem, dirs: set<string>, file: string, relativePath: seq<byte>,
                          entry: Result<Option<(seq<byte>, nat, nat)>>, records: seq<ChunkRecord>)
  {
    var l := Listed(write, fs, dirs, file);
    (l.Err? ==> entry == Err(l.error)) &&
    (l == Ok(None) ==> entry == Ok(None)) &&
    (l.Ok? && l.value.Some? ==>
       l.value.value == records &&
       entry == Ok(Some((FileBytes(false, FileEntry(relativePath, records)), |fs[file]|, DataLength(records)))))
  }

  /** One more listed path for CompressFiles' loop: the exception ends the
      run, a folder changes nothing, and a file adds its entry, its bytes
      and its report. */
  lemma Advance(write: Writer, fs: FileSystem, dirs: set<string>, baseDir: string, relative: RelativePath,
                files: seq<string>, i: nat, entries: seq<FileEntry>, progress: seq<Progress>, output: seq<byte>,
                entry: Result<Option<(seq<byte>, nat, nat)>>, records: seq<ChunkRecord>)
    requires i < |files| && Compressed(write, fs, dirs, baseDir, relative, files[..i]) == Ok(Batch(entries, progress))
    requires output == Int32LE(0) + FilesBytes(false, entries)
    requires Entered(write, fs, dirs, files[i], relative(baseDir, files[i]), entry, records)
    ensures entry.Err? ==> Compressed(write, fs, dirs, baseDir, relative, files) == Err(entry.error)
    ensures entry == Ok(None) ==> Compressed(write, fs, dirs, baseDir, relative, files[..i + 1]) == Ok(Batch(entries, progress))
    ensures entry.Ok? && entry.value.Some? ==>
              var path := relative(baseDir, files[i]);
              var e := FileEntry(path, records);
              Compressed(write, fs, dirs, baseDir, relative, files[..i + 1])
              == Ok(Batch(entries + [e], progress + [Progress(path, entry.value.value.1, entry.value.value.2, |progress| + 1)])) &&
              output + entry.value.value.0 == Int32LE(0) + FilesBytes(false, entries + [e])
  {
    assert files[..i + 1][..i] == files[..i];
    var l := Listed(write, fs, dirs, files[i]);
    if l.Err? {
      CompressedFail(write, fs, dirs, baseDir, relative, files, i + 1, l.error);
    } else if l.value.Some? {
      var e := FileEntry(relative(baseDir, files[i]), records);
      FilesBytesAppend(false, entries, e);
      Assoc(Int32LE(0), FilesBytes(false, entries), FileBytes(false, e));
    }
  }

  /** The body of CompressFiles' loop for one listed path: a folder is
      passed over; otherwise FileInfo.Length fails on a missing file, and
      an existing one has its entry written. Gives the entry's bytes, the
      original size and the total of the record lengths. */
  method CompressEntry(fs: FileSystem, dirs: set<string>, lib: Library, measure: ChunkAnalyzer.EntropyMeasure, decide: Decider,
                       ghost write: Writer, file: string, relativePath: seq<byte>)
    returns (r: Result<Option<(seq<byte>, nat, nat)>>, ghost records: seq<ChunkRecord>)
    requires WritesRecords(lib, measure, decide, write)
    ensures Entered(write, fs, dirs, file, relativePath, r, records)
  {
    records := [];
    if file in dirs {
      return Ok(None), records;
    }
    if file !in fs {
      return Err(FileNotFound(file)), records;
    }
    var content := fs[file];
    var originalSize := |content|;
    var written := WriteFile(lib, measure, decide, file, content, relativePath);
    match written
    case Err(e) =>
      r := Err(e);
    case Ok((fileBytes, compressedTotalForFile)) =>
      records := FileRecords(lib, measure, file, content, decide(file, content)).value;
      r := Ok(Some((fileBytes, originalSize, compressedTotalForFile)));
  }

  /** Writing the count at offset 0 over the placeholder gives the
      unversioned layout. */
  lemma PatchedCount(entries: seq<FileEntry>)
    ensures Int32LE(|entries|) + (Int32LE(0) + FilesBytes(false, entries))[4..] == SerializeUnversioned(entries)
  {
    assert (Int32LE(0) + FilesBytes(false, entries))[4..] == FilesBytes(false, entries);
  }

  /** The output after the placeholder, the entry count and the reports of
      a batch, or the exception that ended it. */
  function Emitted(c: Result<Batch>): Result<(seq<byte>, nat, seq<Progress>)>
  {
    match c
    case Err(e) => Err(e)
    case Ok(b) => Ok((Int32LE(0) + FilesBytes(false, b.entries), |b.progress|, b.progress))
  }

  /** The foreach of ChunkCompressor.CompressFiles: each listed path is
      passed over, ends the run with its exception, or has its entry
      appended to the output after the 4-byte placeholder, with one progress
      report and processedFiles counting the entries. */
  method WriteEntries(files: seq<string>, fs: FileSystem, dirs: set<string>, lib: Library,
                      measure: ChunkAnalyzer.EntropyMeasure, decide: Decider, ghost write: Writer, baseDir: string,
                      relative: RelativePath)
    returns (r: Result<(seq<byte>, nat, seq<Progress>)>)
    requires WritesRecords(lib, measure, decide, write)
    ensures r == Emitted(Compressed(write, fs, dirs, baseDir, relative, files))
  {
    var output := Int32LE(0);
    var progress: seq<Progress> := [];
    ghost var entries: seq<FileEntry> := [];
    var processedFiles: nat := 0;
    for i := 0 to |files|
      invariant Compressed(write, fs, dirs, baseDir, relative, files[..i]) == Ok(Batch(entries, progress))
      invariant output == Int32LE(0) + FilesBytes(false, entries)
      invariant processedFiles == |progress|
    {
      var file := files[i];
      var relativePath := relative(baseDir, file);
      var entry, records := CompressEntry(fs, dirs, lib, measure, decide, write, file, relativePath);
      Advance(write, fs, dirs, baseDir, relative, files, i, entries, progress, output, entry, records);
      match entry
      case Err(e) =>
        return Err(e);
      case Ok(None) =>
      case Ok(Some((fileBytes, originalSize, compressedTotalForFile))) =>
        output := output + fileBytes;
        processedFiles := processedFiles + 1;
        progress := progress + [Progress(relativePath, originalSize, compressedTotalForFile, processedFiles)];
        entries := entries + [FileEntry(relativePath, records)];
    }
    assert files[..|files|] == files;
    r := Ok((output, processedFiles, progress));
  }

  /** ChunkCompressor.CompressFiles: an empty list is refused, the paths are
      written relative to their common folder, and the count is patched at
      offset 0. The progress callback's calls are the reports returned; the
      temporary file and its move to the output path are not modelled. */
  method CompressFiles(files: seq<string>, fs: FileSystem, dirs: set<string>, lib: Library,
                       measure: ChunkAnalyzer.EntropyMeasure, root: Paths.PathRoot, relative: RelativePath)
    returns (r: Result<Run>)
    ensures r == Batched(files, fs, dirs, lib, measure, root, relative)
  {
    if |files| == 0 {
      return Err(NoFiles);
    }
    var common := Paths.BatchGetCommonDirectory(files, root);
    var written := WriteEntries(files, fs, dirs, lib, measure, Engine(lib, measure), FileWriter(lib, measure), common.value, relative);
    match written
    case Err(e) =>
      r := Err(e);
    case Ok((output, processedFiles, progress)) =>
      ghost var entries := Compressed(FileWriter(lib, measure), fs, dirs, common.value, relative, files).value.entries;
      PatchedCount(entries);
      r := Ok(Run(Int32LE(processedFiles) + output[4..], progress));
  }

  // ------------------------------------------------------ reading it back

  /** A record DecompressFiles turns back into raw: it decodes to raw, its
      lengths fit their Int32 fields and it carries no flags. */
  ghost predicate Keeps(lib: Library, rec: ChunkRecord, raw: seq<byte>)
  {
    Extraction.Restores(lib, rec, raw) && ChunkFits(rec) && rec.flags == 0
  }

  /** What KeepShorter keeps reads back: a STORE record, or the output of a
      reversible library codec. NoCompression and the image optimiser never
      come out shorter, and the LZMA fallback is the input itself, so those
      are always stored. */
  lemma KeepShorterRestores(lib: Library, k: Kind, raw: seq<byte>)
    requires Lossless(lib) && ImagesKept(lib) && |raw| < TwoTo31
    requires KeepShorter(lib, k, raw).Ok?
    ensures Keeps(lib, KeepShorter(lib, k, raw).value, raw)
  {
    var rec := KeepShorter(lib, k, raw).value;
    if rec == StoreRecord(raw) {
      Extraction.StoreRestores(lib, raw);
    } else {
      Extraction.NamedRestores(lib, k, raw, rec.data);
    }
  }

  /** Every record of a file cut into chunks reads back as its chunk. */
  lemma {:induction false} ChunkRecordsRestore(lib: Library, measure: ChunkAnalyzer.EntropyMeasure, file: string,
                                               chunks: seq<seq<byte>>)
    requires Lossless(lib) && ImagesKept(lib)
    requires forall t :: 0 <= t < |chunks| ==> |chunks[t]| < TwoTo31
    requires ChunkRecords(lib, measure, file, chunks).Ok?
    ensures var rs := ChunkRecords(lib, measure, file, chunks).value;
            forall t :: 0 <= t < |rs| ==> Keeps(lib, rs[t], chunks[t])
    decreases |chunks|
  {
    if |chunks| > 0 {
      var n := |chunks| - 1;
      var init := chunks[..n];
      ChunkRecordsRestore(lib, measure, file, init);
      var rs := ChunkRecords(lib, measure, file, init).value;
      var k := Picked(measure, file, chunks[n]);
      KeepShorterRestores(lib, k, chunks[n]);
      var all := rs + [KeepShorter(lib, k, chunks[n]).value];
      assert ChunkRecords(lib, measure, file, chunks).value == all;
      forall t | 0 <= t < |all| ensures Keeps(lib, all[t], chunks[t]) {
        if t < n {
          assert all[t] == rs[t] && chunks[t] == init[t];
        }
      }
    }
  }

  /** Records that each read back as one part decode, one after the other,
      to the parts joined. */
  lemma KeptDecodes(lib: Library, path: seq<byte>, rs: seq<ChunkRecord>, parts: seq<seq<byte>>)
    requires |rs| == |parts| < TwoTo31 && forall t :: 0 <= t < |rs| ==> Keeps(lib, rs[t], parts[t])
    ensures ChunksFit(rs, false)
    ensures Extraction.DecodeChunks(Extraction.Decoder(lib), path, 0, rs) == Ok(Concat(parts))
  {
    ChunksFitAll(rs, false);
    Extraction.DecodeRestoring(lib, path, 0, rs, parts);
  }

  /** A file of one record that reads back as its content. */
  lemma SingleBuilt(lib: Library, path: seq<byte>, rec: ChunkRecord, content: seq<byte>)
    requires Keeps(lib, rec, content) && |path| < TwoTo31
    ensures Extraction.Built(lib, FileEntry(path, [rec]), path, content, false)
  {
    assert [content][..0] == [];
    assert Concat([content]) == content;
    KeptDecodes(lib, path, [rec], [content]);
  }

  /** A file cut by FileChunker.Split reads back from its chunk records. */
  lemma ChunkedBuilt(lib: Library, measure: ChunkAnalyzer.EntropyMeasure, file: string, content: seq<byte>, path: seq<byte>)
    requires Lossless(lib) && ImagesKept(lib) && |content| < TwoTo31 && |path| < TwoTo31
    requires ChunkRecords(lib, measure, file, FileChunker.Split(content)).Ok?
    ensures Extraction.Built(lib, FileEntry(path, ChunkRecords(lib, measure, file, FileChunker.Split(content)).value),
                             path, content, false)
  {
    var chunks := FileChunker.Split(content);
    FileChunker.SplitCovers(content);
    ChunkRecordsRestore(lib, measure, file, chunks);
    KeptDecodes(lib, path, ChunkRecords(lib, measure, file, chunks).value, chunks);
  }

  /** Whatever the decision, the records CompressFiles writes for a file
      decode back to its content: stored whole, the image optimiser's
      output (the content itself, as it gives every input back), the whole
      file through a reversible codec, or the chunks of FileChunker.Split in
      order. */
  lemma FileRecordsRestore(lib: Library, measure: ChunkAnalyzer.EntropyMeasure, file: string, content: seq<byte>,
                           d: Decision, path: seq<byte>)
    requires Lossless(lib) && ImagesKept(lib) && |content| < TwoTo31 && |path| < TwoTo31
    requires FileRecords(lib, measure, file, content, d).Ok?
    ensures Extraction.Built(lib, FileEntry(path, FileRecords(lib, measure, file, content, d).value), path, content, false)
  {
    if d.0.Store? {
      Extraction.StoreRestores(lib, content);
      SingleBuilt(lib, path, StoreRecord(content), content);
    } else if d.0.ImageSpecial? {
      var rec := ChunkRecord(NameBytes(LosslessImage), FlagNone, LosslessImageCompressor.Compress(lib.tool, content));
      Extraction.NamedRestores(lib, LosslessImage, content, rec.data);
      SingleBuilt(lib, path, rec, content);
    } else if d.0.FullCompress? {
      KeepShorterRestores(lib, d.1.value, content);
      SingleBuilt(lib, path, KeepShorter(lib, d.1.value, content).value, content);
    } else {
      ChunkedBuilt(lib, measure, file, content, path);
    }
  }

  /** The files a batch should rebuild: each listed path that is a file and
      not a folder, under its path relative to baseDir, in list order. */
  function Expected(fs: FileSystem, dirs: set<string>, baseDir: string, relative: RelativePath, files: seq<string>)
    : (ws: seq<Extraction.Rebuilt>)
    ensures |ws| <= |files|
    decreases |files|
  {
    if |files| == 0 then []
    else
      var ws := Expected(fs, dirs, baseDir, relative, files[..|files| - 1]);
      var f := files[|files| - 1];
      if f !in dirs && f in fs then ws + [Extraction.Rebuilt(relative(baseDir, f), fs[f])] else ws
  }

  /** The entries of a batch rebuild the expected files, one for one. */
  lemma {:induction false} CompressedRebuilds(lib: Library, measure: ChunkAnalyzer.EntropyMeasure, decide: Decider, write: Writer,
                                              fs: FileSystem,
                                              dirs: set<string>, baseDir: string, relative: RelativePath, files: seq<string>)
    requires Lossless(lib) && ImagesKept(lib) && WritesRecords(lib, measure, decide, write)
    requires UltraRoundTrip.Fits(fs, relative, baseDir, files)
    requires Compressed(write, fs, dirs, baseDir, relative, files).Ok?
    ensures Extraction.Rebuilds(lib, Compressed(write, fs, dirs, baseDir, relative, files).value.entries,
                                Expected(fs, dirs, baseDir, relative, files), false)
    decreases |files|
  {
    if |files| > 0 {
      var n := |files| - 1;
      var init := files[..n];
      var f := files[n];
      assert forall i :: 0 <= i < |init| ==> init[i] == files[i];
      CompressedRebuilds(lib, measure, decide, write, fs, dirs, baseDir, relative, init);
      var b := Compressed(write, fs, dirs, baseDir, relative, init).value;
      var l := Listed(write, fs, dirs, f);
      if l.value.Some? {
        FileRecordsRestore(lib, measure, f, fs[f], decide(f, fs[f]), relative(baseDir, f));
        Extraction.RebuildsNext(lib, b.entries, Expected(fs, dirs, baseDir, relative, init), false,
                                FileEntry(relative(baseDir, f), l.value.value), Extraction.Rebuilt(relative(baseDir, f), fs[f]));
      }
    }
  }

  /** A CompressFiles archive read back by DecompressFiles rebuilds the
      expected files, provided the low byte of their count is above 10 so
      that the reader does not take the count's first byte for a version. */
  lemma BatchExtracts(files: seq<string>, fs: FileSystem, dirs: set<string>, lib: Library,
                      measure: ChunkAnalyzer.EntropyMeasure, root: Paths.PathRoot, relative: RelativePath)
    requires Lossless(lib) && ImagesKept(lib)
    requires Batched(files, fs, dirs, lib, measure, root, relative).Ok?
    requires var baseDir := Paths.BatchCommonDirectory(files, root).value;
             UltraRoundTrip.Fits(fs, relative, baseDir, files) &&
             |Expected(fs, dirs, baseDir, relative, files)| % 256 > MaxVersionByte as int
    ensures var baseDir := Paths.BatchCommonDirectory(files, root).value;
            Extraction.Extract(Extraction.Decoder(lib), Batched(files, fs, dirs, lib, measure, root, relative).value.archive)
            == Extraction.Extraction(Expected(fs, dirs, baseDir, relative, files), [], None)
  {
    var baseDir := Paths.BatchCommonDirectory(files, root).value;
    var b := Compressed(FileWriter(lib, measure), fs, dirs, baseDir, relative, files).value;
    CompressedRebuilds(lib, measure, Engine(lib, measure), FileWriter(lib, measure), fs, dirs, baseDir, relative, files);
    Extraction.ExtractUnversioned(lib, b.entries, Expected(fs, dirs, baseDir, relative, files));
  }

  /** With a version byte of 1 in front, as the reader expects, the same
      archive rebuilds the expected files whatever their count. */
  lemma BatchExtractsV1(files: seq<string>, fs: FileSystem, dirs: set<string>, lib: Library,
                        measure: ChunkAnalyzer.EntropyMeasure, root: Paths.PathRoot, relative: RelativePath)
    requires Lossless(lib) && ImagesKept(lib)
    requires Batched(files, fs, dirs, lib, measure, root, relative).Ok?
    requires UltraRoundTrip.Fits(fs, relative, Paths.BatchCommonDirectory(files, root).value, files)
    ensures var baseDir := Paths.BatchCommonDirectory(files, root).value;
            Extraction.Extract(Extraction.Decoder(lib), [1] + Batched(files, fs, dirs, lib, measure, root, relative).value.archive)
            == Extraction.Extraction(Expected(fs, dirs, baseDir, relative, files), [], None)
  {
    var baseDir := Paths.BatchCommonDirectory(files, root).value;
    var b := Compressed(FileWriter(lib, measure), fs, dirs, baseDir, relative, files).value;
    CompressedRebuilds(lib, measure, Engine(lib, measure), FileWriter(lib, measure), fs, dirs, baseDir, relative, files);
    Extraction.ExtractV1(lib, b.entries, Expected(fs, dirs, baseDir, relative, files));
  }
}
