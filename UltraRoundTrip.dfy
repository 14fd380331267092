/** The Ultra archive read back by DecompressFiles. When the compression
    libraries are reversible, the image optimiser gives every input back
    unchanged, no two listed paths differ only in case and every length fits
    its Int32 field, extracting the archive ProcessEntries writes rebuilds
    each listed file that exists, in list order, under its path relative to
    the base folder, and then creates the empty directories. */
module UltraRoundTrip {
  import opened Common
  import opened Algorithms
  import opened Wire
  import opened Archive
  import FileChunker
  import Paths
  import LosslessImageCompressor
  import Extraction
  import ChunkAnalyzer
  import opened UltraModeManager

  // ------------------------------------------------------------ one record

  /** A record a worker made from a chunk by storing it or with BZip2 or
      LZMA decodes back to the chunk when the libraries are reversible. */
  lemma MadeRestores(lib: Library, raw: seq<byte>, rec: ChunkRecord)
    requires Lossless(lib) && Made(lib, raw, rec) && rec.methodName != NameBytes(LosslessImage)
    ensures Extraction.Restores(lib, rec, raw)
  {
    if rec == StoreRecord(raw) {
      Extraction.StoreRestores(lib, raw);
    } else if rec.methodName == NameBytes(BZip2) {
      Extraction.NamedRestores(lib, BZip2, raw, rec.data);
    } else {
      Extraction.NamedRestores(lib, Lzma, raw, rec.data);
    }
  }

  /** A record the image optimiser made holds the optimised image, and the
      reader hands back those bytes, not the chunk: LosslessImage's
      Decompress returns its input. */
  lemma ImageRecordDiffers(lib: Library, raw: seq<byte>, rec: ChunkRecord, path: seq<byte>, index: nat)
    requires Made(lib, raw, rec) && rec.methodName == NameBytes(LosslessImage)
    ensures Extraction.DecodeChunk(lib, path, index, rec) == Ok(rec.data)
    ensures rec.data != raw
  {
    RegistryLookup(LosslessImage);
    NameBytesDistinct(LosslessImage, LosslessImage);
    Extraction.UnfilterReverses(rec.data);
  }

  /** With images kept, every record a worker makes restores its chunk and
      fits the archive's Int32 lengths. */
  lemma MadeSound(lib: Library, raw: seq<byte>, rec: ChunkRecord)
    requires Lossless(lib) && ImagesKept(lib) && Made(lib, raw, rec) && |raw| < TwoTo31
    ensures Extraction.Restores(lib, rec, raw) && ChunkFits(rec)
  {
    assert rec.methodName != NameBytes(LosslessImage) by {
      assert LosslessImageCompressor.Compress(lib.tool, raw) == raw;
      NameBytesDistinct(LosslessImage, LosslessImage);
    }
    MadeRestores(lib, raw, rec);
  }

  // -------------------------------------------------------------- producer

  /** No two listed paths are equal when case is ignored. */
  predicate DistinctKeys(files: seq<string>)
  {
    forall i, j :: 0 <= i < j < |files| ==> Lower(files[i]) != Lower(files[j])
  }

  /** The files registered with empty results. */
  ghost predicate Registered(fs: FileSystem, baseDir: string, relative: RelativePath, files: seq<string>, results: Results)
  {
    forall i :: 0 <= i < |files| && files[i] in fs ==>
      Lower(files[i]) in results && results[Lower(files[i])] == FileResult(relative(baseDir, files[i]), |fs[files[i]]|, [])
  }

  /** With distinct paths the producer registers every listed file that
      exists with its relative path, its size and no records. */
  lemma {:induction false} QueuedRegistered(fs: FileSystem, log2: Log2, baseDir: string, relative: RelativePath, files: seq<string>)
    requires DistinctKeys(files)
    ensures Registered(fs, baseDir, relative, files, Queued(fs, log2, baseDir, relative, files).results)
    decreases |files|
  {
    if |files| > 0 {
      var n := |files| - 1;
      assert forall i :: 0 <= i < n ==> files[..n][i] == files[i];
      QueuedRegistered(fs, log2, baseDir, relative, files[..n]);
    }
  }

  /** With distinct paths the producer registers exactly the listed files
      that exist. */
  lemma QueuedResults(fs: FileSystem, log2: Log2, baseDir: string, relative: RelativePath, files: seq<string>)
    requires DistinctKeys(files)
    ensures forall i :: 0 <= i < |files| ==>
              (Lower(files[i]) in Queued(fs, log2, baseDir, relative, files).results <==> files[i] in fs)
    ensures Registered(fs, baseDir, relative, files, Queued(fs, log2, baseDir, relative, files).results)
  {
    QueuedRegistered(fs, log2, baseDir, relative, files);
    QueuedKeys(fs, log2, baseDir, relative, files);
  }

  /** Only listed files that exist are registered. */
  lemma {:induction false} QueuedKeys(fs: FileSystem, log2: Log2, baseDir: string, relative: RelativePath, files: seq<string>)
    ensures forall k :: k in Queued(fs, log2, baseDir, relative, files).results ==>
              exists i :: 0 <= i < |files| && files[i] in fs && Lower(files[i]) == k
    decreases |files|
  {
    if |files| > 0 {
      var n := |files| - 1;
      QueuedKeys(fs, log2, baseDir, relative, files[..n]);
      assert forall i :: 0 <= i < n ==> files[..n][i] == files[i];
    }
  }

  /** No chunk is longer than the largest chunk size. */
  lemma {:induction false} QueuedBound(fs: FileSystem, log2: Log2, baseDir: string, relative: RelativePath, files: seq<string>)
    ensures forall k :: 0 <= k < |Queued(fs, log2, baseDir, relative, files).jobs| ==>
              |Queued(fs, log2, baseDir, relative, files).jobs[k].raw| <= MaxChunkSize
    decreases |files|
  {
    if |files| > 0 {
      var n := |files| - 1;
      QueuedBound(fs, log2, baseDir, relative, files[..n]);
      var f := files[n];
      if f in fs {
        var size := PickChunkSize(log2, |fs[f]|);
        FileJobsChunks(f, fs[f], size, 0);
        FileChunker.ChunksSizes(fs[f], size);
      }
    }
  }

  // --------------------------------------------------------------- workers

  /** Every job's record restores its chunk and fits. */
  ghost predicate Restoring(lib: Library, jobs: seq<Job>, records: seq<ChunkRecord>)
  {
    |records| == |jobs| &&
    forall k :: 0 <= k < |jobs| ==> Extraction.Restores(lib, records[k], jobs[k].raw) && ChunkFits(records[k])
  }

  lemma RestoringSplit(lib: Library, a: seq<Job>, b: seq<Job>, records: seq<ChunkRecord>)
    requires Restoring(lib, a + b, records)
    ensures records == records[..|a|] + records[|a|..]
    ensures Restoring(lib, a, records[..|a|]) && Restoring(lib, b, records[|a|..])
  {
    assert forall k :: 0 <= k < |a| ==> (a + b)[k] == a[k];
    assert forall k :: 0 <= k < |b| ==> (a + b)[|a| + k] == b[k] && records[|a|..][k] == records[|a| + k];
  }

  /** The pieces a job list and its records give. */
  function PiecesOf(jobs: seq<Job>, records: seq<ChunkRecord>): (ps: seq<Piece>)
    requires |records| == |jobs|
    ensures |ps| == |jobs|
    ensures forall t :: 0 <= t < |jobs| ==> ps[t] == Piece(jobs[t].index, records[t])
    decreases |jobs|
  {
    if |jobs| == 0 then []
    else PiecesOf(jobs[..|jobs| - 1], records[..|records| - 1]) + [Piece(jobs[|jobs| - 1].index, records[|records| - 1])]
  }

  /** Every job's file is registered. */
  predicate Keyed(jobs: seq<Job>, results: Results)
  {
    forall i :: 0 <= i < |jobs| ==> Lower(jobs[i].file) in results
  }

  /** The last element of a + b and what comes before it. */
  lemma AppendInit<T>(a: seq<T>, b: seq<T>)
    requires |b| > 0
    ensures (a + b)[..|a + b| - 1] == a + b[..|b| - 1]
    ensures (a + b)[|a + b| - 1] == b[|b| - 1]
  {
  }

  lemma AppendOne<T>(c: seq<T>, s: seq<T>, x: T)
    ensures (c + s) + [x] == c + (s + [x])
  {
  }

  lemma KeyedInit(jobs: seq<Job>, results: Results)
    requires |jobs| > 0 && Keyed(jobs, results)
    ensures Keyed(jobs[..|jobs| - 1], results)
  {
    assert forall i :: 0 <= i < |jobs| - 1 ==> jobs[..|jobs| - 1][i] == jobs[i];
  }

  /** A job's piece appended to the result of its file. */
  function Appended(r: Results, job: Job, rec: ChunkRecord): Results
    requires Lower(job.file) in r
  {
    r[Lower(job.file) := r[Lower(job.file)].(chunks := r[Lower(job.file)].chunks + [Piece(job.index, rec)])]
  }

  lemma DistributeLast(jobs: seq<Job>, records: seq<ChunkRecord>, results: Results)
    requires |records| == |jobs| > 0 && Keyed(jobs, results)
    ensures Keyed(jobs[..|jobs| - 1], results)
    ensures Distribute(jobs, records, results)
            == Appended(Distribute(jobs[..|jobs| - 1], records[..|records| - 1], results), jobs[|jobs| - 1], records[|records| - 1])
  {
    KeyedInit(jobs, results);
  }

  /** Distributing two job lists one after the other. */
  lemma {:induction false} DistributeAppend(a: seq<Job>, ra: seq<ChunkRecord>, b: seq<Job>, rb: seq<ChunkRecord>, results: Results)
    requires |ra| == |a| && |rb| == |b| && Keyed(a + b, results) && Keyed(b, results)
    ensures Keyed(a, results)
    ensures Distribute(a + b, ra + rb, results) == Distribute(b, rb, Distribute(a, ra, results))
    decreases |b|
  {
    KeyedSplit(a, b, results);
    if |b| == 0 {
      assert a + b == a && ra + rb == ra;
    } else {
      var n := |b| - 1;
      AppendInit(a, b);
      AppendInit(ra, rb);
      DistributeLast(a + b, ra + rb, results);
      DistributeLast(b, rb, Distribute(a, ra, results));
      KeyedInit(b, results);
      DistributeAppend(a, ra, b[..n], rb[..n], results);
    }
  }

  /** Distributing the jobs of one file appends their pieces to its result
      and leaves the others alone. */
  lemma {:induction false} DistributeOneFile(b: seq<Job>, rb: seq<ChunkRecord>, results: Results, key: string)
    requires |rb| == |b| && key in results
    requires forall i :: 0 <= i < |b| ==> Lower(b[i].file) == key
    ensures Distribute(b, rb, results) == results[key := results[key].(chunks := results[key].chunks + PiecesOf(b, rb))]
    decreases |b|
  {
    if |b| == 0 {
      assert results[key].chunks + [] == results[key].chunks;
    } else {
      var n := |b| - 1;
      DistributeLast(b, rb, results);
      DistributeOneFile(b[..n], rb[..n], results, key);
      var c := results[key].chunks;
      var p := Piece(b[n].index, rb[n]);
      assert PiecesOf(b, rb) == PiecesOf(b[..n], rb[..n]) + [p];
      AppendOne(c, PiecesOf(b[..n], rb[..n]), p);
    }
  }

  /** A file result gathered by the workers: its relative path and size,
      one piece per part of its content, the t-th numbered t, restoring
      the t-th part and fitting. */
  ghost predicate Gathered(lib: Library, fr: FileResult, path: seq<byte>, content: seq<byte>, parts: seq<seq<byte>>)
  {
    fr.relativePath == path && fr.originalSize == |content| && |fr.chunks| == |parts| &&
    forall t :: 0 <= t < |parts| ==>
      fr.chunks[t].index == t && Extraction.Restores(lib, fr.chunks[t].record, parts[t]) && ChunkFits(fr.chunks[t].record)
  }

  lemma PiecesGathered(lib: Library, file: string, content: seq<byte>, size: nat, records: seq<ChunkRecord>, path: seq<byte>)
    requires size > 0 && Restoring(lib, FileJobs(file, content, size, 0), records)
    ensures Gathered(lib, FileResult(path, |content|, PiecesOf(FileJobs(file, content, size, 0), records)),
                     path, content, FileChunker.Chunks(content, size))
  {
    FileJobsChunks(file, content, size, 0);
  }

  lemma KeyedSplit(a: seq<Job>, b: seq<Job>, results: Results)
    requires Keyed(a + b, results)
    ensures Keyed(a, results) && Keyed(b, results)
  {
    assert forall i :: 0 <= i < |a| ==> (a + b)[i] == a[i];
    assert forall i :: 0 <= i < |b| ==> (a + b)[|a| + i] == b[i];
  }

  /** The files before p have gathered their pieces; the files from p on
      still have their registered results. */
  ghost predicate Distributed(lib: Library, fs: FileSystem, log2: Log2, baseDir: string, relative: RelativePath,
                              files: seq<string>, d: Results, results: Results, p: nat)
  {
    (forall i :: 0 <= i < p && i < |files| && files[i] in fs ==>
       Lower(files[i]) in d &&
       Gathered(lib, d[Lower(files[i])], relative(baseDir, files[i]), fs[files[i]],
                FileChunker.Chunks(fs[files[i]], PickChunkSize(log2, |fs[files[i]]|)))) &&
    (forall i :: p <= i < |files| && files[i] in fs ==>
       Lower(files[i]) in d && Lower(files[i]) in results && d[Lower(files[i])] == results[Lower(files[i])])
  }

  /** Giving the file at m its gathered result moves the boundary past it. */
  lemma DistributedUpdate(lib: Library, fs: FileSystem, log2: Log2, baseDir: string, relative: RelativePath,
                          files: seq<string>, m: nat, d: Results, results: Results, fr: FileResult)
    requires DistinctKeys(files) && m < |files| && files[m] in fs
    requires Distributed(lib, fs, log2, baseDir, relative, files, d, results, m)
    requires Gathered(lib, fr, relative(baseDir, files[m]), fs[files[m]],
                      FileChunker.Chunks(fs[files[m]], PickChunkSize(log2, |fs[files[m]]|)))
    ensures Distributed(lib, fs, log2, baseDir, relative, files, d[Lower(files[m]) := fr], results, m + 1)
  {
  }

  /** Distributing the jobs of one registered file gathers its pieces. */
  lemma FileStep(lib: Library, file: string, content: seq<byte>, size: nat, path: seq<byte>, d: Results, rb: seq<ChunkRecord>)
    requires size > 0 && Lower(file) in d && d[Lower(file)] == FileResult(path, |content|, [])
    requires Restoring(lib, FileJobs(file, content, size, 0), rb)
    ensures Keyed(FileJobs(file, content, size, 0), d)
    ensures Distribute(FileJobs(file, content, size, 0), rb, d)
            == d[Lower(file) := FileResult(path, |content|, PiecesOf(FileJobs(file, content, size, 0), rb))]
    ensures Gathered(lib, FileResult(path, |content|, PiecesOf(FileJobs(file, content, size, 0), rb)),
                     path, content, FileChunker.Chunks(content, size))
  {
    var b := FileJobs(file, content, size, 0);
    DistributeOneFile(b, rb, d, Lower(file));
    assert d[Lower(file)].chunks + PiecesOf(b, rb) == PiecesOf(b, rb);
    PiecesGathered(lib, file, content, size, rb, path);
  }

  /** After the workers, with distinct paths, every listed file that exists
      has gathered the pieces of its chunks, and a file whose jobs are not
      yet distributed still has its registered result. */
  lemma {:induction false} DistributeFiles(lib: Library, fs: FileSystem, log2: Log2, baseDir: string, relative: RelativePath,
                                           files: seq<string>, records: seq<ChunkRecord>, results: Results, p: nat)
    requires DistinctKeys(files) && p <= |files|
    requires Restoring(lib, Queued(fs, log2, baseDir, relative, files[..p]).jobs, records)
    requires Keyed(Queued(fs, log2, baseDir, relative, files[..p]).jobs, results)
    requires Registered(fs, baseDir, relative, files, results)
    ensures Distributed(lib, fs, log2, baseDir, relative, files,
                        Distribute(Queued(fs, log2, baseDir, relative, files[..p]).jobs, records, results), results, p)
    decreases p
  {
    if p > 0 {
      var m := p - 1;
      var f := files[m];
      var jobs := Queued(fs, log2, baseDir, relative, files[..m]).jobs;
      QueuedNext(fs, log2, baseDir, relative, files, m);
      if f !in fs {
        DistributeFiles(lib, fs, log2, baseDir, relative, files, records, results, m);
      } else {
        var b := FileJobs(f, fs[f], PickChunkSize(log2, |fs[f]|), 0);
        RestoringSplit(lib, jobs, b, records);
        KeyedSplit(jobs, b, results);
        var ra, rb := records[..|jobs|], records[|jobs|..];
        DistributeFiles(lib, fs, log2, baseDir, relative, files, ra, results, m);
        var d := Distribute(jobs, ra, results);
        var path := relative(baseDir, f);
        assert d[Lower(f)] == FileResult(path, |fs[f]|, []);
        FileStep(lib, f, fs[f], PickChunkSize(log2, |fs[f]|), path, d, rb);
        DistributeAppend(jobs, ra, b, rb, results);
        DistributedUpdate(lib, fs, log2, baseDir, relative, files, m, d, results, FileResult(path, |fs[f]|, PiecesOf(b, rb)));
      }
    } else {
      assert Queued(fs, log2, baseDir, relative, files[..0]).jobs == [];
    }
  }

  // ---------------------------------------------------------------- writer

  /** A result ready for the writer: already in index order, and its
      records as they stand make an entry that rebuilds content. */
  ghost predicate Ready(lib: Library, fr: FileResult, path: seq<byte>, content: seq<byte>)
  {
    fr.relativePath == path && SortedByIndex(fr.chunks) && Extraction.Built(lib, FileEntry(path, RecordsOf(fr.chunks)), path, content, true)
  }

  lemma GatheredReady(lib: Library, fr: FileResult, path: seq<byte>, content: seq<byte>, parts: seq<seq<byte>>)
    requires Gathered(lib, fr, path, content, parts)
    requires Concat(parts) == content && |parts| <= |content| < TwoTo31 && |path| < TwoTo31
    ensures Ready(lib, fr, path, content)
  {
    var rs := RecordsOf(fr.chunks);
    ChunksFitAll(rs, true);
    Extraction.DecodeRestoring(lib, path, 0, rs, parts);
  }

  /** The files DecompressFiles is expected to write: each listed file that
      exists, in list order, under its relative path. */
  function Expected(fs: FileSystem, baseDir: string, relative: RelativePath, files: seq<string>): (ws: seq<Extraction.Rebuilt>)
    ensures |ws| <= |files|
    decreases |files|
  {
    if |files| == 0 then []
    else
      var ws := Expected(fs, baseDir, relative, files[..|files| - 1]);
      var f := files[|files| - 1];
      if f in fs then ws + [Extraction.Rebuilt(relative(baseDir, f), fs[f])] else ws
  }

  /** The writer, given ready results for exactly the listed files that
      exist, writes one rebuilding entry per such file, in list order. */
  lemma {:induction false} WriteFiles(lib: Library, fs: FileSystem, baseDir: string, relative: RelativePath,
                                      files: seq<string>, results: Results, p: nat)
    requires DistinctKeys(files) && p <= |files|
    requires forall i :: 0 <= i < |files| ==> (Lower(files[i]) in results <==> files[i] in fs)
    requires forall i :: 0 <= i < |files| && files[i] in fs ==>
               Ready(lib, results[Lower(files[i])], relative(baseDir, files[i]), fs[files[i]])
    ensures Extraction.Rebuilds(lib, Write(files[..p], results).entries, Expected(fs, baseDir, relative, files[..p]), true)
    ensures forall i :: p <= i < |files| && files[i] in fs ==>
              Write(files[..p], results).results[Lower(files[i])] == results[Lower(files[i])]
    decreases p
  {
    if p > 0 {
      var m := p - 1;
      var f := files[m];
      WriteFiles(lib, fs, baseDir, relative, files, results, m);
      var w := Write(files[..m], results);
      WriteNext(files, results, m, w);
      assert files[..p][..m] == files[..m];
      if f in fs {
        var fr := results[Lower(f)];
        SortedUnchanged(fr.chunks);
        Extraction.RebuildsNext(lib, w.entries, Expected(fs, baseDir, relative, files[..m]), true,
                                FileEntry(fr.relativePath, RecordsOf(fr.chunks)), Extraction.Rebuilt(relative(baseDir, f), fs[f]));
      }
    }
  }

  // --------------------------------------------------------------- a whole run

  /** The listed file count, every existing file's size and every relative
      path fit in an Int32. */
  ghost predicate Fits(fs: FileSystem, relative: RelativePath, baseDir: string, files: seq<string>)
  {
    |files| < TwoTo31 &&
    forall i :: 0 <= i < |files| && files[i] in fs ==> |fs[files[i]]| < TwoTo31 && |relative(baseDir, files[i])| < TwoTo31
  }

  /** Every existing file's result is ready for the writer once the
      workers are done. */
  lemma WorkedReady(lib: Library, measure: ChunkAnalyzer.EntropyMeasure, fs: FileSystem, log2: Log2, baseDir: string,
                    relative: RelativePath, files: seq<string>)
    requires Lossless(lib) && ImagesKept(lib) && DistinctKeys(files) && Fits(fs, relative, baseDir, files)
    requires Encode(lib, measure, Queued(fs, log2, baseDir, relative, files).jobs).Ok?
    ensures var q := Queued(fs, log2, baseDir, relative, files);
            var wk := Work(lib, measure, q.jobs, q.results).value;
            (forall i :: 0 <= i < |files| ==> (Lower(files[i]) in wk.results <==> files[i] in fs)) &&
            (forall i :: 0 <= i < |files| && files[i] in fs ==>
               Ready(lib, wk.results[Lower(files[i])], relative(baseDir, files[i]), fs[files[i]]))
  {
    var q := Queued(fs, log2, baseDir, relative, files);
    var en := Encode(lib, measure, q.jobs).value;
    EncodeLength(lib, measure, q.jobs);
    QueuedBound(fs, log2, baseDir, relative, files);
    forall k | 0 <= k < |q.jobs| ensures Extraction.Restores(lib, en.records[k], q.jobs[k].raw) && ChunkFits(en.records[k]) {
      RecordsMade(lib, measure, q.jobs, k);
      MadeSound(lib, q.jobs[k].raw, en.records[k]);
    }
    assert files[..|files|] == files;
    QueuedResults(fs, log2, baseDir, relative, files);
    DistributeFiles(lib, fs, log2, baseDir, relative, files, en.records, q.results, |files|);
    var results := Distribute(q.jobs, en.records, q.results);
    forall i | 0 <= i < |files| && files[i] in fs
      ensures Ready(lib, results[Lower(files[i])], relative(baseDir, files[i]), fs[files[i]])
    {
      var content := fs[files[i]];
      var size := PickChunkSize(log2, |content|);
      FileChunker.ChunksConcat(content, size);
      FileChunker.ChunksCount(content, size);
      GatheredReady(lib, results[Lower(files[i])], relative(baseDir, files[i]), content, FileChunker.Chunks(content, size));
    }
  }

  /** The round trip of Ultra mode: DecompressFiles on the archive
      ProcessEntries writes rebuilds every listed file that exists, in
      list order, under its path relative to the base folder, creates the
      empty directories, and ends without an exception. */
  lemma UltraExtracts(files: seq<string>, fs: FileSystem, lib: Library, measure: ChunkAnalyzer.EntropyMeasure, log2: Log2,
                      root: Paths.PathRoot, relative: RelativePath, emptyDirs: seq<seq<byte>>)
    requires Lossless(lib) && ImagesKept(lib) && DistinctKeys(files) && DirsFit(emptyDirs)
    requires Ultra(files, fs, lib, measure, log2, root, relative, emptyDirs).Ok?
    requires Fits(fs, relative, Paths.UltraCommonDirectoryCorrected(files, root).value, files)
    ensures Extraction.Extract(Extraction.Decoder(lib), Ultra(files, fs, lib, measure, log2, root, relative, emptyDirs).value.archive)
            == Extraction.Extraction(Expected(fs, Paths.UltraCommonDirectoryCorrected(files, root).value, relative, files), emptyDirs, None)
  {
    var baseDir := Paths.UltraCommonDirectoryCorrected(files, root).value;
    var q := Queued(fs, log2, baseDir, relative, files);
    var wk := Work(lib, measure, q.jobs, q.results).value;
    var w := Write(files, wk.results);
    WorkedReady(lib, measure, fs, log2, baseDir, relative, files);
    WriteFiles(lib, fs, baseDir, relative, files, wk.results, |files|);
    assert files[..|files|] == files;
    Extraction.ExtractV3(lib, w.entries, emptyDirs, Expected(fs, baseDir, relative, files));
  }
}
