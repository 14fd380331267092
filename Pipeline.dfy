/** UltraModeManager.ProcessEntries: the Ultra archiver. A producer reads
    every existing file in chunks whose size grows with the file, workers
    turn each chunk into a record (a cache keyed by the chunk's content
    first, executables stored, otherwise the picker's algorithm, stored
    when that does not shrink the chunk), and a writer emits the version-3
    archive, one file entry per listed file, with a progress event per file.

    The threads are modelled as one sequential pass: the producer runs to
    the end, the jobs are processed in queue order, then the writer runs.
    The file system is a map from each existing path to its bytes; the
    relative path of a file, the root of a path, the base-2 logarithm and
    the entropy measure are parameters. */
module UltraModeManager {
  import opened Common
  import opened Algorithms
  import opened Wire
  import opened Archive
  import ChunkAnalyzer
  import ChunkCompressorPicker
  import FileChunker
  import Paths
  import LosslessImageCompressor

  const FlagNone: byte := 0
  const MinChunkSize: nat := 64 * 1024
  const MaxChunkSize: nat := 2 * 1024 * 1024

  /** Math.Log(x, 2). */
  type Log2 = nat -> real

  /** File.Exists and the bytes of each existing file. */
  type FileSystem = map<string, seq<byte>>

  /** Path.GetRelativePath(baseDir, file), as the bytes BinaryWriter.Write(string)
      stores for it. */
  type RelativePath = (string, string) -> seq<byte>

  // ------------------------------------------------------------ chunk size

  function Clamp01(x: real): (y: real)
    ensures 0.0 <= y <= 1.0
    ensures 0.0 <= x <= 1.0 ==> y == x
  {
    if x < 0.0 then 0.0 else if x > 1.0 then 1.0 else x
  }

  /** UltraModeManager.PickChunkSize: a file up to the minimum is one chunk
      (at least one byte); a larger file gets a chunk size between the
      minimum and the maximum, growing with the logarithm of its size. */
  function PickChunkSize(log2: Log2, size: nat): (n: nat)
    ensures n >= 1
    ensures size <= MinChunkSize ==> n == (if size < 1 then 1 else size)
    ensures size > MinChunkSize ==> MinChunkSize <= n <= MaxChunkSize
  {
    if size <= MinChunkSize then (if size < 1 then 1 else size)
    else
      var t := log2(size + 1);
      var normalized := Clamp01((t - 16.0) / 10.0);
      (MinChunkSize as real + normalized * (MaxChunkSize - MinChunkSize) as real).Floor
  }

  /** With the true logarithm a file of 1 MiB (2^20 bytes, so t just above
      20) gets a chunk size a little over 40% of the way from 64 KiB to
      2 MiB; a file whose logarithm reaches 26 gets the maximum. */
  lemma PickChunkSizeSaturates(log2: Log2, size: nat)
    requires size > MinChunkSize && log2(size + 1) >= 26.0
    ensures PickChunkSize(log2, size) == MaxChunkSize
  {
  }

  // ------------------------------------------------------------- producer

  datatype Job = Job(file: string, index: nat, raw: seq<byte>)

  /** The jobs the producer queues for one file: consecutive reads of size
      bytes (the last one shorter), numbered from index. */
  function FileJobs(file: string, content: seq<byte>, size: nat, index: nat): (jobs: seq<Job>)
    requires size > 0
    ensures forall i :: 0 <= i < |jobs| ==> jobs[i].file == file
    decreases |content|
  {
    if |content| == 0 then []
    else
      var k := if |content| < size then |content| else size;
      [Job(file, index, content[..k])] + FileJobs(file, content[k..], size, index + 1)
  }

  /** The i-th job of a file carries its i-th chunk, numbered from index. */
  lemma {:induction false} FileJobsChunks(file: string, content: seq<byte>, size: nat, index: nat)
    requires size > 0
    ensures |FileJobs(file, content, size, index)| == |FileChunker.Chunks(content, size)|
    ensures forall i :: 0 <= i < |FileJobs(file, content, size, index)| ==>
              FileJobs(file, content, size, index)[i] == Job(file, index + i, FileChunker.Chunks(content, size)[i])
    decreases |content|
  {
    if |content| > 0 {
      var k := if |content| < size then |content| else size;
      FileChunker.ChunksStep(content, size);
      FileJobsChunks(file, content[k..], size, index + 1);
    }
  }

  /** The chunks of a job list. */
  function Raws(jobs: seq<Job>): (raws: seq<seq<byte>>)
    ensures |raws| == |jobs|
    ensures forall i :: 0 <= i < |jobs| ==> raws[i] == jobs[i].raw
  {
    if |jobs| == 0 then [] else Raws(jobs[..|jobs| - 1]) + [jobs[|jobs| - 1].raw]
  }

  /** The jobs of a file carry every byte of it, in order, numbered from 0. */
  lemma FileJobsCover(file: string, content: seq<byte>, size: nat)
    requires size > 0
    ensures Concat(Raws(FileJobs(file, content, size, 0))) == content
    ensures forall i :: 0 <= i < |FileJobs(file, content, size, 0)| ==> FileJobs(file, content, size, 0)[i].index == i
  {
    FileJobsChunks(file, content, size, 0);
    assert Raws(FileJobs(file, content, size, 0)) == FileChunker.Chunks(content, size);
    FileChunker.ChunksConcat(content, size);
  }

  datatype Piece = Piece(index: nat, record: ChunkRecord)

  /** A FileWriteResult: the relative path, the original size and the
      chunk records gathered so far. */
  datatype FileResult = FileResult(relativePath: seq<byte>, originalSize: nat, chunks: seq<Piece>)

  /** The file results, keyed by the path compared without case. */
  type Results = map<string, FileResult>

  datatype Queue = Queue(jobs: seq<Job>, results: Results)

  /** What the producer leaves behind for a list of files: the jobs of
      every existing file in list order, and a fresh result registered for
      each (a later listing of the same path replaces an earlier one). */
  function Queued(fs: FileSystem, log2: Log2, baseDir: string, relative: RelativePath, files: seq<string>): (q: Queue)
    ensures forall i :: 0 <= i < |q.jobs| ==> Lower(q.jobs[i].file) in q.results
    ensures forall k :: k in q.results ==> q.results[k].chunks == []
    decreases |files|
  {
    if |files| == 0 then Queue([], map[])
    else
      var q := Queued(fs, log2, baseDir, relative, files[..|files| - 1]);
      var file := files[|files| - 1];
      if file !in fs then q
      else
        var content := fs[file];
        Queue(q.jobs + FileJobs(file, content, PickChunkSize(log2, |content|), 0),
              q.results[Lower(file) := FileResult(relative(baseDir, file), |content|, [])])
  }

  /** One more listed file for the producer. */
  lemma QueuedNext(fs: FileSystem, log2: Log2, baseDir: string, relative: RelativePath, files: seq<string>, i: nat)
    requires i < |files|
    ensures var q := Queued(fs, log2, baseDir, relative, files[..i]);
            var file := files[i];
            Queued(fs, log2, baseDir, relative, files[..i + 1])
            == if file !in fs then q
               else Queue(q.jobs + FileJobs(file, fs[file], PickChunkSize(log2, |fs[file]|), 0),
                          q.results[Lower(file) := FileResult(relative(baseDir, file), |fs[file]|, [])])
  {
    assert files[..i + 1][..i] == files[..i];
  }

  /** The producer task: for each listed file that exists, register its
      result, then read it chunk by chunk into the queue. */
  method Producer(fs: FileSystem, log2: Log2, baseDir: string, relative: RelativePath, files: seq<string>)
    returns (jobs: seq<Job>, results: Results)
    ensures Queue(jobs, results) == Queued(fs, log2, baseDir, relative, files)
  {
    jobs, results := [], map[];
    for i := 0 to |files|
      invariant Queue(jobs, results) == Queued(fs, log2, baseDir, relative, files[..i])
    {
      QueuedNext(fs, log2, baseDir, relative, files, i);
      var file := files[i];
      if file in fs {
        var content := fs[file];
        var chunkSize := PickChunkSize(log2, |content|);
        results := results[Lower(file) := FileResult(relative(baseDir, file), |content|, [])];
        var fileJobs := ReadChunks(file, content, chunkSize);
        jobs := jobs + fileJobs;
      }
    }
    assert files[..|files|] == files;
  }

  /** The read loop of one file: a read returns as many bytes as the
      buffer holds or as remain, and each read is queued with the next
      index. */
  method ReadChunks(file: string, content: seq<byte>, chunkSize: nat) returns (jobs: seq<Job>)
    requires chunkSize > 0
    ensures jobs == FileJobs(file, content, chunkSize, 0)
  {
    jobs := [];
    var pos, index := 0, 0;
    while pos < |content|
      invariant pos <= |content|
      invariant jobs + FileJobs(file, content[pos..], chunkSize, index) == FileJobs(file, content, chunkSize, 0)
      decreases |content| - pos
    {
      var read := if |content| - pos < chunkSize then |content| - pos else chunkSize;
      var raw := content[pos..pos + read];
      ReadStep(file, content, chunkSize, pos, index, read);
      jobs := jobs + [Job(file, index, raw)];
      pos, index := pos + read, index + 1;
    }
    assert content[pos..] == [];
  }

  lemma ReadStep(file: string, content: seq<byte>, size: nat, pos: nat, index: nat, read: nat)
    requires size > 0 && pos < |content|
    requires read == if |content| - pos < size then |content| - pos else size
    ensures FileJobs(file, content[pos..], size, index)
            == [Job(file, index, content[pos..pos + read])] + FileJobs(file, content[pos + read..], size, index + 1)
  {
    assert content[pos..][..read] == content[pos..pos + read];
    assert content[pos..][read..] == content[pos + read..];
  }

  // ------------------------------------------------------------- workers

  /** The chunk cache, keyed by the chunk's content (the program keys it by
      the chunk's SHA-256 digest). */
  type Cache = map<seq<byte>, ChunkRecord>

  function StoreRecord(raw: seq<byte>): ChunkRecord
  {
    ChunkRecord(StoreBytes, FlagNone, raw)
  }

  /** An algorithm's output on raw, kept only when strictly shorter: STORE
      when it returned null or nothing shorter, the exception when it
      threw. Both writers treat a compressor's answer this way. */
  function KeepShorter(lib: Library, k: Kind, raw: seq<byte>): (r: Result<ChunkRecord>)
    ensures r.Err? <==> Compress(lib, k, raw) == Threw
    ensures r.Err? ==> r.error == CompressorThrew(Name(k))
    ensures r.Ok? ==> r.value.flags == FlagNone && |r.value.data| <= |raw|
    ensures r.Ok? && r.value != StoreRecord(raw) ==>
              r.value.methodName == NameBytes(k) && Compress(lib, k, raw) == Produced(r.value.data) && |r.value.data| < |raw|
    ensures Compress(lib, k, raw).Produced? && |Compress(lib, k, raw).data| < |raw| ==>
              r == Ok(ChunkRecord(NameBytes(k), FlagNone, Compress(lib, k, raw).data))
  {
    match Compress(lib, k, raw)
    case Threw => Err(CompressorThrew(Name(k)))
    case NullResult => Ok(StoreRecord(raw))
    case Produced(c) =>
      if |c| >= |raw| then Ok(StoreRecord(raw))
      else Ok(ChunkRecord(NameBytes(k), FlagNone, c))
  }

  /** UltraModeManager.IsExecutableFile: the lower-cased extension is one of
      the executable extensions (the same list the picker uses). */
  predicate IsExecutableFile(path: string)
  {
    ChunkCompressorPicker.IsExecutablePath(Some(path))
  }

  /** How a record came from a chunk: the chunk stored as it is, or the
      output of the library's BZip2 or LZMA coder or of the image optimiser
      when strictly shorter than the chunk. Flags are always zero. */
  predicate Made(lib: Library, raw: seq<byte>, rec: ChunkRecord)
  {
    rec.flags == FlagNone &&
    (rec == StoreRecord(raw) ||
     (|rec.data| < |raw| &&
      ((rec.methodName == NameBytes(BZip2) && lib.codec(BZip2, raw) == Produced(rec.data)) ||
       (rec.methodName == NameBytes(Lzma) && lib.codec(Lzma, raw) == Produced(rec.data)) ||
       (rec.methodName == NameBytes(LosslessImage) && rec.data == LosslessImageCompressor.Compress(lib.tool, raw)))))
  }

  /** The record a worker makes for a chunk it finds nowhere in the cache:
      STORE for an executable; otherwise the picker's algorithm on the
      chunk's profile, kept only when it returned something shorter. Only
      BZip2 can throw: the picker never returns another thrower. */
  function FreshRecord(lib: Library, measure: ChunkAnalyzer.EntropyMeasure, job: Job): (r: Result<ChunkRecord>)
    ensures IsExecutableFile(job.file) ==> r == Ok(StoreRecord(job.raw))
    ensures r.Ok? ==> Made(lib, job.raw, r.value)
    ensures r.Err? ==> r.error == CompressorThrew(Name(BZip2)) && lib.codec(BZip2, job.raw) == Threw
  {
    if IsExecutableFile(job.file) then Ok(StoreRecord(job.raw))
    else
      var k := ChunkCompressorPicker.SelectBest(ChunkAnalyzer.Analyze(measure, job.raw), Some(job.file));
      ChunkCompressorPicker.SelectBestRange(ChunkAnalyzer.Analyze(measure, job.raw), Some(job.file));
      KeepShorter(lib, k, job.raw)
  }

  datatype Encoded = Encoded(records: seq<ChunkRecord>, cache: Cache)

  /** The records of a job list in queue order and the cache they leave: a
      chunk already in the cache reuses its record, otherwise a fresh
      record is made and cached. The first failing compressor ends the run. */
  function Encode(lib: Library, measure: ChunkAnalyzer.EntropyMeasure, jobs: seq<Job>): Result<Encoded>
    decreases |jobs|
  {
    if |jobs| == 0 then Ok(Encoded([], map[]))
    else
      match Encode(lib, measure, jobs[..|jobs| - 1])
      case Err(e) => Err(e)
      case Ok(en) =>
        var job := jobs[|jobs| - 1];
        if job.raw in en.cache then Ok(Encoded(en.records + [en.cache[job.raw]], en.cache))
        else
          match FreshRecord(lib, measure, job)
          case Err(e) => Err(e)
          case Ok(rec) => Ok(Encoded(en.records + [rec], en.cache[job.raw := rec]))
  }

  /** Each job's record appended to the result of its file, in queue order. */
  function Distribute(jobs: seq<Job>, records: seq<ChunkRecord>, results: Results): (r: Results)
    requires |records| == |jobs|
    requires forall i :: 0 <= i < |jobs| ==> Lower(jobs[i].file) in results
    ensures r.Keys == results.Keys
    decreases |jobs|
  {
    if |jobs| == 0 then results
    else
      var r := Distribute(jobs[..|jobs| - 1], records[..|records| - 1], results);
      var job := jobs[|jobs| - 1];
      var fr := r[Lower(job.file)];
      r[Lower(job.file) := fr.(chunks := fr.chunks + [Piece(job.index, records[|records| - 1])])]
  }

  datatype Worked = Worked(cache: Cache, results: Results)

  /** What the workers leave behind, or the exception they end with. */
  function Work(lib: Library, measure: ChunkAnalyzer.EntropyMeasure, jobs: seq<Job>, results: Results): Result<Worked>
    requires forall i :: 0 <= i < |jobs| ==> Lower(jobs[i].file) in results
  {
    match Encode(lib, measure, jobs)
    case Err(e) => Err(e)
    case Ok(en) =>
      EncodeLength(lib, measure, jobs);
      Ok(Worked(en.cache, Distribute(jobs, en.records, results)))
  }

  lemma {:induction false} EncodeLength(lib: Library, measure: ChunkAnalyzer.EntropyMeasure, jobs: seq<Job>)
    ensures Encode(lib, measure, jobs).Ok? ==> |Encode(lib, measure, jobs).value.records| == |jobs|
    decreases |jobs|
  {
    if |jobs| > 0 {
      EncodeLength(lib, measure, jobs[..|jobs| - 1]);
    }
  }

  /** Once a prefix of the queue fails, the whole run fails with the same
      exception. */
  lemma {:induction false} EncodeFails(lib: Library, measure: ChunkAnalyzer.EntropyMeasure, jobs: seq<Job>, n: nat, e: Error)
    requires n <= |jobs| && Encode(lib, measure, jobs[..n]) == Err(e)
    ensures Encode(lib, measure, jobs) == Err(e)
    decreases |jobs| - n
  {
    if n < |jobs| {
      assert jobs[..n + 1][..n] == jobs[..n];
      EncodeFails(lib, measure, jobs, n + 1, e);
    } else {
      assert jobs[..n] == jobs;
    }
  }

  /** One more job: a cached chunk reuses its record, any other gets a
      fresh one, which is cached. */
  lemma EncodeNext(lib: Library, measure: ChunkAnalyzer.EntropyMeasure, jobs: seq<Job>, i: nat, en: Encoded)
    requires i < |jobs| && Encode(lib, measure, jobs[..i]) == Ok(en)
    ensures jobs[i].raw in en.cache ==>
              Encode(lib, measure, jobs[..i + 1]) == Ok(Encoded(en.records + [en.cache[jobs[i].raw]], en.cache))
    ensures jobs[i].raw !in en.cache && FreshRecord(lib, measure, jobs[i]).Ok? ==>
              Encode(lib, measure, jobs[..i + 1])
              == Ok(Encoded(en.records + [FreshRecord(lib, measure, jobs[i]).value],
                            en.cache[jobs[i].raw := FreshRecord(lib, measure, jobs[i]).value]))
    ensures jobs[i].raw !in en.cache && FreshRecord(lib, measure, jobs[i]).Err? ==>
              Encode(lib, measure, jobs[..i + 1]) == Err(FreshRecord(lib, measure, jobs[i]).error)
  {
    assert jobs[..i + 1][..i] == jobs[..i];
  }

  lemma DistributeNext(jobs: seq<Job>, records: seq<ChunkRecord>, rec: ChunkRecord, results: Results, i: nat)
    requires i < |jobs| && |records| == i
    requires forall k :: 0 <= k < |jobs| ==> Lower(jobs[k].file) in results
    ensures var r := Distribute(jobs[..i], records, results);
            var fr := r[Lower(jobs[i].file)];
            Distribute(jobs[..i + 1], records + [rec], results)
            == r[Lower(jobs[i].file) := fr.(chunks := fr.chunks + [Piece(jobs[i].index, rec)])]
  {
    assert jobs[..i + 1][..i] == jobs[..i];
    assert (records + [rec])[..i] == records;
  }

  lemma EncodeHit(lib: Library, measure: ChunkAnalyzer.EntropyMeasure, jobs: seq<Job>, i: nat, en: Encoded)
    requires i < |jobs| && Encode(lib, measure, jobs[..i]) == Ok(en) && jobs[i].raw in en.cache
    ensures Encode(lib, measure, jobs[..i + 1]) == Ok(Encoded(en.records + [en.cache[jobs[i].raw]], en.cache))
  {
    assert jobs[..i + 1][..i] == jobs[..i];
  }

  lemma EncodeFresh(lib: Library, measure: ChunkAnalyzer.EntropyMeasure, jobs: seq<Job>, i: nat, en: Encoded, rec: ChunkRecord)
    requires i < |jobs| && Encode(lib, measure, jobs[..i]) == Ok(en) && jobs[i].raw !in en.cache
    requires FreshRecord(lib, measure, jobs[i]) == Ok(rec)
    ensures Encode(lib, measure, jobs[..i + 1]) == Ok(Encoded(en.records + [rec], en.cache[jobs[i].raw := rec]))
  {
    assert jobs[..i + 1][..i] == jobs[..i];
  }

  /** The worker loop: each job looked up in the cache by its content, then
      the executable check, then the picker's algorithm. */
  method Workers(lib: Library, measure: ChunkAnalyzer.EntropyMeasure, jobs: seq<Job>, results0: Results)
    returns (r: Result<Worked>)
    requires forall i :: 0 <= i < |jobs| ==> Lower(jobs[i].file) in results0
    ensures r == Work(lib, measure, jobs, results0)
  {
    var cache: Cache := map[];
    var results := results0;
    ghost var records: seq<ChunkRecord> := [];
    for i := 0 to |jobs|
      invariant Encode(lib, measure, jobs[..i]) == Ok(Encoded(records, cache))
      invariant |records| == i
      invariant results == Distribute(jobs[..i], records, results0)
    {
      var job := jobs[i];
      var raw := job.raw;
      EncodeNext(lib, measure, jobs, i, Encoded(records, cache));
      var record: ChunkRecord;
      if raw in cache {
        record := cache[raw];
      } else if IsExecutableFile(job.file) {
        record := StoreRecord(raw);
        cache := cache[raw := record];
      } else {
        var profile := ChunkAnalyzer.Analyze(measure, raw);
        var compressor := ChunkCompressorPicker.SelectBest(profile, Some(job.file));
        var compressed := Compress(lib, compressor, raw);
        if compressed.Threw? {
          assert FreshRecord(lib, measure, job) == Err(CompressorThrew(Name(compressor)));
          EncodeFails(lib, measure, jobs, i + 1, CompressorThrew(Name(compressor)));
          return Err(CompressorThrew(Name(compressor)));
        }
        if compressed.NullResult? || |compressed.data| >= |raw| {
          record := StoreRecord(raw);
        } else {
          record := ChunkRecord(NameBytes(compressor), FlagNone, compressed.data);
        }
        cache := cache[raw := record];
      }
      DistributeNext(jobs, records, record, results0, i);
      var key := Lower(job.file);
      results := results[key := results[key].(chunks := results[key].chunks + [Piece(job.index, record)])];
      records := records + [record];
    }
    assert jobs[..|jobs|] == jobs;
    r := Ok(Worked(cache, results));
  }

  /** Every cached record was made from the chunk it is cached under. */
  predicate CacheMade(lib: Library, cache: Cache)
  {
    forall raw :: raw in cache ==> Made(lib, raw, cache[raw])
  }

  /** Every job's record is the cached record of its chunk. */
  predicate RecordsCached(jobs: seq<Job>, records: seq<ChunkRecord>, cache: Cache)
  {
    |records| == |jobs| && forall i :: 0 <= i < |jobs| ==> jobs[i].raw in cache && records[i] == cache[jobs[i].raw]
  }

  lemma CachedStep(jobs: seq<Job>, n: nat, records: seq<ChunkRecord>, cache: Cache, rec: ChunkRecord)
    requires n < |jobs| && RecordsCached(jobs[..n], records, cache)
    requires jobs[n].raw in cache ==> rec == cache[jobs[n].raw]
    ensures var cache' := if jobs[n].raw in cache then cache else cache[jobs[n].raw := rec];
            RecordsCached(jobs[..n + 1], records + [rec], cache')
  {
    assert jobs[..n + 1] == jobs[..n] + [jobs[n]];
  }

  lemma MadeStep(lib: Library, cache: Cache, raw: seq<byte>, rec: ChunkRecord)
    requires CacheMade(lib, cache) && Made(lib, raw, rec)
    ensures CacheMade(lib, cache[raw := rec])
  {
  }

  /** The cache invariant: every cached record was made from the chunk it
      is cached under, and every job's record is the cached record of its
      chunk, so chunks with the same content are stored alike. */
  lemma {:induction false} EncodeMade(lib: Library, measure: ChunkAnalyzer.EntropyMeasure, jobs: seq<Job>)
    requires Encode(lib, measure, jobs).Ok?
    ensures CacheMade(lib, Encode(lib, measure, jobs).value.cache)
    ensures RecordsCached(jobs, Encode(lib, measure, jobs).value.records, Encode(lib, measure, jobs).value.cache)
    decreases |jobs|
  {
    if |jobs| > 0 {
      var n := |jobs| - 1;
      EncodeMade(lib, measure, jobs[..n]);
      var en := Encode(lib, measure, jobs[..n]).value;
      EncodeNext(lib, measure, jobs, n, en);
      assert jobs[..n + 1] == jobs;
      if jobs[n].raw in en.cache {
        CachedStep(jobs, n, en.records, en.cache, en.cache[jobs[n].raw]);
      } else {
        var rec := FreshRecord(lib, measure, jobs[n]).value;
        CachedStep(jobs, n, en.records, en.cache, rec);
        MadeStep(lib, en.cache, jobs[n].raw, rec);
      }
    }
  }

  /** Every record a worker makes was made from its own chunk. */
  lemma RecordsMade(lib: Library, measure: ChunkAnalyzer.EntropyMeasure, jobs: seq<Job>, i: nat)
    requires Encode(lib, measure, jobs).Ok? && i < |jobs|
    ensures i < |Encode(lib, measure, jobs).value.records|
    ensures Made(lib, jobs[i].raw, Encode(lib, measure, jobs).value.records[i])
  {
    EncodeMade(lib, measure, jobs);
    var en := Encode(lib, measure, jobs).value;
    assert jobs[i].raw in en.cache && en.records[i] == en.cache[jobs[i].raw];
  }

  /** A .DLL file is an executable: alone, its chunks would be stored. */
  lemma DllIsExecutable()
    ensures IsExecutableFile("A.DLL")
  {
    ChunkCompressorPicker.DllExtension();
    assert ChunkCompressorPicker.ExecutableExtensions[0] == ".dll";
  }

  /** Two jobs with the same chunk get the first one's fresh record, and
      the second is never looked at. */
  lemma SecondReuses(lib: Library, measure: ChunkAnalyzer.EntropyMeasure, a: Job, b: Job, rec: ChunkRecord)
    requires FreshRecord(lib, measure, a) == Ok(rec) && b.raw == a.raw
    ensures Encode(lib, measure, [a, b]) == Ok(Encoded([rec, rec], map[a.raw := rec]))
  {
    var jobs := [a, b];
    var first := Encoded([rec], map[a.raw := rec]);
    assert Encode(lib, measure, jobs[..1]) == Ok(first) by {
      assert jobs[..0] == [];
      EncodeFresh(lib, measure, jobs, 0, Encoded([], map[]), rec);
      assert [] + [rec] == [rec] && map[][a.raw := rec] == map[a.raw := rec];
    }
    assert Encode(lib, measure, jobs[..2]) == Ok(Encoded([rec, rec], map[a.raw := rec])) by {
      EncodeHit(lib, measure, jobs, 1, first);
      assert map[a.raw := rec][a.raw] == rec && [rec] + [rec] == [rec, rec];
    }
    assert jobs[..2] == jobs;
  }

  /** The cache is consulted before the executable check: a chunk of a
      .DLL whose bytes a text file compressed earlier is stored with the
      text file's compressed record, not as STORE. */
  lemma CachedBeforeExecutable(lib: Library, measure: ChunkAnalyzer.EntropyMeasure, raw: seq<byte>, rec: ChunkRecord)
    requires FreshRecord(lib, measure, Job("a.txt", 0, raw)) == Ok(rec) && rec != StoreRecord(raw)
    ensures IsExecutableFile("A.DLL")
    ensures Encode(lib, measure, [Job("a.txt", 0, raw), Job("A.DLL", 0, raw)]) == Ok(Encoded([rec, rec], map[raw := rec]))
  {
    DllIsExecutable();
    SecondReuses(lib, measure, Job("a.txt", 0, raw), Job("A.DLL", 0, raw), rec);
  }

  // --------------------------------------------------------------- writer

  predicate SortedByIndex(ps: seq<Piece>)
  {
    forall i, j :: 0 <= i < j < |ps| ==> ps[i].index <= ps[j].index
  }

  /** p placed after every piece whose index is at most its own. */
  function InsertByIndex(sorted: seq<Piece>, p: Piece): seq<Piece>
    decreases |sorted|
  {
    if |sorted| == 0 || sorted[|sorted| - 1].index <= p.index then sorted + [p]
    else InsertByIndex(sorted[..|sorted| - 1], p) + [sorted[|sorted| - 1]]
  }

  /** Inserting adds p and loses nothing. */
  lemma {:induction false} InsertPermutes(sorted: seq<Piece>, p: Piece)
    ensures multiset(InsertByIndex(sorted, p)) == multiset(sorted) + multiset{p}
    decreases |sorted|
  {
    if !(|sorted| == 0 || sorted[|sorted| - 1].index <= p.index) {
      var init, last := sorted[..|sorted| - 1], sorted[|sorted| - 1];
      assert sorted == init + [last];
      InsertPermutes(init, p);
    }
  }

  predicate AtMost(ps: seq<Piece>, n: nat)
  {
    forall i :: 0 <= i < |ps| ==> ps[i].index <= n
  }

  lemma {:induction false} InsertAtMost(sorted: seq<Piece>, p: Piece, n: nat)
    requires AtMost(sorted, n) && p.index <= n
    ensures AtMost(InsertByIndex(sorted, p), n)
    decreases |sorted|
  {
    if !(|sorted| == 0 || sorted[|sorted| - 1].index <= p.index) {
      InsertAtMost(sorted[..|sorted| - 1], p, n);
    }
  }

  /** The first n pieces of a sorted list are sorted, and so bounded by
      the n-th. */
  lemma SortedPrefix(ps: seq<Piece>, n: nat)
    requires SortedByIndex(ps) && n < |ps|
    ensures SortedByIndex(ps[..n]) && AtMost(ps[..n], ps[n].index)
  {
  }

  /** Inserting into a sorted list keeps it sorted. */
  lemma {:induction false} InsertSorted(sorted: seq<Piece>, p: Piece)
    requires SortedByIndex(sorted)
    ensures SortedByIndex(InsertByIndex(sorted, p))
    decreases |sorted|
  {
    if !(|sorted| == 0 || sorted[|sorted| - 1].index <= p.index) {
      var init, last := sorted[..|sorted| - 1], sorted[|sorted| - 1];
      SortedPrefix(sorted, |sorted| - 1);
      InsertSorted(init, p);
      InsertAtMost(init, p, last.index);
    }
  }

  /** Enumerable.OrderBy on the index: a stable sort, by insertion. */
  function SortByIndex(ps: seq<Piece>): seq<Piece>
    decreases |ps|
  {
    if |ps| == 0 then [] else InsertByIndex(SortByIndex(ps[..|ps| - 1]), ps[|ps| - 1])
  }

  /** The sort keeps every piece, as often as it occurs. */
  lemma {:induction false} SortByIndexPermutes(ps: seq<Piece>)
    ensures multiset(SortByIndex(ps)) == multiset(ps)
    ensures |SortByIndex(ps)| == |ps|
    decreases |ps|
  {
    if |ps| > 0 {
      assert ps == ps[..|ps| - 1] + [ps[|ps| - 1]];
      SortByIndexPermutes(ps[..|ps| - 1]);
      InsertPermutes(SortByIndex(ps[..|ps| - 1]), ps[|ps| - 1]);
    }
    assert |SortByIndex(ps)| == |multiset(SortByIndex(ps))|;
  }

  /** The sort puts the pieces in index order. */
  lemma {:induction false} SortByIndexSorted(ps: seq<Piece>)
    ensures SortedByIndex(SortByIndex(ps))
    decreases |ps|
  {
    if |ps| > 0 {
      SortByIndexSorted(ps[..|ps| - 1]);
      InsertSorted(SortByIndex(ps[..|ps| - 1]), ps[|ps| - 1]);
    }
  }

  /** A list already in index order is left as it is. */
  lemma {:induction false} SortedUnchanged(ps: seq<Piece>)
    requires SortedByIndex(ps)
    ensures SortByIndex(ps) == ps
    decreases |ps|
  {
    if |ps| > 0 {
      var init, last := ps[..|ps| - 1], ps[|ps| - 1];
      SortedPrefix(ps, |ps| - 1);
      SortedUnchanged(init);
      assert init + [last] == ps;
    }
  }

  function RecordsOf(ps: seq<Piece>): (rs: seq<ChunkRecord>)
    ensures |rs| == |ps|
    ensures forall i :: 0 <= i < |ps| ==> rs[i] == ps[i].record
  {
    if |ps| == 0 then [] else RecordsOf(ps[..|ps| - 1]) + [ps[|ps| - 1].record]
  }

  /** The sum of the stored lengths. */
  function DataLength(rs: seq<ChunkRecord>): nat
  {
    if |rs| == 0 then 0 else DataLength(rs[..|rs| - 1]) + |rs[|rs| - 1].data|
  }

  /** One call of the progress callback: relative path, original size,
      compressed size and the number of files written so far. */
  datatype Progress = Progress(relativePath: seq<byte>, originalSize: nat, compressedSize: nat, filesWritten: nat)

  datatype Written = Written(entries: seq<FileEntry>, progress: seq<Progress>, results: Results)

  /** The writer's loop over the listed files: a file with a result gets an
      entry of its records in index order and a progress event, and its
      result's records are cleared. */
  function Write(files: seq<string>, results: Results): (w: Written)
    ensures |w.progress| == |w.entries| <= |files|
    ensures w.results.Keys == results.Keys
    decreases |files|
  {
    if |files| == 0 then Written([], [], results)
    else
      var w := Write(files[..|files| - 1], results);
      var key := Lower(files[|files| - 1]);
      if key !in w.results then w
      else
        var fr := w.results[key];
        var records := RecordsOf(SortByIndex(fr.chunks));
        Written(w.entries + [FileEntry(fr.relativePath, records)],
                w.progress + [Progress(fr.relativePath, fr.originalSize, DataLength(records), |w.progress| + 1)],
                w.results[key := fr.(chunks := [])])
  }

  /** The progress events: one per entry written, with its path, the total
      of its stored lengths and the running count of entries. */
  predicate Reports(entries: seq<FileEntry>, progress: seq<Progress>)
  {
    |progress| == |entries| &&
    forall i :: 0 <= i < |entries| ==>
      progress[i].relativePath == entries[i].path &&
      progress[i].compressedSize == DataLength(entries[i].chunks) &&
      progress[i].filesWritten == i + 1
  }

  lemma {:induction false} WriteReports(files: seq<string>, results: Results)
    ensures Reports(Write(files, results).entries, Write(files, results).progress)
    decreases |files|
  {
    if |files| > 0 {
      WriteReports(files[..|files| - 1], results);
    }
  }

  /** Every listed file's records are cleared once it is written. */
  lemma {:induction false} WriteClears(files: seq<string>, results: Results, i: nat)
    requires i < |files| && Lower(files[i]) in results
    ensures Write(files, results).results[Lower(files[i])].chunks == []
    decreases |files|
  {
    var init := files[..|files| - 1];
    if i < |init| {
      WriteClears(init, results, i);
    }
  }

  /** The chunk records of one file, one after the other, and the total of
      their stored lengths. */
  method WriteChunks(sorted: seq<Piece>) returns (bytes: seq<byte>, compressedSize: nat)
    ensures bytes == ChunksBytes(true, RecordsOf(sorted))
    ensures compressedSize == DataLength(RecordsOf(sorted))
  {
    bytes, compressedSize := [], 0;
    for j := 0 to |sorted|
      invariant bytes == ChunksBytes(true, RecordsOf(sorted[..j]))
      invariant compressedSize == DataLength(RecordsOf(sorted[..j]))
    {
      var chunk := sorted[j].record;
      assert sorted[..j + 1][..j] == sorted[..j];
      ChunksBytesAppend(true, RecordsOf(sorted[..j]), chunk);
      bytes := bytes + (WriteString(chunk.methodName) + [chunk.flags] + Int32LE(|chunk.data|) + chunk.data);
      compressedSize := compressedSize + |chunk.data|;
    }
    assert sorted[..|sorted|] == sorted;
  }

  /** The empty-directory list's strings, one after the other. */
  method WriteDirs(dirs: seq<seq<byte>>) returns (bytes: seq<byte>)
    ensures bytes == StringsBytes(dirs)
  {
    bytes := [];
    for j := 0 to |dirs|
      invariant bytes == StringsBytes(dirs[..j])
    {
      assert dirs[..j + 1] == dirs[..j] + [dirs[j]];
      StringsBytesAppend(dirs[..j], dirs[j]);
      bytes := bytes + WriteString(dirs[j]);
    }
    assert dirs[..|dirs|] == dirs;
  }

  /** One more listed file for the writer. */
  lemma WriteNext(files: seq<string>, results0: Results, i: nat, w: Written)
    requires i < |files| && Write(files[..i], results0) == w
    ensures Lower(files[i]) !in w.results ==> Write(files[..i + 1], results0) == w
    ensures Lower(files[i]) in w.results ==>
              var fr := w.results[Lower(files[i])];
              var records := RecordsOf(SortByIndex(fr.chunks));
              Write(files[..i + 1], results0)
              == Written(w.entries + [FileEntry(fr.relativePath, records)],
                         w.progress + [Progress(fr.relativePath, fr.originalSize, DataLength(records), |w.progress| + 1)],
                         w.results[Lower(files[i]) := fr.(chunks := [])])
  {
    assert files[..i + 1][..i] == files[..i];
  }

  lemma AppendEntry(head: seq<byte>, entries: seq<FileEntry>, entry: FileEntry)
    ensures head + FilesBytes(true, entries) + FileBytes(true, entry) == head + FilesBytes(true, entries + [entry])
  {
    FilesBytesAppend(true, entries, entry);
  }

  /** The writer: the version byte and a placeholder count, an entry per
      listed file that has a result, the empty directories, and the count
      patched at offset 1 with the number of entries written. */
  method Writer(files: seq<string>, results0: Results, dirs: seq<seq<byte>>)
    returns (archive: seq<byte>, progress: seq<Progress>, results: Results)
    ensures var w := Write(files, results0);
            archive == SerializeV3(w.entries, dirs) && progress == w.progress && results == w.results
  {
    var head := [CurrentVersion] + Int32LE(0);
    archive := head;
    progress, results := [], results0;
    ghost var entries: seq<FileEntry> := [];
    var written := 0;
    for i := 0 to |files|
      invariant Write(files[..i], results0) == Written(entries, progress, results)
      invariant archive == head + FilesBytes(true, entries)
      invariant written == |entries| == |progress|
    {
      WriteNext(files, results0, i, Written(entries, progress, results));
      var key := Lower(files[i]);
      if key in results {
        var fr := results[key];
        var sorted := SortByIndex(fr.chunks);
        SortByIndexPermutes(fr.chunks);
        var chunkBytes, compressedSize := WriteChunks(sorted);
        var entry := FileEntry(fr.relativePath, RecordsOf(sorted));
        var fileBytes := WriteString(fr.relativePath) + Int32LE(|fr.chunks|) + chunkBytes;
        assert fileBytes == FileBytes(true, entry);
        AppendEntry(head, entries, entry);
        archive := archive + fileBytes;
        written := written + 1;
        progress := progress + [Progress(fr.relativePath, fr.originalSize, compressedSize, written)];
        results := results[key := fr.(chunks := [])];
        entries := entries + [entry];
      }
    }
    assert files[..|files|] == files;
    var dirBytes := WriteDirs(dirs);
    PatchedLayout(entries, dirs);
    archive := Patched(archive + Int32LE(|dirs|) + dirBytes, written);
  }

  /** BinaryWriter.Seek(1) and Write(count): bytes 1 to 4 replaced. */
  function Patched(archive: seq<byte>, count: int): (r: seq<byte>)
    requires |archive| >= 5
    ensures |r| == |archive| && r[1..5] == Int32LE(count)
    ensures r[..1] == archive[..1] && r[5..] == archive[5..]
  {
    archive[..1] + Int32LE(count) + archive[5..]
  }

  lemma PatchedLayout(entries: seq<FileEntry>, dirs: seq<seq<byte>>)
    ensures Patched([CurrentVersion] + Int32LE(0) + FilesBytes(true, entries) + Int32LE(|dirs|) + StringsBytes(dirs), |entries|)
            == SerializeV3(entries, dirs)
  {
    var i0, n, f, d, ds := Int32LE(0), Int32LE(|entries|), FilesBytes(true, entries), Int32LE(|dirs|), StringsBytes(dirs);
    var tail := f + d + ds;
    var a := [CurrentVersion] + i0 + f + d + ds;
    assert a == [CurrentVersion] + i0 + tail by {
      Assoc([CurrentVersion] + i0 + f, d, ds);
      Assoc([CurrentVersion] + i0, f, d + ds);
      Assoc(f, d, ds);
    }
    assert SerializeV3(entries, dirs) == [CurrentVersion] + n + tail by {
      Assoc([CurrentVersion] + n + f, d, ds);
      Assoc([CurrentVersion] + n, f, d + ds);
      Assoc(f, d, ds);
    }
    assert a[..1] == [CurrentVersion];
    assert a[5..] == tail;
  }

  // -------------------------------------------------------- the whole run

  /** What ProcessEntries produces: the archive file and the progress
      events. */
  datatype Run = Run(archive: seq<byte>, progress: seq<Progress>)

  /** ProcessEntries on a list of full paths: the base folder is the
      common directory of the list (an empty list fails at files[0]), then
      the producer, the workers and the writer. emptyDirs is the list of
      empty directories found under the files' folders, in the order the
      set enumerates them. */
  function Ultra(files: seq<string>, fs: FileSystem, lib: Library, measure: ChunkAnalyzer.EntropyMeasure, log2: Log2,
                 root: Paths.PathRoot, relative: RelativePath, emptyDirs: seq<seq<byte>>): Result<Run>
  {
    match Paths.UltraCommonDirectoryCorrected(files, root)
    case None => Err(NoFiles)
    case Some(baseDir) =>
      var q := Queued(fs, log2, baseDir, relative, files);
      match Work(lib, measure, q.jobs, q.results)
      case Err(e) => Err(e)
      case Ok(wk) =>
        var w := Write(files, wk.results);
        Ok(Run(SerializeV3(w.entries, emptyDirs), w.progress))
  }

  /** UltraModeManager.ProcessEntries. */
  method ProcessEntries(files: seq<string>, fs: FileSystem, lib: Library, measure: ChunkAnalyzer.EntropyMeasure, log2: Log2,
                        root: Paths.PathRoot, relative: RelativePath, emptyDirs: seq<seq<byte>>)
    returns (r: Result<Run>)
    ensures r == Ultra(files, fs, lib, measure, log2, root, relative, emptyDirs)
    ensures |files| == 0 ==> r == Err(NoFiles)
    ensures r.Ok? ==> r.value.archive[0] == CurrentVersion
  {
    var common := Paths.UltraCommonDirectoryCorrected(files, root);
    if common.None? {
      return Err(NoFiles);
    }
    var baseDir := common.value;
    var jobs, results := Producer(fs, log2, baseDir, relative, files);
    var worked := Workers(lib, measure, jobs, results);
    if worked.Err? {
      return Err(worked.error);
    }
    var archive, progress, cleared := Writer(files, worked.value.results, emptyDirs);
    r := Ok(Run(archive, progress));
  }
}
