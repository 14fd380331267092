/** CompressionStrategySelector: a coarse strategy for one file or for a
    folder, from file sizes and extensions. A file system entry is given by
    its path and its length (None when it cannot be read). */
module CompressionStrategySelector {
  import opened Common

  datatype CompressionStrategy = Chunk | FullFile | FormatOptimized

  const LargeFileThresholdBytes: nat := 200 * 1024 * 1024
  const ManyFilesThreshold: nat := 200
  const SmallFileBytes: nat := 32 * 1024

  /** A file found under the folder. */
  datatype FolderFile = FolderFile(path: string, length: Option<nat>)

  /** Image and audio extensions (lower case, with the dot). */
  predicate IsFormatOptimizedExtension(ext: string)
  {
    ext in {".png", ".jpg", ".jpeg", ".webp", ".gif", ".bmp", ".tiff", ".wav", ".flac", ".mp3", ".ogg"}
  }

  /** Whether a path's lower-cased extension is an image or audio one. */
  predicate HasFormatOptimizedExtension(path: string)
  {
    IsFormatOptimizedExtension(Lower(GetExtension(path)))
  }

  /** CompressionStrategySelector.DecideForFile: a missing file is chunked,
      an image or audio file is format-optimised, a file of 200 MiB or more
      is chunked and anything else is compressed whole. */
  function DecideForFile(path: string, length: Option<nat>): (s: CompressionStrategy)
    ensures length.None? ==> s == Chunk
    ensures s == FormatOptimized <==> length.Some? && HasFormatOptimizedExtension(path)
    ensures s == FullFile <==> length.Some? && !HasFormatOptimizedExtension(path) &&
                               length.value < LargeFileThresholdBytes
  {
    match length
    case None => Chunk
    case Some(size) =>
      if HasFormatOptimizedExtension(path) then FormatOptimized
      else if size >= LargeFileThresholdBytes then Chunk
      else FullFile
  }

  /** The folder statistics: total length, files of at most 32 KiB, and
      format-optimised files. */
  datatype Tally = Tally(total: nat, small: nat, formatOptimized: nat)

  /** The statistics over the first n files; an unreadable file adds
      nothing (its length is read first and throws). */
  function TallyOf(files: seq<FolderFile>, n: nat): (t: Tally)
    requires n <= |files|
  {
    if n == 0 then Tally(0, 0, 0)
    else
      var t := TallyOf(files, n - 1);
      var f := files[n - 1];
      match f.length
      case None => t
      case Some(len) =>
        Tally(t.total + len,
              t.small + (if len <= SmallFileBytes then 1 else 0),
              t.formatOptimized + (if HasFormatOptimizedExtension(f.path) then 1 else 0))
  }

  /** The counts never exceed the number of files; a folder of unreadable
      files tallies nothing. */
  lemma {:induction false} TallyBounds(files: seq<FolderFile>, n: nat)
    requires n <= |files|
    ensures TallyOf(files, n).small <= n && TallyOf(files, n).formatOptimized <= n
    ensures (forall i :: 0 <= i < n ==> files[i].length.None?) ==> TallyOf(files, n) == Tally(0, 0, 0)
  {
    if n > 0 {
      TallyBounds(files, n - 1);
    }
  }

  /** The folder decision from its statistics; count is at least one. The
      program compares the average as a double with 50 MiB; for fewer than
      200 files that equals the exact comparison below. Many files or
      mostly small ones are packed whole, mostly image or audio files are
      format-optimised, and chunking is chosen only for a large average. */
  function FolderDecision(count: nat, t: Tally): (s: CompressionStrategy)
    requires count > 0
    ensures count >= ManyFilesThreshold ==> s == FullFile
    ensures 2 * t.small > count ==> s == FullFile
    ensures s == FormatOptimized <==>
              count < ManyFilesThreshold && 2 * t.small <= count && 3 * t.formatOptimized > count
    ensures s == Chunk ==> count < ManyFilesThreshold && 4 * t.total >= count * LargeFileThresholdBytes
    ensures count < ManyFilesThreshold && 2 * t.small <= count && 3 * t.formatOptimized <= count ==>
              (s == Chunk <==> 4 * t.total >= count * LargeFileThresholdBytes) &&
              (s == FullFile <==> 4 * t.total < count * LargeFileThresholdBytes)
  {
    if count >= ManyFilesThreshold || t.small > count / 2 then FullFile
    else if t.formatOptimized > count / 3 then FormatOptimized
    else if t.total >= count * (LargeFileThresholdBytes / 4) then Chunk
    else FullFile
  }

  /** CompressionStrategySelector.DecideForFolder: files is None when the
      folder cannot be listed; an empty folder is chunked. */
  method DecideForFolder(files: Option<seq<FolderFile>>) returns (s: CompressionStrategy)
    ensures files.None? || files == Some([]) ==> s == Chunk
    ensures files.Some? && |files.value| > 0 ==>
              s == FolderDecision(|files.value|, TallyOf(files.value, |files.value|))
  {
    if files.None? || |files.value| == 0 {
      return Chunk;
    }
    var fs := files.value;
    var count := |fs|;
    var total := 0;
    var smallFiles := 0;
    var formatOptimizedCount := 0;
    for i := 0 to |fs|
      invariant TallyOf(fs, i) == Tally(total, smallFiles, formatOptimizedCount)
    {
      match fs[i].length {
        case None =>
        case Some(len) =>
          total := total + len;
          if len <= SmallFileBytes {
            smallFiles := smallFiles + 1;
          }
          if HasFormatOptimizedExtension(fs[i].path) {
            formatOptimizedCount := formatOptimizedCount + 1;
          }
      }
    }
    if count >= ManyFilesThreshold || smallFiles > count / 2 {
      return FullFile;
    }
    if formatOptimizedCount > count / 3 {
      return FormatOptimized;
    }
    if total >= count * (LargeFileThresholdBytes / 4) {
      return Chunk;
    }
    return FullFile;
  }

  /** A non-empty folder none of whose files can be read is packed whole:
      it tallies nothing, so no rule but the last applies. */
  lemma UnreadableFolderIsFullFile(files: seq<FolderFile>)
    requires |files| > 0
    requires forall i :: 0 <= i < |files| ==> files[i].length.None?
    ensures FolderDecision(|files|, TallyOf(files, |files|)) == FullFile
  {
    TallyBounds(files, |files|);
  }
}
