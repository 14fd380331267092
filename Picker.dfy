/** ChunkCompressorPicker: the per-chunk choice of algorithm, a first-match
    ladder over the file's extension and the chunk's profile. */
module ChunkCompressorPicker {
  import opened Common
  import opened Algorithms
  import opened ChunkAnalyzer

  /** Extensions of executables, libraries, debug symbols and drivers, which
      are stored byte for byte. */
  const ExecutableExtensions: seq<string> := [".dll", ".exe", ".so", ".dylib", ".pdb", ".mdb", ".sys", ".ocx", ".drv"]

  /** The lower-cased extension of a path; a null path counts as "". */
  function LowerExtension(path: Option<string>): (ext: string)
    ensures path.None? ==> ext == ""
  {
    Lower(GetExtension(if path.Some? then path.value else ""))
  }

  predicate IsExecutablePath(path: Option<string>)
  {
    LowerExtension(path) in ExecutableExtensions
  }

  /** ChunkCompressorPicker.SelectBest: executables are stored; otherwise
      images go to the image optimiser, high-entropy binary data is stored,
      repetitive text goes to BZip2, and everything else to LZMA. */
  function SelectBest(profile: ChunkProfile, path: Option<string>): (k: Kind)
    ensures IsExecutablePath(path) ==> k == NoCompression
    ensures !IsExecutablePath(path) && profile.isImage ==> k == LosslessImage
    ensures !IsExecutablePath(path) && !profile.isImage && profile.entropy > 7.5 && !profile.isText ==> k == NoCompression
    ensures (!IsExecutablePath(path) && !profile.isImage && !(profile.entropy > 7.5 && !profile.isText) &&
             profile.isText && profile.hasRepeats) ==> k == BZip2
    ensures (!IsExecutablePath(path) && !profile.isImage && !(profile.entropy > 7.5 && !profile.isText) &&
             !(profile.isText && profile.hasRepeats)) ==> k == Lzma
  {
    if IsExecutablePath(path) then NoCompression
    else if profile.isImage then LosslessImage
    else if profile.entropy > 7.5 && !profile.isText then NoCompression
    else if profile.isText && profile.hasRepeats then BZip2
    else Lzma
  }

  /** The picker only ever returns one of four algorithms, and a chunk of
      text is never stored raw unless its file is an executable or the
      chunk looks like an image. */
  lemma SelectBestRange(profile: ChunkProfile, path: Option<string>)
    ensures SelectBest(profile, path) in {NoCompression, LosslessImage, BZip2, Lzma}
    ensures profile.isText && !IsExecutablePath(path) ==> SelectBest(profile, path) != NoCompression
  {
  }

  lemma DllExtension()
    ensures LowerExtension(Some("A.DLL")) == ".dll"
  {
    var p := "A.DLL";
    assert p[1] == '.' && p[2] == 'D' && p[3] == 'L' && p[4] == 'L';
    assert ExtensionBefore(p, 2) == ".DLL";
    assert ExtensionBefore(p, 5) == ExtensionBefore(p, 2);
    assert Lower(".DLL") == ".dll";
  }

  /** The extension decides before the content: an image chunk of a .DLL
      file is stored, and the same chunk under a null path is optimised. */
  lemma ExtensionBeforeProfile(profile: ChunkProfile)
    requires profile.isImage
    ensures SelectBest(profile, Some("A.DLL")) == NoCompression
    ensures SelectBest(profile, None) == LosslessImage
  {
    DllExtension();
    assert ExecutableExtensions[0] == ".dll";
  }
}
