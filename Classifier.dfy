/** FileClassifier: the quick "already compressed" test used before any
    compression is tried (a fixed extension list, then the magic bytes of
    the first 32 bytes), and the start/middle/end sampling of a file. A
    file's content is given as an Option: None when it cannot be opened. */
module FileClassifier {
  import opened Common

  /** Extensions of formats that are usually compressed already, compared
      without regard to case. */
  const CompressedExtensions: set<string> := {
    ".zip", ".rar", ".7z", ".gz", ".tgz", ".bz2", ".xz",
    ".mp3", ".ogg", ".mp4", ".mkv", ".webm",
    ".jpg", ".jpeg", ".png", ".gif", ".bmp", ".ico", ".tga", ".dds", ".pkm", ".astc", ".basis",
    ".wav", ".flac",
    ".pak", ".pak0", ".pak1", ".bundle", ".unity3d", ".assets", ".dat"}

  const RarSignature: seq<byte> := [0x52, 0x61, 0x72, 0x21, 0x1A, 0x07, 0x00]
  const SevenZipSignature: seq<byte> := [0x37, 0x7A, 0xBC, 0xAF, 0x27, 0x1C]
  const PngSignature: seq<byte> := [137, 80, 78, 71, 13, 10, 26, 10]

  predicate LooksLikeArchiveOrCompressedStream(header: seq<byte>)
  {
    if |header| < 4 then false
    else if header[0] == 0x50 && header[1] == 0x4B then true
    else if |header| >= 7 && header[..7] == RarSignature then true
    else if |header| >= 6 && header[..6] == SevenZipSignature then true
    else if |header| >= 8 && header[..8] == PngSignature then true
    else if header[0] == 0xFF && header[1] == 0xD8 then true
    else if header[0] == 0x1F && header[1] == 0x8B then true
    else if |header| >= 2 && header[0] == 0x78 then true
    else false
  }

  /** The starts recognised: zip, RAR, 7z, PNG, JPEG, gzip, and a zlib
      first byte. */
  const ArchiveSignatures: seq<seq<byte>> := [
    [0x50, 0x4B], RarSignature, SevenZipSignature, PngSignature, [0xFF, 0xD8], [0x1F, 0x8B], [0x78]]

  /** A header of at least four bytes is recognised exactly when it starts
      with one of the signatures; shorter headers never are. */
  lemma ArchiveSignaturesCharacterise(header: seq<byte>)
    ensures LooksLikeArchiveOrCompressedStream(header) <==>
            |header| >= 4 && exists k :: 0 <= k < |ArchiveSignatures| && ArchiveSignatures[k] <= header
  {
    var sigs := ArchiveSignatures;
    if |header| >= 4 {
      if LooksLikeArchiveOrCompressedStream(header) {
        if header[0] == 0x50 && header[1] == 0x4B { assert sigs[0] <= header; }
        else if |header| >= 7 && header[..7] == RarSignature { assert sigs[1] <= header; }
        else if |header| >= 6 && header[..6] == SevenZipSignature { assert sigs[2] <= header; }
        else if |header| >= 8 && header[..8] == PngSignature { assert sigs[3] <= header; }
        else if header[0] == 0xFF && header[1] == 0xD8 { assert sigs[4] <= header; }
        else if header[0] == 0x1F && header[1] == 0x8B { assert sigs[5] <= header; }
        else { assert sigs[6] <= header; }
      }
      if exists k :: 0 <= k < |sigs| && sigs[k] <= header {
        var k :| 0 <= k < |sigs| && sigs[k] <= header;
        assert header[..|sigs[k]|] == sigs[k];
      }
    }
  }

  /** The extension test of IsProbablyAlreadyCompressed. */
  predicate HasCompressedExtension(path: string)
  {
    var ext := GetExtension(path);
    ext != "" && Lower(ext) in CompressedExtensions
  }

  const HeaderSize: nat := 32

  /** The 32-byte buffer the header is read into: the file's first bytes,
      zero-padded when the file is shorter. */
  function Header(content: seq<byte>): (h: seq<byte>)
    ensures |h| == HeaderSize
    ensures forall i :: 0 <= i < HeaderSize ==> h[i] == (if i < |content| then content[i] else 0)
  {
    var got := if |content| < HeaderSize then |content| else HeaderSize;
    content[..got] + Repeat(0, HeaderSize - got)
  }

  /** FileClassifier.IsProbablyAlreadyCompressed; content is None when the
      file cannot be opened, which the program's catch turns into false. */
  function IsProbablyAlreadyCompressed(path: string, content: Option<seq<byte>>): (r: bool)
    ensures HasCompressedExtension(path) ==> r
    ensures !HasCompressedExtension(path) && (content.None? || content == Some([])) ==> !r
    ensures !HasCompressedExtension(path) && content.Some? && |content.value| > 0 ==>
              (r <==> LooksLikeArchiveOrCompressedStream(Header(content.value)))
  {
    if HasCompressedExtension(path) then true
    else match content
      case None => false
      case Some(c) =>
        var got := if |c| < HeaderSize then |c| else HeaderSize;
        if got > 0 then LooksLikeArchiveOrCompressedStream(Header(c)) else false
  }

  /** The zero padding lets files of one to three bytes reach the signature
      test: a two-byte file "PK" counts as compressed, and so does a
      one-byte file 0x78, whatever its name. */
  lemma ShortFilesReachSignatureTest(path: string)
    ensures IsProbablyAlreadyCompressed(path, Some([0x50, 0x4B]))
    ensures IsProbablyAlreadyCompressed(path, Some([0x78]))
  {
    assert Header([0x50, 0x4B])[0] == 0x50 && Header([0x50, 0x4B])[1] == 0x4B;
    assert Header([0x78])[0] == 0x78;
  }

  /** Only the first 32 bytes of a file matter to the content test. */
  lemma HeaderOnlyReadsPrefix(a: seq<byte>, b: seq<byte>)
    requires |a| >= HeaderSize && |b| >= HeaderSize && a[..HeaderSize] == b[..HeaderSize]
    ensures Header(a) == Header(b)
  {
    assert forall i :: 0 <= i < HeaderSize ==> a[i] == a[..HeaderSize][i] && b[i] == b[..HeaderSize][i];
  }

  /** Where the middle sample starts. */
  function MiddleStart(len: nat, sampleSize: nat): nat
  {
    if len / 2 - sampleSize / 2 > 0 then len / 2 - sampleSize / 2 else 0
  }

  /** FileClassifier.SampleFile over the file's content: the whole file when
      it is no longer than the sample size, otherwise three sample-size
      windows from the start, around the middle and at the end; an empty
      array when the file cannot be read or the sample size is negative
      (allocating the buffer throws). */
  function SampleFile(content: Option<seq<byte>>, sampleSize: int): (r: seq<byte>)
    ensures content.None? ==> r == []
    ensures content.Some? && |content.value| <= sampleSize ==> r == content.value
    ensures content.Some? && 0 <= sampleSize < |content.value| ==>
              var c := content.value;
              var mid := MiddleStart(|c|, sampleSize);
              |r| == 3 * sampleSize && mid + sampleSize <= |c| &&
              r[..sampleSize] == c[..sampleSize] &&
              r[sampleSize..2 * sampleSize] == c[mid..mid + sampleSize] &&
              r[2 * sampleSize..] == c[|c| - sampleSize..]
    ensures content.Some? && sampleSize < 0 ==> r == []
  {
    match content
    case None => []
    case Some(c) =>
      if |c| <= sampleSize then c
      else if sampleSize < 0 then []
      else
        var s := sampleSize;
        var mid := MiddleStart(|c|, s);
        var tail := |c| - s;
        Window(c, 0, s) + Window(c, mid, s) + Window(c, tail, s)
  }

  /** FileStream.Read after a seek: up to n bytes from position pos. */
  function Window(c: seq<byte>, pos: nat, n: nat): (w: seq<byte>)
    requires pos <= |c|
    ensures |w| == if pos + n <= |c| then n else |c| - pos
    ensures w <= c[pos..]
  {
    if pos + n <= |c| then c[pos..pos + n] else c[pos..]
  }
}
