/** ChunkAnalyzer: the profile of a chunk (image signature, printable text,
    repeated byte values, entropy) on which the per-chunk picker decides. */
module ChunkAnalyzer {
  import opened Common

  /** ChunkProfile. */
  datatype ChunkProfile = ChunkProfile(isImage: bool, isText: bool, entropy: real, hasRepeats: bool)

  /** Shannon entropy in bits per byte, computed in floating point by the
      program; here an abstract measure. */
  type EntropyMeasure = seq<byte> -> real

  /** CalculateEntropy and FileClassifier.ShannonEntropy: 0 for an empty
      buffer, the measure otherwise. */
  function Entropy(measure: EntropyMeasure, data: seq<byte>): (e: real)
    ensures |data| == 0 ==> e == 0.0
    ensures |data| > 0 ==> e == measure(data)
  {
    if |data| == 0 then 0.0 else measure(data)
  }

  predicate IsTextByte(b: byte)
  {
    b == 0x0A || b == 0x0D || (32 <= b <= 126)
  }

  /** Every byte is a line break or printable ASCII (true of an empty chunk). */
  predicate IsText(chunk: seq<byte>)
  {
    forall i :: 0 <= i < |chunk| ==> IsTextByte(chunk[i])
  }

  function Distinct(chunk: seq<byte>): set<byte>
  {
    set b | b in chunk
  }

  /** DetectRepetition: fewer distinct values than 0.8 times the length. In
      double precision chunk.Length * 0.8 never rounds across an integer, so
      the test is exactly 5 * distinct < 4 * length. */
  predicate DetectRepetition(chunk: seq<byte>)
  {
    |Distinct(chunk)| * 5 < 4 * |chunk|
  }

  /** The starts IsImageData accepts: PNG, JPEG, BMP, GIF, little- and
      big-endian TIFF. */
  const ImageSignatures: seq<seq<byte>> := [
    [0x89, 0x50, 0x4E, 0x47], [0xFF, 0xD8], [0x42, 0x4D], [0x47, 0x49, 0x46],
    [0x49, 0x49, 0x2A, 0x00], [0x4D, 0x4D, 0x00, 0x2A]]

  predicate IsImageData(data: seq<byte>)
  {
    if |data| < 4 then false
    else if data[0] == 0x89 && data[1] == 0x50 && data[2] == 0x4E && data[3] == 0x47 then true
    else if data[0] == 0xFF && data[1] == 0xD8 then true
    else if data[0] == 0x42 && data[1] == 0x4D then true
    else if data[0] == 0x47 && data[1] == 0x49 && data[2] == 0x46 then true
    else if data[0] == 0x49 && data[1] == 0x49 && data[2] == 0x2A && data[3] == 0x00 then true
    else if data[0] == 0x4D && data[1] == 0x4D && data[2] == 0x00 && data[3] == 0x2A then true
    else false
  }

  /** IsImageData holds exactly for chunks of at least four bytes that start
      with one of the six signatures. */
  lemma ImageDataSignatures(data: seq<byte>)
    ensures IsImageData(data) <==> |data| >= 4 && exists k :: 0 <= k < |ImageSignatures| && ImageSignatures[k] <= data
  {
    if |data| >= 4 {
      var sigs := ImageSignatures;
      if IsImageData(data) {
        if data[0] == 0x89 && data[1] == 0x50 && data[2] == 0x4E && data[3] == 0x47 { assert sigs[0] <= data; }
        else if data[0] == 0xFF && data[1] == 0xD8 { assert sigs[1] <= data; }
        else if data[0] == 0x42 && data[1] == 0x4D { assert sigs[2] <= data; }
        else if data[0] == 0x47 && data[1] == 0x49 && data[2] == 0x46 { assert sigs[3] <= data; }
        else if data[0] == 0x49 && data[1] == 0x49 && data[2] == 0x2A && data[3] == 0x00 { assert sigs[4] <= data; }
        else { assert sigs[5] <= data; }
      }
      if exists k :: 0 <= k < |sigs| && sigs[k] <= data {
        var k :| 0 <= k < |sigs| && sigs[k] <= data;
        assert forall j :: 0 <= j < |sigs[k]| ==> data[j] == sigs[k][j];
      }
    }
  }

  /** ChunkAnalyzer.Analyze: the profile's flags are the three predicates
      applied to the chunk and its entropy is the chunk's entropy. */
  function Analyze(measure: EntropyMeasure, chunk: seq<byte>): (p: ChunkProfile)
    ensures p.isImage <==> IsImageData(chunk)
    ensures p.isText <==> IsText(chunk)
    ensures p.hasRepeats <==> DetectRepetition(chunk)
    ensures p.entropy == Entropy(measure, chunk)
  {
    var isText := IsText(chunk);
    var hasRepeats := DetectRepetition(chunk);
    var isImage := IsImageData(chunk);
    ChunkProfile(isImage, isText, Entropy(measure, chunk), hasRepeats)
  }

  // ------------------------------------------------------------ repetition

  /** The byte values below n. */
  function Below(n: nat): (r: set<byte>)
    requires n <= 256
    ensures forall b: byte :: b in r <==> b < n
    ensures |r| == n
  {
    if n == 0 then {} else Below(n - 1) + {(n - 1) as byte}
  }

  /** A chunk holds at most 256 distinct values. */
  lemma DistinctAtMost256(chunk: seq<byte>)
    ensures |Distinct(chunk)| <= 256
  {
    SubsetCard(Distinct(chunk), Below(256));
  }

  /** An empty chunk has no repeats, and every chunk longer than 320 bytes
      has them, whatever its content: 256 distinct values are below 0.8 of
      its length. */
  lemma RepetitionByLength(chunk: seq<byte>)
    ensures |chunk| == 0 ==> !DetectRepetition(chunk)
    ensures |chunk| > 320 ==> DetectRepetition(chunk)
  {
    DistinctAtMost256(chunk);
  }
}
