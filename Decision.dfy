/** DecisionEngine: how ChunkCompressor stores one file (raw, compressed
    whole, compressed in chunks, or by the image compressor), decided from
    its name, its content and a sample test of the candidate algorithms.
    The file is given by its path and its content (None when it cannot be
    read); the entropy is an abstract measure. */
module DecisionEngine {
  import opened Common
  import opened Algorithms
  import FileClassifier
  import ChunkAnalyzer
  import PreCompressionTester

  datatype CompressionDecision = Store | FullCompress | ChunkCompress | ImageSpecial | BinaryTransform

  /** Entropy at or above 7.2 bits per byte counts as already compressed. */
  const EntropyHigh: real := 7.2
  /** Files up to 128 KiB are compressed whole. */
  const SmallFileBytes: nat := 128 * 1024
  /** Each of the three sample windows is 32 KiB. */
  const SampleWindow: nat := 32 * 1024

  const ImageExtensions: set<string> := {".png", ".jpg", ".jpeg", ".gif", ".webp", ".bmp", ".tga"}

  /** The name the image branch looks for among the candidates. */
  const ImageCompressorName: string := "LosslessImageCompressor"

  /** The first candidate called exactly name. */
  function FirstNamed(candidates: seq<Kind>, name: string): (r: Option<Kind>)
    ensures r.Some? ==> r.value in candidates && Name(r.value) == name
    ensures r.None? ==> forall k :: k in candidates ==> Name(k) != name
  {
    if |candidates| == 0 then None
    else if Name(candidates[0]) == name then Some(candidates[0])
    else FirstNamed(candidates[1..], name)
  }

  /** Whether an algorithm's lower-cased name mentions LZMA or XZ. */
  predicate IsLzmaLike(k: Kind)
  {
    Contains(Lower(Name(k)), "lzma") || Contains(Lower(Name(k)), "xz")
  }

  /** The first LZMA-like candidate. */
  function FirstLzmaLike(candidates: seq<Kind>): (r: Option<Kind>)
    ensures r.Some? ==> r.value in candidates && IsLzmaLike(r.value)
    ensures r.None? ==> forall k :: k in candidates ==> !IsLzmaLike(k)
  {
    if |candidates| == 0 then None
    else if IsLzmaLike(candidates[0]) then Some(candidates[0])
    else FirstLzmaLike(candidates[1..])
  }

  /** Whether the file is small enough to be compressed whole. */
  function BySize(length: nat): (d: CompressionDecision)
    ensures d == FullCompress <==> length <= SmallFileBytes
    ensures d == ChunkCompress <==> length > SmallFileBytes
  {
    if length <= SmallFileBytes then FullCompress else ChunkCompress
  }

  /** DecisionEngine.Decide: the decision and the chosen algorithm. A file
      that cannot be read fails at its length, after the signature and
      entropy tests, and the handler stores it. */
  function Decide(lib: Library, measure: ChunkAnalyzer.EntropyMeasure, path: string,
                  content: Option<seq<byte>>, candidates: seq<Kind>): (r: (CompressionDecision, Option<Kind>))
    ensures r.0 != BinaryTransform
    ensures FileClassifier.IsProbablyAlreadyCompressed(path, content) ==> r == (Store, None)
    ensures content.None? ==> r == (Store, None)
    ensures r.0 == ImageSpecial ==> Lower(GetExtension(path)) in ImageExtensions
    ensures r.1.Some? <==> r.0 == FullCompress || r.0 == ChunkCompress
    ensures r.0 == FullCompress ==> |content.value| <= SmallFileBytes
    ensures r.0 == ChunkCompress ==> |content.value| > SmallFileBytes
    ensures r.1.Some? ==>
              var sample := FileClassifier.SampleFile(content, SampleWindow);
              var ratio := PreCompressionTester.TestCompressionRatio(lib, r.1.value, sample);
              r.1.value in candidates && ratio.Finite? && ratio.value < 0.995 &&
              ChunkAnalyzer.Entropy(measure, sample) < EntropyHigh
    ensures ChunkAnalyzer.Entropy(measure, FileClassifier.SampleFile(content, SampleWindow)) >= EntropyHigh ==>
              r == (Store, None)
    ensures !FileClassifier.IsProbablyAlreadyCompressed(path, content) && content.Some? &&
            ChunkAnalyzer.Entropy(measure, FileClassifier.SampleFile(content, SampleWindow)) < EntropyHigh ==>
              (r.0 == ImageSpecial <==> Lower(GetExtension(path)) in ImageExtensions) &&
              (r.0 == ImageSpecial ==> r.1 == None) &&
              (r.0 != ImageSpecial ==>
                 r == TestedChoice(lib, FileClassifier.SampleFile(content, SampleWindow), candidates, |content.value|))
  {
    if FileClassifier.IsProbablyAlreadyCompressed(path, content) then (Store, None)
    else
      var sample := FileClassifier.SampleFile(content, SampleWindow);
      if ChunkAnalyzer.Entropy(measure, sample) >= EntropyHigh then (Store, None)
      else if content.None? then (Store, None)
      else
        var length := |content.value|;
        if Lower(GetExtension(path)) in ImageExtensions then
          ImageBranchFindsNothing(candidates);
          (ImageSpecial, FirstNamed(candidates, ImageCompressorName))
        else TestedChoice(lib, sample, candidates, length)
  }

  /** The sample test of Decide: the best candidate below a ratio of 0.99,
      else the first LZMA-like candidate when it stays below 0.995, each
      chosen by size; otherwise the file is stored. */
  function TestedChoice(lib: Library, sample: seq<byte>, candidates: seq<Kind>, length: nat): (r: (CompressionDecision, Option<Kind>))
    ensures r.0 == Store || r.0 == FullCompress || r.0 == ChunkCompress
    ensures r.1.Some? <==> r.0 != Store
    ensures r.0 == FullCompress ==> length <= SmallFileBytes
    ensures r.0 == ChunkCompress ==> length > SmallFileBytes
    ensures r.1.Some? ==>
              var ratio := PreCompressionTester.TestCompressionRatio(lib, r.1.value, sample);
              r.1.value in candidates && ratio.Finite? && ratio.value < 0.995
    ensures var best := PreCompressionTester.ChooseBestBySample(lib, sample, candidates, 0.99);
            best.Some? ==> best.value < |candidates| && r == (BySize(length), Some(candidates[best.value]))
    ensures var best := PreCompressionTester.ChooseBestBySample(lib, sample, candidates, 0.99);
            var lzma := FirstLzmaLike(candidates);
            best.None? ==>
              (r.0 == Store <==>
                 lzma.None? ||
                 !PreCompressionTester.Below(PreCompressionTester.TestCompressionRatio(lib, lzma.value, sample),
                                             PreCompressionTester.Finite(0.995))) &&
              (r.0 != Store ==> r == (BySize(length), lzma))
  {
    var best := PreCompressionTester.ChooseBestBySample(lib, sample, candidates, 0.99);
    if best.Some? then
      PreCompressionTester.ChooseBestSpec(lib, sample, candidates, 0.99);
      (BySize(length), Some(candidates[best.value]))
    else
      var lzma := FirstLzmaLike(candidates);
      if lzma.Some? && PreCompressionTester.Below(PreCompressionTester.TestCompressionRatio(lib, lzma.value, sample), PreCompressionTester.Finite(0.995)) then
        (BySize(length), lzma)
      else (Store, None)
  }

  /** No algorithm is called LosslessImageCompressor (the image compressor
      calls itself LosslessImage), so the image branch never finds one. */
  lemma ImageBranchFindsNothing(candidates: seq<Kind>)
    ensures FirstNamed(candidates, ImageCompressorName) == None
  {
    forall k: Kind
      ensures Name(k) != ImageCompressorName
    {
      assert |Name(k)| < |ImageCompressorName|;
    }
  }

  /** LZMA is the algorithm the fallback finds in the registry. */
  lemma LzmaIsLzmaLike()
    ensures IsLzmaLike(Lzma)
  {
    assert Lower(Name(Lzma)) == "lzma";
    assert "lzma" <= Lower(Name(Lzma))[0..];
  }
}
