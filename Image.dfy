/** LosslessImageCompressor: recognises PNG, JPEG, WebP and GIF data by their
    magic bytes and hands it to an external optimiser, keeping the optimiser's
    output only when it is strictly shorter. */
module LosslessImageCompressor {
  import opened Common

  const Name: string := "LosslessImage"

  datatype ImageFormat = Png | Jpeg | WebP | Gif

  /** One attempt to run the external tool for a format: the executable is
      absent, something threw (temp files, process start, reading the output),
      or the process exited with a code and left an output file (or none). */
  datatype ToolRun = ToolMissing | Faulted | Exited(code: int, output: Option<seq<byte>>)

  /** The external optimisers, as seen from the program: what running the tool
      for a format on some bytes gives back. */
  type Tool = (ImageFormat, seq<byte>) -> ToolRun

  const PngSignature: seq<byte> := [0x89, 0x50, 0x4E, 0x47, 0x0D, 0x0A, 0x1A, 0x0A]
  const JpegSignature: seq<byte> := [0xFF, 0xD8]
  const Riff: seq<byte> := [0x52, 0x49, 0x46, 0x46]            // "RIFF"
  const WebPTag: seq<byte> := [0x57, 0x45, 0x42, 0x50]         // "WEBP"
  const Gif87a: seq<byte> := [0x47, 0x49, 0x46, 0x38, 0x37, 0x61]
  const Gif89a: seq<byte> := [0x47, 0x49, 0x46, 0x38, 0x39, 0x61]

  /** The optimiser's answer is used only when the tool ran, exited with 0,
      wrote a non-empty file and that file is strictly shorter than the input;
      every other outcome gives back the input. */
  function OptimizeWithExternalTool(run: ToolRun, data: seq<byte>): (r: seq<byte>)
    ensures |r| <= |data|
    ensures r != data ==> |r| < |data| && run == Exited(0, Some(r)) && r != []
    ensures !(run.Exited? && run.code == 0) ==> r == data
    ensures run.Exited? && run.output.Some? && run.output.value == [] ==> r == data
  {
    match run
    case ToolMissing => data
    case Faulted => data
    case Exited(code, output) =>
      if code != 0 then data
      else if output.None? || |output.value| == 0 then data
      else if |output.value| >= |data| then data
      else output.value
  }

  predicate IsPng(data: seq<byte>)
  {
    |data| > 8 &&
    data[0] == 0x89 && data[1] == 0x50 && data[2] == 0x4E && data[3] == 0x47 &&
    data[4] == 0x0D && data[5] == 0x0A && data[6] == 0x1A && data[7] == 0x0A
  }

  predicate IsJpeg(data: seq<byte>)
  {
    |data| > 2 && data[0] == 0xFF && data[1] == 0xD8
  }

  predicate IsWebP(data: seq<byte>)
  {
    |data| > 12 &&
    data[0] == 'R' as int && data[1] == 'I' as int && data[2] == 'F' as int && data[3] == 'F' as int &&
    data[8] == 'W' as int && data[9] == 'E' as int && data[10] == 'B' as int && data[11] == 'P' as int
  }

  predicate IsGif(data: seq<byte>)
  {
    if |data| < 6 then false
    else data[0] == 'G' as int && data[1] == 'I' as int && data[2] == 'F' as int &&
         data[3] == '8' as int && (data[4] == '7' as int || data[4] == '9' as int) &&
         data[5] == 'a' as int
  }

  /** Each detector, stated as a length guard plus a signature prefix. */
  lemma DetectorSignatures(data: seq<byte>)
    ensures IsPng(data) <==> |data| > 8 && PngSignature <= data
    ensures IsJpeg(data) <==> |data| > 2 && JpegSignature <= data
    ensures IsWebP(data) <==> |data| > 12 && Riff <= data && WebPTag <= data[8..]
    ensures IsGif(data) <==> (Gif87a <= data || Gif89a <= data)
  {
    if |data| > 8 && PngSignature <= data {
      assert forall i :: 0 <= i < 8 ==> data[i] == PngSignature[i];
    }
    if |data| > 12 && Riff <= data && WebPTag <= data[8..] {
      assert forall i :: 0 <= i < 4 ==> data[i] == Riff[i] && data[8 + i] == WebPTag[i];
    }
    if Gif87a <= data || Gif89a <= data {
      assert |data| >= 6;
      assert forall i :: 0 <= i < 6 && i != 4 ==> data[i] == Gif87a[i];
    }
  }

  /** The four detectors look at different first bytes, so at most one holds
      and the order in which Compress tries them does not matter. */
  lemma DetectorsExclusive(data: seq<byte>)
    ensures !(IsPng(data) && IsJpeg(data)) && !(IsPng(data) && IsWebP(data)) && !(IsPng(data) && IsGif(data))
    ensures !(IsJpeg(data) && IsWebP(data)) && !(IsJpeg(data) && IsGif(data)) && !(IsWebP(data) && IsGif(data))
  {
  }

  /** The format Compress recognises, trying PNG, JPEG, WebP and GIF in turn. */
  function Detect(data: seq<byte>): (f: Option<ImageFormat>)
    ensures f == Some(Png) <==> IsPng(data)
    ensures f == Some(Jpeg) <==> IsJpeg(data)
    ensures f == Some(WebP) <==> IsWebP(data)
    ensures f == Some(Gif) <==> IsGif(data)
    ensures f == None <==> !IsPng(data) && !IsJpeg(data) && !IsWebP(data) && !IsGif(data)
  {
    DetectorsExclusive(data);
    if IsPng(data) then Some(Png)
    else if IsJpeg(data) then Some(Jpeg)
    else if IsWebP(data) then Some(WebP)
    else if IsGif(data) then Some(Gif)
    else None
  }

  /** Compress never grows its input, returns unrecognised data unchanged, and
      returns something else only when the tool for the detected format
      produced strictly shorter non-empty output. */
  function Compress(tool: Tool, data: seq<byte>): (r: seq<byte>)
    ensures |r| <= |data|
    ensures Detect(data) == None ==> r == data
    ensures r != data ==> Detect(data).Some? && tool(Detect(data).value, data) == Exited(0, Some(r)) && 0 < |r| < |data|
  {
    match Detect(data)
    case None => data
    case Some(format) => OptimizeWithExternalTool(tool(format, data), data)
  }

  /** Decompress gives its input back untouched. */
  function Decompress(compressed: seq<byte>): (r: seq<byte>)
    ensures |r| == |compressed| && forall i :: 0 <= i < |r| ==> r[i] == compressed[i]
  {
    compressed
  }

  /** Decompress(Compress(x)) is x exactly when the optimiser's answer was
      not used; a tool that re-encodes a JPEG does not give the original
      bytes back. */
  lemma RoundTripOnlyWhenKept(tool: Tool, data: seq<byte>)
    ensures Decompress(Compress(tool, data)) == data <==> Compress(tool, data) == data
  {
  }

  /** A concrete JPEG and a tool that shortens it: the archive then holds
      bytes that differ from the original. */
  lemma OptimisedJpegIsNotTheOriginal()
    ensures var tool: Tool := (f, d) => Exited(0, Some([0xFF, 0xD8]));
            Decompress(Compress(tool, [0xFF, 0xD8, 0x00])) != [0xFF, 0xD8, 0x00]
  {
    var tool: Tool := (f, d) => Exited(0, Some([0xFF, 0xD8]));
    assert Detect([0xFF, 0xD8, 0x00]) == Some(Jpeg);
    assert Compress(tool, [0xFF, 0xD8, 0x00]) == [0xFF, 0xD8];
  }
}
