# dyncompressor, modelled in Dafny

dyncompressor is a Windows desktop archiver. It writes `.dcz` archives in
two ways. Ultra mode (`UltraModeManager.ProcessEntries`) reads every file in
chunks whose size grows with the file, and compresses each chunk with the
algorithm a per-chunk picker names; a cache keyed by the chunk's content
reuses earlier results. It then writes a version-3 archive: a version byte,
a file count patched in at the end, one entry per file with its chunk
records in index order, and the list of empty directories. The batch
writer (`ChunkCompressor.CompressFiles`) asks a decision engine how to
store each file: stored as it is, compressed whole, handed to the image
optimiser, or compressed chunk by chunk. Its archive has no version byte,
no flags byte and no directory list. `Form1.DecompressFiles` reads both
layouts back. Around these sit:

- the reversible RLE and delta preprocessors and their heuristics;
- the chunk profile (`ChunkAnalyzer`) and the "already compressed" test
  (`FileClassifier`);
- the image detectors;
- the algorithm choosers (`ChunkCompressorPicker`, `PreCompressionTester`,
  `DynamicCompressor`, `CompressionEngine`, `DecisionEngine`,
  `CompressionStrategySelector`);
- the chunkers;
- the two common-directory computations;
- the naming of the output archive.

The model has one module per component:

- `Common`, `Algorithms`, `Rle`, `Delta`, `ChunkAnalyzer`,
  `FileClassifier`, `LosslessImageCompressor`;
- `ChunkCompressorPicker`, `PreCompressionTester`, `DynamicCompressor`,
  `CompressionEngine`, `DecisionEngine`, `CompressionStrategySelector`,
  `FileChunker`;
- `Paths`, `Wire`, `Archive`, `UltraModeManager`, `ChunkCompressor`,
  `Extraction`, `UniqueNames`;
- `UltraRoundTrip`, which states the end-to-end round trip of Ultra mode.

Code that works step by step is modelled as methods with loops, or as
classes with fields. Each is proved against a specification function,
which in turn carries the lemmas.

The third-party codecs, the image optimiser, the entropy measure, the
logarithm and the path functions of the file system are parameters, never
axioms. A lemma that needs them to behave takes that as a hypothesis:

- `Lossless`: every library codec's inverse gives its input back;
- `ImagesKept`: the image optimiser returns its input unchanged.

The main results are:

- the Ultra archive read back gives every existing listed file, in list
  order, under its relative path with its content, and the empty
  directories (`UltraRoundTrip.UltraExtracts`);
- the batch archive is read back the same way when its first byte is not
  mistaken for a version, and always with a version byte of 1 in front
  (`ChunkCompressor.BatchExtracts`, `ChunkCompressor.BatchExtractsV1`);
- a version-3 archive and an unversioned one read back to their entries
  (`Archive.V3RoundTrip`, `Archive.UnversionedRoundTrip`);
- the delta preprocessor is a bijection (`Delta.DecodeEncode`,
  `Delta.EncodeDecode`);
- the RLE preprocessor round-trips on inputs without the byte FF
  (`Rle.RoundTripWithoutEscapeByte`);
- the choosers return the earliest shortest output
  (`DynamicCompressor.SmallestOutputWins`,
  `CompressionEngine.ScanFindsEarliestShortest`,
  `PreCompressionTester.ScanIsEarliestMinimum`);
- the archive's new name is the first candidate that names no existing
  file (`UniqueNames.GenerateUniqueFileName`).

`DecisionEngine.Decide` looks for an algorithm named
"LosslessImageCompressor" on its image branch. No algorithm has that name
(`DecisionEngine.ImageBranchFindsNothing`), so the image verdict never names
an algorithm. `ChunkCompressor` then looks up the "LosslessImage" candidate
itself, so the mismatch changes nothing in the archive. The model keeps both
steps as written.

## Model

| member | source | states |
|---|---|---|
| Algorithms.NamesDistinct | dyncompressor/Form1.cs:378-387 | the eight algorithm names are pairwise distinct and none is the STORE marker, so the reader's name lookup is unambiguous |
| Algorithms.NameBytesDistinct | dyncompressor/ChunkCompressor.cs:103-104 | the same for the bytes the writer stores for each name |
| Algorithms.Compress | dyncompressor/LZMACompressor.cs:11-32 | NoCompression gives its input back; the image compressor always produces an array no longer than its input; LZMA never throws and falls back to the raw input when the library throws; every other codec is the library call |
| Algorithms.Decompress | dyncompressor/NoCompression.cs:8 | the two in-program algorithms give their input back, the others are the library's inverse |
| Algorithms.NoCompressionRoundTrip | dyncompressor/NoCompression.cs:7-8 | NoCompression produces an array as long as its input, and decompressing it gives the input back, for every input |
| Algorithms.LibraryRoundTrip | dyncompressor/ICompressionAlgorithm.cs:9-14 | given reversible libraries, a library algorithm that produced an array decompresses back to its input |
| Algorithms.FindByName | dyncompressor/Form1.cs:385-387 | the lookup returns a listed algorithm stored under that name, or none exactly when no listed algorithm has that name |
| Algorithms.FindByNameFinds | dyncompressor/Form1.cs:385 | in any list, a member is found under its own name |
| Algorithms.RegistryLookup | dyncompressor/CompressionEngine.cs:8-19 | every algorithm is registered and found under its own name; STORE names none of them |
| ChunkAnalyzer.Entropy | dyncompressor/ChunkAnalyzer.cs:26-44 | the entropy of an empty array is 0; otherwise it is the abstract Shannon measure of the data |
| ChunkAnalyzer.ImageDataSignatures | dyncompressor/ChunkAnalyzer.cs:55-78 | data is image data exactly when it has at least four bytes and starts with one of the PNG, JPEG, BMP, GIF or TIFF signatures |
| ChunkAnalyzer.Analyze | dyncompressor/ChunkAnalyzer.cs:9-24 | the profile's four fields are the image test, the printable-text test, the repetition test and the entropy of the chunk |
| ChunkAnalyzer.Below | dyncompressor/ChunkAnalyzer.cs:51 | the set of byte values below n has n elements |
| ChunkAnalyzer.DistinctAtMost256 | dyncompressor/ChunkAnalyzer.cs:51 | a chunk holds at most 256 distinct byte values |
| ChunkAnalyzer.RepetitionByLength | dyncompressor/ChunkAnalyzer.cs:49-53 | an empty chunk never has repeats, and every chunk longer than 320 bytes does (256 < 0.8 × its length) |
| FileClassifier.ArchiveSignaturesCharacterise | dyncompressor/FileClassifier.cs:22-40 | a header is recognised exactly when it has at least four bytes and starts with a zip, RAR, 7z, PNG, JPEG, gzip or zlib signature |
| FileClassifier.Header | dyncompressor/FileClassifier.cs:108-110 | the 32-byte buffer holds the file's first bytes and zeros after them |
| FileClassifier.IsProbablyAlreadyCompressed | dyncompressor/FileClassifier.cs:101-121 | a listed extension answers yes; an unreadable or empty file without one answers no; otherwise the answer is the signature test of the zero-padded header |
| FileClassifier.ShortFilesReachSignatureTest | dyncompressor/FileClassifier.cs:108-113 | because of the zero padding, files of one or two bytes are still recognised by their signature |
| FileClassifier.HeaderOnlyReadsPrefix | dyncompressor/FileClassifier.cs:108-113 | only the first 32 bytes of a file decide the content test |
| FileClassifier.SampleFile | dyncompressor/FileClassifier.cs:60-98 | an unreadable file gives an empty sample; a file no longer than the sample size is returned whole; a longer one gives three sample-size windows at the start, around the middle and at the end; a negative sample size gives an empty sample |
| FileClassifier.Window | dyncompressor/FileClassifier.cs:82-84 | a read after a seek gives up to n bytes of the file from that position |
| Common.GetExtension | dyncompressor/FileClassifier.cs:105 | the extension is empty or a suffix of the path that starts with its last '.' and holds no separator and no other dot |
| Common.Lower | dyncompressor/ChunkCompressorPicker.cs:19 | lower-casing keeps the length and maps every character on its own |
| ChunkCompressorPicker.LowerExtension | dyncompressor/ChunkCompressorPicker.cs:19 | a null path has the empty extension |
| ChunkCompressorPicker.SelectBest | dyncompressor/ChunkCompressorPicker.cs:16-40 | executables are stored; otherwise images go to the image compressor, high-entropy binary data is stored, repetitive text goes to BZip2 and everything else to LZMA |
| ChunkCompressorPicker.SelectBestRange | dyncompressor/ChunkCompressorPicker.cs:16-40 | the picker returns one of NoCompression, LosslessImage, BZip2 and LZMA, and never stores a chunk of text raw unless its file is an executable |
| ChunkCompressorPicker.DllExtension | dyncompressor/ChunkCompressorPicker.cs:19-20 | the extension test ignores case: A.DLL has the extension .dll |
| ChunkCompressorPicker.ExtensionBeforeProfile | dyncompressor/ChunkCompressorPicker.cs:19-28 | the extension is tested before the content: an image chunk of a .DLL file is stored, the same chunk under a null path goes to the image compressor |
| PreCompressionTester.TestCompressionRatio | dyncompressor/PreCompressionTester.cs:11-25 | an empty sample, a null result or a throw give +infinity; otherwise the ratio is the compressed length over the sample length |
| PreCompressionTester.Ratios | dyncompressor/PreCompressionTester.cs:37 | one ratio per candidate, in candidate order |
| PreCompressionTester.ScanIsEarliestMinimum | dyncompressor/PreCompressionTester.cs:35-44 | the scan keeps the smallest ratio and the earliest candidate holding it, and finds nothing only when every ratio is +infinity |
| PreCompressionTester.ChooseBestSpec | dyncompressor/PreCompressionTester.cs:28-47 | the chosen candidate has the smallest ratio, strictly below the required one, every earlier candidate is strictly worse; nothing is chosen for an empty sample or list, when every test failed, or when no ratio beats the requirement |
| PreCompressionTester.ChooseBestCompressorBySample | dyncompressor/PreCompressionTester.cs:28-47 | the loop returns the position ChooseBestBySample specifies |
| Delta.Low | dyncompressor/DeltaPreprocessor.cs:16 | the byte cast keeps the value modulo 256 |
| Delta.DeltaEncoding | dyncompressor/DeltaPreprocessor.cs:7-20 | the encoding keeps the length and the first byte, and every later byte is the difference of two neighbours modulo 256 |
| Delta.DeltaDecoding | dyncompressor/DeltaPreprocessor.cs:22-35 | the decoding keeps the length, and each byte is the running sum modulo 256 of the deltas up to it |
| Delta.LowAddBack | dyncompressor/DeltaPreprocessor.cs:16 | adding back a difference modulo 256 restores the byte, and so does taking away a sum |
| Delta.DecodeEncode | dyncompressor/DeltaPreprocessor.cs:7-35 | decoding the encoding of any data gives the data back |
| Delta.PrefixSumOfDifferences | dyncompressor/DeltaPreprocessor.cs:29-32 | the running sum of the differences up to position i is the byte at i |
| Delta.EncodeDecode | dyncompressor/DeltaPreprocessor.cs:7-35 | encoding the decoding of any deltas gives the deltas back, so the two are mutually inverse |
| Delta.Encode | dyncompressor/DeltaPreprocessor.cs:7-20 | the array loop computes DeltaEncoding and returns the same empty array when given one |
| Delta.DifferencesEncode | dyncompressor/DeltaPreprocessor.cs:11-17 | an array filled position by position as the loop does is the encoding |
| Delta.RunningSumsDecode | dyncompressor/DeltaPreprocessor.cs:26-32 | an array of running sums is the decoding |
| Delta.Decode | dyncompressor/DeltaPreprocessor.cs:22-35 | the array loop computes DeltaDecoding and returns the same empty array when given one |
| Delta.SmallDeltas | dyncompressor/DeltaPreprocessor.cs:46-51 | among the first n bytes fewer than n neighbouring pairs are counted as close |
| Delta.WouldBenefit | dyncompressor/DeltaPreprocessor.cs:38-55 | no array under 100 bytes benefits; otherwise the answer is whether more than 60% of the neighbouring pairs in the first min(1000, length) bytes differ by less than 16 |
| Delta.AllCloseCount | dyncompressor/DeltaPreprocessor.cs:46-54 | when every pair in the sample is close, all n - 1 pairs are counted |
| Rle.Extend | dyncompressor/RlePreprocessor.cs:24-29 | the inner scan stops at the first different byte, at the end of the input or at 255 equal bytes |
| Rle.RunLength | dyncompressor/RlePreprocessor.cs:20-29 | a run counts between 1 and 255 bytes and never runs past the input |
| Rle.RunLengthMaximal | dyncompressor/RlePreprocessor.cs:20-29 | the run is made of equal bytes, and it is maximal unless it reached 255 |
| Rle.FirstPiece | dyncompressor/RlePreprocessor.cs:31-53 | the first step handles the leading run: a record for 4 to 255 bytes, literals for 1 to 3 |
| Rle.Pieces | dyncompressor/RlePreprocessor.cs:18-54 | a non-empty input starts with its first piece |
| Rle.PiecesWellFormed | dyncompressor/RlePreprocessor.cs:31-53 | every piece is a run of 4 to 255 bytes or 1 to 3 literals |
| Rle.PiecesExpand | dyncompressor/RlePreprocessor.cs:18-54 | the pieces, expanded, give the input back: the cut loses and adds nothing |
| Rle.PiecesMaximal | dyncompressor/RlePreprocessor.cs:24-29 | a piece shorter than 255 is never followed by a piece of the same value |
| Rle.EncodingEmitsPieces | dyncompressor/RlePreprocessor.cs:11-57 | the encoder's output is the emission of the pieces, one after the other |
| Rle.MeasureRun | dyncompressor/RlePreprocessor.cs:20-29 | the loop measures RunLength of the rest of the input |
| Rle.AppendLiterals | dyncompressor/RlePreprocessor.cs:42-51 | the literal loop appends each byte, with a literal FF written as FF 00 |
| Rle.Encode | dyncompressor/RlePreprocessor.cs:11-57 | the encoder returns Encoding of its input with the program's FF 00 escape, and the empty array for an empty input |
| Rle.Decode | dyncompressor/RlePreprocessor.cs:59-102 | the decoder returns Decoding of its input, and the empty array for an empty input |
| Rle.DecodeUnit | dyncompressor/RlePreprocessor.cs:66-98 | a readable literal is decoded as itself |
| Rle.DecodeLiteral | dyncompressor/RlePreprocessor.cs:66-98 | n readable literals decode to n copies of the byte |
| Rle.DecodeRecord | dyncompressor/RlePreprocessor.cs:68-80 | a record FF v n with n from 1 to 255 decodes to n copies of v |
| Rle.DecodeFirstRecord | dyncompressor/RlePreprocessor.cs:31-53 | the first emitted record decodes to the leading run |
| Rle.RoundTrip | dyncompressor/RlePreprocessor.cs:11-102 | decoding the encoding gives the input back when FF is escaped as a run record, or when the input holds no FF |
| Rle.RoundTripWithoutEscapeByte | dyncompressor/RlePreprocessor.cs:11-102 | with the program's escape, an input without FF round-trips |
| Rle.RoundTripCounterexample | dyncompressor/RlePreprocessor.cs:46-50 | [FF, 05] is encoded as FF 00 05, which decodes as five zero bytes, so the round trip fails |
| Rle.EscapedRoundTrip | dyncompressor/RlePreprocessor.cs:11-102 | with a literal FF written as the record FF FF 01, every input round-trips through the unchanged decoder |
| Rle.LiteralLength | dyncompressor/RlePreprocessor.cs:42-51 | n literals take n times the width of one |
| Rle.EncodingNoLonger | dyncompressor/RlePreprocessor.cs:31-53 | an input without FF is never lengthened by the encoder |
| Rle.LiteralEscapePattern | dyncompressor/RlePreprocessor.cs:46-50 | n literal FF bytes become n pairs FF 00 |
| Rle.LongRunSplits | dyncompressor/RlePreprocessor.cs:26 | a run longer than 255 bytes is cut: the first record covers exactly 255 bytes |
| Rle.MalformedTail | dyncompressor/RlePreprocessor.cs:87-92 | a trailing FF, or FF followed by a last non-zero byte, is copied as it is |
| Rle.RunsInBound | dyncompressor/RlePreprocessor.cs:109-128 | the runs counted cover at most the input, four bytes each |
| Rle.WouldBenefit | dyncompressor/RlePreprocessor.cs:105-132 | no input under 100 bytes benefits; otherwise the answer is whether the number of runs of 4 or more exceeds length / 100 × 5 |
| DynamicCompressor.DynamicCompressor.constructor | dyncompressor/DynamicCompressor.cs:18-21 | the compressor keeps the list it is given |
| DynamicCompressor.DynamicCompressor.CompressChunk | dyncompressor/DynamicCompressor.cs:23-48 | the loop returns Scan over all configured algorithms: a throw is skipped, a null answer is kept only as the first result, and a strictly shorter output replaces the result |
| DynamicCompressor.SmallestOutputWins | dyncompressor/DynamicCompressor.cs:27-47 | when no algorithm answers null, there is no result exactly when every algorithm threw; otherwise the result is the output of an algorithm, under its name, no longer than any other output and strictly shorter than those of all earlier algorithms |
| DynamicCompressor.Overtakes | dyncompressor/DynamicCompressor.cs:32-39 | a strictly shorter output becomes the new smallest |
| DynamicCompressor.StaysSmallest | dyncompressor/DynamicCompressor.cs:32 | an output no shorter leaves the smallest in place |
| DynamicCompressor.FirstOutput | dyncompressor/DynamicCompressor.cs:32-39 | after only throws, the first produced output becomes the smallest |
| DynamicCompressor.FirstNullSticks | dyncompressor/DynamicCompressor.cs:32-44 | when the first algorithm that does not throw answers null, its null result is returned whatever follows, because every later length comparison throws and is swallowed |
| DynamicCompressor.AllThrewGivesNone | dyncompressor/DynamicCompressor.cs:41-47 | when every algorithm throws, the result is null |
| CompressionEngine.ErrorEndsScan | dyncompressor/CompressionEngine.cs:30-39 | once an algorithm has thrown or answered null, the call fails with that error whatever follows |
| CompressionEngine.ScanFindsEarliestShortest | dyncompressor/CompressionEngine.cs:24-44 | the scan succeeds exactly when every algorithm produced an array, and it then holds the earliest of the shortest outputs |
| CompressionEngine.ScanReportsFirstFailure | dyncompressor/CompressionEngine.cs:30-33 | the error is that of the first algorithm to throw or answer null |
| CompressionEngine.CompressionEngine.constructor | dyncompressor/CompressionEngine.cs:8-22 | the engine holds the registry |
| CompressionEngine.CompressionEngine.Methods | dyncompressor/CompressionEngine.cs:45 | the methods are Gzip, Brotli, Deflate, Zip, None, BZip2, LZMA and the image compressor, in that order |
| CompressionEngine.CompressionEngine.CompressSmart | dyncompressor/CompressionEngine.cs:24-44 | the loop returns the earliest shortest output with the name of its algorithm, or the error of the first algorithm that threw or answered null |
| CompressionEngine.CompressSmartNoLonger | dyncompressor/CompressionEngine.cs:8-44 | a successful call over the registry returns an output no longer than its input, because NoCompression is registered, and no longer than any algorithm's output |
| DecisionEngine.FirstNamed | dyncompressor/DecisionEngine.cs:53 | the lookup returns a candidate with that name, or none exactly when no candidate has it |
| DecisionEngine.FirstLzmaLike | dyncompressor/DecisionEngine.cs:67 | the lookup returns a candidate whose lower-cased name contains "lzma" or "xz", or none exactly when no candidate's name does |
| DecisionEngine.BySize | dyncompressor/DecisionEngine.cs:46-63 | files of at most 128 KiB are compressed whole and larger ones in chunks |
| DecisionEngine.Decide | dyncompressor/DecisionEngine.cs:25-86 | the decision is never BinaryTransform; an already-compressed or unreadable file, or one whose sample's entropy is at least 7.2, is stored with no algorithm; for a readable, low-entropy file not recognised as compressed, ImageSpecial exactly for an image extension (and then with no algorithm, as no candidate carries the name looked for), and otherwise the sample test's outcome; an algorithm is chosen exactly for FullCompress (at most 128 KiB) and ChunkCompress (larger), and it is then a candidate whose sampled ratio is below 0.995 |
| DecisionEngine.TestedChoice | dyncompressor/DecisionEngine.cs:57-79 | the winner of the sample test at a required ratio of 0.99 is chosen, with FullCompress or ChunkCompress by size; with no winner, the file is stored exactly when there is no LZMA-like candidate or the first one's ratio is not below 0.995, and otherwise that candidate is chosen by size |
| DecisionEngine.ImageBranchFindsNothing | dyncompressor/DecisionEngine.cs:53 | no algorithm is named LosslessImageCompressor, so the image branch never chooses one |
| DecisionEngine.LzmaIsLzmaLike | dyncompressor/DecisionEngine.cs:67 | the LZMA compressor is found by the fallback lookup |
| CompressionStrategySelector.DecideForFile | dyncompressor/CompressionStrategySelector.cs:21-46 | a missing file is chunked; the result is FormatOptimized exactly for an existing image or audio file, and FullFile exactly for an existing other file under 200 MiB |
| CompressionStrategySelector.TallyBounds | dyncompressor/CompressionStrategySelector.cs:61-71 | the small and format-optimised counts never exceed the number of files, and a folder of unreadable files tallies nothing |
| CompressionStrategySelector.FolderDecision | dyncompressor/CompressionStrategySelector.cs:73-88 | 200 files or more, or mostly small files, are packed whole; FormatOptimized exactly when neither holds and more than a third are image or audio files; when none of these holds, Chunk exactly when the average length is at least 50 MiB and FullFile exactly when it is below |
| CompressionStrategySelector.DecideForFolder | dyncompressor/CompressionStrategySelector.cs:49-94 | an unlistable or empty folder is chunked; otherwise the loop's counts give FolderDecision over the folder's tally, so the whole rule ladder of FolderDecision holds for the returned strategy |
| CompressionStrategySelector.UnreadableFolderIsFullFile | dyncompressor/CompressionStrategySelector.cs:61-88 | a non-empty folder whose files all fail to be read is packed whole |
| LosslessImageCompressor.OptimizeWithExternalTool | dyncompressor/LosslessImageCompressor.cs:44-123 | the input is given back unless the tool exited with 0 and wrote a non-empty file strictly shorter than the input, which is then returned; the result is never longer than the input |
| LosslessImageCompressor.DetectorSignatures | dyncompressor/LosslessImageCompressor.cs:125-147 | the four tests are the PNG (more than 8 bytes), JPEG (more than 2), WebP (RIFF....WEBP, more than 12) and GIF87a/GIF89a signatures |
| LosslessImageCompressor.DetectorsExclusive | dyncompressor/LosslessImageCompressor.cs:125-147 | no data passes two of the four tests, so the order of the tests does not matter |
| LosslessImageCompressor.Detect | dyncompressor/LosslessImageCompressor.cs:15-28 | the format found is the one whose test the data passes, and none when it passes none |
| LosslessImageCompressor.Compress | dyncompressor/LosslessImageCompressor.cs:11-36 | the output is never longer than the input, unrecognised data is returned unchanged, and anything else comes from a successful run of the format's tool that is non-empty and strictly shorter |
| LosslessImageCompressor.Decompress | dyncompressor/LosslessImageCompressor.cs:38-42 | decompression gives its input back byte for byte |
| LosslessImageCompressor.RoundTripOnlyWhenKept | dyncompressor/LosslessImageCompressor.cs:11-42 | decompressing the compressed data gives the original exactly when the optimiser's output was not used |
| LosslessImageCompressor.OptimisedJpegIsNotTheOriginal | dyncompressor/LosslessImageCompressor.cs:18-19 | with a tool that shortens a JPEG, the bytes decompressed differ from the original |
| FileChunker.GetOptimalChunkSize | dyncompressor/FileChunker.cs:9-18 | the size is 512 KiB exactly below 10 MiB, 8 MiB exactly from 100 MiB, and 2 MiB between |
| FileChunker.ChunksConcat | dyncompressor/FileChunker.cs:35-44 | the chunks read put back together are the file |
| FileChunker.ChunksSizes | dyncompressor/FileChunker.cs:37-44 | every chunk is non-empty and at most a buffer long, and all but the last are exactly a buffer long |
| FileChunker.ChunksCount | dyncompressor/FileChunker.cs:37-44 | there are no more chunks than bytes and no chunk is longer than the file |
| FileChunker.SplitCovers | dyncompressor/FileChunker.cs:20-48 | the split of a file put back together is the file, and it has no more chunks than bytes, each non-empty |
| FileChunker.SplitFile | dyncompressor/FileChunker.cs:20-48 | the loop returns Split: an image is one chunk, another file the reads of a chunk-size buffer; the chunks cover the file, an empty file has none, and each is non-empty and at most the chunk size |
| Wire.U32Bytes | dyncompressor/ChunkCompressor.cs:121 | an Int32 is written as four bytes |
| Wire.Int32LE | dyncompressor/ChunkCompressor.cs:121 | every int written takes four bytes |
| Wire.ReadInt32 | dyncompressor/Form1.cs:327 | reading an Int32 fails at the end of the stream exactly when fewer than four bytes are left; otherwise it gives a 32-bit value and consumes four bytes |
| Wire.U32Digits | dyncompressor/ChunkCompressor.cs:121 | the four bytes are the little-endian digits of the value |
| Wire.Int32RoundTrip | dyncompressor/Form1.cs:327 | reading back an Int32 that was written gives the value and leaves what follows |
| Wire.ReadByte | dyncompressor/Form1.cs:311 | reading a byte fails exactly at the end of the stream, otherwise it gives the next byte |
| Wire.SevenBit | dyncompressor/ChunkCompressor.cs:82 | the length prefix of a string is at least one byte |
| Wire.ReadGroups | dyncompressor/Form1.cs:347 | reading a length prefix always consumes at least one byte |
| Wire.Read7BitInt | dyncompressor/Form1.cs:347 | reading a length prefix always consumes at least one byte |
| Wire.GroupsRoundTrip | dyncompressor/Form1.cs:347 | the groups of seven bits written are read back as the same number |
| Wire.SevenBitRoundTrip | dyncompressor/Form1.cs:347 | every length below 2^31 written as a prefix is read back unchanged |
| Wire.WriteString | dyncompressor/ChunkCompressor.cs:82 | a written string is longer than its bytes (it carries its length) |
| Wire.ReadString | dyncompressor/Form1.cs:347 | reading a string always consumes at least one byte |
| Wire.StringRoundTrip | dyncompressor/Form1.cs:347 | a written string shorter than 2^31 bytes is read back unchanged and leaves what follows |
| Wire.ReadBytes | dyncompressor/Form1.cs:366 | a negative count fails; otherwise the bytes taken and the rest make up the stream, exactly count bytes are taken when there are enough, and all that is left otherwise |
| Archive.SerializeV3 | dyncompressor/UltraModeManager.cs:202-258 | an Ultra archive starts with the version byte 3 and the number of file entries written |
| Archive.SerializeUnversioned | dyncompressor/ChunkCompressor.cs:65-184 | a batch archive starts with the number of file entries written, patched over the placeholder |
| Archive.ChunksBytesAppend | dyncompressor/ChunkCompressor.cs:142-172 | writing one more chunk record appends its bytes to what was written |
| Archive.FilesBytesAppend | dyncompressor/ChunkCompressor.cs:71-180 | writing one more file entry appends its bytes to what was written |
| Archive.StringsBytesAppend | dyncompressor/UltraModeManager.cs:254-255 | writing one more directory name appends its bytes |
| Archive.ChunksFitAll | dyncompressor/UltraModeManager.cs:218-225 | the chunk records fit the format when each one does |
| Archive.EntriesFitAll | dyncompressor/UltraModeManager.cs:209-235 | the file entries fit the format when each one does |
| Archive.ReadFlags | dyncompressor/Form1.cs:359-363 | the flags byte is read from version 3 on, and is 0 before |
| Archive.ReadChunkDataCases | dyncompressor/Form1.cs:365-371 | reading a chunk's data fails at the end of the stream before the size, fails on a negative size, reports a truncated chunk when fewer bytes than the size are left, and otherwise takes exactly size bytes |
| Archive.ReadChunkRecord | dyncompressor/Form1.cs:356-371 | a chunk record read from an archive before version 3 has flags 0 |
| Archive.ParseMany | dyncompressor/Form1.cs:345-354 | a successful parse of k items gives k items |
| Archive.ParseChunks | dyncompressor/Form1.cs:354-371 | a successful parse of a file's chunk records gives as many as its count says |
| Archive.ParseFiles | dyncompressor/Form1.cs:345-348 | a successful parse of the file entries gives as many as the archive's count says |
| Archive.ReadDirs | dyncompressor/Form1.cs:443-461 | the directory list holds at most the count read, and a failure ends it quietly |
| Archive.ReadDirList | dyncompressor/Form1.cs:441-462 | archives before version 2 carry no directory list |
| Archive.ReadVersion | dyncompressor/Form1.cs:306-325 | a first byte of at most 10 is taken as the version; otherwise, or for an empty archive, the version is 1 and the byte is read again as part of the file count |
| Archive.ParseArchive | dyncompressor/Form1.cs:303-462 | a parsed archive has the version the reader chose, and no directories before version 2 |
| Archive.ChunkRoundTrip | dyncompressor/Form1.cs:356-371 | a chunk record that fits the format reads back as written, given flags 0 when the version writes none |
| Archive.ChunksRoundTrip | dyncompressor/Form1.cs:354-371 | a file's chunk records read back as written |
| Archive.FileRoundTrip | dyncompressor/Form1.cs:347-354 | a file entry reads back as written |
| Archive.FilesRoundTrip | dyncompressor/Form1.cs:345-354 | the file entries read back as written |
| Archive.DirsRoundTrip | dyncompressor/Form1.cs:448-456 | the directory names read back as written |
| Archive.V3RoundTrip | dyncompressor/UltraModeManager.cs:202-258 | a version-3 archive whose lengths fit the format reads back as its file entries and its directory list |
| Archive.V3Layout | dyncompressor/UltraModeManager.cs:204-258 | the version byte, the count, the entries, the directory count and the names, in that order |
| Archive.DirListRoundTrip | dyncompressor/Form1.cs:441-462 | from version 2 on, the directory list reads back as written |
| Archive.UnversionedRoundTrip | dyncompressor/Form1.cs:306-327 | a batch archive reads back as version 1 when the low byte of its file count is above 10, so the reader rewinds |
| Archive.UnversionedReads | dyncompressor/Form1.cs:327-354 | read from its first byte, a batch archive gives its file count and then its entries |
| Archive.UnversionedMisread | dyncompressor/Form1.cs:311-316 | a batch archive with one file entry starts with the byte 1, which the reader takes for a version, and then fails at the end of the stream |
| Archive.SerializeV1 | dyncompressor/Form1.cs:306-316 | the batch layout behind a version byte 1 |
| Archive.V1RoundTrip | dyncompressor/Form1.cs:306-354 | the batch layout behind a version byte 1 always reads back, whatever the number of files |
| Extraction.UnfilterReverses | dyncompressor/Form1.cs:410-426 | undoing delta and then RLE reverses the documented order (RLE, then delta) when the RLE coding escapes FF as a run record, and a chunk without flags is left as it is |
| Extraction.ReadChunk | dyncompressor/Form1.cs:356-428 | the chunk loop's body reads the name, the flags from version 3 on, the size and the bytes, decompresses by name and reverses the preprocessing: it computes NextChunk |
| Extraction.ReadFile | dyncompressor/Form1.cs:347-437 | the file loop's body reads the path and the chunk count and rebuilds the chunks: it computes NextFile |
| Extraction.DecompressFiles | dyncompressor/Form1.cs:301-466 | the method leaves the files, the directories and the failure that Extract specifies |
| Extraction.ReadFiles | dyncompressor/Form1.cs:345-438 | the file loop writes what ExtractFiles specifies for the file count, none when it is negative |
| Extraction.RestoreDirectories | dyncompressor/Form1.cs:441-462 | the directory part restores ReadDirList: nothing before version 2, and the names read until the first failure from version 2 on |
| Extraction.ChunksAgree | dyncompressor/Form1.cs:354-428 | reading and decoding chunk by chunk fails whenever reading the records fails, and otherwise gives their decoded bytes joined, or the first decoding failure |
| Extraction.FileAgrees | dyncompressor/Form1.cs:347-437 | a file entry that cannot be read fails the file loop, and a readable one is rebuilt from its decoded chunks |
| Extraction.FilesAgree | dyncompressor/Form1.cs:345-438 | reading and rebuilding file by file agrees with decoding the parsed entries |
| Extraction.ExtractAgrees | dyncompressor/Form1.cs:301-462 | an archive that cannot be parsed always ends in a failure, and a parsed one gives exactly its decoded files and, when none failed, its directories |
| Extraction.DecodeFilesSpec | dyncompressor/Form1.cs:345-438 | the files written are those before the first failing one, each with its path and its decoded chunks; there is a failure exactly when not all were written, and it is that file's |
| Extraction.StoreRestores | dyncompressor/Form1.cs:378-382 | a STORE record without flags gives its bytes back |
| Extraction.NamedRestores | dyncompressor/Form1.cs:384-400 | a record without flags named after an algorithm gives back the input that algorithm compressed, given reversible libraries |
| Extraction.DecodeRestoring | dyncompressor/Form1.cs:352-428 | records that each restore a part decode to the parts joined |
| Extraction.OutcomeRebuilds | dyncompressor/Form1.cs:345-462 | an archive whose entries rebuild the expected files gives exactly those and its directories, with no failure |
| Extraction.ExtractV3 | dyncompressor/Form1.cs:301-462 | an Ultra archive whose entries rebuild the expected files is extracted to exactly those and its directories |
| Extraction.ExtractUnversioned | dyncompressor/Form1.cs:301-438 | a batch archive whose entries rebuild the expected files is extracted to exactly those when the low byte of its count is above 10 |
| Extraction.ExtractV1 | dyncompressor/Form1.cs:301-438 | the same entries behind a version byte 1 are always extracted to exactly the expected files |
| Paths.SameAsSeparator | dyncompressor/UltraModeManager.cs:289 | only a separator is equal to a separator up to case |
| Paths.MatchFrom | dyncompressor/UltraModeManager.cs:287-291 | the scan stops at the bound, at the end of either path, or at the first position where they differ up to case, and they agree before it |
| Paths.MatchLength | dyncompressor/ChunkCompressor.cs:202-205 | the inner loop computes MatchFrom from position 0 |
| Paths.AllAgreeAt | dyncompressor/UltraModeManager.cs:285-292 | the first path agrees with each other path up to the shared length |
| Paths.LastIndexAtOrBefore | dyncompressor/UltraModeManager.cs:294 | String.LastIndexOf from a start gives the last position at or before it holding the character, or -1 |
| Paths.Shared | dyncompressor/UltraModeManager.cs:283-292 | the common length never grows past its start |
| Paths.SharedAgrees | dyncompressor/UltraModeManager.cs:283-292 | the first path agrees with every other path up to the common length |
| Paths.UltraCommonDirectory | dyncompressor/UltraModeManager.cs:277-296 | as written: null exactly for no paths; an error exactly when the common length is the whole non-empty first path; otherwise the root or a prefix of the first path ending just before a separator at or before the common length |
| Paths.UltraGetCommonDirectory | dyncompressor/UltraModeManager.cs:277-296 | the loops compute UltraCommonDirectory |
| Paths.UltraSinglePathThrows | dyncompressor/UltraModeManager.cs:283-294 | one non-empty path makes String.LastIndexOf start past its end and throw |
| Paths.UltraPicksNonAncestor | dyncompressor/UltraModeManager.cs:294-295 | for C:\ab\x.txt and C:\abc.txt the search finds the separator right after the common prefix and returns C:\ab, which is not a folder above C:\abc.txt |
| Paths.UltraCommonDirectoryCorrected | dyncompressor/UltraModeManager.cs:277-296 | the search started one position earlier is null exactly for no paths and never fails |
| Paths.UltraCorrectedIsAncestor | dyncompressor/UltraModeManager.cs:277-296 | the corrected search gives the root or a folder above every path |
| Paths.KeptLength | dyncompressor/ChunkCompressor.cs:195 | the kept length stops before the trailing run of the character |
| Paths.TrimEnd | dyncompressor/ChunkCompressor.cs:195 | String.TrimEnd gives a prefix that does not end in the character, and only that character was cut |
| Paths.Trimmed | dyncompressor/ChunkCompressor.cs:195 | every path is stripped of its trailing separators |
| Paths.Smallest | dyncompressor/ChunkCompressor.cs:198-207 | the common length never grows past its start |
| Paths.SmallestAgrees | dyncompressor/ChunkCompressor.cs:198-207 | the first path agrees with every other path up to the common length |
| Paths.PrefixFolder | dyncompressor/ChunkCompressor.cs:209-216 | the folder kept is the root, or a prefix of the first path shorter than the common length and followed by a separator |
| Paths.BatchCommonDirectory | dyncompressor/ChunkCompressor.cs:191-217 | the common directory is null exactly for no paths |
| Paths.SmallestStep | dyncompressor/ChunkCompressor.cs:200-207 | one pass of the outer loop keeps the smaller of the two lengths |
| Paths.BatchGetCommonDirectory | dyncompressor/ChunkCompressor.cs:191-217 | the loops compute BatchCommonDirectory |
| Paths.PrefixFolderIsAncestor | dyncompressor/ChunkCompressor.cs:209-216 | the folder kept for a shared prefix is the root or a folder above the first path and all the others |
| Paths.BatchIsAncestor | dyncompressor/ChunkCompressor.cs:191-217 | the common directory is the root or a folder above every trimmed path |
| Paths.TrimmedEndsBefore | dyncompressor/ChunkCompressor.cs:216 | trimming a string that ends in the character removes at least that one |
| Paths.BatchSinglePathParent | dyncompressor/ChunkCompressor.cs:191-217 | one path gives its parent folder, trimmed, or the root when it holds no separator |
| UltraModeManager.PickChunkSize | dyncompressor/UltraModeManager.cs:261-269 | a file up to 64 KiB is read as one chunk of at least one byte; a larger file gets a chunk size between 64 KiB and 2 MiB |
| UltraModeManager.PickChunkSizeSaturates | dyncompressor/UltraModeManager.cs:266-268 | once the base-2 logarithm of size + 1 reaches 26 the chunk size is the 2 MiB maximum |
| UltraModeManager.FileJobs | dyncompressor/UltraModeManager.cs:107-123 | every job queued for a file carries that file's path |
| UltraModeManager.FileJobsChunks | dyncompressor/UltraModeManager.cs:107-123 | the producer's reads of a file are exactly the chunks the file chunker cuts it into, in order |
| UltraModeManager.FileJobsCover | dyncompressor/UltraModeManager.cs:107-123 | the chunks queued for a file concatenate back to its content and carry the indices 0, 1, 2, ... |
| UltraModeManager.Queued | dyncompressor/UltraModeManager.cs:87-125 | every queued job belongs to a file with a registered result, and every result starts with no records |
| UltraModeManager.QueuedNext | dyncompressor/UltraModeManager.cs:89-124 | a listed file that does not exist is skipped; one that exists registers its relative path and size and queues its chunks |
| UltraModeManager.Producer | dyncompressor/UltraModeManager.cs:85-128 | the producer's loops queue exactly the jobs and register exactly the results that Queued describes |
| UltraModeManager.ReadChunks | dyncompressor/UltraModeManager.cs:105-124 | the read loop queues the file's chunks with indices counting from 0 |
| UltraModeManager.ReadStep | dyncompressor/UltraModeManager.cs:111-122 | one read takes the next chunk-size bytes, or all that is left, and the remaining jobs continue from there |
| UltraModeManager.KeepShorter | dyncompressor/UltraModeManager.cs:170-195 | the run fails exactly when the algorithm throws; a null or not-shorter output is stored as it is; a strictly shorter output is kept under the algorithm's name; flags are always zero and the record never exceeds the chunk |
| UltraModeManager.FreshRecord | dyncompressor/UltraModeManager.cs:152-195 | an executable's chunk is stored; every record is the chunk stored or a strictly shorter output of BZip2, LZMA or the image optimiser; only a throwing BZip2 fails |
| UltraModeManager.Distribute | dyncompressor/UltraModeManager.cs:143-147 | handing records to the files' results keeps the same set of files |
| UltraModeManager.EncodeLength | dyncompressor/UltraModeManager.cs:134-196 | a successful pass gives one record per job |
| UltraModeManager.EncodeFails | dyncompressor/UltraModeManager.cs:134-196 | once a job fails the whole run fails with that error |
| UltraModeManager.EncodeNext | dyncompressor/UltraModeManager.cs:139-195 | the next job reuses the cached record for its content, otherwise makes a fresh one and caches it, or fails with its error |
| UltraModeManager.DistributeNext | dyncompressor/UltraModeManager.cs:143-147 | the next record is appended to its own file's result with its chunk index |
| UltraModeManager.EncodeHit | dyncompressor/UltraModeManager.cs:141-150 | a cache hit appends the cached record and leaves the cache as it is |
| UltraModeManager.EncodeFresh | dyncompressor/UltraModeManager.cs:152-195 | a miss appends the fresh record and caches it under the chunk's content |
| UltraModeManager.Workers | dyncompressor/UltraModeManager.cs:131-197 | the workers' loop gives exactly the results and cache of the queue-order pass Work, or its first error |
| UltraModeManager.CachedStep | dyncompressor/UltraModeManager.cs:141-195 | after each job every record so far is the one cached for its chunk's content |
| UltraModeManager.MadeStep | dyncompressor/UltraModeManager.cs:155-187 | caching a properly made record keeps every cached record properly made |
| UltraModeManager.EncodeMade | dyncompressor/UltraModeManager.cs:134-196 | every cached record was made from its key, and every record is the cached one for its chunk |
| UltraModeManager.RecordsMade | dyncompressor/UltraModeManager.cs:134-196 | each chunk's record, fresh or reused, is the chunk stored or a strictly shorter output of an algorithm on that very chunk |
| UltraModeManager.DllIsExecutable | dyncompressor/UltraModeManager.cs:53-57 | the extension test ignores case: A.DLL is an executable |
| UltraModeManager.SecondReuses | dyncompressor/UltraModeManager.cs:141-150 | a second chunk with the same content reuses the first one's record without compressing again |
| UltraModeManager.CachedBeforeExecutable | dyncompressor/UltraModeManager.cs:141-164 | the cache is consulted before the executable test: an executable's chunk that matches an earlier compressed chunk gets the compressed record, not STORE |
| UltraModeManager.InsertPermutes | dyncompressor/UltraModeManager.cs:218 | inserting one piece into a sorted list keeps every piece and adds it |
| UltraModeManager.InsertAtMost | dyncompressor/UltraModeManager.cs:218 | inserting a piece with index at most n keeps every index at most n |
| UltraModeManager.SortedPrefix | dyncompressor/UltraModeManager.cs:218 | a prefix of a sorted list is sorted and bounded by the next piece's index |
| UltraModeManager.InsertSorted | dyncompressor/UltraModeManager.cs:218 | insertion keeps a list sorted by chunk index |
| UltraModeManager.SortByIndexPermutes | dyncompressor/UltraModeManager.cs:218 | ordering the chunks by index is a permutation of them |
| UltraModeManager.SortByIndexSorted | dyncompressor/UltraModeManager.cs:218 | the chunks come out ordered by index |
| UltraModeManager.SortedUnchanged | dyncompressor/UltraModeManager.cs:218 | chunks already in index order are left as they are |
| UltraModeManager.RecordsOf | dyncompressor/UltraModeManager.cs:218-225 | the records written are the pieces' records, position by position |
| UltraModeManager.Write | dyncompressor/UltraModeManager.cs:209-235 | at most one entry per listed file, one progress event per entry, and the same set of results |
| UltraModeManager.WriteReports | dyncompressor/UltraModeManager.cs:227-232 | each progress event names its entry's path, the total of its stored lengths and the running count 1, 2, 3, ... |
| UltraModeManager.WriteClears | dyncompressor/UltraModeManager.cs:234 | every listed file's records are cleared once it is written |
| UltraModeManager.WriteChunks | dyncompressor/UltraModeManager.cs:216-225 | the loop writes each record's name, flags, length and data in order and totals the stored lengths |
| UltraModeManager.WriteDirs | dyncompressor/UltraModeManager.cs:254-255 | the loop writes each empty directory's string in order |
| UltraModeManager.WriteNext | dyncompressor/UltraModeManager.cs:209-235 | a listed file without a result is skipped; one with a result adds its entry in index order, its progress event and clears its records |
| UltraModeManager.AppendEntry | dyncompressor/UltraModeManager.cs:209-235 | writing one more entry after the earlier ones is the bytes of the longer entry list |
| UltraModeManager.Writer | dyncompressor/UltraModeManager.cs:202-258 | the writer's loops produce exactly the version-3 archive of Write's entries and the empty directories, Write's progress events and cleared results |
| UltraModeManager.Patched | dyncompressor/UltraModeManager.cs:257-258 | seeking to offset 1 and writing the count replaces bytes 1 to 4 with it and nothing else |
| UltraModeManager.PatchedLayout | dyncompressor/UltraModeManager.cs:202-258 | a zero placeholder patched with the number of entries gives the version-3 layout |
| UltraModeManager.ProcessEntries | dyncompressor/UltraModeManager.cs:59-259 | the run is the producer, the workers and the writer in sequence; an empty list fails; a successful archive starts with format version 3 |
| UniqueNames.NameStart | dyncompressor/Form1.cs:485 | the file name starts just after the last separator, and no separator follows that point |
| UniqueNames.FileName | dyncompressor/Form1.cs:485 | the file name is the separator-free tail of the path, preceded by a separator when it is not the whole path |
| UniqueNames.LastDot | dyncompressor/Form1.cs:485 | the position found holds the last '.', or there is none |
| UniqueNames.NameWithoutExtension | dyncompressor/Form1.cs:485 | the stem is the whole file name when it has no '.', otherwise the part before its last '.' |
| UniqueNames.Combine | dyncompressor/Form1.cs:487 | the path is the folder, at most one separator and the name |
| UniqueNames.CombineInjective | dyncompressor/Form1.cs:487 | within one folder different names give different paths |
| UniqueNames.Digit | dyncompressor/Form1.cs:491 | the character is the decimal digit of the value |
| UniqueNames.DecimalString | dyncompressor/Form1.cs:491 | a counter is written with one digit exactly when it is below 10, ending in its last digit |
| UniqueNames.DecimalStringInjective | dyncompressor/Form1.cs:491 | different counters are written differently |
| UniqueNames.Candidate | dyncompressor/Form1.cs:486-491 | the first name tried is stem_suffix.ext, the later ones stem_suffix(counter).ext |
| UniqueNames.CandidateInjective | dyncompressor/Form1.cs:486-491 | different counters give different names |
| UniqueNames.CandidatePathInjective | dyncompressor/Form1.cs:486-492 | different counters give different paths, so the search meets a new path each round |
| UniqueNames.TriedSize | dyncompressor/Form1.cs:488-493 | n rounds have tried n different paths |
| UniqueNames.NotYetTried | dyncompressor/Form1.cs:488-493 | a later counter's path has not been tried before |
| UniqueNames.TriedExist | dyncompressor/Form1.cs:489 | every path tried so far exists, which bounds the rounds by the number of existing files |
| UniqueNames.GenerateUniqueFileName | dyncompressor/Form1.cs:482-495 | the loop ends on the first candidate path that names no existing file, in the folder of the base path or the current one |
| UltraRoundTrip.MadeRestores | dyncompressor/Form1.cs:378-405 | a chunk stored or compressed by BZip2 or LZMA is given back by the reader when the libraries are reversible |
| UltraRoundTrip.ImageRecordDiffers | dyncompressor/LosslessImageCompressor.cs:38-42 | a record the image optimiser made reads back as the optimised bytes, which differ from the chunk |
| UltraRoundTrip.MadeSound | dyncompressor/UltraModeManager.cs:152-195 | with images kept every record a worker makes restores its chunk and fits the Int32 length fields |
| UltraRoundTrip.QueuedRegistered | dyncompressor/UltraModeManager.cs:89-99 | with no two paths equal up to case, each existing listed file is registered with its relative path, its size and no records |
| UltraRoundTrip.QueuedResults | dyncompressor/UltraModeManager.cs:87-99 | a listed file has a result exactly when it exists |
| UltraRoundTrip.QueuedKeys | dyncompressor/UltraModeManager.cs:87-99 | every result belongs to a listed file that exists |
| UltraRoundTrip.QueuedBound | dyncompressor/UltraModeManager.cs:108-115 | no queued chunk is longer than the 2 MiB maximum |
| UltraRoundTrip.RestoringSplit | dyncompressor/UltraModeManager.cs:134-196 | records that restore a joined job list restore each part |
| UltraRoundTrip.PiecesOf | dyncompressor/UltraModeManager.cs:145-146 | each job's record is filed under its chunk index |
| UltraRoundTrip.KeyedInit | dyncompressor/UltraModeManager.cs:143 | the earlier jobs of a list whose files are registered have their files registered too |
| UltraRoundTrip.DistributeLast | dyncompressor/UltraModeManager.cs:143-147 | the last job's record is appended to its own file's result after the earlier ones |
| UltraRoundTrip.DistributeAppend | dyncompressor/UltraModeManager.cs:143-147 | handing out the records of two job lists is handing out the first, then the second |
| UltraRoundTrip.DistributeOneFile | dyncompressor/UltraModeManager.cs:143-147 | the jobs of one file append their pieces, in order, to that file's result alone |
| UltraRoundTrip.PiecesGathered | dyncompressor/UltraModeManager.cs:107-147 | one file's pieces carry indices 0, 1, 2, ... and each restores the chunk read at that index |
| UltraRoundTrip.KeyedSplit | dyncompressor/UltraModeManager.cs:143 | both parts of a registered job list are registered |
| UltraRoundTrip.DistributedUpdate | dyncompressor/UltraModeManager.cs:143-147 | giving one more file its gathered pieces leaves the other files' results as they were |
| UltraRoundTrip.FileStep | dyncompressor/UltraModeManager.cs:107-147 | one file's jobs leave its result holding its gathered pieces |
| UltraRoundTrip.DistributeFiles | dyncompressor/UltraModeManager.cs:131-197 | after the workers each existing file's result holds the pieces of its own chunks and no other |
| UltraRoundTrip.GatheredReady | dyncompressor/UltraModeManager.cs:218-225 | gathered pieces are already in index order, so the writer emits them as gathered, and every length fits |
| UltraRoundTrip.Expected | dyncompressor/Form1.cs:345-438 | at most one rebuilt file per listed path: each existing one under its relative path with its content |
| UltraRoundTrip.WriteFiles | dyncompressor/UltraModeManager.cs:209-235 | the entries written rebuild exactly the expected files, and a file not yet reached keeps its result |
| UltraRoundTrip.WorkedReady | dyncompressor/UltraModeManager.cs:131-197 | once the workers finish, each existing file's result is ready for the writer and the other listed files have none |
| UltraRoundTrip.UltraExtracts | dyncompressor/UltraModeManager.cs:59-259 | reading the archive Ultra mode writes gives back every existing listed file in list order, under its relative path with its content, and the empty directories |
| ChunkCompressor.Picked | dyncompressor/ChunkCompressor.cs:30-31 | the picker only ever names NoCompression, the image optimiser, BZip2 or LZMA |
| ChunkCompressor.CompressedChunks | dyncompressor/ChunkCompressor.cs:22-41 | a successful call lists one output per chunk |
| ChunkCompressor.CompressedChunksFail | dyncompressor/ChunkCompressor.cs:27-38 | once a chunk's compressor throws the whole call fails with that exception |
| ChunkCompressor.CompressedChunksStep | dyncompressor/ChunkCompressor.cs:27-38 | the next chunk either throws out of the call or appends its algorithm's name and output |
| ChunkCompressor.CompressFile | dyncompressor/ChunkCompressor.cs:22-41 | a missing file fails with FileNotFound; otherwise the loop lists each of the file's chunks, in order, with its picked algorithm's output |
| ChunkCompressor.CompressedChunksThrow | dyncompressor/ChunkCompressor.cs:22-41 | the only exception that can escape is BZip2's |
| ChunkCompressor.ListedAt | dyncompressor/ChunkCompressor.cs:27-38 | the element at each position lists that position's chunk under the picker's algorithm |
| ChunkCompressor.CompressedChunksRestore | dyncompressor/ChunkCompressor.cs:22-41 | with reversible libraries every listed output decompresses back to its chunk with the algorithm named beside it, except where LZMA's library threw |
| ChunkCompressor.CompressedChunksListed | dyncompressor/ChunkCompressor.cs:22-41 | every element of a successful list lists its own chunk |
| ChunkCompressor.LastListed | dyncompressor/ChunkCompressor.cs:27-38 | the list for all chunks extends the list for all but the last one by the last chunk's element |
| ChunkCompressor.ChunkRestores | dyncompressor/LZMACompressor.cs:11-32 | what an algorithm produced for a chunk decompresses back to it, except LZMA's fallback to the raw chunk when its library throws |
| ChunkCompressor.ChunkRecords | dyncompressor/ChunkCompressor.cs:136-173 | a successful chunk loop gives one record per chunk; the only failure is BZip2 throwing |
| ChunkCompressor.ChunkRecordsFail | dyncompressor/ChunkCompressor.cs:142-172 | once a chunk's compressor throws the file fails with that exception |
| ChunkCompressor.ChunkRecordsStep | dyncompressor/ChunkCompressor.cs:142-172 | the next chunk either throws out of the file or appends the record kept for it |
| ChunkCompressor.Engine | dyncompressor/ChunkCompressor.cs:48-58 | each file is judged by the decision engine over the candidates in CompressFiles' order |
| ChunkCompressor.AlreadyCompressedStored | dyncompressor/ChunkCompressor.cs:83-94 | a file that already looks compressed is written as one STORE record of its content |
| ChunkCompressor.FileRecords | dyncompressor/ChunkCompressor.cs:83-173 | storing, the image path and whole-file compression each write one record; only a compressing verdict can fail, with the compressor's exception |
| ChunkCompressor.FileWriter | dyncompressor/ChunkCompressor.cs:83-173 | the records written for a file are those of the decision engine's verdict on it |
| ChunkCompressor.Listed | dyncompressor/ChunkCompressor.cs:73-83 | a listed path gives nothing exactly when it is a folder, and an entry only when it is a file |
| ChunkCompressor.Compressed | dyncompressor/ChunkCompressor.cs:71-180 | at most one entry per listed path, and one progress report per entry |
| ChunkCompressor.CompressedFail | dyncompressor/ChunkCompressor.cs:71-180 | a failure on the paths so far is the failure of the whole run |
| ChunkCompressor.CompressedMissing | dyncompressor/ChunkCompressor.cs:80 | a listed path that is neither folder nor file ends the run with FileNotFound |
| ChunkCompressor.Batched | dyncompressor/ChunkCompressor.cs:43-189 | an empty list is refused with an error |
| ChunkCompressor.CompressedReports | dyncompressor/ChunkCompressor.cs:175-178 | each progress report names its entry, totals its record lengths and counts the files written so far |
| ChunkCompressor.OneRecord | dyncompressor/ChunkCompressor.cs:85-135 | an entry of a single record is the path, a count of 1 and that record, and its stored length is the record's |
| ChunkCompressor.WriteChunked | dyncompressor/ChunkCompressor.cs:136-173 | the chunk loop writes exactly the bytes of ChunkRecords' records and their total length, or fails with its exception |
| ChunkCompressor.WriteFile | dyncompressor/ChunkCompressor.cs:83-173 | the bytes written for a file are its entry under FileRecords and the total length, or the compressor's exception |
| ChunkCompressor.Advance | dyncompressor/ChunkCompressor.cs:71-180 | one more listed path: its exception ends the run, a folder changes nothing, a file appends its entry, its bytes and its progress report |
| ChunkCompressor.CompressEntry | dyncompressor/ChunkCompressor.cs:73-179 | the loop body gives nothing for a folder, FileNotFound for a missing path, otherwise the file's entry bytes or the compressor's exception |
| ChunkCompressor.PatchedCount | dyncompressor/ChunkCompressor.cs:182-183 | writing the count at offset 0 over the placeholder gives the unversioned layout |
| ChunkCompressor.WriteEntries | dyncompressor/ChunkCompressor.cs:71-180 | the foreach produces exactly the output, count and reports of Compressed, or its first exception |
| ChunkCompressor.CompressFiles | dyncompressor/ChunkCompressor.cs:43-189 | the method's output is exactly the batch run Batched describes, failing on an empty list |
| ChunkCompressor.KeepShorterRestores | dyncompressor/ChunkCompressor.cs:142-172 | a record kept from an algorithm's output reads back as its chunk, carries no flags and fits the Int32 fields |
| ChunkCompressor.ChunkRecordsRestore | dyncompressor/ChunkCompressor.cs:136-173 | every record of a chunked file reads back as its own chunk |
| ChunkCompressor.KeptDecodes | dyncompressor/Form1.cs:354-429 | records that each read back as one part decode, one after the other, to the parts joined |
| ChunkCompressor.SingleBuilt | dyncompressor/Form1.cs:345-438 | a file of one record that reads back as its content is rebuilt by the reader |
| ChunkCompressor.ChunkedBuilt | dyncompressor/ChunkCompressor.cs:136-173 | a file cut into chunks is rebuilt from its chunk records |
| ChunkCompressor.FileRecordsRestore | dyncompressor/ChunkCompressor.cs:83-173 | whatever the verdict, the records written for a file are rebuilt into its content |
| ChunkCompressor.Expected | dyncompressor/ChunkCompressor.cs:71-180 | at most one rebuilt file per listed path: each file that is not a folder, under its relative path |
| ChunkCompressor.CompressedRebuilds | dyncompressor/ChunkCompressor.cs:71-180 | the entries of a batch rebuild the expected files, one for one |
| ChunkCompressor.BatchExtracts | dyncompressor/Form1.cs:306-325 | a batch archive whose first count byte is above 10 is read back as the expected files |
| ChunkCompressor.BatchExtractsV1 | dyncompressor/Form1.cs:306-325 | with a version byte of 1 in front the batch archive is read back as the expected files whatever their count |
| Archive.ChunkReads | dyncompressor/Form1.cs:356-371 | a chunk record is its method name, its flags byte (version 3 on) and its length-prefixed data, read in that order |
| Archive.FileReads | dyncompressor/Form1.cs:347-354 | a file entry is its path, its chunk count and that many chunk records, read in that order |
| Archive.ArchiveReads | dyncompressor/Form1.cs:306-348 | an archive is its version, its file count, that many entries and the directory list, read in that order |
| Archive.ChunksHead | dyncompressor/Form1.cs:356-371 | the first of the records written reads back, leaving the others' bytes |
| Archive.FilesHead | dyncompressor/Form1.cs:347-354 | the first of the entries written reads back, leaving the others' bytes |
| Extraction.ChunksNext | dyncompressor/Form1.cs:354-429 | after a chunk that is read and decoded, the file's content is that chunk followed by the rest |
| Extraction.ChunksFail | dyncompressor/Form1.cs:365-405 | a chunk that cannot be read or decoded ends the file with that error |
| Extraction.FilesNext | dyncompressor/Form1.cs:345-438 | after a file that is read and rebuilt, the files written are that file followed by the rest |
| Extraction.FilesFail | dyncompressor/Form1.cs:345-438 | a file that cannot be read ends the extraction with that error after the files already written |
| FileChunker.ChunksStep | dyncompressor/FileChunker.cs:39-44 | each read takes as much as the buffer holds, or what is left, and the rest is chunked the same way |
| Rle.LeadingRun | dyncompressor/RlePreprocessor.cs:20-29 | the leading run is the repetition of the first byte, followed by what comes after it |

## Left out

- The compression libraries (Gzip, Brotli, Deflate, Zip, BZip2, LZMA): a `Library` value gives what each compresses to and decompresses to, or that it threw. Their reversibility is the hypothesis `Lossless`, not a fact of the model.
- The external image optimiser: process start, tool arguments, exit codes and temporary files are inside the `tool` parameter. Only the rule that its output is kept when strictly shorter is modelled. A LosslessImage record reads back as the optimised bytes, not the original (`LosslessImageCompressor.OptimisedJpegIsNotTheOriginal`, `UltraRoundTrip.ImageRecordDiffers`), so the archive round trips assume `ImagesKept`.
- Concurrency: the producer task, the worker tasks, the BlockingCollection, the locks and the ConcurrentDictionary are modelled as one sequential pass in queue order. Races such as two workers compressing equal content at once are not modelled. The round trip assumes no two listed paths are equal when case is ignored, because the shared results dictionary merges such paths in an order that depends on scheduling.
- SHA-256: the cache is keyed by the chunk's bytes, which is the same as a hash without collisions.
- Floating point:
  - Shannon entropy (`ChunkAnalyzer.CalculateEntropy`, `FileClassifier.ShannonEntropy`) is a parameter, and so is `Math.Log` in `PickChunkSize`.
  - Ratios and the thresholds 0.6, 0.8, 0.99 and 0.995 are exact rationals or integer cross-multiplications; double rounding is not modelled.
  - The cast of the chunk size to int is `Floor` of a non-negative real.
- The file system: files are a map from path to content, plus a set of folders or of existing paths.
  - `File.Exists`, `FileInfo.Length` and the reads are lookups in that map. `Stream.Read` is taken to fill its buffer except at the end of the file; short reads are not modelled, nor is the memory-mapped stream used for large files.
  - `File.Create`, `Flush`, the temporary file and its `Move`/`Delete`, `Directory.CreateDirectory` and the output folder are not modelled. A file that DecompressFiles writes is its relative path and its bytes.
- Empty-directory discovery in Ultra mode (`Directory.GetDirectories`, `EnumerateFileSystemEntries` and the swallowed exceptions) is the `emptyDirs` parameter, in the order the HashSet enumerates it.
- Path functions: `Path.GetFullPath` is not part of this model; paths are taken as already full. `Path.GetPathRoot`, `Path.GetRelativePath`, `Path.GetDirectoryName` and the current directory are parameters. `Path.Combine` is modelled only for a second argument that is not rooted.
- Strings: archive strings are their encoded bytes, and the UTF-8 encoding is not modelled. `ToLowerInvariant` and the case-insensitive comparisons fold ASCII letters only.
- Integer widths: counters, lengths and sizes are unbounded. Int32 overflow of a length field, of the file count or of GenerateUniqueFileName's counter is not modelled; the round-trip lemmas require every length to fit its Int32 field (`UltraRoundTrip.Fits`, `Archive.ChunksFitAll`).
- Null arguments: the preprocessors' and selectors' null checks are not modelled, because no caller in the core passes null. Empty inputs are modelled.
- Branches that cannot be reached are not modelled:
  - the `?? compressors.First()` fallback after the picker in Ultra mode, and the STORE branch for a null picker result in CompressFiles, because `SelectBest` never returns null (`ChunkCompressorPicker.SelectBestRange`);
  - the sample-test and first-candidate fallbacks for FullCompress in CompressFiles, because a FullCompress verdict always names its algorithm.
- Configuration: `MaxDegreeOfParallelism`, `ProducerQueueCapacity` and `MemoryMapThreshold` only affect scheduling and I/O. `EnableRlePreprocessing` and `EnableDeltaPreprocessing` are never read by the writers, so every record's flags byte is 0.
- Console output, progress-bar updates, MessageBox, `FormatSize`, the savings and time-remaining arithmetic, and the texts of exception messages are not modelled. Each failure is an `Error` value.
- UltraModeManager.ProcessEntries: an empty file list fails with `NoFiles`. The source throws ArgumentOutOfRangeException at `files[0]` instead; both end the run.
- UltraModeManager.ProcessEntries: uses the corrected common directory (see Findings). The source throws on a single path and can pick a folder that is not above every file.
- ChunkCompressor.CompressedChunksRestore: states the round trip except where LZMA's library threw, because `LZMACompressor.Compress` then returns the raw chunk under the LZMA name and that chunk does not decompress.
- Form1's other handlers (drag and drop, the list view, the buttons, the folder dialog, icon extraction) are not part of this model.

## Findings

| source | as written | input that shows it | evidently intended | confidence | as-written member | corrected member |
|---|---|---|---|---|---|---|
| dyncompressor/RlePreprocessor.cs:46-50 | a literal FF is written as FF 00, but the decoder tests for a run record before the literal escape | [FF, 05] is encoded as FF 00 05, which decodes to five 00 bytes | decoding gives back every encoded input | not executed | Rle.RoundTripCounterexample | Rle.EscapedRoundTrip |
| dyncompressor/UltraModeManager.cs:294 | `LastIndexOf(separator, len)` with len equal to the first path's length | a single path, or several equal paths: String.LastIndexOf throws ArgumentOutOfRangeException | the folder holding the file | not executed | Paths.UltraSinglePathThrows | Paths.UltraCommonDirectoryCorrected |
| dyncompressor/UltraModeManager.cs:294 | the backward search for a separator starts at the position just after the common prefix | C:\ab\x.txt and C:\abc.txt give C:\ab, which is not a folder above C:\abc.txt | a folder above every listed path | not executed | Paths.UltraPicksNonAncestor | Paths.UltraCorrectedIsAncestor |
| dyncompressor/ChunkCompressor.cs:67 | the batch archive starts with the file count and no version byte, and the reader takes a first byte up to 10 as the version | a batch archive of one file starts with 01 00 00 00: the 01 is taken as version 1 and the count is read from the next four bytes | the batch archive read back as version 1 whatever its count | not executed | Archive.UnversionedMisread | ChunkCompressor.BatchExtractsV1 |
