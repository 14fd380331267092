/** FileChunker: the chunk size for a file and the split of a file into
    chunks of that size, read one buffer at a time. */
module FileChunker {
  import opened Common
  import ChunkAnalyzer

  const MB: nat := 1024 * 1024

  /** FileChunker.GetOptimalChunkSize: 512 KiB below 10 MiB, 2 MiB below
      100 MiB, 8 MiB otherwise. */
  function GetOptimalChunkSize(fileSize: int): (n: nat)
    ensures n == 512 * 1024 || n == 2 * MB || n == 8 * MB
    ensures fileSize < 10 * MB <==> n == 512 * 1024
    ensures fileSize >= 100 * MB <==> n == 8 * MB
  {
    if fileSize < 10 * MB then 512 * 1024
    else if fileSize < 100 * MB then 2 * MB
    else 8 * MB
  }

  /** Consecutive reads of size bytes each: every chunk but the last is full. */
  function Chunks(content: seq<byte>, size: nat): (cs: seq<seq<byte>>)
    requires size > 0
    decreases |content|
  {
    if |content| == 0 then []
    else if |content| <= size then [content]
    else [content[..size]] + Chunks(content[size..], size)
  }

  /** One read: the first chunk is as much as the buffer holds. */
  lemma ChunksStep(content: seq<byte>, size: nat)
    requires size > 0 && |content| > 0
    ensures var k := if |content| < size then |content| else size;
            Chunks(content, size) == [content[..k]] + Chunks(content[k..], size)
  {
    if |content| <= size {
      assert content[|content|..] == [] && content[..|content|] == content;
      assert Chunks([], size) == [];
    }
  }

  /** The chunks put back together are the content. */
  lemma {:induction false} ChunksConcat(content: seq<byte>, size: nat)
    requires size > 0
    ensures Concat(Chunks(content, size)) == content
    decreases |content|
  {
    if |content| > size {
      ChunksConcat(content[size..], size);
      ConcatCons(content[..size], Chunks(content[size..], size));
      assert content[..size] + content[size..] == content;
    } else if |content| > 0 {
      assert Concat([content]) == Concat([]) + content;
    }
  }

  /** Each chunk is non-empty and no bigger than the buffer, and every chunk
      but the last fills it. */
  lemma {:induction false} ChunksSizes(content: seq<byte>, size: nat)
    requires size > 0
    ensures forall i :: 0 <= i < |Chunks(content, size)| ==> 0 < |Chunks(content, size)[i]| <= size
    ensures forall i :: 0 <= i < |Chunks(content, size)| - 1 ==> |Chunks(content, size)[i]| == size
    decreases |content|
  {
    if |content| > size {
      ChunksSizes(content[size..], size);
    }
  }

  /** There are no more chunks than bytes, and none is longer than the
      content. */
  lemma {:induction false} ChunksCount(content: seq<byte>, size: nat)
    requires size > 0
    ensures |Chunks(content, size)| <= |content|
    ensures forall i :: 0 <= i < |Chunks(content, size)| ==> |Chunks(content, size)[i]| <= |content|
    decreases |content|
  {
    if |content| > size {
      ChunksCount(content[size..], size);
    }
  }

  /** The chunks of a file: an image (by its signature) is one chunk, other
      files are cut at the chunk size for their length. */
  function Split(content: seq<byte>): seq<seq<byte>>
  {
    if ChunkAnalyzer.IsImageData(content) then [content]
    else Chunks(content, GetOptimalChunkSize(|content|))
  }

  /** The chunks of a file put back together are the file; each is
      non-empty and no longer than the file, so there are no more of them
      than bytes. */
  lemma SplitCovers(content: seq<byte>)
    ensures Concat(Split(content)) == content
    ensures |Split(content)| <= |content|
    ensures forall i :: 0 <= i < |Split(content)| ==> 0 < |Split(content)[i]| <= |content|
  {
    if ChunkAnalyzer.IsImageData(content) {
      assert Concat([content]) == Concat([]) + content;
    } else {
      var size := GetOptimalChunkSize(|content|);
      ChunksConcat(content, size);
      ChunksCount(content, size);
      ChunksSizes(content, size);
    }
  }

  /** FileChunker.SplitFile over the file's bytes: the loop of reads, each
      taking up to a buffer's worth. */
  method SplitFile(fileBytes: seq<byte>) returns (chunks: seq<seq<byte>>)
    ensures chunks == Split(fileBytes)
    ensures Concat(chunks) == fileBytes
    ensures fileBytes == [] ==> chunks == []
    ensures forall i :: 0 <= i < |chunks| ==> 0 < |chunks[i]|
    ensures !ChunkAnalyzer.IsImageData(fileBytes) ==>
              forall i :: 0 <= i < |chunks| ==> |chunks[i]| <= GetOptimalChunkSize(|fileBytes|)
  {
    if ChunkAnalyzer.IsImageData(fileBytes) {
      ChunkAnalyzer.ImageDataSignatures(fileBytes);
      chunks := [fileBytes];
      assert Concat(chunks) == Concat([]) + fileBytes;
      return;
    }
    var chunkSize := GetOptimalChunkSize(|fileBytes|);
    chunks := [];
    var pos := 0;
    while pos < |fileBytes|
      invariant 0 <= pos <= |fileBytes|
      invariant chunks + Chunks(fileBytes[pos..], chunkSize) == Chunks(fileBytes, chunkSize)
      decreases |fileBytes| - pos
    {
      var bytesRead := if |fileBytes| - pos < chunkSize then |fileBytes| - pos else chunkSize;
      var chunk := fileBytes[pos..pos + bytesRead];
      ChunksStep(fileBytes[pos..], chunkSize);
      assert fileBytes[pos..][bytesRead..] == fileBytes[pos + bytesRead..];
      assert fileBytes[pos..][..bytesRead] == chunk;
      chunks := chunks + [chunk];
      pos := pos + bytesRead;
    }
    assert fileBytes[pos..] == [];
    ChunksConcat(fileBytes, chunkSize);
    ChunksSizes(fileBytes, chunkSize);
  }
}
