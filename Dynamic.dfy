/** DynamicCompressor: compress a chunk with every configured algorithm and
    keep the smallest output; an algorithm that throws is skipped. */
module DynamicCompressor {
  import opened Common
  import opened Algorithms

  /** CompressionResult; compressedData is None for a null array. */
  datatype CompressionResult = CompressionResult(methodName: string, compressedData: Option<seq<byte>>)

  /** One iteration of the loop. With no result yet, any answer that is not
      an exception becomes the result (even a null one). Afterwards a null
      answer, or a null result kept from before, makes the length
      comparison throw, which the catch swallows; otherwise a strictly
      shorter answer replaces the result. */
  function Step(best: Option<CompressionResult>, k: Kind, out: Output): Option<CompressionResult>
  {
    match out
    case Threw => best
    case NullResult => if best.None? then Some(CompressionResult(Name(k), None)) else best
    case Produced(c) =>
      if best.None? then Some(CompressionResult(Name(k), Some(c)))
      else if best.value.compressedData.None? then best
      else if |c| < |best.value.compressedData.value| then Some(CompressionResult(Name(k), Some(c)))
      else best
  }

  /** The result after the first n algorithms. */
  function Scan(lib: Library, compressors: seq<Kind>, chunk: seq<byte>, n: nat): Option<CompressionResult>
    requires n <= |compressors|
  {
    if n == 0 then None
    else Step(Scan(lib, compressors, chunk, n - 1), compressors[n - 1], Compress(lib, compressors[n - 1], chunk))
  }

  class DynamicCompressor {
    const compressors: seq<Kind>

    constructor (compressors: seq<Kind>)
      ensures this.compressors == compressors
    {
      this.compressors := compressors;
    }

    /** DynamicCompressor.CompressChunk. */
    method CompressChunk(lib: Library, chunk: seq<byte>) returns (bestResult: Option<CompressionResult>)
      ensures bestResult == Scan(lib, compressors, chunk, |compressors|)
    {
      bestResult := None;
      for i := 0 to |compressors|
        invariant bestResult == Scan(lib, compressors, chunk, i)
      {
        var compressor := compressors[i];
        var compressed := Compress(lib, compressor, chunk);
        bestResult := Step(bestResult, compressor, compressed);
      }
    }
  }

  /** data, the output of algorithm i, is no longer than any output of the
      first n algorithms and strictly shorter than those before i. */
  predicate SmallestAt(lib: Library, compressors: seq<Kind>, chunk: seq<byte>, n: nat, data: seq<byte>, i: nat)
    requires n <= |compressors|
  {
    i < n && Compress(lib, compressors[i], chunk) == Produced(data) &&
    (forall j :: 0 <= j < n && Compress(lib, compressors[j], chunk).Produced? ==>
       |data| <= |Compress(lib, compressors[j], chunk).data|) &&
    (forall j :: 0 <= j < i && Compress(lib, compressors[j], chunk).Produced? ==>
       |data| < |Compress(lib, compressors[j], chunk).data|)
  }

  /** When no algorithm answers null: the result is missing exactly when
      every algorithm threw (or there are none); otherwise it is the output
      of some algorithm i, named after it, no longer than any other output,
      and strictly shorter than the outputs of all algorithms before i, so
      the earliest wins a tie. */
  lemma {:induction false} SmallestOutputWins(lib: Library, compressors: seq<Kind>, chunk: seq<byte>, n: nat)
    requires n <= |compressors|
    requires forall j :: 0 <= j < n ==> Compress(lib, compressors[j], chunk) != NullResult
    ensures var r := Scan(lib, compressors, chunk, n);
            (r.None? <==> forall j :: 0 <= j < n ==> Compress(lib, compressors[j], chunk) == Threw) &&
            (r.Some? ==>
               r.value.compressedData.Some? &&
               exists i: nat :: SmallestAt(lib, compressors, chunk, n, r.value.compressedData.value, i) &&
                 r.value.methodName == Name(compressors[i]))
  {
    if n > 0 {
      SmallestOutputWins(lib, compressors, chunk, n - 1);
      var prev := Scan(lib, compressors, chunk, n - 1);
      var out := Compress(lib, compressors[n - 1], chunk);
      if prev.Some? {
        var i: nat :| SmallestAt(lib, compressors, chunk, n - 1, prev.value.compressedData.value, i) &&
                 prev.value.methodName == Name(compressors[i]);
        if out.Produced? && |out.data| < |prev.value.compressedData.value| {
          Overtakes(lib, compressors, chunk, n, prev.value.compressedData.value, i);
        } else {
          StaysSmallest(lib, compressors, chunk, n, prev.value.compressedData.value, i);
        }
      } else if out.Produced? {
        FirstOutput(lib, compressors, chunk, n);
      }
    }
  }

  /** The n-th output, strictly shorter than the smallest so far, is the
      smallest of the first n. */
  lemma Overtakes(lib: Library, compressors: seq<Kind>, chunk: seq<byte>, n: nat, data: seq<byte>, i: nat)
    requires 0 < n <= |compressors|
    requires SmallestAt(lib, compressors, chunk, n - 1, data, i)
    requires Compress(lib, compressors[n - 1], chunk).Produced?
    requires |Compress(lib, compressors[n - 1], chunk).data| < |data|
    ensures SmallestAt(lib, compressors, chunk, n, Compress(lib, compressors[n - 1], chunk).data, n - 1)
  {
  }

  /** The smallest so far stays the smallest when the n-th output is not
      strictly shorter. */
  lemma StaysSmallest(lib: Library, compressors: seq<Kind>, chunk: seq<byte>, n: nat, data: seq<byte>, i: nat)
    requires 0 < n <= |compressors|
    requires SmallestAt(lib, compressors, chunk, n - 1, data, i)
    requires Compress(lib, compressors[n - 1], chunk).Produced? ==> |data| <= |Compress(lib, compressors[n - 1], chunk).data|
    ensures SmallestAt(lib, compressors, chunk, n, data, i)
  {
  }

  /** The first output when all before it threw is the smallest so far. */
  lemma FirstOutput(lib: Library, compressors: seq<Kind>, chunk: seq<byte>, n: nat)
    requires 0 < n <= |compressors|
    requires forall j :: 0 <= j < n - 1 ==> Compress(lib, compressors[j], chunk) == Threw
    requires Compress(lib, compressors[n - 1], chunk).Produced?
    ensures SmallestAt(lib, compressors, chunk, n, Compress(lib, compressors[n - 1], chunk).data, n - 1)
  {
  }

  /** The null quirk: when the first algorithm that does not throw answers
      null, that null result is kept to the end, because every later
      comparison dereferences it and throws. */
  lemma {:induction false} FirstNullSticks(lib: Library, compressors: seq<Kind>, chunk: seq<byte>, i: nat, n: nat)
    requires i < n <= |compressors|
    requires forall j :: 0 <= j < i ==> Compress(lib, compressors[j], chunk) == Threw
    requires Compress(lib, compressors[i], chunk) == NullResult
    ensures Scan(lib, compressors, chunk, n) == Some(CompressionResult(Name(compressors[i]), None))
  {
    if n - 1 > i {
      FirstNullSticks(lib, compressors, chunk, i, n - 1);
    } else {
      AllThrewGivesNone(lib, compressors, chunk, i);
    }
  }

  lemma {:induction false} AllThrewGivesNone(lib: Library, compressors: seq<Kind>, chunk: seq<byte>, n: nat)
    requires n <= |compressors|
    requires forall j :: 0 <= j < n ==> Compress(lib, compressors[j], chunk) == Threw
    ensures Scan(lib, compressors, chunk, n) == None
  {
    if n > 0 {
      AllThrewGivesNone(lib, compressors, chunk, n - 1);
    }
  }
}
