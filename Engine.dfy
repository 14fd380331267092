/** CompressionEngine: the fixed registry of algorithms and CompressSmart,
    which tries all of them on a chunk and keeps the shortest output. It
    has no exception handler, so a throwing or null-returning algorithm
    ends the call with an error. */
module CompressionEngine {
  import opened Common
  import opened Algorithms

  /** The best output so far: its position in the registry and its bytes. */
  datatype Best = Best(index: nat, data: seq<byte>)

  /** The loop of CompressSmart over the first n algorithms: the best output
      so far, or the error that escaped. A later output replaces the best
      one only when strictly shorter. */
  function Scan(lib: Library, methods: seq<Kind>, chunk: seq<byte>, n: nat): Result<Option<Best>>
    requires n <= |methods|
  {
    if n == 0 then Ok(None)
    else match Scan(lib, methods, chunk, n - 1)
      case Err(e) => Err(e)
      case Ok(best) =>
        match Compress(lib, methods[n - 1], chunk)
        case Threw => Err(CompressorThrew(Name(methods[n - 1])))
        case NullResult => Err(NullReference)
        case Produced(c) =>
          if best.None? || |c| < |best.value.data| then Ok(Some(Best(n - 1, c)))
          else Ok(best)
  }

  /** Once an algorithm has thrown or answered null, the call has failed
      with that error whatever follows. */
  lemma {:induction false} ErrorEndsScan(lib: Library, methods: seq<Kind>, chunk: seq<byte>, n: nat, m: nat)
    requires n <= m <= |methods|
    requires Scan(lib, methods, chunk, n).Err?
    ensures Scan(lib, methods, chunk, m) == Scan(lib, methods, chunk, n)
  {
    if n < m {
      ErrorEndsScan(lib, methods, chunk, n, m - 1);
    }
  }

  /** The scan succeeds exactly when every algorithm produced an array; it
      then holds the earliest of the shortest outputs. */
  lemma {:induction false} ScanFindsEarliestShortest(lib: Library, methods: seq<Kind>, chunk: seq<byte>, n: nat)
    requires n <= |methods|
    ensures var r := Scan(lib, methods, chunk, n);
            (r.Ok? <==> forall j :: 0 <= j < n ==> Compress(lib, methods[j], chunk).Produced?) &&
            (r.Ok? ==> (r.value.None? <==> n == 0)) &&
            (r.Ok? && r.value.Some? ==>
               var b := r.value.value;
               b.index < n &&
               Compress(lib, methods[b.index], chunk) == Produced(b.data) &&
               (forall j :: 0 <= j < n ==> |b.data| <= |Compress(lib, methods[j], chunk).data|) &&
               (forall j :: 0 <= j < b.index ==> |b.data| < |Compress(lib, methods[j], chunk).data|))
  {
    if n > 0 {
      ScanFindsEarliestShortest(lib, methods, chunk, n - 1);
    }
  }

  /** When some algorithm fails, the error is that of the first one to fail. */
  lemma {:induction false} ScanReportsFirstFailure(lib: Library, methods: seq<Kind>, chunk: seq<byte>, n: nat, f: nat)
    requires f < n <= |methods|
    requires forall j :: 0 <= j < f ==> Compress(lib, methods[j], chunk).Produced?
    requires !Compress(lib, methods[f], chunk).Produced?
    ensures Scan(lib, methods, chunk, n) ==
            if Compress(lib, methods[f], chunk).Threw? then Err(CompressorThrew(Name(methods[f])))
            else Err(NullReference)
  {
    ScanFindsEarliestShortest(lib, methods, chunk, f);
    ErrorEndsScan(lib, methods, chunk, f + 1, n);
  }

  class CompressionEngine {
    const methods: seq<Kind>

    ghost predicate Valid()
    {
      methods == Registry
    }

    constructor ()
      ensures Valid()
    {
      methods := Registry;
    }

    /** CompressionEngine.Methods: the registry, in order. */
    function Methods(): (r: seq<Kind>)
      requires Valid()
      ensures r == [Gzip, Brotli, Deflate, Zip, NoCompression, BZip2, Lzma, LosslessImage]
    {
      methods
    }

    /** CompressionEngine.CompressSmart: the earliest shortest output and the
        name of the algorithm that produced it, or the error of the first
        algorithm that threw or answered null. */
    method CompressSmart(lib: Library, chunk: seq<byte>) returns (r: Result<(seq<byte>, string)>)
      requires Valid()
      ensures match Scan(lib, methods, chunk, |methods|)
              case Err(e) => r == Err(e)
              case Ok(best) => best.Some? && best.value.index < |methods| && r == Ok((best.value.data, Name(methods[best.value.index])))
    {
      var best: Option<Best> := None;
      var bestMethod := "";
      for i := 0 to |methods|
        invariant Scan(lib, methods, chunk, i) == Ok(best)
        invariant best.Some? ==> best.value.index < i && bestMethod == Name(methods[best.value.index])
        invariant i > 0 ==> best.Some?
      {
        var result := Compress(lib, methods[i], chunk);
        match result {
          case Threw =>
            ErrorEndsScan(lib, methods, chunk, i + 1, |methods|);
            return Err(CompressorThrew(Name(methods[i])));
          case NullResult =>
            ErrorEndsScan(lib, methods, chunk, i + 1, |methods|);
            return Err(NullReference);
          case Produced(c) =>
            if best.None? || |c| < |best.value.data| {
              best := Some(Best(i, c));
              bestMethod := Name(methods[i]);
            }
        }
      }
      r := Ok((best.value.data, bestMethod));
    }
  }

  /** Whenever CompressSmart succeeds over the registry, its output is no
      longer than its input, because NoCompression is registered, and no
      longer than the output of any registered algorithm. */
  lemma CompressSmartNoLonger(lib: Library, chunk: seq<byte>, b: Best)
    requires Scan(lib, Registry, chunk, |Registry|) == Ok(Some(b))
    ensures b.index < |Registry| && Compress(lib, Registry[b.index], chunk) == Produced(b.data)
    ensures |b.data| <= |chunk|
    ensures forall k :: k in Registry ==> Compress(lib, k, chunk).Produced? && |b.data| <= |Compress(lib, k, chunk).data|
  {
    ScanFindsEarliestShortest(lib, Registry, chunk, |Registry|);
    assert Registry[4] == NoCompression;
    forall k | k in Registry
      ensures Compress(lib, k, chunk).Produced? && |b.data| <= |Compress(lib, k, chunk).data|
    {
      var j :| 0 <= j < |Registry| && Registry[j] == k;
    }
  }
}
