/** PreCompressionTester: compress a sample with each candidate and keep the
    one with the smallest compressed/original ratio, if it saves enough.
    Ratios are exact rationals; a failed test is +infinity. */
module PreCompressionTester {
  import opened Common
  import opened Algorithms

  datatype Ratio = Finite(value: real) | Infinite

  /** The double comparison a < b, with +infinity above every finite value
      and not below itself. */
  predicate Below(a: Ratio, b: Ratio)
  {
    match a
    case Infinite => false
    case Finite(x) => b.Infinite? || x < b.value
  }

  /** PreCompressionTester.TestCompressionRatio: +infinity for an empty
      sample, a null result or an exception, otherwise compressed length
      over sample length. */
  function TestCompressionRatio(lib: Library, k: Kind, sample: seq<byte>): (r: Ratio)
    ensures |sample| == 0 ==> r == Infinite
    ensures r.Finite? <==> |sample| > 0 && Compress(lib, k, sample).Produced?
    ensures r.Finite? ==> r.value * (|sample| as real) == |Compress(lib, k, sample).data| as real && r.value >= 0.0
  {
    if |sample| == 0 then Infinite
    else match Compress(lib, k, sample)
      case Produced(c) => Finite(|c| as real / |sample| as real)
      case NullResult => Infinite
      case Threw => Infinite
  }

  /** The ratio of each candidate. */
  function Ratios(lib: Library, sample: seq<byte>, candidates: seq<Kind>): (rs: seq<Ratio>)
    ensures |rs| == |candidates|
    ensures forall i :: 0 <= i < |rs| ==> rs[i] == TestCompressionRatio(lib, candidates[i], sample)
  {
    seq(|candidates|, i requires 0 <= i < |candidates| => TestCompressionRatio(lib, candidates[i], sample))
  }

  /** The loop of ChooseBestCompressorBySample over the first n ratios: the
      position of the best so far (None while nothing beat +infinity) and
      its ratio; a later ratio replaces it only when strictly smaller. */
  function Scan(rs: seq<Ratio>, n: nat): (Option<nat>, Ratio)
    requires n <= |rs|
  {
    if n == 0 then (None, Infinite)
    else
      var (best, bestRatio) := Scan(rs, n - 1);
      if Below(rs[n - 1], bestRatio) then (Some(n - 1), rs[n - 1]) else (best, bestRatio)
  }

  /** The scan finds the minimum, and the earliest position holding it: no
      ratio is below the best one, every earlier ratio is strictly above it,
      and nothing is found only when every ratio is +infinity. */
  lemma {:induction false} ScanIsEarliestMinimum(rs: seq<Ratio>, n: nat)
    requires n <= |rs|
    ensures var (best, bestRatio) := Scan(rs, n);
            (forall j :: 0 <= j < n ==> !Below(rs[j], bestRatio)) &&
            (best.Some? ==> best.value < n && rs[best.value] == bestRatio && bestRatio.Finite? &&
                            forall j :: 0 <= j < best.value ==> Below(bestRatio, rs[j])) &&
            (best.None? <==> bestRatio == Infinite) &&
            (best.None? ==> forall j :: 0 <= j < n ==> rs[j] == Infinite)
  {
    if n > 0 {
      ScanIsEarliestMinimum(rs, n - 1);
    }
  }

  /** PreCompressionTester.ChooseBestCompressorBySample, as the position of
      the chosen candidate: none for an empty sample or candidate list, and
      the best candidate only if its ratio is strictly below the required
      one. */
  function ChooseBestBySample(lib: Library, sample: seq<byte>, candidates: seq<Kind>, requiredRatio: real): (r: Option<nat>)
  {
    if |sample| == 0 || |candidates| == 0 then None
    else
      var (best, bestRatio) := Scan(Ratios(lib, sample, candidates), |candidates|);
      if Below(bestRatio, Finite(requiredRatio)) then best else None
  }

  /** What the choice guarantees: the chosen candidate has the smallest
      ratio, strictly below the required one, every earlier candidate is
      strictly worse, and nothing is chosen when the sample or the list is
      empty, when every test failed, or when no ratio is below the
      requirement. */
  lemma ChooseBestSpec(lib: Library, sample: seq<byte>, candidates: seq<Kind>, requiredRatio: real)
    ensures var r := ChooseBestBySample(lib, sample, candidates, requiredRatio);
            var rs := Ratios(lib, sample, candidates);
            (|sample| == 0 || |candidates| == 0 ==> r.None?) &&
            (r.Some? ==> r.value < |candidates| && rs[r.value].Finite? && rs[r.value].value < requiredRatio &&
                         (forall j :: 0 <= j < |candidates| ==> !Below(rs[j], rs[r.value])) &&
                         (forall j :: 0 <= j < r.value ==> Below(rs[r.value], rs[j]))) &&
            ((forall j :: 0 <= j < |candidates| ==> rs[j] == Infinite) ==> r.None?) &&
            (r.None? && |sample| > 0 ==> forall j :: 0 <= j < |candidates| ==> !Below(rs[j], Finite(requiredRatio)))
  {
    if |sample| > 0 && |candidates| > 0 {
      var rs := Ratios(lib, sample, candidates);
      ScanIsEarliestMinimum(rs, |candidates|);
      var (best, bestRatio) := Scan(rs, |candidates|);
      var r := ChooseBestBySample(lib, sample, candidates, requiredRatio);
      if r.None? {
        forall j | 0 <= j < |candidates| ensures !Below(rs[j], Finite(requiredRatio)) {
          assert !Below(rs[j], bestRatio);
        }
      }
    }
  }

  /** The loop itself, returning the position of the chosen candidate. */
  method ChooseBestCompressorBySample(lib: Library, sample: seq<byte>, candidates: seq<Kind>, requiredRatio: real)
    returns (chosen: Option<nat>)
    ensures chosen == ChooseBestBySample(lib, sample, candidates, requiredRatio)
  {
    if |sample| == 0 || |candidates| == 0 { return None; }
    var best: Option<nat> := None;
    var bestRatio := Infinite;
    for i := 0 to |candidates|
      invariant (best, bestRatio) == Scan(Ratios(lib, sample, candidates), i)
    {
      var ratio := TestCompressionRatio(lib, candidates[i], sample);
      if Below(ratio, bestRatio) {
        bestRatio := ratio;
        best := Some(i);
      }
    }
    chosen := if Below(bestRatio, Finite(requiredRatio)) then best else None;
  }
}
