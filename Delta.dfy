/** DeltaPreprocessor: modulo-256 differencing of consecutive bytes and its
    inverse, the running sum. The methods work on arrays as the program does;
    DeltaEncoding and DeltaDecoding say what they compute. */
module Delta {
  import opened Common

  /** The low byte of the sum or difference of two bytes, as a C# (byte)
      cast keeps it: such values lie in [-255, 510], so at most one 256
      is added or taken away. */
  function Low(x: int): (b: byte)
    requires -256 <= x < 512
    ensures b == x % 256
  {
    if x < 0 then x + 256 else if x < 256 then x else x - 256
  }

  /** Byte 0 kept, every later byte replaced by its difference from the
      previous one, modulo 256. */
  function DeltaEncoding(s: seq<byte>): (d: seq<byte>)
    ensures |d| == |s|
    ensures |s| > 0 ==> d[0] == s[0]
    ensures forall i :: 1 <= i < |s| ==> d[i] == Low(s[i] as int - s[i - 1] as int)
  {
    seq(|s|, i requires 0 <= i < |s| => if i == 0 then s[0] else Low(s[i] as int - s[i - 1] as int))
  }

  /** The running sum of d[0..i], modulo 256. */
  function PrefixSum(d: seq<byte>, i: nat): byte
    requires i < |d|
  {
    if i == 0 then d[0] else Low(PrefixSum(d, i - 1) as int + d[i] as int)
  }

  function DeltaDecoding(d: seq<byte>): (s: seq<byte>)
    ensures |s| == |d|
    ensures forall i :: 0 <= i < |d| ==> s[i] == PrefixSum(d, i)
  {
    seq(|d|, i requires 0 <= i < |d| => PrefixSum(d, i))
  }

  /** Adding back a difference, or taking away an addend, modulo 256. */
  lemma LowAddBack(a: byte, b: byte)
    ensures Low(a as int + Low(b as int - a as int) as int) == b
    ensures Low(Low(a as int + b as int) as int - a as int) == b
  {
  }

  /** Decoding the differences gives the original bytes back. */
  lemma {:induction false} DecodeEncode(s: seq<byte>)
    ensures DeltaDecoding(DeltaEncoding(s)) == s
  {
    var d := DeltaEncoding(s);
    forall i | 0 <= i < |s| ensures PrefixSum(d, i) == s[i] {
      PrefixSumOfDifferences(s, i);
    }
  }

  lemma {:induction false} PrefixSumOfDifferences(s: seq<byte>, i: nat)
    requires i < |s|
    ensures PrefixSum(DeltaEncoding(s), i) == s[i]
  {
    if i > 0 {
      PrefixSumOfDifferences(s, i - 1);
      LowAddBack(s[i - 1], s[i]);
    }
  }

  /** Differencing the running sums gives the differences back. */
  lemma {:induction false} EncodeDecode(d: seq<byte>)
    ensures DeltaEncoding(DeltaDecoding(d)) == d
  {
    var s := DeltaDecoding(d);
    forall i | 1 <= i < |d| ensures Low(s[i] as int - s[i - 1] as int) == d[i] {
      assert s[i] == Low(s[i - 1] as int + d[i] as int);
      LowAddBack(s[i - 1], d[i]);
    }
    DifferencesEncode(s, d);
  }

  /** DeltaPreprocessor.Encode: an empty array is returned as it is,
      otherwise a new array of the same length holding the differences. */
  method Encode(data: array<byte>) returns (delta: array<byte>)
    ensures delta.Length == data.Length
    ensures data.Length == 0 ==> delta == data
    ensures delta[..] == DeltaEncoding(data[..])
  {
    if data.Length == 0 { return data; }
    delta := new byte[data.Length];
    delta[0] := data[0];
    for i := 1 to data.Length
      invariant delta[0] == data[0]
      invariant forall k :: 1 <= k < i ==> delta[k] == Low(data[k] as int - data[k - 1] as int)
    {
      delta[i] := Low(data[i] as int - data[i - 1] as int);
    }
    DifferencesEncode(data[..], delta[..]);
  }

  lemma DifferencesEncode(s: seq<byte>, d: seq<byte>)
    requires |s| == |d| && (|s| > 0 ==> d[0] == s[0])
    requires forall k :: 1 <= k < |s| ==> d[k] == Low(s[k] as int - s[k - 1] as int)
    ensures d == DeltaEncoding(s)
  {
  }

  lemma RunningSumsDecode(s: seq<byte>, d: seq<byte>)
    requires |s| == |d| && forall k :: 0 <= k < |s| ==> s[k] == PrefixSum(d, k)
    ensures s == DeltaDecoding(d)
  {
  }

  /** DeltaPreprocessor.Decode: an empty array is returned as it is,
      otherwise a new array of the running sums. */
  method Decode(delta: array<byte>) returns (data: array<byte>)
    ensures data.Length == delta.Length
    ensures delta.Length == 0 ==> data == delta
    ensures data[..] == DeltaDecoding(delta[..])
  {
    if delta.Length == 0 { return delta; }
    data := new byte[delta.Length];
    data[0] := delta[0];
    for i := 1 to delta.Length
      invariant forall k :: 0 <= k < i ==> data[k] == PrefixSum(delta[..], k)
    {
      data[i] := Low(data[i - 1] as int + delta[i] as int);
    }
    RunningSumsDecode(data[..], delta[..]);
  }

  /** Distance between two bytes as plain integers, without wrap-around. */
  function Distance(a: byte, b: byte): nat
  {
    if a >= b then a - b else b - a
  }

  /** The number of positions i in [1, n) whose neighbouring bytes differ by
      less than 16. */
  function SmallDeltas(s: seq<byte>, n: nat): (c: nat)
    requires n <= |s|
    ensures c < n || n == 0
  {
    if n <= 1 then 0
    else SmallDeltas(s, n - 1) + (if Distance(s[n - 1], s[n - 2]) < 16 then 1 else 0)
  }

  function SampleSize(len: nat): nat
  {
    if len < 1000 then len else 1000
  }

  /** DeltaPreprocessor.WouldBenefit: at least 100 bytes, and among the
      first min(1000, length) bytes more than 60% of the neighbouring pairs
      are close. The comparison with sampleSize * 0.6 in double precision
      agrees with 5 * count > 3 * sampleSize for every sample size up to
      1000. */
  method WouldBenefit(data: array<byte>) returns (benefit: bool)
    ensures data.Length < 100 ==> !benefit
    ensures benefit <==> data.Length >= 100 &&
                         5 * SmallDeltas(data[..], SampleSize(data.Length)) > 3 * SampleSize(data.Length)
  {
    if data.Length < 100 { return false; }
    var sampleSize := if 1000 < data.Length then 1000 else data.Length;
    var smallDeltas := 0;
    for i := 1 to sampleSize
      invariant smallDeltas == SmallDeltas(data[..], i)
    {
      var delta := Distance(data[i], data[i - 1]);
      if delta < 16 {
        smallDeltas := smallDeltas + 1;
      }
    }
    benefit := 5 * smallDeltas > 3 * sampleSize;
  }

  /** A slowly varying sample is worth delta coding: when every pair among
      the first 1000 bytes is close, WouldBenefit's condition holds. */
  lemma {:induction false} AllCloseCount(s: seq<byte>, n: nat)
    requires 1 <= n <= |s|
    requires forall i :: 1 <= i < n ==> Distance(s[i], s[i - 1]) < 16
    ensures SmallDeltas(s, n) == n - 1
  {
    if n > 1 {
      AllCloseCount(s, n - 1);
    }
  }
}
