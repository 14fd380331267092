/** Shared vocabulary of the archiver model: bytes, optional values, results,
    the .NET faults that reach a caller, and the small string helpers
    (ASCII case folding, Path.GetExtension, substring search) the core relies on. */
module Common {

  /** An unsigned 8-bit value, one element of a .NET byte[]. */
  type byte = x: int | 0 <= x < 256

  datatype Option<+T> = None | Some(value: T)

  /** The exceptions the modelled code lets escape to its caller. */
  datatype Error =
    | EndOfStream                                        // a BinaryReader read past the end
    | BadStringLength                                    // malformed or negative 7-bit string length
    | NegativeCount                                      // BinaryReader.ReadBytes with a negative count
    | ChunkTruncated(chunk: int)                         // fewer bytes than the declared chunk size
    | MissingDecompressor(name: seq<byte>)               // no algorithm carries this name
    | DecompressFailed(path: seq<byte>, chunk: int, name: seq<byte>)
    | CompressorThrew(algorithm: string)                 // an unguarded Compress call threw
    | NullReference                                      // a null array was dereferenced
    | FileNotFound(file: string)                         // FileInfo.Length / ReadAllBytes on a missing file
    | NoFiles                                            // an empty file list
    | StartIndexOutOfRange                               // String.LastIndexOf with startIndex >= Length

  datatype Result<+T> = Ok(value: T) | Err(error: Error)

  /** What one call of ICompressionAlgorithm.Compress or Decompress gives back:
      an array, a null reference, or an exception. */
  datatype Output = Produced(data: seq<byte>) | NullResult | Threw

  /** n copies of v, built by appending one at a time as the source's loops do. */
  function Repeat(v: byte, n: nat): (r: seq<byte>)
    ensures |r| == n
    ensures forall k :: 0 <= k < n ==> r[k] == v
  {
    if n == 0 then [] else Repeat(v, n - 1) + [v]
  }

  /** The concatenation of a list of byte arrays. */
  function Concat(parts: seq<seq<byte>>): seq<byte>
  {
    if |parts| == 0 then [] else Concat(parts[..|parts| - 1]) + parts[|parts| - 1]
  }

  lemma ConcatAppend(parts: seq<seq<byte>>, p: seq<byte>)
    ensures Concat(parts + [p]) == Concat(parts) + p
  {
    assert (parts + [p])[..|parts|] == parts;
  }

  lemma {:induction false} ConcatCons(p: seq<byte>, rest: seq<seq<byte>>)
    ensures Concat([p] + rest) == p + Concat(rest)
    decreases |rest|
  {
    if |rest| == 0 {
      assert [p] + rest == [p];
      assert Concat([p]) == Concat([]) + p;
    } else {
      var init := rest[..|rest| - 1];
      assert ([p] + rest)[..|rest|] == [p] + init;
      ConcatCons(p, init);
    }
  }

  /** A subset is no larger than its superset. */
  lemma {:induction false} SubsetCard<T>(a: set<T>, b: set<T>)
    requires a <= b
    ensures |a| <= |b|
    decreases |a|
  {
    if a != {} {
      var x :| x in a;
      SubsetCard(a - {x}, b - {x});
    }
  }

  // ---------------------------------------------------------------- strings

  /** char.ToLowerInvariant restricted to ASCII letters. */
  function LowerChar(c: char): char
  {
    if 'A' <= c <= 'Z' then (c as int + 32) as char else c
  }

  function Lower(s: string): (r: string)
    ensures |r| == |s|
    ensures forall i :: 0 <= i < |s| ==> r[i] == LowerChar(s[i])
  {
    if |s| == 0 then [] else [LowerChar(s[0])] + Lower(s[1..])
  }

  /** string.Contains with ordinal comparison. */
  predicate Contains(s: string, part: string)
  {
    exists i :: 0 <= i <= |s| && part <= s[i..]
  }

  /** Path.DirectorySeparatorChar and Path.AltDirectorySeparatorChar on Windows. */
  const DirectorySeparator: char := '\\'
  const AltDirectorySeparator: char := '/'

  predicate IsDirectorySeparator(c: char)
  {
    c == DirectorySeparator || c == AltDirectorySeparator
  }

  /** Path.GetExtension: scanning backwards from position i - 1, the suffix
      starting at the last '.' that comes after the last separator; empty when
      there is none or when the '.' is the final character. */
  function ExtensionBefore(path: string, i: nat): (ext: string)
    requires i <= |path|
    requires forall j :: i <= j < |path| ==> path[j] != '.' && !IsDirectorySeparator(path[j])
    ensures ext == "" || (2 <= |ext| <= |path| && ext[0] == '.' && ext == path[|path| - |ext|..])
    ensures ext != "" ==> forall j :: |path| - |ext| < j < |path| ==> path[j] != '.' && !IsDirectorySeparator(path[j])
    decreases i
  {
    if i == 0 then ""
    else if path[i - 1] == '.' then (if i == |path| then "" else path[i - 1..])
    else if IsDirectorySeparator(path[i - 1]) then ""
    else ExtensionBefore(path, i - 1)
  }

  function GetExtension(path: string): (ext: string)
    ensures ext == "" || (2 <= |ext| <= |path| && ext[0] == '.' && ext == path[|path| - |ext|..])
    ensures ext != "" ==> forall j :: |path| - |ext| < j < |path| ==> path[j] != '.' && !IsDirectorySeparator(path[j])
  {
    ExtensionBefore(path, |path|)
  }
}
