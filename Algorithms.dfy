/** The compression algorithms the program knows (the ICompressionAlgorithm
    implementations), their names, and the fixed registry order used by
    CompressionEngine. The third-party codecs are abstract: a Library says
    what each gives back for some input, and the lemmas that need them to
    be reversible take that as a hypothesis (Lossless). */
module Algorithms {
  import opened Common
  import LosslessImageCompressor

  datatype Kind = Gzip | Brotli | Deflate | Zip | NoCompression | BZip2 | Lzma | LosslessImage

  /** ICompressionAlgorithm.Name of each implementation. */
  function Name(k: Kind): string
  {
    match k
    case Gzip => "Gzip"
    case Brotli => "Brotli"
    case Deflate => "Deflate"
    case Zip => "Zip"
    case NoCompression => "None"
    case BZip2 => "BZip2"
    case Lzma => "LZMA"
    case LosslessImage => LosslessImageCompressor.Name
  }

  /** The marker the archive writers use for a chunk kept as it is. */
  const Store: string := "STORE"

  /** The names are distinct and none of them is the STORE marker. */
  lemma NamesDistinct(j: Kind, k: Kind)
    ensures Name(k) != Store
    ensures Name(j) == Name(k) ==> j == k
  {
  }

  /** The bytes BinaryWriter.Write(string) stores for each name: the ASCII
      codes of its characters. */
  function NameBytes(k: Kind): (b: seq<byte>)
  {
    match k
    case Gzip => [0x47, 0x7A, 0x69, 0x70]
    case Brotli => [0x42, 0x72, 0x6F, 0x74, 0x6C, 0x69]
    case Deflate => [0x44, 0x65, 0x66, 0x6C, 0x61, 0x74, 0x65]
    case Zip => [0x5A, 0x69, 0x70]
    case NoCompression => [0x4E, 0x6F, 0x6E, 0x65]
    case BZip2 => [0x42, 0x5A, 0x69, 0x70, 0x32]
    case Lzma => [0x4C, 0x5A, 0x4D, 0x41]
    case LosslessImage => [0x4C, 0x6F, 0x73, 0x73, 0x6C, 0x65, 0x73, 0x73, 0x49, 0x6D, 0x61, 0x67, 0x65]
  }

  /** The bytes stored for "STORE". */
  const StoreBytes: seq<byte> := [0x53, 0x54, 0x4F, 0x52, 0x45]

  /** Distinct algorithms are stored under distinct names, none of them
      STORE. */
  lemma NameBytesDistinct(j: Kind, k: Kind)
    ensures NameBytes(k) != StoreBytes
    ensures NameBytes(j) == NameBytes(k) ==> j == k
  {
  }

  /** The algorithms backed by a third-party library (or the framework's
      streams), as opposed to the two written in the program. */
  predicate IsLibraryCodec(k: Kind)
  {
    !(k == NoCompression || k == LosslessImage)
  }

  /** What the libraries and the external image tools do. codec and inverse
      are the raw library calls: they may return an array, a null reference
      or throw. */
  datatype Library = Library(
    codec: (Kind, seq<byte>) -> Output,
    inverse: (Kind, seq<byte>) -> Output,
    tool: LosslessImageCompressor.Tool)

  /** The library codecs are reversible: whatever array one of them produces,
      its inverse maps back to the input. */
  ghost predicate Lossless(lib: Library)
  {
    forall k: Kind, x: seq<byte> {:trigger lib.codec(k, x)} ::
      IsLibraryCodec(k) && lib.codec(k, x).Produced? ==> lib.inverse(k, lib.codec(k, x).data) == Produced(x)
  }

  /** The image optimiser gives every input back as it is (no optimiser
      tool installed, or none that shrinks anything). */
  ghost predicate ImagesKept(lib: Library)
  {
    forall x: seq<byte> :: LosslessImageCompressor.Compress(lib.tool, x) == x
  }

  /** ICompressionAlgorithm.Compress for each kind. NoCompression is the
      identity; LosslessImage never throws and never grows its input; LZMA
      returns its input when the library throws. */
  function Compress(lib: Library, k: Kind, x: seq<byte>): (r: Output)
    ensures k == NoCompression ==> r == Produced(x)
    ensures k == LosslessImage ==> r.Produced? && |r.data| <= |x|
    ensures k == Lzma ==> r != Threw && (lib.codec(Lzma, x) == Threw ==> r == Produced(x))
    ensures IsLibraryCodec(k) && k != Lzma ==> r == lib.codec(k, x)
  {
    match k
    case NoCompression => Produced(x)
    case LosslessImage => Produced(LosslessImageCompressor.Compress(lib.tool, x))
    case Lzma => (if lib.codec(Lzma, x) == Threw then Produced(x) else lib.codec(Lzma, x))
    case _ => lib.codec(k, x)
  }

  /** ICompressionAlgorithm.Decompress: the two in-program algorithms return
      their input, the others call the library. */
  function Decompress(lib: Library, k: Kind, c: seq<byte>): (r: Output)
    ensures !IsLibraryCodec(k) ==> r == Produced(c)
    ensures IsLibraryCodec(k) ==> r == lib.inverse(k, c)
  {
    if IsLibraryCodec(k) then lib.inverse(k, c) else Produced(c)
  }

  /** NoCompression: its output is its input, so it is never shorter, and
      decompressing gives the input back, for every input including empty. */
  lemma NoCompressionRoundTrip(lib: Library, x: seq<byte>)
    ensures Compress(lib, NoCompression, x).Produced?
    ensures |Compress(lib, NoCompression, x).data| == |x|
    ensures Decompress(lib, NoCompression, Compress(lib, NoCompression, x).data) == Produced(x)
  {
  }

  /** A library algorithm whose compressor produced an array round-trips,
      given reversible libraries; this includes LZMA when it did not fall
      back to the raw input. */
  lemma LibraryRoundTrip(lib: Library, k: Kind, x: seq<byte>)
    requires Lossless(lib) && IsLibraryCodec(k) && lib.codec(k, x).Produced?
    ensures Compress(lib, k, x).Produced?
    ensures Decompress(lib, k, Compress(lib, k, x).data) == Produced(x)
  {
    assert Compress(lib, k, x) == lib.codec(k, x);
  }

  /** The order in which CompressionEngine registers the algorithms. */
  const Registry: seq<Kind> := [Gzip, Brotli, Deflate, Zip, NoCompression, BZip2, Lzma, LosslessImage]

  /** The first algorithm in algs whose stored name is name (the reader's
      FirstOrDefault lookup). */
  function FindByName(algs: seq<Kind>, name: seq<byte>): (r: Option<Kind>)
    ensures r.Some? ==> r.value in algs && NameBytes(r.value) == name
    ensures r.None? ==> forall k :: k in algs ==> NameBytes(k) != name
  {
    if |algs| == 0 then None
    else if NameBytes(algs[0]) == name then Some(algs[0]) else FindByName(algs[1..], name)
  }

  /** In any list of algorithms, a member is found under its own name. */
  lemma {:induction false} FindByNameFinds(algs: seq<Kind>, k: Kind)
    requires k in algs
    ensures FindByName(algs, NameBytes(k)) == Some(k)
  {
    NameBytesDistinct(algs[0], k);
    if NameBytes(algs[0]) != NameBytes(k) {
      FindByNameFinds(algs[1..], k);
    }
  }

  /** Every registered algorithm is found under its own name, and the STORE
      marker names none of them. */
  lemma RegistryLookup(k: Kind)
    ensures k in Registry
    ensures FindByName(Registry, NameBytes(k)) == Some(k)
    ensures FindByName(Registry, StoreBytes) == None
  {
    FindByNameFinds(Registry, k);
    var r := FindByName(Registry, StoreBytes);
    if r.Some? {
      NameBytesDistinct(r.value, r.value);
    }
  }
}
