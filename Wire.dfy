/** The .NET BinaryWriter and BinaryReader primitives the archive uses: a
    little-endian Int32, a single byte, a byte string prefixed by its length
    in 7-bit groups, and a run of raw bytes. A reader takes the unread rest
    of the archive and gives the value and what is left after it, or the
    exception it throws. String payloads are kept as their encoded bytes. */
module Wire {
  import opened Common

  const TwoTo31: nat := 0x8000_0000
  const TwoTo32: nat := 0x1_0000_0000

  predicate IsInt32(x: int)
  {
    -(TwoTo31 as int) <= x < TwoTo31
  }

  /** The four bytes of an unsigned 32-bit value, least significant first. */
  function U32Bytes(u: nat): (b: seq<byte>)
    requires u < TwoTo32
    ensures |b| == 4
  {
    [u % 256, (u / 256) % 256, (u / 65536) % 256, u / 16777216]
  }

  /** BinaryWriter.Write(int): the value's two's complement bits. */
  function Int32LE(x: int): (b: seq<byte>)
    ensures |b| == 4
  {
    U32Bytes(x % TwoTo32)
  }

  /** BinaryReader.ReadInt32: four bytes, least significant first, the top
      bit the sign; fewer than four left is the end of the stream. */
  function ReadInt32(s: seq<byte>): (r: Result<(int, seq<byte>)>)
    ensures r.Err? <==> |s| < 4
    ensures r.Err? ==> r.error == EndOfStream
    ensures r.Ok? ==> IsInt32(r.value.0) && r.value.1 == s[4..]
  {
    if |s| < 4 then Err(EndOfStream)
    else
      var u := s[0] as int + 256 * s[1] as int + 65536 * s[2] as int + 16777216 * s[3] as int;
      Ok((if u >= TwoTo31 then u - TwoTo32 else u, s[4..]))
  }

  lemma U32Digits(u: nat)
    requires u < TwoTo32
    ensures var b := U32Bytes(u); b[0] as int + 256 * b[1] as int + 65536 * b[2] as int + 16777216 * b[3] as int == u
  {
    var q1 := u / 256;
    var q2 := q1 / 256;
    var q3 := q2 / 256;
    assert u == u % 256 + 256 * q1;
    assert q1 == q1 % 256 + 256 * q2;
    assert q2 == q2 % 256 + 256 * q3;
    assert u / 65536 == q2;
    assert u / 16777216 == q3;
  }

  /** An Int32 reads back as written, leaving what follows it. */
  lemma Int32RoundTrip(x: int, rest: seq<byte>)
    requires IsInt32(x)
    ensures ReadInt32(Int32LE(x) + rest) == Ok((x, rest))
  {
    U32Digits(x % TwoTo32);
    assert (Int32LE(x) + rest)[4..] == rest;
  }

  /** BinaryReader.ReadByte. */
  function ReadByte(s: seq<byte>): (r: Result<(byte, seq<byte>)>)
    ensures r.Err? <==> |s| == 0
    ensures r.Err? ==> r.error == EndOfStream
    ensures r.Ok? ==> r.value == (s[0], s[1..])
  {
    if |s| == 0 then Err(EndOfStream) else Ok((s[0], s[1..]))
  }

  // ------------------------------------------------------------- 7-bit ints

  /** Write7BitEncodedInt for a non-negative value: seven bits per byte, low
      groups first, the high bit set on every byte but the last. */
  function SevenBit(n: nat): (b: seq<byte>)
    ensures |b| > 0
  {
    if n < 128 then [n] else [n % 128 + 128] + SevenBit(n / 128)
  }

  /** The value of the groups read from group i on (0 for the first). The
      fifth group may carry only four bits; a larger one, or the end of the
      stream, is an error. */
  function ReadGroups(s: seq<byte>, i: nat): (r: Result<(nat, seq<byte>)>)
    requires i <= 4
    ensures r.Ok? ==> |r.value.1| < |s|
    decreases 4 - i
  {
    if |s| == 0 then Err(EndOfStream)
    else if i == 4 then
      if s[0] > 15 then Err(BadStringLength) else Ok((s[0], s[1..]))
    else if s[0] < 128 then Ok((s[0], s[1..]))
    else match ReadGroups(s[1..], i + 1)
      case Err(e) => Err(e)
      case Ok((v, t)) => Ok((s[0] - 128 + 128 * v, t))
  }

  /** Read7BitEncodedInt: the 32 bits read, as a signed value. */
  function Read7BitInt(s: seq<byte>): (r: Result<(int, seq<byte>)>)
    ensures r.Ok? ==> |r.value.1| < |s|
  {
    match ReadGroups(s, 0)
    case Err(e) => Err(e)
    case Ok((u, t)) => Ok((if u >= TwoTo31 then u - TwoTo32 else u, t))
  }

  /** The largest value groups i.. can hold, plus one. */
  function GroupCap(i: nat): nat
    requires i <= 4
    decreases 4 - i
  {
    if i == 4 then 16 else 128 * GroupCap(i + 1)
  }

  /** A value written in 7-bit groups reads back, from any group position
      whose capacity holds it. */
  lemma {:induction false} GroupsRoundTrip(n: nat, rest: seq<byte>, i: nat)
    requires i <= 4 && n < GroupCap(i)
    ensures ReadGroups(SevenBit(n) + rest, i) == Ok((n, rest))
    decreases 4 - i
  {
    var s := SevenBit(n) + rest;
    if n >= 128 {
      assert i < 4;
      assert s[1..] == SevenBit(n / 128) + rest;
      GroupsRoundTrip(n / 128, rest, i + 1);
    } else {
      assert s[1..] == rest;
    }
  }

  /** A non-negative Int32 written in 7-bit groups reads back. */
  lemma SevenBitRoundTrip(n: nat, rest: seq<byte>)
    requires n < TwoTo31
    ensures Read7BitInt(SevenBit(n) + rest) == Ok((n, rest))
  {
    assert GroupCap(0) == TwoTo32;
    GroupsRoundTrip(n, rest, 0);
  }

  // ---------------------------------------------------------------- strings

  /** BinaryWriter.Write(string), over the string's encoded bytes. */
  function WriteString(x: seq<byte>): (b: seq<byte>)
    ensures |b| > |x|
  {
    SevenBit(|x|) + x
  }

  /** BinaryReader.ReadString: a negative length is rejected, a string cut
      short by the end of the stream is an error. */
  function ReadString(s: seq<byte>): (r: Result<(seq<byte>, seq<byte>)>)
    ensures r.Ok? ==> |r.value.1| < |s|
  {
    match Read7BitInt(s)
    case Err(e) => Err(e)
    case Ok((len, t)) =>
      if len < 0 then Err(BadStringLength)
      else if len > |t| then Err(EndOfStream)
      else Ok((t[..len], t[len..]))
  }

  /** A string reads back as written. */
  lemma StringRoundTrip(x: seq<byte>, rest: seq<byte>)
    requires |x| < TwoTo31
    ensures ReadString(WriteString(x) + rest) == Ok((x, rest))
  {
    assert WriteString(x) + rest == SevenBit(|x|) + (x + rest);
    SevenBitRoundTrip(|x|, x + rest);
    assert (x + rest)[..|x|] == x && (x + rest)[|x|..] == rest;
  }

  /** BinaryReader.ReadBytes: up to count bytes, fewer at the end of the
      stream; a negative count is an error. */
  function ReadBytes(s: seq<byte>, count: int): (r: Result<(seq<byte>, seq<byte>)>)
    ensures r.Err? <==> count < 0
    ensures r.Err? ==> r.error == NegativeCount
    ensures r.Ok? ==> r.value.0 + r.value.1 == s
    ensures r.Ok? ==> (|r.value.0| == count <==> count <= |s|)
    ensures r.Ok? && count <= |s| ==> r.value == (s[..count], s[count..])
    ensures r.Ok? && count > |s| ==> r.value == (s, [])
  {
    if count < 0 then Err(NegativeCount)
    else if count <= |s| then
      assert s[..count] + s[count..] == s;
      Ok((s[..count], s[count..]))
    else Ok((s, []))
  }
}
