/** RlePreprocessor: an escape-byte run-length code. A run of 4 to 255 equal
    bytes v becomes the record FF v n; every other byte is copied, and a
    literal FF is written as FF 00. The encoder is specified by cutting the
    input into maximal pieces (Pieces) and emitting each one (Emit). */
module Rle {
  import opened Common

  const EscapeByte: byte := 0xFF
  const MinRunLength: nat := 4
  const MaxRunLength: nat := 255

  /** How the encoder writes one literal FF: FF 00, as the program does. */
  const LiteralEscape: seq<byte> := [0xFF, 0x00]
  /** The escape that makes the code reversible: a run record of one FF. */
  const RunEscape: seq<byte> := [0xFF, 0xFF, 0x01]

  // ------------------------------------------------------------ pieces

  /** A stretch of the input the encoder handles in one step: a run written
      as a record, or up to three equal bytes written one by one. */
  datatype Piece = Run(value: byte, count: byte) | Literals(value: byte, count: byte)

  predicate WellFormed(p: Piece)
  {
    match p
    case Run(_, n) => MinRunLength <= n <= MaxRunLength
    case Literals(_, n) => 1 <= n < MinRunLength
  }

  /** The inner scan of Encode and WouldBenefit: starting from k equal
      leading bytes, extend while the next byte is equal and fewer than 255
      have been counted. */
  function Extend(s: seq<byte>, k: nat): (n: nat)
    requires 1 <= k <= |s| && k <= MaxRunLength
    requires forall j :: 0 <= j < k ==> s[j] == s[0]
    ensures k <= n <= |s| && n <= MaxRunLength
    ensures forall j :: 0 <= j < n ==> s[j] == s[0]
    ensures n < |s| && n < MaxRunLength ==> s[n] != s[0]
    decreases |s| - k
  {
    if k < |s| && s[k] == s[0] && k < MaxRunLength then Extend(s, k + 1) else k
  }

  /** The length of the leading run of s, capped at 255. */
  function RunLength(s: seq<byte>): (n: nat)
    requires |s| > 0
    ensures 1 <= n <= |s| && n <= MaxRunLength
  {
    Extend(s, 1)
  }

  /** The leading run consists of equal bytes and is maximal: it stops at
      255 bytes, at the end of s, or before a different byte. */
  lemma RunLengthMaximal(s: seq<byte>)
    requires |s| > 0
    ensures forall j :: 0 <= j < RunLength(s) ==> s[j] == s[0]
    ensures RunLength(s) < |s| && RunLength(s) < MaxRunLength ==> s[RunLength(s)] != s[0]
    ensures s[..RunLength(s)] == Repeat(s[0], RunLength(s))
  {
  }

  /** The bytes a list of pieces stands for. */
  function Expand(ps: seq<Piece>): seq<byte>
  {
    if |ps| == 0 then [] else Repeat(ps[0].value, ps[0].count) + Expand(ps[1..])
  }

  /** The piece the encoder cuts off the front of s. */
  function FirstPiece(s: seq<byte>): (p: Piece)
    requires |s| > 0
    ensures p.value == s[0] && p.count == RunLength(s) && WellFormed(p)
  {
    var n := RunLength(s);
    if n >= MinRunLength then Run(s[0], n as byte) else Literals(s[0], n as byte)
  }

  /** The encoder's cut of s into consecutive pieces. */
  function Pieces(s: seq<byte>): (ps: seq<Piece>)
    ensures |s| > 0 ==> |ps| > 0 && ps[0] == FirstPiece(s)
    decreases |s|
  {
    if |s| == 0 then [] else [FirstPiece(s)] + Pieces(s[RunLength(s)..])
  }

  /** Every piece is a run of 4 to 255 bytes or 1 to 3 literal bytes. */
  lemma {:induction false} PiecesWellFormed(s: seq<byte>)
    ensures forall k :: 0 <= k < |Pieces(s)| ==> WellFormed(Pieces(s)[k])
    decreases |s|
  {
    if |s| > 0 {
      PiecesWellFormed(s[RunLength(s)..]);
      assert Pieces(s)[1..] == Pieces(s[RunLength(s)..]);
    }
  }

  /** The pieces stand for exactly the input. */
  lemma {:induction false} PiecesExpand(s: seq<byte>)
    ensures Expand(Pieces(s)) == s
    decreases |s|
  {
    if |s| > 0 {
      var n := RunLength(s);
      PiecesExpand(s[n..]);
      ExpandCons(FirstPiece(s), Pieces(s[n..]));
      LeadingRun(s);
    }
  }

  lemma ExpandCons(p: Piece, ps: seq<Piece>)
    ensures Expand([p] + ps) == Repeat(p.value, p.count) + Expand(ps)
  {
    assert ([p] + ps)[0] == p && ([p] + ps)[1..] == ps;
  }

  /** The leading run, as the repetition of its first byte. */
  lemma LeadingRun(s: seq<byte>)
    requires |s| > 0
    ensures Repeat(s[0], RunLength(s)) + s[RunLength(s)..] == s
  {
    RunLengthMaximal(s);
    assert s[..RunLength(s)] + s[RunLength(s)..] == s;
  }

  /** The cut is maximal: a piece shorter than 255 is never followed by one
      of the same value. */
  lemma {:induction false} PiecesMaximal(s: seq<byte>)
    ensures var ps := Pieces(s);
            forall k :: 0 <= k < |ps| - 1 && ps[k].count < MaxRunLength ==> ps[k].value != ps[k + 1].value
    decreases |s|
  {
    if |s| > 0 {
      var n := RunLength(s);
      PiecesMaximal(s[n..]);
      RunLengthMaximal(s);
      var ps := Pieces(s);
      assert ps[1..] == Pieces(s[n..]);
      if |ps| > 1 {
        assert ps[1] == FirstPiece(s[n..]);
        assert s[n..][0] == s[n];
      }
      forall k | 1 <= k < |ps| - 1 && ps[k].count < MaxRunLength
        ensures ps[k].value != ps[k + 1].value
      {
        assert ps[k] == ps[1..][k - 1] && ps[k + 1] == ps[1..][k];
      }
    }
  }

  // ------------------------------------------------------------ encoding

  /** n literal copies of v, each FF written as esc. */
  function Literal(v: byte, n: nat, esc: seq<byte>): seq<byte>
  {
    if n == 0 then [] else (if v == EscapeByte then esc else [v]) + Literal(v, n - 1, esc)
  }

  function Emit(p: Piece, esc: seq<byte>): seq<byte>
  {
    match p
    case Run(v, n) => [EscapeByte, v, n]
    case Literals(v, n) => Literal(v, n, esc)
  }

  function EmitAll(ps: seq<Piece>, esc: seq<byte>): seq<byte>
  {
    if |ps| == 0 then [] else Emit(ps[0], esc) + EmitAll(ps[1..], esc)
  }

  /** What Encode returns, with a literal FF written as esc. */
  function Encoding(data: seq<byte>, esc: seq<byte>): seq<byte>
    decreases |data|
  {
    if |data| == 0 then []
    else
      var n := RunLength(data);
      FirstRecord(data, esc) + Encoding(data[n..], esc)
  }

  /** The encoder emits the pieces of its input one after the other. */
  lemma {:induction false} EncodingEmitsPieces(data: seq<byte>, esc: seq<byte>)
    ensures Encoding(data, esc) == EmitAll(Pieces(data), esc)
    decreases |data|
  {
    if |data| > 0 {
      var n := RunLength(data);
      EncodingEmitsPieces(data[n..], esc);
      var ps := Pieces(data);
      assert ps[1..] == Pieces(data[n..]);
      assert EmitAll(ps, esc) == Emit(ps[0], esc) + EmitAll(ps[1..], esc);
    }
  }

  /** The scan shared by Encode and WouldBenefit (lines 20-29 and 114-122). */
  method MeasureRun(data: seq<byte>, i: nat) returns (runLength: nat)
    requires i < |data|
    ensures runLength == RunLength(data[i..])
  {
    runLength := 1;
    while i + runLength < |data| && data[i + runLength] == data[i] && runLength < MaxRunLength
      invariant 1 <= runLength <= MaxRunLength && i + runLength <= |data|
      invariant forall j :: i <= j < i + runLength ==> data[j] == data[i]
      invariant Extend(data[i..], runLength) == RunLength(data[i..])
      decreases |data| - runLength
    {
      runLength := runLength + 1;
    }
  }

  /** One more literal written at the end. */
  lemma {:induction false} LiteralSnoc(v: byte, n: nat, esc: seq<byte>)
    ensures Literal(v, n + 1, esc) == Literal(v, n, esc) + (if v == EscapeByte then esc else [v])
  {
    if n > 0 {
      LiteralSnoc(v, n - 1, esc);
    }
  }

  /** The record Encode writes for the leading run of s. */
  function FirstRecord(s: seq<byte>, esc: seq<byte>): seq<byte>
    requires |s| > 0
  {
    Emit(FirstPiece(s), esc)
  }

  /** The encoder's output for data[i..] is the first piece's record
      followed by the output for the rest: once out holds the output for
      data[..i] and next adds that record, the output still to come starts
      where the run ends. */
  lemma EncodingStep(data: seq<byte>, i: nat, n: nat, esc: seq<byte>, out: seq<byte>, next: seq<byte>)
    requires i < |data| && n == RunLength(data[i..])
    requires next == out + FirstRecord(data[i..], esc)
    ensures i + n <= |data|
    ensures forall j :: j == i + n ==> out + Encoding(data[i..], esc) == next + Encoding(data[j..], esc)
  {
    assert data[i..][n..] == data[i + n..];
    Associative(out, FirstRecord(data[i..], esc), Encoding(data[i + n..], esc));
  }

  /** The literal branch of Encode (lines 42-51): each byte is appended,
      and an FF is followed by the 00 marker. */
  method AppendLiterals(output: seq<byte>, current: byte, runLength: nat) returns (extended: seq<byte>)
    ensures extended == output + Literal(current, runLength, LiteralEscape)
  {
    extended := output;
    for j := 0 to runLength
      invariant extended == output + Literal(current, j, LiteralEscape)
    {
      LiteralSnoc(current, j, LiteralEscape);
      extended := extended + [current];
      if current == EscapeByte {
        extended := extended + [0];
      }
    }
  }

  lemma Associative(a: seq<byte>, b: seq<byte>, c: seq<byte>)
    ensures (a + b) + c == a + (b + c)
  {
  }

  /** RlePreprocessor.Encode. */
  method Encode(data: seq<byte>) returns (output: seq<byte>)
    ensures output == Encoding(data, LiteralEscape)
    ensures data == [] ==> output == []
  {
    if |data| == 0 { return data; }
    output := [];
    var i: nat := 0;
    assert data[i..] == data;
    while i < |data|
      invariant i <= |data|
      invariant output + Encoding(data[i..], LiteralEscape) == Encoding(data, LiteralEscape)
    {
      var current := data[i];
      var runLength := MeasureRun(data, i);
      ghost var before := output;
      if runLength >= MinRunLength {
        output := output + [EscapeByte, current, runLength as byte];
      } else {
        output := AppendLiterals(output, current, runLength);
      }
      EncodingStep(data, i, runLength, LiteralEscape, before, output);
      i := i + runLength;
    }
    assert data[i..] == [];
  }

  // ------------------------------------------------------------ decoding

  /** What Decode returns: FF v n with n > 0 is a run, FF 00 a literal FF,
      and anything else, including a malformed escape at the end, is copied. */
  function Decoding(d: seq<byte>): seq<byte>
    decreases |d|
  {
    if |d| == 0 then []
    else if d[0] == EscapeByte && 1 < |d| then
      if 2 < |d| && d[2] > 0 then Repeat(d[1], d[2]) + Decoding(d[3..])
      else if d[1] == 0 then [EscapeByte] + Decoding(d[2..])
      else [d[0]] + Decoding(d[1..])
    else [d[0]] + Decoding(d[1..])
  }

  /** RlePreprocessor.Decode. */
  method Decode(data: seq<byte>) returns (output: seq<byte>)
    ensures output == Decoding(data)
    ensures data == [] ==> output == []
  {
    if |data| == 0 { return data; }
    output := [];
    var i := 0;
    while i < |data|
      invariant 0 <= i <= |data|
      invariant output + Decoding(data[i..]) == Decoding(data)
    {
      ghost var before := output;
      if data[i] == EscapeByte && i + 1 < |data| {
        if i + 2 < |data| && data[i + 2] > 0 {
          var value := data[i + 1];
          var count := data[i + 2];
          for j := 0 to count
            invariant output == before + Repeat(value, j)
          {
            RepeatSnoc(before, value, j);
            output := output + [value];
          }
          DecodingStep(data, i, 3, before, output);
          i := i + 3;
        } else if i + 1 < |data| && data[i + 1] == 0 {
          output := output + [EscapeByte];
          DecodingStep(data, i, 2, before, output);
          i := i + 2;
        } else {
          output := output + [data[i]];
          DecodingStep(data, i, 1, before, output);
          i := i + 1;
        }
      } else {
        output := output + [data[i]];
        DecodingStep(data, i, 1, before, output);
        i := i + 1;
      }
    }
    assert data[i..] == [];
  }

  /** One more copy appended. */
  lemma RepeatSnoc(before: seq<byte>, v: byte, n: nat)
    ensures forall m :: m == n + 1 ==> (before + Repeat(v, n)) + [v] == before + Repeat(v, m)
  {
    Associative(before, Repeat(v, n), [v]);
  }

  /** Decoding from i is the record there followed by decoding from where
      it ends: once out holds the output for d[..i] and next adds that
      record, the output still to come starts after it. */
  lemma DecodingStep(d: seq<byte>, i: nat, width: nat, out: seq<byte>, next: seq<byte>)
    requires i < |d|
    requires width == 3 ==> d[i] == EscapeByte && i + 2 < |d| && d[i + 2] > 0 && next == out + Repeat(d[i + 1], d[i + 2])
    requires width == 2 ==> d[i] == EscapeByte && i + 1 < |d| && !(i + 2 < |d| && d[i + 2] > 0) && d[i + 1] == 0 && next == out + [EscapeByte]
    requires width == 1 ==> !(d[i] == EscapeByte && i + 1 < |d| && ((i + 2 < |d| && d[i + 2] > 0) || d[i + 1] == 0)) && next == out + [d[i]]
    requires 1 <= width <= 3
    ensures i + width <= |d|
    ensures forall j :: j == i + width ==> out + Decoding(d[i..]) == next + Decoding(d[j..])
  {
    assert d[i..][width..] == d[i + width..];
    Associative(out, next[|out|..], Decoding(d[i + width..]));
  }

  // ------------------------------------------------------------ round trip

  /** How one literal byte v is written. */
  function Unit(v: byte, esc: seq<byte>): seq<byte>
  {
    if v == EscapeByte then esc else [v]
  }

  /** The literals can be read back: no FF among them, or FF written as a
      one-byte run record. */
  predicate Readable(v: byte, esc: seq<byte>)
  {
    v != EscapeByte || esc == RunEscape
  }

  lemma DecodeUnit(v: byte, esc: seq<byte>, rest: seq<byte>)
    requires Readable(v, esc)
    ensures Decoding(Unit(v, esc) + rest) == [v] + Decoding(rest)
  {
    var d := Unit(v, esc) + rest;
    if v == EscapeByte {
      assert d[0] == EscapeByte && d[1] == 0xFF && d[2] == 1 && d[3..] == rest;
      assert Repeat(0xFF, 1) == [0xFF];
    } else {
      assert d[1..] == rest;
    }
  }

  lemma ConsRepeat(v: byte, n: nat)
    requires n > 0
    ensures [v] + Repeat(v, n - 1) == Repeat(v, n)
  {
  }

  lemma {:induction false} DecodeLiteral(v: byte, n: nat, esc: seq<byte>, rest: seq<byte>)
    requires Readable(v, esc)
    ensures Decoding(Literal(v, n, esc) + rest) == Repeat(v, n) + Decoding(rest)
  {
    if n == 0 {
      assert Literal(v, n, esc) + rest == rest && Repeat(v, n) + Decoding(rest) == Decoding(rest);
    } else {
      var u := Unit(v, esc);
      var tail := Literal(v, n - 1, esc);
      Associative(u, tail, rest);
      DecodeUnit(v, esc, tail + rest);
      DecodeLiteral(v, n - 1, esc, rest);
      ConsRepeat(v, n);
      Associative([v], Repeat(v, n - 1), Decoding(rest));
    }
  }

  lemma DecodeRecord(v: byte, n: nat, rest: seq<byte>)
    requires 1 <= n <= MaxRunLength
    ensures Decoding([EscapeByte, v, n as byte] + rest) == Repeat(v, n) + Decoding(rest)
  {
    var d := [EscapeByte, v, n as byte] + rest;
    assert d[3..] == rest;
  }

  /** Decoding the record of the leading run gives that run back. */
  lemma DecodeFirstRecord(s: seq<byte>, esc: seq<byte>, rest: seq<byte>)
    requires |s| > 0 && Readable(s[0], esc)
    ensures Decoding(FirstRecord(s, esc) + rest) == Repeat(s[0], RunLength(s)) + Decoding(rest)
  {
    var n := RunLength(s);
    if n >= MinRunLength {
      DecodeRecord(s[0], n, rest);
    } else {
      DecodeLiteral(s[0], n, esc, rest);
    }
  }

  /** Decode inverts the encoder whenever every literal can be read back:
      for the program's escape on inputs without FF, and for the run escape
      on every input. */
  lemma {:induction false} RoundTrip(s: seq<byte>, esc: seq<byte>)
    requires esc == RunEscape || EscapeByte !in s
    ensures Decoding(Encoding(s, esc)) == s
    decreases |s|
  {
    if |s| > 0 {
      var n := RunLength(s);
      ReadableParts(s, esc);
      RoundTrip(s[n..], esc);
      DecodeFirstRecord(s, esc, Encoding(s[n..], esc));
      LeadingRun(s);
    }
  }

  /** Every byte of s, the first and those after the leading run, can be
      read back when s has no FF or the run escape is used. */
  lemma ReadableParts(s: seq<byte>, esc: seq<byte>)
    requires |s| > 0 && (esc == RunEscape || EscapeByte !in s)
    ensures Readable(s[0], esc)
    ensures esc == RunEscape || EscapeByte !in s[RunLength(s)..]
  {
    assert s[0] in s;
    assert forall b :: b in s[RunLength(s)..] ==> b in s;
  }

  /** For inputs without FF, Decode(Encode(x)) == x. */
  lemma RoundTripWithoutEscapeByte(s: seq<byte>)
    requires EscapeByte !in s
    ensures Decoding(Encoding(s, LiteralEscape)) == s
  {
    RoundTrip(s, LiteralEscape);
  }

  /** With the program's escape the round trip fails: [FF, 05] is encoded
      as FF 00 05, which Decode reads as a run of five zero bytes. */
  lemma RoundTripCounterexample()
    ensures Encoding([0xFF, 0x05], LiteralEscape) == [0xFF, 0x00, 0x05]
    ensures Decoding([0xFF, 0x00, 0x05]) == [0x00, 0x00, 0x00, 0x00, 0x00]
    ensures Decoding(Encoding([0xFF, 0x05], LiteralEscape)) != [0xFF, 0x05]
  {
    var s: seq<byte> := [0xFF, 0x05];
    assert RunLength(s) == 1;
    assert s[1..] == [0x05];
    assert RunLength(s[1..]) == 1;
    assert s[1..][1..] == [];
    assert Literal(0xFF, 1, LiteralEscape) == [0xFF, 0x00];
    assert Literal(0x05, 1, LiteralEscape) == [0x05];
    assert Repeat(0, 5) == [0, 0, 0, 0, 0];
  }

  /** Writing a literal FF as the one-byte run record FF FF 01 makes every
      input round-trip through the unchanged decoder. */
  lemma EscapedRoundTrip(s: seq<byte>)
    ensures Decoding(Encoding(s, RunEscape)) == s
  {
    RoundTrip(s, RunEscape);
  }

  // ------------------------------------------------------------ shape of the output

  lemma {:induction false} LiteralLength(v: byte, n: nat, esc: seq<byte>)
    ensures |Literal(v, n, esc)| == n * |Unit(v, esc)|
  {
    if n > 0 {
      LiteralLength(v, n - 1, esc);
    }
  }

  /** For inputs without FF the output is never longer than the input: a
      literal costs one byte and a run record three bytes for at least four. */
  lemma {:induction false} EncodingNoLonger(s: seq<byte>)
    requires EscapeByte !in s
    ensures |Encoding(s, LiteralEscape)| <= |s|
    decreases |s|
  {
    if |s| > 0 {
      var n := RunLength(s);
      assert s[0] in s;
      assert forall b :: b in s[n..] ==> b in s;
      EncodingNoLonger(s[n..]);
      LiteralLength(s[0], n, LiteralEscape);
    }
  }

  /** Each literal FF becomes the pair FF 00. */
  lemma {:induction false} LiteralEscapePattern(n: nat)
    ensures var r := Literal(EscapeByte, n, LiteralEscape);
            |r| == 2 * n && forall k :: 0 <= k < n ==> r[2 * k] == 0xFF && r[2 * k + 1] == 0x00
  {
    if n > 0 {
      LiteralEscapePattern(n - 1);
      var r := Literal(EscapeByte, n, LiteralEscape);
      var t := Literal(EscapeByte, n - 1, LiteralEscape);
      assert r == [0xFF, 0x00] + t;
      forall k | 0 <= k < n ensures r[2 * k] == 0xFF && r[2 * k + 1] == 0x00 {
        if k > 0 {
          assert r[2 * k] == t[2 * (k - 1)];
          assert r[2 * k + 1] == t[2 * (k - 1) + 1];
        }
      }
    }
  }

  /** A run longer than 255 bytes is not written as one record: the first
      record covers exactly 255 bytes and the rest is encoded after it. */
  lemma LongRunSplits(s: seq<byte>)
    requires |s| > MaxRunLength && forall j :: 0 <= j <= MaxRunLength ==> s[j] == s[0]
    ensures Pieces(s)[0] == Run(s[0], MaxRunLength)
    ensures Encoding(s, LiteralEscape) == [EscapeByte, s[0], 0xFF] + Encoding(s[MaxRunLength..], LiteralEscape)
  {
    RunLengthMaximal(s);
    assert RunLength(s) == MaxRunLength;
    assert FirstRecord(s, LiteralEscape) == [EscapeByte, s[0], 0xFF];
  }

  /** Decode copies a malformed escape at the end through: a lone FF, or FF
      followed by a non-zero byte and nothing more. */
  lemma MalformedTail(x: byte)
    ensures Decoding([EscapeByte]) == [EscapeByte]
    ensures x != 0 ==> Decoding([EscapeByte, x]) == [EscapeByte, x]
  {
    var d: seq<byte> := [EscapeByte, x];
    assert d[1..] == [x] && [x][1..] == [];
    assert Decoding([x]) == [x];
  }

  // ------------------------------------------------------------ WouldBenefit

  /** The number of runs of four or more bytes the encoder's scan finds. */
  function RunsIn(s: seq<byte>): nat
    decreases |s|
  {
    if |s| == 0 then 0
    else (if RunLength(s) >= MinRunLength then 1 else 0) + RunsIn(s[RunLength(s)..])
  }

  /** Every counted run stands for at least four input bytes. */
  lemma {:induction false} RunsInBound(s: seq<byte>)
    ensures RunsIn(s) * MinRunLength <= |s|
    decreases |s|
  {
    if |s| > 0 {
      RunsInBound(s[RunLength(s)..]);
    }
  }

  /** The runs counted from i: the leading one, if long enough, and those
      after it. */
  lemma RunsStep(data: seq<byte>, i: nat, n: nat)
    requires i < |data| && n == RunLength(data[i..])
    ensures i + n <= |data|
    ensures forall j :: j == i + n ==> RunsIn(data[i..]) == (if n >= MinRunLength then 1 else 0) + RunsIn(data[j..])
  {
    assert data[i..][n..] == data[i + n..];
  }

  /** RlePreprocessor.WouldBenefit: at least 100 bytes and more runs than
      five per full hundred bytes. */
  method WouldBenefit(data: seq<byte>) returns (benefit: bool)
    ensures |data| < 100 ==> !benefit
    ensures benefit <==> |data| >= 100 && RunsIn(data) > |data| / 100 * 5
  {
    if |data| < 100 { return false; }
    var runs := 0;
    var i: nat := 0;
    assert data[i..] == data;
    while i < |data|
      invariant i <= |data|
      invariant runs + RunsIn(data[i..]) == RunsIn(data)
    {
      var runLength := MeasureRun(data, i);
      RunsStep(data, i, runLength);
      if runLength >= MinRunLength {
        runs := runs + 1;
      }
      i := i + runLength;
    }
    assert data[i..] == [];
    benefit := runs > |data| / 100 * 5;
  }
}
