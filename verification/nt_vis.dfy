/**
 * nt_vis: renders a byte buffer either as upper-case hex digit pairs or as
 * the body of a C string literal, into a bounded, NUL-terminated output.
 * Bytes are unsigned and `isprint` is that of the C locale (0x20 to 0x7E);
 * the build is a GCC one, so ESC has the `\e` escape.
 */
module NtVis {
  import opened Optional

  /** nt_vis_format_type_t; any other value takes the C-syntax path. */
  const FormatHex: int := 0
  const FormatCSyntax: int := 1

  /** MINIMAL_BUFFER_SIZE_HEX and MINIMAL_BUFFER_SIZE_C. */
  const MinimalBufferSizeHex: nat := 3
  const MinimalBufferSizeC: nat := 5

  /** s_transTable: "0123456789ABCDEF". */
  const TransTable: seq<bv8> :=
    [0x30, 0x31, 0x32, 0x33, 0x34, 0x35, 0x36, 0x37, 0x38, 0x39, 0x41, 0x42, 0x43, 0x44, 0x45, 0x46]

  const Backslash: bv8 := 0x5C
  const Quote: bv8 := 0x22

  predicate IsPrint(b: bv8) {
    0x20 <= b <= 0x7E
  }

  predicate IsOctalDigit(c: bv8) {
    0x30 <= c <= 0x37
  }

  /** The ASCII digit of a value below 16, upper-case. */
  function Digit(n: bv8): bv8 {
    if n < 10 then 0x30 + n else 0x37 + n
  }

  /** The table maps a nibble to its ASCII digit. */
  lemma TransTableDigit(n: bv8)
    requires n < 16
    ensures TransTable[n as int] == Digit(n)
  {
  }

  /** Hex format: the high nibble's digit, then the low nibble's. */
  function HexPair(b: bv8): (r: seq<bv8>)
    ensures |r| == 2
  {
    [TransTable[((b >> 4) & 0x0F) as int], TransTable[(b & 0x0F) as int]]
  }

  /**
   * The letter (or digit) written after a backslash for the bytes that have
   * a simple escape: \a \b \f \n \r \t \v, the null character \0 and GNU's \e.
   */
  function SimpleEscape(b: bv8): Option<bv8> {
    if b == 0x07 then Some(0x61)
    else if b == 0x08 then Some(0x62)
    else if b == 0x0C then Some(0x66)
    else if b == 0x0A then Some(0x6E)
    else if b == 0x0D then Some(0x72)
    else if b == 0x09 then Some(0x74)
    else if b == 0x0B then Some(0x76)
    else if b == 0x00 then Some(0x30)
    else if b == 0x1B then Some(0x65)
    else None
  }

  /** A backslash and three octal digits, most significant first. */
  function OctalEscape(b: bv8): (r: seq<bv8>)
    ensures |r| == 4 && r[0] == Backslash
    ensures IsOctalDigit(r[1]) && r[1] <= 0x33 && IsOctalDigit(r[2]) && IsOctalDigit(r[3])
    ensures (((r[1] - 0x30) << 6) | ((r[2] - 0x30) << 3) | (r[3] - 0x30)) == b
  {
    TransTableDigit((b >> 6) & 0x03);
    TransTableDigit((b >> 3) & 0x07);
    TransTableDigit(b & 0x07);
    [Backslash, TransTable[((b >> 6) & 0x03) as int], TransTable[((b >> 3) & 0x07) as int],
     TransTable[(b & 0x07) as int]]
  }

  /** C-syntax format, one input byte, as the source writes it. */
  function CEscape(b: bv8): (r: seq<bv8>)
    ensures |r| == 1 || |r| == 2 || |r| == 4
    ensures |r| == 1 <==> IsPrint(b) && b != Quote && b != Backslash
    ensures |r| == 1 ==> r[0] == b
    ensures |r| > 1 ==> r[0] == Backslash
    ensures b == Quote ==> r == [Backslash, Quote]
    ensures b == Backslash ==> r == [Backslash, Backslash]
    ensures !IsPrint(b) && SimpleEscape(b).Some? ==> r == [Backslash, SimpleEscape(b).value]
    ensures !IsPrint(b) && SimpleEscape(b).None? ==> r == OctalEscape(b)
  {
    if b == Quote then [Backslash, Quote]
    else if b == Backslash then [Backslash, Backslash]
    else if IsPrint(b) then [b]
    else
      match SimpleEscape(b)
      case Some(c) => [Backslash, c]
      case None => OctalEscape(b)
  }

  /** One input byte in the chosen format. */
  function Encode(format: int, b: bv8): (r: seq<bv8>)
    ensures 1 <= |r| <= ChunkLimit(format)
  {
    if format == FormatHex then HexPair(b) else CEscape(b)
  }

  /** The most output bytes a single input byte can produce. */
  function ChunkLimit(format: int): nat {
    if format == FormatHex then 2 else 4
  }

  /** Bytes held back from the output size by the loop guard. */
  function Reserve(format: int): nat {
    if format == FormatHex then MinimalBufferSizeHex else MinimalBufferSizeC
  }

  /** The in-order concatenation of the encodings of every byte of `s`. */
  function Flat(format: int, s: seq<bv8>): seq<bv8>
    decreases |s|
  {
    if |s| == 0 then [] else Encode(format, s[0]) + Flat(format, s[1..])
  }

  lemma {:induction false} FlatAppend(format: int, s: seq<bv8>, b: bv8)
    ensures Flat(format, s + [b]) == Flat(format, s) + Encode(format, b)
    decreases |s|
  {
    if |s| == 0 {
      assert (s + [b])[1..] == [];
    } else {
      assert (s + [b])[1..] == s[1..] + [b];
      FlatAppend(format, s[1..], b);
    }
  }

  /** The number of input bytes consumed, recovered from nt_vis's return value. */
  function Taken(format: int, count: nat): nat {
    if format == FormatHex then count / 2 else count
  }

  /**
   * What nt_vis returns (`count`) and writes (`written`, from the start of the
   * output buffer). With the output size at or below the reserve, nothing.
   * Otherwise some prefix of the input, of length k, is encoded in order:
   * every byte of it was taken while the output held fewer than
   * `outputSize - reserve` bytes, and the next byte, if any, was refused
   * because that budget was spent. A NUL follows, and everything fits.
   */
  predicate VisResult(format: int, input: seq<bv8>, outputSize: nat, count: nat, written: seq<bv8>) {
    if outputSize <= Reserve(format) then count == 0 && written == []
    else
      var k := Taken(format, count);
      && k <= |input|
      && written == Flat(format, input[..k]) + [0]
      && (forall j :: 0 <= j < k ==> |Flat(format, input[..j])| < outputSize - Reserve(format))
      && (k < |input| ==> |Flat(format, input[..k])| >= outputSize - Reserve(format))
      && |written| < outputSize && written[|written| - 1] == 0
  }

  /**
   * nt_vis. Nothing is written unless the output size exceeds the reserve of
   * the format. Otherwise input is consumed in order while bytes remain and
   * fewer than `outputSize - reserve` bytes have been written, each byte's
   * encoding is appended, and a NUL closes the output, which always fits in
   * `outputSize`. The return value is two per consumed byte in hex format
   * and one per consumed byte otherwise.
   */
  method NtVis(format: int, input: seq<bv8>, outputSize: nat) returns (count: nat, written: seq<bv8>)
    ensures VisResult(format, input, outputSize, count, written)
    ensures format == FormatHex ==> count % 2 == 0
  {
    if format == FormatHex {
      count, written := VisHex(input, outputSize);
    } else {
      count, written := VisC(format, input, outputSize);
    }
  }

  /** The NT_VIS_FORMAT_HEX branch of nt_vis. */
  method VisHex(input: seq<bv8>, outputSize: nat) returns (count: nat, written: seq<bv8>)
    ensures VisResult(FormatHex, input, outputSize, count, written)
    ensures count % 2 == 0
  {
    count, written := 0, [];
    if outputSize > MinimalBufferSizeHex {
      var i := 0;
      while i < |input| && |written| < outputSize - MinimalBufferSizeHex
        invariant 0 <= i <= |input|
        invariant written == Flat(FormatHex, input[..i])
        invariant count == 2 * i
        invariant forall j :: 0 <= j < i ==> |Flat(FormatHex, input[..j])| < outputSize - MinimalBufferSizeHex
        invariant |written| <= outputSize - MinimalBufferSizeHex + 1
      {
        FlatAppend(FormatHex, input[..i], input[i]);
        assert input[..i + 1] == input[..i] + [input[i]];
        written := written + HexPair(input[i]);
        count := count + 2;
        i := i + 1;
      }
      assert Taken(FormatHex, count) == i;
      written := written + [0];
    }
  }

  /** The C-syntax branch of nt_vis, also taken for any unknown format. */
  method VisC(format: int, input: seq<bv8>, outputSize: nat) returns (count: nat, written: seq<bv8>)
    requires format != FormatHex
    ensures VisResult(format, input, outputSize, count, written)
  {
    count, written := 0, [];
    if outputSize > MinimalBufferSizeC {
      var i := 0;
      while i < |input| && |written| < outputSize - MinimalBufferSizeC
        invariant 0 <= i <= |input|
        invariant written == Flat(format, input[..i])
        invariant count == i
        invariant forall j :: 0 <= j < i ==> |Flat(format, input[..j])| < outputSize - MinimalBufferSizeC
        invariant |written| <= outputSize - MinimalBufferSizeC + 3
      {
        FlatAppend(format, input[..i], input[i]);
        assert input[..i + 1] == input[..i] + [input[i]];
        written := written + CEscape(input[i]);
        count := count + 1;
        i := i + 1;
      }
      written := written + [0];
    }
  }

  /** The value of an upper-case hex digit. */
  function HexValue(c: bv8): Option<bv8> {
    if 0x30 <= c <= 0x39 then Some(c - 0x30)
    else if 0x41 <= c <= 0x46 then Some(c - 0x37)
    else None
  }

  /** Reads hex output back: pairs of digits, high nibble first. */
  function Unhex(s: seq<bv8>): Option<seq<bv8>>
    decreases |s|
  {
    if |s| == 0 then Some([])
    else if |s| == 1 then None
    else
      match (HexValue(s[0]), HexValue(s[1]), Unhex(s[2..]))
      case (Some(hi), Some(lo), Some(rest)) => Some([(hi << 4) | lo] + rest)
      case _ => None
  }

  /** The two digits of one byte read back as its two nibbles, which recombine to the byte. */
  lemma HexPairReads(b: bv8)
    ensures HexValue(HexPair(b)[0]) == Some((b >> 4) & 0x0F)
    ensures HexValue(HexPair(b)[1]) == Some(b & 0x0F)
    ensures ((((b >> 4) & 0x0F) << 4) | (b & 0x0F)) == b
  {
    TransTableDigit((b >> 4) & 0x0F);
    TransTableDigit(b & 0x0F);
  }

  /** Hex output determines its input: reading it back gives the bytes that were encoded. */
  lemma {:induction false} HexRoundTrip(s: seq<bv8>)
    ensures Unhex(Flat(FormatHex, s)) == Some(s)
    decreases |s|
  {
    if |s| > 0 {
      var b, rest := s[0], Flat(FormatHex, s[1..]);
      var e := Flat(FormatHex, s);
      assert e == HexPair(b) + rest;
      assert e[0] == HexPair(b)[0] && e[1] == HexPair(b)[1] && e[2..] == rest;
      HexRoundTrip(s[1..]);
      HexPairReads(b);
      assert Unhex(e) == Some([b] + s[1..]);
      assert s == [b] + s[1..];
    }
  }

  /**
   * The short escape for the null character is ambiguous when the next byte
   * is an octal digit: the bytes 00 30 31 and the single byte 01 both come
   * out as backslash, '0', '0', '1', which C reads as the one byte 01.
   */
  lemma NulEscapeCollides()
    ensures Flat(FormatCSyntax, [0x00, 0x30, 0x31]) == Flat(FormatCSyntax, [0x01])
    ensures Flat(FormatCSyntax, [0x01]) == [Backslash, 0x30, 0x30, 0x31]
  {
    TransTableDigit(0);
    TransTableDigit(1);
    assert [0x00, 0x30, 0x31][1..] == [0x30 as bv8, 0x31];
    assert [0x30 as bv8, 0x31][1..] == [0x31 as bv8];
  }

  /**
   * C-syntax escape with the null character written as the three-digit
   * octal escape \000, as the comment on the output counter describes it.
   */
  function CEscapeStrict(b: bv8): (r: seq<bv8>)
    ensures b != 0 ==> r == CEscape(b)
    ensures b == 0 ==> r == [Backslash, 0x30, 0x30, 0x30]
  {
    if b == 0 then OctalEscape(0) else CEscape(b)
  }

  function FlatStrict(s: seq<bv8>): seq<bv8>
    decreases |s|
  {
    if |s| == 0 then [] else CEscapeStrict(s[0]) + FlatStrict(s[1..])
  }

  /** The byte a simple escape letter stands for, without the ambiguous \0. */
  function LetterValue(c: bv8): Option<bv8> {
    if c == 0x61 then Some(0x07)
    else if c == 0x62 then Some(0x08)
    else if c == 0x66 then Some(0x0C)
    else if c == 0x6E then Some(0x0A)
    else if c == 0x72 then Some(0x0D)
    else if c == 0x74 then Some(0x09)
    else if c == 0x76 then Some(0x0B)
    else if c == 0x65 then Some(0x1B)
    else None
  }

  /** Reads one escaped byte from the front of `s`: the byte and how many bytes it took. */
  function Chunk(s: seq<bv8>): (r: Option<(bv8, nat)>)
    requires |s| > 0
    ensures r.Some? ==> 1 <= r.value.1 <= |s|
  {
    if s[0] != Backslash then Some((s[0], 1))
    else if |s| < 2 then None
    else if s[1] == Quote || s[1] == Backslash then Some((s[1], 2))
    else if LetterValue(s[1]).Some? then Some((LetterValue(s[1]).value, 2))
    else if |s| >= 4 && IsOctalDigit(s[1]) && s[1] <= 0x33 && IsOctalDigit(s[2]) && IsOctalDigit(s[3]) then
      Some(((((s[1] - 0x30) << 6) | ((s[2] - 0x30) << 3) | (s[3] - 0x30)), 4))
    else None
  }

  /** Reads C-syntax output back into bytes; None when it is not well formed. */
  function Unescape(s: seq<bv8>): Option<seq<bv8>>
    decreases |s|
  {
    if |s| == 0 then Some([])
    else
      match Chunk(s)
      case None => None
      case Some((b, n)) =>
        match Unescape(s[n..])
        case None => None
        case Some(rest) => Some([b] + rest)
  }

  /** Each byte's strict escape reads back as that byte, whatever follows it. */
  lemma ChunkOfStrict(b: bv8, rest: seq<bv8>)
    ensures Chunk(CEscapeStrict(b) + rest) == Some((b, |CEscapeStrict(b)|))
  {
    var e := CEscapeStrict(b);
    var s := e + rest;
    assert s[..|e|] == e;
    if |e| == 4 {
      assert s[1] == e[1] && s[2] == e[2] && s[3] == e[3];
    }
  }

  /** With \000 for the null character, C-syntax output determines its input. */
  lemma {:induction false} StrictRoundTrip(s: seq<bv8>)
    ensures Unescape(FlatStrict(s)) == Some(s)
    decreases |s|
  {
    if |s| > 0 {
      var e, rest := CEscapeStrict(s[0]), FlatStrict(s[1..]);
      var f := FlatStrict(s);
      assert f == e + rest;
      ChunkOfStrict(s[0], rest);
      assert Chunk(f) == Some((s[0], |e|));
      assert f[|e|..] == rest;
      StrictRoundTrip(s[1..]);
      assert Unescape(f) == Some([s[0]] + s[1..]);
      assert s == [s[0]] + s[1..];
    }
  }
}
