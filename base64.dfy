/**
 * The base64 encoding of section 4 of RFC 4648: the canonical encoder that every
 * variant uses (PHP base64_encode, C# Convert.ToBase64String, Ruby strict_encode64,
 * Java printBase64Binary, Node's toString('base64')), and the decoders that reject
 * malformed input. The strict decoder insists on a length that is a multiple of four,
 * the alphabet, and padding only at the end, and ignores the unused bits of a padded
 * last group. C#'s Convert.FromBase64String is the strict decoder after whitespace is
 * skipped; PHP's base64_decode(.., true) also skips whitespace and accepts a missing
 * padding; Ruby's strict_decode64 is the strict decoder on canonical input only. Java's
 * and Node's lenient decoders are parameters with assumed properties.
 */
module Base64 {

  import opened Common
  import Text

  const Pad: char := '='

  predicate IsAlphabetChar(c: char) {
    'A' <= c <= 'Z' || 'a' <= c <= 'z' || '0' <= c <= '9' || c == '+' || c == '/'
  }

  /** The character for a 6-bit value. */
  function Char(v: nat): (c: char)
    requires v < 64
    ensures IsAlphabetChar(c)
  {
    if v < 26 then ('A' as int + v) as char
    else if v < 52 then ('a' as int + (v - 26)) as char
    else if v < 62 then ('0' as int + (v - 52)) as char
    else if v == 62 then '+'
    else '/'
  }

  /** The 6-bit value of an alphabet character. */
  function Value(c: char): (v: nat)
    requires IsAlphabetChar(c)
    ensures v < 64 && Char(v) == c
  {
    if 'A' <= c <= 'Z' then c as int - 'A' as int
    else if 'a' <= c <= 'z' then c as int - 'a' as int + 26
    else if '0' <= c <= '9' then c as int - '0' as int + 52
    else if c == '+' then 62
    else 63
  }

  lemma ValueOfChar(v: nat)
    requires v < 64
    ensures Value(Char(v)) == v
  {
  }

  /** Four characters for three bytes. */
  function EncodeGroup(b0: byte, b1: byte, b2: byte): string {
    [Char(b0 / 4), Char((b0 % 4) * 16 + b1 / 16), Char((b1 % 16) * 4 + b2 / 64), Char(b2 % 64)]
  }

  /** Canonical base64 of a byte sequence, padded with '=' to a multiple of four characters. */
  function Encode(b: seq<byte>): (s: string)
    ensures |s| == EncodedLength(|b|)
  {
    if |b| == 0 then []
    else if |b| == 1 then [Char(b[0] / 4), Char((b[0] % 4) * 16), Pad, Pad]
    else if |b| == 2 then [Char(b[0] / 4), Char((b[0] % 4) * 16 + b[1] / 16), Char((b[1] % 16) * 4), Pad]
    else
      EncodedLengthStep(|b| - 3);
      EncodeGroup(b[0], b[1], b[2]) + Encode(b[3..])
  }

  /** Four characters for every started group of three bytes. */
  function EncodedLength(n: nat): nat {
    4 * ((n + 2) / 3)
  }

  predicate IsGroup(s: string)
    requires |s| == 4
  {
    IsAlphabetChar(s[0]) && IsAlphabetChar(s[1]) && IsAlphabetChar(s[2]) && IsAlphabetChar(s[3])
  }

  function DecodeGroup(s: string): seq<byte>
    requires |s| == 4 && IsGroup(s)
  {
    var v0, v1, v2, v3 := Value(s[0]), Value(s[1]), Value(s[2]), Value(s[3]);
    [v0 * 4 + v1 / 16, (v1 % 16) * 16 + v2 / 4, (v2 % 4) * 64 + v3]
  }

  /** The last group of four characters, which may carry one or two '='. */
  function DecodeLast(s: string): Option<seq<byte>>
    requires |s| == 4
  {
    if !(IsAlphabetChar(s[0]) && IsAlphabetChar(s[1])) then None
    else
      var v0, v1 := Value(s[0]), Value(s[1]);
      if s[2] == Pad && s[3] == Pad then Some([v0 * 4 + v1 / 16])
      else if IsAlphabetChar(s[2]) && s[3] == Pad then
        Some([v0 * 4 + v1 / 16, (v1 % 16) * 16 + Value(s[2]) / 4])
      else if IsGroup(s) then Some(DecodeGroup(s))
      else None
  }

  /** Strict decoding: None for anything that is not base64 as section 4 of RFC 4648 writes it. */
  function Decode(s: string): Option<seq<byte>>
    decreases |s|
  {
    if |s| == 0 then Some([])
    else if |s| < 4 then None
    else if |s| == 4 then DecodeLast(s)
    else if IsGroup(s[..4]) then
      match Decode(s[4..])
      case None => None
      case Some(rest) => Some(DecodeGroup(s[..4]) + rest)
    else None
  }

  lemma GroupRoundTrip(b0: byte, b1: byte, b2: byte)
    ensures IsGroup(EncodeGroup(b0, b1, b2))
    ensures DecodeGroup(EncodeGroup(b0, b1, b2)) == [b0, b1, b2]
  {
    var v0, v1, v2, v3 := b0 / 4, (b0 % 4) * 16 + b1 / 16, (b1 % 16) * 4 + b2 / 64, b2 % 64;
    var s := EncodeGroup(b0, b1, b2);
    ValueOfChar(v0);
    ValueOfChar(v1);
    ValueOfChar(v2);
    ValueOfChar(v3);
    assert v0 * 4 + v1 / 16 == b0 by { Sixteens(b0 % 4, b1 / 16); }
    assert (v1 % 16) * 16 + v2 / 4 == b1 by {
      Fours(b1 % 16, b2 / 64);
      Sixteens(b0 % 4, b1 / 16);
    }
    assert (v2 % 4) * 64 + v3 == b2 by { Fours(b1 % 16, b2 / 64); }
  }

  /** x * 16 + y with y below 16 keeps x above and y below. */
  lemma Sixteens(x: nat, y: nat)
    requires y < 16
    ensures (x * 16 + y) / 16 == x && (x * 16 + y) % 16 == y
  {
  }

  /** x * 4 + y with y below 4 keeps x above and y below. */
  lemma Fours(x: nat, y: nat)
    requires y < 4
    ensures (x * 4 + y) / 4 == x && (x * 4 + y) % 4 == y
  {
  }

  lemma OneByteRoundTrip(b0: byte)
    ensures Decode(Encode([b0])) == Some([b0])
  {
    ValueOfChar(b0 / 4);
    ValueOfChar((b0 % 4) * 16);
  }

  lemma TwoBytesRoundTrip(b0: byte, b1: byte)
    ensures Decode(Encode([b0, b1])) == Some([b0, b1])
  {
    ValueOfChar(b0 / 4);
    ValueOfChar((b0 % 4) * 16 + b1 / 16);
    ValueOfChar((b1 % 16) * 4);
    var v1 := (b0 % 4) * 16 + b1 / 16;
    assert v1 / 16 == b0 % 4 && v1 % 16 == b1 / 16;
    assert ((b1 % 16) * 4) / 4 == b1 % 16;
  }

  /** A full group followed by at least one more group decodes group by group. */
  lemma DecodeGroupThen(g: string, t: string)
    requires |g| == 4 && IsGroup(g) && |t| >= 4
    ensures Decode(g + t) == match Decode(t)
                             case None => None
                             case Some(rest) => Some(DecodeGroup(g) + rest)
  {
    assert (g + t)[..4] == g;
    assert (g + t)[4..] == t;
  }

  lemma ThreeBytesRoundTrip(b0: byte, b1: byte, b2: byte)
    ensures Decode(Encode([b0, b1, b2])) == Some([b0, b1, b2])
  {
    GroupRoundTrip(b0, b1, b2);
    assert Encode([b0, b1, b2]) == EncodeGroup(b0, b1, b2) by {
      assert [b0, b1, b2][3..] == [];
    }
  }

  /** Decoding undoes encoding. */
  lemma {:induction false} DecodeEncode(b: seq<byte>)
    ensures Decode(Encode(b)) == Some(b)
  {
    if |b| == 1 {
      assert b == [b[0]];
      OneByteRoundTrip(b[0]);
    } else if |b| == 2 {
      assert b == [b[0], b[1]];
      TwoBytesRoundTrip(b[0], b[1]);
    } else if |b| == 3 {
      assert b == [b[0], b[1], b[2]];
      ThreeBytesRoundTrip(b[0], b[1], b[2]);
    } else if |b| > 3 {
      DecodeEncode(b[3..]);
      DecodeEncodeStep(b);
    }
  }

  /** The step of DecodeEncode: a leading group in front of an encoding that decodes back. */
  lemma DecodeEncodeStep(b: seq<byte>)
    requires |b| > 3 && Decode(Encode(b[3..])) == Some(b[3..])
    ensures Decode(Encode(b)) == Some(b)
  {
    var g, t := EncodeGroup(b[0], b[1], b[2]), Encode(b[3..]);
    assert Encode(b) == g + t;
    GroupRoundTrip(b[0], b[1], b[2]);
    DecodeGroupThen(g, t);
    FirstGroup(b);
  }

  lemma FirstGroup(b: seq<byte>)
    requires |b| >= 3
    ensures b == [b[0], b[1], b[2]] + b[3..]
  {
  }

  /** Encoding is one-to-one. */
  lemma EncodeInjective(x: seq<byte>, y: seq<byte>)
    requires Encode(x) == Encode(y)
    ensures x == y
  {
    DecodeEncode(x);
    DecodeEncode(y);
  }

  /** A decodable string has exactly the length of the encoding of what it decodes to. */
  lemma {:induction false} DecodedLength(s: string)
    requires Decode(s).Some?
    ensures |s| == EncodedLength(|Decode(s).value|)
  {
    if |s| > 4 {
      DecodedLength(s[4..]);
      EncodedLengthStep(|Decode(s[4..]).value|);
    }
  }

  lemma EncodedLengthStep(n: nat)
    ensures EncodedLength(n + 3) == 4 + EncodedLength(n)
  {
    assert (n + 3 + 2) / 3 == (n + 2) / 3 + 1;
  }

  /** Neither an encoding nor anything the strict decoder accepts holds the ':' delimiter. */
  lemma {:induction false} EncodeNoDelimiter(b: seq<byte>)
    ensures Text.NoDelimiter(Encode(b))
  {
    if |b| >= 3 {
      EncodeNoDelimiter(b[3..]);
    }
  }

  /**
   * An accepted string no longer than an encoding of n bytes decodes to at most n
   * bytes, and to fewer when it is shorter.
   */
  lemma ShorterDecodesShorter(s: string, n: nat)
    requires Decode(s).Some? && |s| < EncodedLength(n)
    ensures |Decode(s).value| < n
  {
    DecodedLength(s);
  }

  // ---------------------------------------------------------------------------
  // Lenient library decoders
  // ---------------------------------------------------------------------------

  /**
   * A library decoder that does not reject malformed input (Java's
   * DatatypeConverter.parseBase64Binary, Node's Buffer.from(s, 'base64')): only the
   * properties below are assumed of it, each where a proof needs it.
   */
  type Decoder = string -> seq<byte>

  /** The decoder reads every canonical encoding back to its bytes. */
  ghost predicate DecodesEncodings(decode: Decoder) {
    forall b :: decode(Encode(b)) == b
  }

  predicate AllAlphabet(s: string) {
    forall i :: 0 <= i < |s| ==> IsAlphabetChar(s[i])
  }

  /**
   * Node's decoder on a string of alphabet characters only: three bytes for every four
   * characters, rounded down (a lone trailing character carries no whole byte).
   */
  ghost predicate ReadsSextets(decode: Decoder) {
    forall s :: AllAlphabet(s) ==> |decode(s)| == |s| * 3 / 4
  }

  /** s is the canonical encoding of what the strict decoder reads from it. */
  predicate Canonical(s: string) {
    Decode(s).Some? && Encode(Decode(s).value) == s
  }

  /**
   * Ruby's Base64.strict_decode64, which on top of the strict decoder's checks raises for
   * a padded last group whose unused bits are not zero: it reads canonical input only.
   */
  function DecodeCanonical(s: string): (r: Option<seq<byte>>)
    ensures r.Some? ==> Decode(s) == r && Encode(r.value) == s
  {
    if Canonical(s) then Decode(s) else None
  }

  lemma EncodeCanonical(b: seq<byte>)
    ensures Canonical(Encode(b))
  {
    DecodeEncode(b);
  }

  /**
   * Re-encoding what a decoder that reads encodings back returns reproduces the input
   * exactly when the input is canonical, and then the decoder agrees with the strict one.
   */
  lemma ReencodeCheck(decode: Decoder, s: string)
    requires DecodesEncodings(decode)
    ensures Encode(decode(s)) == s <==> Canonical(s)
    ensures Canonical(s) ==> decode(s) == Decode(s).value
  {
    DecodeEncode(decode(s));
    if Canonical(s) {
      assert decode(Encode(Decode(s).value)) == Decode(s).value;
    }
  }

  /** Without padding an encoding is alphabet characters only. */
  lemma {:induction false} EncodeFullGroups(b: seq<byte>)
    requires |b| % 3 == 0
    ensures AllAlphabet(Encode(b))
  {
    if |b| > 0 {
      EncodeFullGroups(b[3..]);
      var g, t := EncodeGroup(b[0], b[1], b[2]), Encode(b[3..]);
      assert Encode(b) == g + t;
      assert AllAlphabet(g) by { assert forall i :: 0 <= i < 4 ==> IsAlphabetChar(g[i]); }
      AlphabetConcat(g, t);
    }
  }

  lemma AlphabetConcat(x: string, y: string)
    requires AllAlphabet(x) && AllAlphabet(y)
    ensures AllAlphabet(x + y)
  {
    assert forall i :: 0 <= i < |x + y| ==> (x + y)[i] == if i < |x| then x[i] else y[i - |x|];
  }

  // ---------------------------------------------------------------------------
  // PHP's and .NET's decoders
  // ---------------------------------------------------------------------------

  /** The characters both decoders skip wherever they occur: tab, line feed, carriage return, space. */
  predicate IsWhitespace(c: char) {
    c == '\t' || c == '\n' || c == '\r' || c == ' '
  }

  /** s with its whitespace taken out. */
  function StripWhitespace(s: string): (t: string)
    ensures |t| <= |s|
    ensures forall i :: 0 <= i < |t| ==> !IsWhitespace(t[i])
    ensures (forall i :: 0 <= i < |s| ==> !IsWhitespace(s[i])) ==> t == s
  {
    if |s| == 0 then []
    else if IsWhitespace(s[0]) then StripWhitespace(s[1..])
    else [s[0]] + StripWhitespace(s[1..])
  }

  /**
   * C#'s Convert.FromBase64String: the strict decoder once space, tab, carriage return
   * and line feed are skipped.
   */
  function NetDecode(s: string): (r: Option<seq<byte>>)
    ensures r.Some? ==> |StripWhitespace(s)| == EncodedLength(|r.value|)
  {
    var t := StripWhitespace(s);
    if Decode(t).Some? then DecodedLength(t); Decode(t) else None
  }

  /** The index of the first '=' in s, or |s| when there is none. */
  function PadStart(s: string): (k: nat)
    ensures k <= |s|
    ensures forall i :: 0 <= i < k ==> s[i] != Pad
    ensures k < |s| ==> s[k] == Pad
  {
    if |s| == 0 || s[0] == Pad then 0 else 1 + PadStart(s[1..])
  }

  predicate AllPad(s: string) {
    forall i :: 0 <= i < |s| ==> s[i] == Pad
  }

  /** The '=' that complete a last group of i % 4 data characters. */
  function Padding(i: nat): (p: string)
    ensures AllPad(p) && |p| <= 2 && (i % 4 != 1 ==> (i + |p|) % 4 == 0)
  {
    if i % 4 == 2 then [Pad, Pad] else if i % 4 == 3 then [Pad] else []
  }

  /**
   * PHP's base64_decode(s, true) (PHP 7 and later): whitespace is skipped anywhere; the data
   * characters must come from the alphabet, and after the first '=' only '=' may follow; a
   * last group of a single data character is rejected; padding, when present, is one or two
   * '=' that complete the last group, and when absent the last group is read as if it were
   * there. The unused bits of a short last group are ignored.
   */
  function PhpDecode(s: string): (r: Option<seq<byte>>)
    ensures r.Some? ==> 4 * |r.value| <= 3 * |s|
  {
    var t := StripWhitespace(s);
    var k := PadStart(t);
    var data, padding := t[..k], t[k..];
    if !AllAlphabet(data) || !AllPad(padding) || |data| % 4 == 1 then None
    else if |padding| > 0 && (|padding| > 2 || (|data| + |padding|) % 4 != 0) then None
    else
      PaddedDataDecodes(data);
      assert |data| * 3 / 4 * 4 <= |data| * 3;
      Decode(data + Padding(|data|))
  }

  /**
   * Alphabet characters, as many as a base64 string can end its data with, decode once
   * their padding is put back, to three bytes for every four characters, rounded down.
   */
  lemma {:induction false} PaddedDataDecodes(d: string)
    requires AllAlphabet(d) && |d| % 4 != 1
    ensures Decode(d + Padding(|d|)).Some?
    ensures |Decode(d + Padding(|d|)).value| == |d| * 3 / 4
  {
    var s := d + Padding(|d|);
    if |d| == 0 {
      assert s == [];
    } else if |d| <= 4 {
      assert |s| == 4 && s[0] == d[0] && s[1] == d[1];
      if |d| >= 3 {
        assert s[2] == d[2];
      }
      if |d| == 4 {
        assert s == d;
      }
    } else {
      var rest := d[4..];
      assert Padding(|d|) == Padding(|rest|);
      assert s[..4] == d[..4];
      assert s[4..] == rest + Padding(|rest|);
      assert AllAlphabet(rest);
      PaddedDataDecodes(rest);
    }
  }

  /** '=' never precedes the end of a run of alphabet characters. */
  lemma {:induction false} PadStartAfterData(x: string, y: string)
    requires AllAlphabet(x)
    ensures PadStart(x + y) == |x| + PadStart(y)
  {
    if |x| == 0 {
      assert x + y == y;
    } else {
      assert (x + y)[0] == x[0] && IsAlphabetChar(x[0]);
      assert (x + y)[1..] == x[1..] + y;
      assert AllAlphabet(x[1..]);
      PadStartAfterData(x[1..], y);
    }
  }

  /** The property EncodeSplitsAtPad proves of every encoding. */
  predicate SplitsAtPad(s: string) {
    var k := PadStart(s);
    AllAlphabet(s[..k]) && k % 4 != 1 && s == s[..k] + Padding(k)
  }

  /** An encoding is alphabet characters followed by the padding their count calls for. */
  lemma {:induction false} EncodeSplitsAtPad(b: seq<byte>)
    ensures SplitsAtPad(Encode(b))
  {
    if |b| == 1 || |b| == 2 {
      ShortEncodeSplits(b);
    } else if |b| >= 3 {
      EncodeSplitsAtPad(b[3..]);
      var g := EncodeGroup(b[0], b[1], b[2]);
      assert Encode(b) == g + Encode(b[3..]);
      assert AllAlphabet(g) by { assert forall i :: 0 <= i < 4 ==> IsAlphabetChar(g[i]); }
      GroupThenSplits(g, Encode(b[3..]));
    }
  }

  lemma ShortEncodeSplits(b: seq<byte>)
    requires |b| == 1 || |b| == 2
    ensures SplitsAtPad(Encode(b))
  {
    var s := Encode(b);
    var d := if |b| == 1 then [Char(b[0] / 4), Char((b[0] % 4) * 16)]
             else [Char(b[0] / 4), Char((b[0] % 4) * 16 + b[1] / 16), Char((b[1] % 16) * 4)];
    assert AllAlphabet(d);
    assert s == d + Padding(|d|);
    DataThenPadding(d);
  }

  /** Alphabet data followed by its padding splits at the padding. */
  lemma DataThenPadding(d: string)
    requires AllAlphabet(d) && |d| % 4 != 1
    ensures SplitsAtPad(d + Padding(|d|))
  {
    var p := Padding(|d|);
    PadStartAfterData(d, p);
    assert PadStart(p) == 0;
    assert (d + p)[..|d|] == d;
  }

  lemma GroupThenSplits(g: string, t: string)
    requires |g| == 4 && AllAlphabet(g) && SplitsAtPad(t)
    ensures SplitsAtPad(g + t)
  {
    PadStartAfterData(g, t);
    var k := PadStart(t);
    AlphabetConcat(g, t[..k]);
    assert (g + t)[..4 + k] == g + t[..k];
    assert Padding(4 + k) == Padding(k);
  }

  /** Neither whitespace nor anything but alphabet characters and '=' appears in an encoding. */
  lemma EncodeHasNoWhitespace(b: seq<byte>)
    ensures StripWhitespace(Encode(b)) == Encode(b)
  {
    var s := Encode(b);
    var k := PadStart(s);
    EncodeSplitsAtPad(b);
    assert forall i :: 0 <= i < |s| ==> (i < k ==> s[i] == s[..k][i]) && (i >= k ==> s[i] == Padding(k)[i - k]);
  }

  /** C#'s decoder reads every encoding back. */
  lemma NetDecodeEncode(b: seq<byte>)
    ensures NetDecode(Encode(b)) == Some(b)
  {
    EncodeHasNoWhitespace(b);
    DecodeEncode(b);
  }

  /** PHP's decoder reads every encoding back. */
  lemma PhpDecodeEncode(b: seq<byte>)
    ensures PhpDecode(Encode(b)) == Some(b)
  {
    var s := Encode(b);
    EncodeHasNoWhitespace(b);
    EncodeSplitsAtPad(b);
    var k := PadStart(s);
    assert s[k..] == Padding(k);
    DecodeEncode(b);
  }

  /**
   * PHP's decoder also reads an encoding back with its padding dropped: a string of
   * 4m + 2 or 4m + 3 characters is as good as the encoding it is a prefix of.
   */
  lemma PhpDecodeUnpadded(b: seq<byte>)
    ensures var s := Encode(b);
            PhpDecode(s[..PadStart(s)]) == Some(b)
  {
    var s := Encode(b);
    EncodeSplitsAtPad(b);
    var d := s[..PadStart(s)];
    assert StripWhitespace(d) == d by { EncodeHasNoWhitespace(b); }
    assert d == d + [];
    PadStartAfterData(d, []);
    assert d[..|d|] == d && d[|d|..] == [];
    DecodeEncode(b);
  }

  /** A string accepted by C#'s decoder and shorter than an encoding of n bytes decodes to fewer. */
  lemma NetShorterDecodesShorter(s: string, n: nat)
    requires NetDecode(s).Some? && |s| < EncodedLength(n)
    ensures |NetDecode(s).value| < n
  {
    ShorterDecodesShorter(StripWhitespace(s), n);
  }

  /**
   * A string accepted by PHP's decoder and shorter than an encoding of n bytes, n a
   * multiple of three, decodes to fewer; for other n, PhpDecodeUnpadded shows a shorter
   * string that decodes to n bytes.
   */
  lemma PhpShorterDecodesShorter(s: string, n: nat)
    requires PhpDecode(s).Some? && |s| < EncodedLength(n) && n % 3 == 0
    ensures |PhpDecode(s).value| < n
  {
    var m := n / 3;
    assert EncodedLength(n) == 4 * m;
    assert 3 * |s| < 12 * m;
  }

  /** PHP reads "YQ", the encoding of "a" without its padding, as that one byte. */
  lemma PhpReadsUnpaddedByte()
    ensures PhpDecode("YQ") == Some([0x61])
  {
    assert StripWhitespace("YQ") == "YQ";
    assert PadStart("YQ") == 2;
    assert "YQ"[..2] == "YQ";
    assert AllAlphabet("YQ");
    assert "YQ" + Padding(2) == "YQ==";
  }

  /** C# reads "Y Q==" as the one byte of "a", the space skipped. */
  lemma NetSkipsWhitespace()
    ensures NetDecode("Y Q==") == Some([0x61])
  {
    assert StripWhitespace("Y Q==") == "YQ==";
  }
}
