/**
 * The PHP string functions the PHP variants lean on, for byte strings: substr (and the
 * mbstring-safe ourStrlen/ourSubstr wrappers of PasswordHash.php, which with the '8bit'
 * encoding count bytes), and bin2hex.
 */
module PhpText {

  import opened Common

  /** A PHP argument that is_string accepts (Str) or rejects (NotString). */
  datatype Arg<+T> = Str(value: T) | NotString

  function Min(x: int, y: int): int { if x <= y then x else y }
  function Max(x: int, y: int): int { if x <= y then y else x }

  /**
   * PHP 8 substr(s, start, length), length None standing for null: a negative start counts
   * from the end (clamped to the beginning), a start past the end gives the empty string,
   * a negative length leaves that many bytes off the end, a length past the end stops there.
   */
  function Substr(s: seq<byte>, start: int, length: Option<int>): (r: seq<byte>)
    ensures |r| <= |s|
    ensures 0 <= start <= |s| && length.None? ==> r == s[start..]
    ensures 0 <= start <= |s| && length.Some? && length.value >= 0 ==>
              r == s[start..Min(|s|, start + length.value)]
    ensures start < 0 && length.None? ==> r == s[Max(0, |s| + start)..]
  {
    var n := |s|;
    var from := if start < 0 then Max(0, n + start) else Min(start, n);
    var to := match length
      case None => n
      case Some(l) => if l < 0 then Max(from, n + l) else Min(n, from + l);
    s[from..to]
  }

  /** ourStrlen: the length in bytes. */
  function OurStrlen(s: seq<byte>): nat {
    |s|
  }

  /**
   * ourSubstr: substr, except that a null length is replaced by an explicit one before the
   * call, because mb_substr on old PHP versions read null as zero: strlen - start for a
   * non-negative start, -start for a negative one.
   */
  function OurSubstr(s: seq<byte>, start: int, length: Option<int>): (r: seq<byte>)
    ensures length.Some? ==> r == Substr(s, start, length)
  {
    match length
    case Some(_) => Substr(s, start, length)
    case None =>
      if start >= 0 then Substr(s, start, Some(OurStrlen(s) - start))
      else Substr(s, start, Some(-start))
  }

  /** The explicit length ourSubstr substitutes for null always reaches the end of the string. */
  lemma OurSubstrToEnd(s: seq<byte>, start: int)
    ensures OurSubstr(s, start, None) == Substr(s, start, None)
  {
  }

  // ---------------------------------------------------------------------------
  // bin2hex
  // ---------------------------------------------------------------------------

  /** The ASCII code of a lower-case hexadecimal digit. */
  function HexDigit(v: nat): (c: byte)
    requires v < 16
    ensures IsHexDigit(c) && HexValue(c) == v
  {
    if v < 10 then '0' as int + v else 'a' as int + (v - 10)
  }

  predicate IsHexDigit(c: byte) {
    '0' as int <= c <= '9' as int || 'a' as int <= c <= 'f' as int
  }

  function HexValue(c: byte): nat
    requires IsHexDigit(c)
  {
    if c <= '9' as int then c - '0' as int else c - 'a' as int + 10
  }

  /** bin2hex: two lower-case hexadecimal digits per byte, high nibble first. */
  function Bin2Hex(b: seq<byte>): (h: seq<byte>)
    ensures |h| == 2 * |b|
    ensures forall k :: 0 <= k < |h| ==> IsHexDigit(h[k])
  {
    if b == [] then [] else [HexDigit(b[0] / 16), HexDigit(b[0] % 16)] + Bin2Hex(b[1..])
  }

  /** Reading pairs of hexadecimal digits back as bytes (PHP hex2bin on well-formed input). */
  function Hex2Bin(h: seq<byte>): seq<byte>
    requires forall k :: 0 <= k < |h| ==> IsHexDigit(h[k])
  {
    if |h| < 2 then [] else [HexValue(h[0]) * 16 + HexValue(h[1])] + Hex2Bin(h[2..])
  }

  /** bin2hex loses nothing. */
  lemma {:induction false} Hex2BinOfBin2Hex(b: seq<byte>)
    ensures Hex2Bin(Bin2Hex(b)) == b
  {
    if b != [] {
      var h := Bin2Hex(b);
      assert h[2..] == Bin2Hex(b[1..]);
      Hex2BinOfBin2Hex(b[1..]);
    }
  }
}
