/**
 * PBKDF2 as section 5.2 of RFC 2898 defines it, over an abstract HMAC, and the
 * pure-PHP fallback loop that both PHP variants run when hash_pbkdf2 is missing
 * (PasswordHash.php and PasswordStorage.php carry the same loop).
 */
module Pbkdf2 {

  import opened Common
  import opened Bits
  import opened PhpText

  /**
   * The hash names PasswordHash.php, PasswordStorage.php and PasswordHash.js accept
   * after lower-casing ("or we could end up with people using CRC32").
   */
  const AllowedAlgorithms: set<string> :=
    {"sha1", "sha224", "sha256", "sha384", "sha512", "ripemd160", "ripemd256", "ripemd320", "whirlpool"}

  /** hash_hmac(algorithm, data, key, true): the raw HMAC of data under the password. */
  type Hmac = (string, seq<byte>, string) -> seq<byte>

  /** hash(algorithm, data, true): the raw digest; only its length on "" is used. */
  type Digest = (string, seq<byte>) -> seq<byte>

  /** For this algorithm every HMAC has the digest length hLen. */
  ghost predicate FixedLength(hmac: Hmac, algorithm: string, hLen: nat) {
    forall data, key :: |hmac(algorithm, data, key)| == hLen
  }

  /** XOR of two bytes. */
  function ByteXor(x: byte, y: byte): (z: byte)
    ensures z == Xor(x, y)
  {
    XorByte(x, y);
    Xor(x, y)
  }

  /** PHP's ^ on strings: byte-wise XOR over the shorter length. */
  function XorStrings(x: seq<byte>, y: seq<byte>): (z: seq<byte>)
    ensures |z| == Min(|x|, |y|)
    ensures forall k :: 0 <= k < |z| ==> z[k] == Xor(x[k], y[k])
  {
    if x == [] || y == [] then [] else [ByteXor(x[0], y[0])] + XorStrings(x[1..], y[1..])
  }

  /** pack("N", i): i modulo 2^32 as four bytes, most significant first (INT(i) of RFC 2898). */
  function Int32BE(i: int): (b: seq<byte>)
    ensures |b| == 4
    ensures ((b[0] as int * 256 + b[1] as int) * 256 + b[2] as int) * 256 + b[3] as int == i % 0x1_0000_0000
  {
    var n := i % 0x1_0000_0000;
    var q1 := n / 256;
    var q2 := q1 / 256;
    var q3 := q2 / 256;
    ByteSplit(n);
    ByteSplit(q1);
    ByteSplit(q2);
    assert q3 < 256;
    [q3, q2 % 256, q1 % 256, n % 256]
  }

  /** x is its quotient by 256 and its last byte. */
  lemma ByteSplit(x: nat)
    ensures x == x / 256 * 256 + x % 256 && 0 <= x % 256 < 256 && x / 256 <= x
  {
  }

  /** U_j of block i: the first HMAC is of salt || INT(i), each later one of its predecessor. */
  function U(hmac: Hmac, algorithm: string, password: string, salt: seq<byte>, i: int, j: nat): seq<byte>
    requires j >= 1
  {
    if j == 1 then hmac(algorithm, salt + Int32BE(i), password)
    else hmac(algorithm, U(hmac, algorithm, password, salt, i, j - 1), password)
  }

  /** F(P, S, c, i) = U_1 xor ... xor U_c. */
  function F(hmac: Hmac, algorithm: string, password: string, salt: seq<byte>, count: nat, i: int): seq<byte>
    requires count >= 1
  {
    if count == 1 then U(hmac, algorithm, password, salt, i, 1)
    else XorStrings(F(hmac, algorithm, password, salt, count - 1, i), U(hmac, algorithm, password, salt, i, count))
  }

  /** T_1 || ... || T_n. */
  function Blocks(hmac: Hmac, algorithm: string, password: string, salt: seq<byte>, count: nat, n: nat): seq<byte>
    requires count >= 1
  {
    if n == 0 then [] else Blocks(hmac, algorithm, password, salt, count, n - 1) + F(hmac, algorithm, password, salt, count, n)
  }

  /** ceil(keyLength / hLen): the fewest blocks that cover keyLength bytes. */
  function BlockCount(keyLength: nat, hLen: nat): (n: nat)
    requires hLen >= 1
    ensures n * hLen >= keyLength
    ensures n == 0 || (n - 1) * hLen < keyLength
  {
    (keyLength + hLen - 1) / hLen
  }

  /** What the fallback returns: the first keyLength bytes of the blocks, raw or through bin2hex. */
  function FallbackKey(hmac: Hmac, hLen: nat, algorithm: string, password: string, salt: seq<byte>,
                       count: nat, keyLength: nat, rawOutput: bool): seq<byte>
    requires hLen >= 1 && count >= 1
  {
    var key := Substr(Blocks(hmac, algorithm, password, salt, count, BlockCount(keyLength, hLen)), 0, Some(keyLength));
    if rawOutput then key else Bin2Hex(key)
  }

  /**
   * The fallback loop: for i from 1 to ceil(key_length / hLen), U_1 = HMAC(salt || INT(i)),
   * count - 1 further chained HMACs XOR-ed into xorsum, xorsum appended to the output;
   * then the output cut to key_length bytes, hex-encoded unless raw output was asked for.
   */
  method Fallback(hmac: Hmac, hash: Digest, algorithm: string, password: string, salt: seq<byte>,
                  count: int, keyLength: int, rawOutput: bool) returns (output: seq<byte>)
    requires count >= 1 && keyLength >= 1
    requires |hash(algorithm, [])| >= 1
    ensures output == FallbackKey(hmac, |hash(algorithm, [])|, algorithm, password, salt, count, keyLength, rawOutput)
  {
    var hashLength := OurStrlen(hash(algorithm, []));
    var blockCount := BlockCount(keyLength, hashLength);
    var blocks := Concatenated(hmac, algorithm, password, salt, count, blockCount);
    var key := Substr(blocks, 0, Some(keyLength));
    output := if rawOutput then key else Bin2Hex(key);
  }

  /** The outer fallback loop: blocks 1 to blockCount, appended in order. */
  method Concatenated(hmac: Hmac, algorithm: string, password: string, salt: seq<byte>, count: int, blockCount: nat)
    returns (blocks: seq<byte>)
    requires count >= 1
    ensures blocks == Blocks(hmac, algorithm, password, salt, count, blockCount)
  {
    blocks := [];
    var i := 1;
    while i <= blockCount
      invariant 1 <= i <= blockCount + 1
      invariant blocks == Blocks(hmac, algorithm, password, salt, count, i - 1)
    {
      var xorsum := Block(hmac, algorithm, password, salt, count, i);
      blocks := blocks + xorsum;
      i := i + 1;
    }
  }

  /** The body of the fallback loop for block i: U_1 and count - 1 chained HMACs, XOR-ed together. */
  method Block(hmac: Hmac, algorithm: string, password: string, salt: seq<byte>, count: int, i: int)
    returns (xorsum: seq<byte>)
    requires count >= 1
    ensures xorsum == F(hmac, algorithm, password, salt, count, i)
  {
    var last := salt + Int32BE(i);
    last := hmac(algorithm, last, password);
    xorsum := last;
    var j := 1;
    while j < count
      invariant 1 <= j <= count
      invariant last == U(hmac, algorithm, password, salt, i, j)
      invariant xorsum == F(hmac, algorithm, password, salt, j, i)
    {
      last := hmac(algorithm, last, password);
      xorsum := XorStrings(xorsum, last);
      j := j + 1;
    }
  }

  // ---------------------------------------------------------------------------
  // Lengths
  // ---------------------------------------------------------------------------

  lemma {:induction false} ULength(hmac: Hmac, algorithm: string, hLen: nat, password: string, salt: seq<byte>, i: int, j: nat)
    requires j >= 1 && FixedLength(hmac, algorithm, hLen)
    ensures |U(hmac, algorithm, password, salt, i, j)| == hLen
  {
  }

  /** Every block is one digest long. */
  lemma {:induction false} FLength(hmac: Hmac, algorithm: string, hLen: nat, password: string, salt: seq<byte>, count: nat, i: int)
    requires count >= 1 && FixedLength(hmac, algorithm, hLen)
    ensures |F(hmac, algorithm, password, salt, count, i)| == hLen
  {
    ULength(hmac, algorithm, hLen, password, salt, i, count);
    if count > 1 {
      FLength(hmac, algorithm, hLen, password, salt, count - 1, i);
    }
  }

  /** n blocks are n digests long. */
  lemma {:induction false} BlocksLength(hmac: Hmac, algorithm: string, hLen: nat, password: string, salt: seq<byte>, count: nat, n: nat)
    requires count >= 1 && FixedLength(hmac, algorithm, hLen)
    ensures |Blocks(hmac, algorithm, password, salt, count, n)| == n * hLen
  {
    if n > 0 {
      BlocksLength(hmac, algorithm, hLen, password, salt, count, n - 1);
      FLength(hmac, algorithm, hLen, password, salt, count, n);
      assert (n - 1) * hLen + hLen == n * hLen;
    }
  }

  /**
   * With an HMAC of fixed length hLen the fallback returns exactly keyLength bytes raw,
   * or 2 * keyLength hexadecimal digits.
   */
  lemma FallbackKeyLength(hmac: Hmac, hLen: nat, algorithm: string, password: string, salt: seq<byte>,
                          count: nat, keyLength: nat, rawOutput: bool)
    requires hLen >= 1 && count >= 1 && FixedLength(hmac, algorithm, hLen)
    ensures |FallbackKey(hmac, hLen, algorithm, password, salt, count, keyLength, rawOutput)|
            == if rawOutput then keyLength else 2 * keyLength
  {
    BlocksLength(hmac, algorithm, hLen, password, salt, count, BlockCount(keyLength, hLen));
  }

  /** The raw key is the leading part of T_1 || T_2 || ..., so the hex key is its bin2hex. */
  lemma FallbackKeyPrefix(hmac: Hmac, hLen: nat, algorithm: string, password: string, salt: seq<byte>,
                          count: nat, keyLength: nat)
    requires hLen >= 1 && count >= 1 && FixedLength(hmac, algorithm, hLen)
    ensures var all := Blocks(hmac, algorithm, password, salt, count, BlockCount(keyLength, hLen));
            var raw := FallbackKey(hmac, hLen, algorithm, password, salt, count, keyLength, true);
            keyLength <= |all| && raw == all[..keyLength] &&
            FallbackKey(hmac, hLen, algorithm, password, salt, count, keyLength, false) == Bin2Hex(raw)
  {
    BlocksLength(hmac, algorithm, hLen, password, salt, count, BlockCount(keyLength, hLen));
  }
}
