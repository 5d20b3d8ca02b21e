/**
 * Bitwise XOR and OR on non-negative integers, written out bit by bit. The comparison
 * loops and the PBKDF2 block sum use them on byte values and string lengths.
 */
module Bits {

  function Pow2(k: nat): (p: nat)
    ensures p >= 1
  {
    if k == 0 then 1 else 2 * Pow2(k - 1)
  }

  /** Bitwise exclusive or. */
  function Xor(x: nat, y: nat): nat
    decreases x + y
  {
    if x == 0 && y == 0 then 0
    else 2 * Xor(x / 2, y / 2) + (if x % 2 == y % 2 then 0 else 1)
  }

  /** Bitwise inclusive or. */
  function Or(x: nat, y: nat): nat
    decreases x + y
  {
    if x == 0 && y == 0 then 0
    else 2 * Or(x / 2, y / 2) + (if x % 2 == 0 && y % 2 == 0 then 0 else 1)
  }

  /** The XOR of two numbers is zero exactly when they are equal. */
  lemma {:induction false} XorZero(x: nat, y: nat)
    ensures Xor(x, y) == 0 <==> x == y
    decreases x + y
  {
    if x != 0 || y != 0 {
      XorZero(x / 2, y / 2);
    }
  }

  /** The OR of two numbers is zero exactly when both are. */
  lemma {:induction false} OrZero(x: nat, y: nat)
    ensures Or(x, y) == 0 <==> x == 0 && y == 0
    decreases x + y
  {
    if x != 0 || y != 0 {
      OrZero(x / 2, y / 2);
    }
  }

  /** XOR keeps numbers of k bits within k bits. */
  lemma {:induction false} XorBelow(x: nat, y: nat, k: nat)
    requires x < Pow2(k) && y < Pow2(k)
    ensures Xor(x, y) < Pow2(k)
    decreases k
  {
    if k > 0 && (x != 0 || y != 0) {
      XorBelow(x / 2, y / 2, k - 1);
    }
  }

  /** XOR of two bytes is a byte. */
  lemma XorByte(x: nat, y: nat)
    requires x < 256 && y < 256
    ensures Xor(x, y) < 256
  {
    assert Pow2(8) == 256 by {
      assert Pow2(4) == 16;
    }
    XorBelow(x, y, 8);
  }
}
