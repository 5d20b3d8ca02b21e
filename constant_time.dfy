/**
 * The length-constant comparison that the PHP, Java, C# and JavaScript variants share
 * (slow_equals / slowEquals / SlowEquals): the accumulator starts as the XOR of the two
 * lengths, every position both inputs have is XOR-ed and OR-ed into it with no early
 * exit, and only the final accumulator is tested for zero.
 */
module ConstantTime {

  import opened Common
  import opened Bits

  /** True exactly when the two byte sequences are equal. */
  method SlowEquals(a: seq<byte>, b: seq<byte>) returns (equal: bool)
    ensures equal <==> a == b
  {
    var diff := Xor(|a|, |b|);
    XorZero(|a|, |b|);
    var i := 0;
    while i < |a| && i < |b|
      invariant 0 <= i <= |a| && i <= |b|
      invariant diff == 0 <==> |a| == |b| && a[..i] == b[..i]
    {
      XorZero(a[i], b[i]);
      OrZero(diff, Xor(a[i], b[i]));
      diff := Or(diff, Xor(a[i], b[i]));
      assert a[..i + 1] == a[..i] + [a[i]] && b[..i + 1] == b[..i] + [b[i]];
      i := i + 1;
    }
    assert |a| == |b| ==> a[..i] == a && b[..i] == b;
    equal := diff == 0;
  }
}
