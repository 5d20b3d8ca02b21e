/**
 * String handling the variants share: splitting on and joining with the ':' delimiter,
 * ASCII lower-casing, decimal rendering, and the integer readers of the five languages.
 */
module Text {

  import opened Common

  const Delimiter: char := ':'

  predicate NoDelimiter(s: string) {
    Delimiter !in s
  }

  /** Every field of a list is free of the delimiter. */
  predicate Unambiguous(fields: seq<string>) {
    forall i :: 0 <= i < |fields| ==> NoDelimiter(fields[i])
  }

  /** Five fields, as every variant's hash format has, the last four free of the delimiter. */
  lemma FiveUnambiguous(a: string, b: string, c: string, d: string, e: string)
    requires NoDelimiter(b) && NoDelimiter(c) && NoDelimiter(d) && NoDelimiter(e)
    ensures Unambiguous([a, b, c, d, e]) <==> NoDelimiter(a)
  {
    assert [a, b, c, d, e][0] == a;
  }

  /** q is a proper prefix of s. */
  predicate ProperPrefix(q: string, s: string) {
    |q| < |s| && q == s[..|q|]
  }

  // ---------------------------------------------------------------------------
  // Splitting and joining
  // ---------------------------------------------------------------------------

  /**
   * Splitting on ':' that keeps every empty field: PHP explode(":", s), C# s.Split(':'),
   * JavaScript s.split(':'). A string with k delimiters gives k + 1 fields.
   */
  function Split(s: string): (fields: seq<string>)
    ensures |fields| >= 1
    ensures |fields| == 1 <==> NoDelimiter(s)
  {
    if s == [] then [[]]
    else
      var rest := Split(s[1..]);
      if s[0] == Delimiter then [[]] + rest
      else [[s[0]] + rest[0]] + rest[1..]
  }

  /** The fields joined with ':' in between (PHP '.', Ruby and JavaScript Array#join). */
  function Join(fields: seq<string>): string
    requires |fields| >= 1
  {
    if |fields| == 1 then fields[0] else fields[0] + [Delimiter] + Join(fields[1..])
  }

  /** Ruby's String#split(":"): Split, then every trailing empty field removed. */
  function RubySplit(s: string): (fields: seq<string>)
    ensures |fields| <= |Split(s)|
    ensures fields == Split(s)[..|fields|]
    ensures fields != [] ==> fields[|fields| - 1] != []
  {
    DropTrailingEmpty(Split(s))
  }

  function DropTrailingEmpty(fields: seq<string>): (r: seq<string>)
    ensures |r| <= |fields| && r == fields[..|r|]
    ensures r != [] ==> r[|r| - 1] != []
    ensures forall i :: |r| <= i < |fields| ==> fields[i] == []
  {
    if fields == [] then []
    else if fields[|fields| - 1] == [] then DropTrailingEmpty(fields[..|fields| - 1])
    else fields
  }

  lemma {:induction false} SplitAppend(x: string, y: string)
    ensures Split(x + [Delimiter] + y) == Split(x) + Split(y)
  {
    if x == [] {
      assert x + [Delimiter] + y == [Delimiter] + y;
      SplitCons(Delimiter, y);
    } else {
      SplitAppend(x[1..], y);
      assert x == [x[0]] + x[1..];
      SplitAppendStep(x[0], x[1..], y);
    }
  }

  /** SplitAppend for [c] + u, given it for u. */
  lemma SplitAppendStep(c: char, u: string, y: string)
    requires Split(u + [Delimiter] + y) == Split(u) + Split(y)
    ensures Split([c] + u + [Delimiter] + y) == Split([c] + u) + Split(y)
  {
    var t := u + [Delimiter] + y;
    assert [c] + u + [Delimiter] + y == [c] + t;
    SplitCons(c, t);
    SplitCons(c, u);
    if c == Delimiter {
      Associative([[]], Split(u), Split(y));
    } else {
      HeadExtended(c, Split(u), Split(y));
    }
  }

  /** Prefixing c to the first field commutes with appending further fields. */
  lemma HeadExtended(c: char, a: seq<string>, b: seq<string>)
    requires |a| >= 1
    ensures [[c] + (a + b)[0]] + (a + b)[1..] == ([[c] + a[0]] + a[1..]) + b
  {
    assert (a + b)[0] == a[0] && (a + b)[1..] == a[1..] + b;
  }

  /** Split of a character followed by t, in terms of Split(t). */
  lemma SplitCons(c: char, t: string)
    ensures Split([c] + t) == if c == Delimiter then [[]] + Split(t) else [[c] + Split(t)[0]] + Split(t)[1..]
  {
    assert ([c] + t)[0] == c && ([c] + t)[1..] == t;
  }

  /** Splitting a join of delimiter-free fields gives back exactly those fields. */
  lemma {:induction false} SplitJoin(fields: seq<string>)
    requires |fields| >= 1 && Unambiguous(fields)
    ensures Split(Join(fields)) == fields
  {
    if |fields| == 1 {
      assert Split(fields[0]) == [fields[0]] by { SplitWithoutDelimiter(fields[0]); }
    } else {
      SplitAppend(fields[0], Join(fields[1..]));
      SplitWithoutDelimiter(fields[0]);
      SplitJoin(fields[1..]);
      assert [fields[0]] + fields[1..] == fields;
    }
  }

  lemma {:induction false} SplitWithoutDelimiter(s: string)
    requires NoDelimiter(s)
    ensures Split(s) == [s]
  {
    if s != [] {
      assert NoDelimiter(s[1..]) by { assert forall i :: 0 <= i < |s[1..]| ==> s[1..][i] == s[i + 1]; }
      SplitWithoutDelimiter(s[1..]);
      assert [s[0]] + s[1..] == s;
    }
  }

  /** Ruby's split also gives back the fields, provided the last one is not empty. */
  lemma RubySplitJoin(fields: seq<string>)
    requires |fields| >= 1 && Unambiguous(fields) && fields[|fields| - 1] != []
    ensures RubySplit(Join(fields)) == fields
  {
    SplitJoin(fields);
  }

  /**
   * Cutting a join of delimiter-free fields short never yields more fields; when it
   * yields as many, the leading fields are intact and the last is a proper prefix of
   * the original last field.
   */
  lemma {:induction false} SplitJoinPrefix(fields: seq<string>, n: nat)
    requires |fields| >= 1 && Unambiguous(fields)
    requires n < |Join(fields)|
    ensures |Split(Join(fields)[..n])| <= |fields|
    ensures |Split(Join(fields)[..n])| == |fields| ==>
              Split(Join(fields)[..n])[..|fields| - 1] == fields[..|fields| - 1] &&
              ProperPrefix(Split(Join(fields)[..n])[|fields| - 1], fields[|fields| - 1])
  {
    var p := Join(fields)[..n];
    if |fields| == 1 || n <= |fields[0]| {
      assert p == fields[0][..n];
      PrefixWithoutDelimiter(fields[0], n);
    } else {
      var tail := Join(fields[1..]);
      var m := n - |fields[0]| - 1;
      JoinPrefix(fields, n);
      SplitAppend(fields[0], tail[..m]);
      SplitWithoutDelimiter(fields[0]);
      UnambiguousTail(fields);
      SplitJoinPrefix(fields[1..], m);
      var r := Split(tail[..m]);
      assert Split(p) == [fields[0]] + r;
      assert fields == [fields[0]] + fields[1..];
      ConsPrefix(fields[0], r, fields[1..]);
    }
  }

  /** A cut of a join past its first field keeps that field and its delimiter. */
  lemma JoinPrefix(fields: seq<string>, n: nat)
    requires |fields| >= 2 && |fields[0]| < n <= |Join(fields)|
    ensures Join(fields)[..n] == fields[0] + [Delimiter] + Join(fields[1..])[..n - |fields[0]| - 1]
  {
  }

  lemma UnambiguousTail(fields: seq<string>)
    requires |fields| >= 1 && Unambiguous(fields)
    ensures Unambiguous(fields[1..])
  {
    assert forall i :: 0 <= i < |fields[1..]| ==> fields[1..][i] == fields[i + 1];
  }

  lemma PrefixWithoutDelimiter(s: string, n: nat)
    requires NoDelimiter(s) && n <= |s|
    ensures Split(s[..n]) == [s[..n]]
  {
    assert NoDelimiter(s[..n]) by { assert forall i :: 0 <= i < n ==> s[..n][i] == s[i]; }
    SplitWithoutDelimiter(s[..n]);
  }

  /** The conclusion of SplitJoinPrefix survives putting the same first field in front. */
  lemma ConsPrefix(f: string, r: seq<string>, rest: seq<string>)
    requires 1 <= |rest| && |r| <= |rest|
    requires |r| == |rest| ==> r[..|rest| - 1] == rest[..|rest| - 1] && ProperPrefix(r[|rest| - 1], rest[|rest| - 1])
    ensures |[f] + r| <= |[f] + rest|
    ensures |[f] + r| == |[f] + rest| ==>
              ([f] + r)[..|rest|] == ([f] + rest)[..|rest|] && ProperPrefix(([f] + r)[|rest|], ([f] + rest)[|rest|])
  {
    if |r| == |rest| {
      assert ([f] + r)[..|rest|] == [f] + r[..|rest| - 1];
      assert ([f] + rest)[..|rest|] == [f] + rest[..|rest| - 1];
    }
  }

  /** The last field of a join follows the last delimiter. */
  lemma {:induction false} JoinLast(fields: seq<string>)
    requires |fields| >= 2
    ensures Join(fields) == Join(fields[..|fields| - 1]) + [Delimiter] + fields[|fields| - 1]
  {
    var init := fields[..|fields| - 1];
    if |fields| == 2 {
      assert init == [fields[0]];
      assert Join(fields[1..]) == fields[1];
    } else {
      JoinLast(fields[1..]);
      assert fields[1..][..|fields| - 2] == init[1..];
      assert Join(init) == fields[0] + [Delimiter] + Join(init[1..]);
      Associative(fields[0] + [Delimiter], Join(init[1..]) + [Delimiter], fields[|fields| - 1]);
      Associative(fields[0] + [Delimiter], Join(init[1..]), [Delimiter]);
    }
  }

  lemma Associative<T>(a: seq<T>, b: seq<T>, c: seq<T>)
    ensures a + (b + c) == a + b + c
  {
  }

  /**
   * Cutting a join of delimiter-free fields inside its last field keeps every other field
   * and leaves the cut last field.
   */
  lemma CutInLastField(fields: seq<string>, n: nat)
    requires |fields| >= 2 && Unambiguous(fields)
    requires |Join(fields)| - |fields[|fields| - 1]| <= n <= |Join(fields)|
    ensures Split(Join(fields)[..n]) ==
              fields[..|fields| - 1] + [fields[|fields| - 1][..n - (|Join(fields)| - |fields[|fields| - 1]|)]]
  {
    var init, last := fields[..|fields| - 1], fields[|fields| - 1];
    JoinLast(fields);
    var m := n - |Join(init)| - 1;
    assert Join(fields)[..n] == Join(init) + [Delimiter] + last[..m];
    SplitAppend(Join(init), last[..m]);
    assert Unambiguous(init) by { assert forall i :: 0 <= i < |init| ==> init[i] == fields[i]; }
    SplitJoin(init);
    assert NoDelimiter(last[..m]) by { assert forall i :: 0 <= i < m ==> last[..m][i] == last[i]; }
    SplitWithoutDelimiter(last[..m]);
  }

  // ---------------------------------------------------------------------------
  // Characters
  // ---------------------------------------------------------------------------

  /** ASCII lower-casing (PHP strtolower, JavaScript toLowerCase on ASCII names). */
  function Lower(s: string): (r: string)
    ensures |r| == |s|
    ensures forall i :: 0 <= i < |s| ==>
              r[i] == if 'A' <= s[i] <= 'Z' then (s[i] as int + 32) as char else s[i]
  {
    if s == [] then []
    else [if 'A' <= s[0] <= 'Z' then (s[0] as int + 32) as char else s[0]] + Lower(s[1..])
  }

  /** Lower leaves a string without capital letters as it is. */
  lemma LowerKeepsLower(s: string)
    requires forall i :: 0 <= i < |s| ==> !('A' <= s[i] <= 'Z')
    ensures Lower(s) == s
  {
  }

  lemma LowerSha1()
    ensures Lower("sha1") == "sha1"
  {
    LowerKeepsLower("sha1");
  }

  predicate IsDigit(c: char) {
    '0' <= c <= '9'
  }

  predicate AllDigits(s: string) {
    forall i :: 0 <= i < |s| ==> IsDigit(s[i])
  }

  function DigitChar(d: nat): (c: char)
    requires d < 10
    ensures IsDigit(c) && c as int - '0' as int == d
  {
    ('0' as int + d) as char
  }

  // ---------------------------------------------------------------------------
  // Decimal rendering
  // ---------------------------------------------------------------------------

  /** The decimal digits of n, without leading zeros (PHP, JavaScript, C#, Ruby int-to-string). */
  function NatToString(n: nat): (s: string)
    ensures |s| >= 1 && AllDigits(s)
    ensures |s| > 1 ==> s[0] != '0'
  {
    if n < 10 then [DigitChar(n)] else NatToString(n / 10) + [DigitChar(n % 10)]
  }

  function Pow10(k: nat): (p: nat)
    ensures p >= 1
  {
    if k == 0 then 1 else 10 * Pow10(k - 1)
  }

  /** A number below 10^k has at most k digits. */
  lemma {:induction false} NatToStringLength(n: nat, k: nat)
    requires k >= 1 && n < Pow10(k)
    ensures |NatToString(n)| <= k
  {
    if n >= 10 {
      NatToStringLength(n / 10, k - 1);
    }
  }

  /** A signed integer in decimal. */
  function IntToString(n: int): (s: string)
    ensures |s| >= 1 && NoDelimiter(s)
  {
    if n < 0 then "-" + NatToString(-n) else NatToString(n)
  }

  /** The number a string of decimal digits denotes. */
  function DigitsValue(s: string): nat
    requires AllDigits(s)
  {
    if s == [] then 0 else DigitsValue(s[..|s| - 1]) * 10 + (s[|s| - 1] as int - '0' as int)
  }

  lemma {:induction false} DigitsValueOfNatToString(n: nat)
    ensures DigitsValue(NatToString(n)) == n
  {
    if n >= 10 {
      var s := NatToString(n);
      assert s[..|s| - 1] == NatToString(n / 10);
      DigitsValueOfNatToString(n / 10);
    }
  }

  lemma {:induction false} DigitsValueOfZeros(z: nat, s: string)
    requires AllDigits(s)
    ensures AllDigits(Zeros(z) + s) && DigitsValue(Zeros(z) + s) == DigitsValue(s)
  {
    if z > 0 {
      assert Zeros(z) == "0" + Zeros(z - 1);
      assert Zeros(z) + s == "0" + (Zeros(z - 1) + s);
      DigitsValueOfZeros(z - 1, s);
      LeadingZeroIgnored(Zeros(z - 1) + s);
    } else {
      assert Zeros(z) + s == s;
    }
  }

  lemma {:induction false} LeadingZeroIgnored(s: string)
    requires AllDigits(s)
    ensures AllDigits("0" + s) && DigitsValue("0" + s) == DigitsValue(s)
  {
    if s != [] {
      assert ("0" + s)[..|"0" + s| - 1] == "0" + s[..|s| - 1];
      LeadingZeroIgnored(s[..|s| - 1]);
    }
  }

  /** z zero characters. */
  function Zeros(z: nat): (s: string)
    ensures |s| == z && AllDigits(s)
  {
    seq(z, _ => '0')
  }

  // ---------------------------------------------------------------------------
  // Integer readers
  // ---------------------------------------------------------------------------

  /** The length of the longest all-digit prefix of s. */
  function LeadingDigits(s: string): (k: nat)
    ensures k <= |s| && AllDigits(s[..k])
    ensures k < |s| ==> !IsDigit(s[k])
  {
    if s == [] || !IsDigit(s[0]) then 0
    else
      var k := 1 + LeadingDigits(s[1..]);
      assert s[..k] == [s[0]] + s[1..][..k - 1];
      k
  }

  /**
   * PHP's (int) cast and Ruby's String#to_i: an optional sign and the leading digits;
   * 0 when there are none; anything after the digits is ignored.
   */
  function LeadingInt(s: string): int {
    if |s| > 0 && (s[0] == '-' || s[0] == '+') then
      var t := s[1..];
      var v: int := DigitsValue(t[..LeadingDigits(t)]);
      if s[0] == '-' then -v else v
    else DigitsValue(s[..LeadingDigits(s)])
  }

  /**
   * JavaScript parseInt(s, 10): an optional sign and at least one leading digit,
   * anything after them ignored; None stands for NaN.
   */
  function JsParseInt(s: string): Option<int> {
    var signed := |s| > 0 && (s[0] == '-' || s[0] == '+');
    var t := if signed then s[1..] else s;
    var k := LeadingDigits(t);
    if k == 0 then None
    else
      var v: int := DigitsValue(t[..k]);
      Some(if signed && s[0] == '-' then -v else v)
  }

  /** The whole of s is an optional sign followed by one or more digits: its value. */
  function SignedDigits(s: string): Option<int> {
    var signed := |s| > 0 && (s[0] == '-' || s[0] == '+');
    var t := if signed then s[1..] else s;
    if t == [] || !AllDigits(t) then None
    else
      var v: int := DigitsValue(t);
      Some(if signed && s[0] == '-' then -v else v)
  }

  /** A string of digits alone, with no sign, reads as its value. */
  lemma UnsignedDigitsRead(s: string)
    requires s != [] && AllDigits(s)
    ensures SignedDigits(s) == Some(DigitsValue(s))
  {
    assert IsDigit(s[0]);
  }

  const Int32Min: int := -0x8000_0000
  const Int32Max: int := 0x7FFF_FFFF

  datatype ParseError = FormatError | OverflowError

  /**
   * C#'s Int32.Parse and Convert.ToInt32(string): FormatException unless the whole
   * string is a signed decimal, OverflowException outside the 32-bit range.
   */
  function ParseInt32(s: string): (r: Result<int, ParseError>)
    ensures r.Ok? ==> Int32Min <= r.value <= Int32Max
  {
    match SignedDigits(s)
    case None => Err(FormatError)
    case Some(v) => if Int32Min <= v <= Int32Max then Ok(v) else Err(OverflowError)
  }

  lemma NatToStringReadBack(n: nat)
    ensures LeadingInt(NatToString(n)) == n
    ensures JsParseInt(NatToString(n)) == Some(n)
    ensures SignedDigits(NatToString(n)) == Some(n)
  {
    var s := NatToString(n);
    assert s[..|s|] == s;
    DigitsValueOfNatToString(n);
  }
}
