/**
 * PasswordHash.rb: createHash and verifyPassword over the five-field format, with
 * OpenSSL::PKCS5.pbkdf2_hmac_sha1 as an abstract library. Ruby's String#split drops
 * trailing empty fields, Base64.strict_decode64 reads canonical base64 only, String#to_i
 * reads the leading digits, and slow_equals walks the first argument only.
 */
module RubyPasswordHash {

  import opened Common
  import opened Text
  import opened Bits
  import Base64

  // The following constants can be changed without breaking existing hashes.
  const Pbkdf2Iterations: nat := 32000
  const SaltBytes: nat := 24
  const OutputBytes: nat := 18

  const HashSections: nat := 5
  const HashAlgorithmIndex: nat := 0
  const IterationIndex: nat := 1
  const HashSizeIndex: nat := 2
  const SaltIndex: nat := 3
  const Pbkdf2Index: nat := 4

  /** pbkdf2_hmac_sha1 always uses HMAC-SHA1; this is the name the model hands the library. */
  const Pbkdf2Algorithm: string := "sha1"

  datatype RubyError =
    | InvalidHash             // InvalidHashError
    | CannotPerformOperation  // CannotPerformOperationException
    | Pkcs5Error              // OpenSSL::PKCS5 failing (None from the library), never rescued here
    | TypeError               // Integer#^ with nil, when slow_equals runs past the end of b
    | RangeError              // an iteration count or length that does not fit the C int OpenSSL takes

  /**
   * OpenSSL::PKCS5.pbkdf2_hmac_sha1 converts its iteration count and key length to a C int
   * before it calls OpenSSL, and raises RangeError for an Integer outside that range.
   */
  predicate FitsCInt(n: int) {
    Int32Min <= n <= Int32Max
  }

  /** The fields createHash joins for a salt and a derived key. */
  function Fields(salt: seq<byte>, key: seq<byte>): (fields: seq<string>)
    ensures |fields| == HashSections && Unambiguous(fields)
    ensures fields[Pbkdf2Index] != [] <==> key != []
  {
    Base64.EncodeNoDelimiter(salt);
    Base64.EncodeNoDelimiter(key);
    FiveUnambiguous("sha1", IntToString(Pbkdf2Iterations), IntToString(|key|), Base64.Encode(salt), Base64.Encode(key));
    ["sha1", IntToString(Pbkdf2Iterations), IntToString(|key|), Base64.Encode(salt), Base64.Encode(key)]
  }

  /**
   * createHash with what SecureRandom gave (None when it raised NotImplementedError):
   * CannotPerformOperation without a salt; otherwise PBKDF2, whose failure propagates,
   * and the colon-joined fields with the byte size of the key actually returned.
   */
  function CreateHash(kdf: Kdf, password: string, salt: Option<seq<byte>>): (r: Result<string, RubyError>)
    ensures salt.None? ==> r == Err(CannotPerformOperation)
    ensures r.Ok? <==> salt.Some? && kdf(Pbkdf2Algorithm, password, salt.value, Pbkdf2Iterations, OutputBytes).Some?
    ensures salt.Some? && r.Err? ==> r.error == Pkcs5Error
    ensures r.Ok? ==>
              var key := kdf(Pbkdf2Algorithm, password, salt.value, Pbkdf2Iterations, OutputBytes).value;
              var split := RubySplit(r.value);
              if key == [] then |split| < HashSections
              else
                && |split| == HashSections
                && split[HashAlgorithmIndex] == "sha1"
                && LeadingInt(split[IterationIndex]) == Pbkdf2Iterations
                && LeadingInt(split[HashSizeIndex]) == |key|
                && Base64.DecodeCanonical(split[SaltIndex]) == Some(salt.value)
                && Base64.DecodeCanonical(split[Pbkdf2Index]) == Some(key)
  {
    match salt
    case None => Err(CannotPerformOperation)
    case Some(saltBytes) =>
      match kdf(Pbkdf2Algorithm, password, saltBytes, Pbkdf2Iterations, OutputBytes)
      case None => Err(Pkcs5Error)
      case Some(key) =>
        var fields := Fields(saltBytes, key);
        SplitJoin(fields);
        if key == [] then
          assert DropTrailingEmpty(fields) == DropTrailingEmpty(fields[..HashSections - 1]);
          Ok(Join(fields))
        else
          NatToStringReadBack(Pbkdf2Iterations);
          NatToStringReadBack(|key|);
          Base64.EncodeCanonical(saltBytes);
          Base64.EncodeCanonical(key);
          Base64.DecodeEncode(saltBytes);
          Base64.DecodeEncode(key);
          Ok(Join(fields))
  }

  /** The checks after the field count and the algorithm, each an InvalidHash when it fails. */
  predicate Structured(split: seq<string>)
    requires |split| == HashSections
  {
    && Base64.DecodeCanonical(split[Pbkdf2Index]).Some?
    && Base64.DecodeCanonical(split[SaltIndex]).Some?
    && |Base64.DecodeCanonical(split[Pbkdf2Index]).value| == LeadingInt(split[HashSizeIndex])
    && LeadingInt(split[IterationIndex]) >= 1
  }

  /** Every check of verifyPassword passes on these fields, so PBKDF2 is reached. */
  predicate WellFormed(split: seq<string>) {
    |split| == HashSections && split[HashAlgorithmIndex] == "sha1" && Structured(split)
  }

  /**
   * What slow_equals(a, b) ends with: it XORs every byte of a with the byte of b at the
   * same index, so it raises once b runs out, and otherwise ignores whatever b has beyond
   * the length of a.
   */
  function SlowEqualsResult(a: seq<byte>, b: seq<byte>): (r: Result<bool, RubyError>)
    ensures r.Err? <==> |a| > |b|
    ensures r.Err? ==> r.error == TypeError
    ensures |a| == |b| ==> r == Ok(a == b)
  {
    if |a| <= |b| then Ok(a == b[..|a|]) else Err(TypeError)
  }

  /**
   * slow_equals: the OR of the XORs of the bytes of a with those of b at the same index,
   * with no early exit and no comparison of the lengths.
   */
  method SlowEquals(a: seq<byte>, b: seq<byte>) returns (r: Result<bool, RubyError>)
    ensures r == SlowEqualsResult(a, b)
    ensures |a| <= |b| ==> (r == Ok(true) <==> a == b[..|a|])
    ensures |a| > |b| ==> r == Err(TypeError)
  {
    var result := 0;
    var i := 0;
    while i < |a|
      invariant 0 <= i <= |a| && i <= |b|
      invariant result == 0 <==> a[..i] == b[..i]
    {
      if i == |b| {
        // cmp[i] is nil.
        return Err(TypeError);
      }
      XorZero(a[i], b[i]);
      OrZero(result, Xor(a[i], b[i]));
      result := Or(result, Xor(a[i], b[i]));
      assert a[..i + 1] == a[..i] + [a[i]] && b[..i + 1] == b[..i] + [b[i]];
      i := i + 1;
    }
    assert a[..i] == a;
    r := Ok(result == 0);
  }

  /**
   * verifyPassword: InvalidHash unless the split gives five fields; CannotPerformOperation
   * unless field 0 is exactly "sha1"; InvalidHash when the key and then the salt are not
   * strict base64, when the key's byte size differs from to_i of the size field, or when
   * to_i of the iteration field is below 1; then PBKDF2 for as many bytes as the stored
   * key has (RangeError when the count or the length is not a C int), compared by
   * slow_equals with the stored key first.
   */
  function VerifyPassword(kdf: Kdf, password: string, hash: string): (r: Verification<RubyError>)
    ensures r.derivation.Some? <==> WellFormed(RubySplit(hash))
    ensures |RubySplit(hash)| != HashSections ==> r == Verification(Err(InvalidHash), None)
    ensures |RubySplit(hash)| == HashSections && RubySplit(hash)[HashAlgorithmIndex] != "sha1" ==>
              r == Verification(Err(CannotPerformOperation), None)
    ensures (|RubySplit(hash)| == HashSections && RubySplit(hash)[HashAlgorithmIndex] == "sha1" &&
             !Structured(RubySplit(hash))) ==> r == Verification(Err(InvalidHash), None)
    ensures WellFormed(RubySplit(hash)) ==>
              var params := RubySplit(hash);
              var key := Base64.DecodeCanonical(params[Pbkdf2Index]).value;
              && r.derivation.value ==
                   KdfCall(Pbkdf2Algorithm, Base64.DecodeCanonical(params[SaltIndex]).value,
                           LeadingInt(params[IterationIndex]), |key|)
              && var testOutput := kdf(Pbkdf2Algorithm, password, r.derivation.value.salt,
                                       r.derivation.value.iterations, |key|);
                 r.outcome == if !FitsCInt(r.derivation.value.iterations) || !FitsCInt(|key|) then Err(RangeError)
                              else if testOutput.Some? then SlowEqualsResult(key, testOutput.value)
                              else Err(Pkcs5Error)
  {
    var params := RubySplit(hash);
    if |params| != HashSections then Verification(Err(InvalidHash), None)
    else if params[HashAlgorithmIndex] != "sha1" then Verification(Err(CannotPerformOperation), None)
    else match Base64.DecodeCanonical(params[Pbkdf2Index])
    case None => Verification(Err(InvalidHash), None)
    case Some(key) =>
      match Base64.DecodeCanonical(params[SaltIndex])
      case None => Verification(Err(InvalidHash), None)
      case Some(salt) =>
        if |key| != LeadingInt(params[HashSizeIndex]) then Verification(Err(InvalidHash), None)
        else
          var iterations := LeadingInt(params[IterationIndex]);
          if iterations < 1 then Verification(Err(InvalidHash), None)
          else
            var call := KdfCall(Pbkdf2Algorithm, salt, iterations, |key|);
            if !FitsCInt(iterations) || !FitsCInt(|key|) then Verification(Err(RangeError), Some(call))
            else match kdf(Pbkdf2Algorithm, password, salt, iterations, |key|)
            case None => Verification(Err(Pkcs5Error), Some(call))
            case Some(testOutput) => Verification(SlowEqualsResult(key, testOutput), Some(call))
  }

  // ---------------------------------------------------------------------------
  // Properties
  // ---------------------------------------------------------------------------

  /** A hash made by createHash verifies with the same password, by the very call that made it. */
  lemma CreateThenVerify(kdf: Kdf, password: string, salt: seq<byte>)
    requires HonoursLength(kdf)
    requires CreateHash(kdf, password, Some(salt)).Ok?
    ensures VerifyPassword(kdf, password, CreateHash(kdf, password, Some(salt)).value)
            == Verification(Ok(true), Some(KdfCall(Pbkdf2Algorithm, salt, Pbkdf2Iterations, OutputBytes)))
  {
    var key := kdf(Pbkdf2Algorithm, password, salt, Pbkdf2Iterations, OutputBytes).value;
    assert |key| == OutputBytes;
  }

  /** Every proper prefix of a created hash is an InvalidHash, and none reaches PBKDF2. */
  lemma TruncatedHashRejected(kdf: Kdf, password: string, salt: seq<byte>, n: nat)
    requires HonoursLength(kdf)
    requires CreateHash(kdf, password, Some(salt)).Ok?
    requires n < |CreateHash(kdf, password, Some(salt)).value|
    ensures VerifyPassword(kdf, password, CreateHash(kdf, password, Some(salt)).value[..n])
            == Verification(Err(InvalidHash), None)
  {
    var key := kdf(Pbkdf2Algorithm, password, salt, Pbkdf2Iterations, OutputBytes).value;
    var fields := Fields(salt, key);
    var whole := Split(Join(fields)[..n]);
    var cut := RubySplit(Join(fields)[..n]);
    SplitJoinPrefix(fields, n);
    if |cut| == HashSections {
      assert cut == whole;
      assert cut[HashAlgorithmIndex] == cut[..Pbkdf2Index][HashAlgorithmIndex] == "sha1";
      assert cut[HashSizeIndex] == cut[..Pbkdf2Index][HashSizeIndex] == fields[HashSizeIndex];
      var last := cut[Pbkdf2Index];
      assert |last| < Base64.EncodedLength(|key|);
      if Base64.DecodeCanonical(last).Some? {
        Base64.ShorterDecodesShorter(last, |key|);
        NatToStringReadBack(|key|);
      }
    }
  }

  /**
   * Because PBKDF2 is asked for exactly as many bytes as the stored key has, slow_equals
   * receives two arguments of equal length, never raises, and answers whether they are equal.
   * An iteration count beyond the C int range still raises, before PBKDF2 runs.
   */
  lemma ComparesEqualLengths(kdf: Kdf, password: string, hash: string)
    requires HonoursLength(kdf)
    requires VerifyPassword(kdf, password, hash).derivation.Some?
    ensures var r := VerifyPassword(kdf, password, hash);
            var key := Base64.DecodeCanonical(RubySplit(hash)[Pbkdf2Index]).value;
            var testOutput := kdf(Pbkdf2Algorithm, password, r.derivation.value.salt,
                                  r.derivation.value.iterations, |key|);
            r.outcome == if !FitsCInt(r.derivation.value.iterations) || !FitsCInt(|key|) then Err(RangeError)
                         else if testOutput.Some? then Ok(testOutput.value == key)
                         else Err(Pkcs5Error)
  {
  }
}
