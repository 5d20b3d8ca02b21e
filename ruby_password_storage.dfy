/**
 * PasswordStorage.rb: the same format and checks as PasswordHash.rb, with 64000
 * iterations, every OpenSSL failure turned into CannotPerformOperationException by the
 * pbkdf2_hmac_sha1 wrapper, and a slow_equals that answers false on different byte sizes.
 */
module RubyPasswordStorage {

  import opened Common
  import opened Text
  import opened Bits
  import Base64
  import RubyPasswordHash

  // The following constants can be changed without breaking existing hashes.
  const Pbkdf2Iterations: nat := 64000
  const SaltBytes: nat := 24
  const OutputBytes: nat := 18

  // These constants define the encoding and may not be changed.
  const HashSections: nat := 5
  const HashAlgorithmIndex: nat := 0
  const IterationIndex: nat := 1
  const HashSizeIndex: nat := 2
  const SaltIndex: nat := 3
  const Pbkdf2Index: nat := 4

  /** pbkdf2_hmac_sha1 always uses HMAC-SHA1; this is the name the model hands the library. */
  const Pbkdf2Algorithm: string := "sha1"

  datatype RubyError =
    | InvalidHash             // InvalidHashError
    | CannotPerformOperation  // CannotPerformOperationException
    | RangeError              // not rescued: a count or length that does not fit a C int

  /**
   * pbkdf2_hmac_sha1: the library's key, or CannotPerformOperation in place of its
   * PKCS5Error. Only PKCS5Error is rescued: the RangeError OpenSSL::PKCS5 raises for a count
   * or length outside the C int range passes through.
   */
  function Pbkdf2HmacSha1(kdf: Kdf, password: string, salt: seq<byte>, iterations: int, byteLength: int)
    : (r: Result<seq<byte>, RubyError>)
    ensures r == Err(RangeError) <==> !RubyPasswordHash.FitsCInt(iterations) || !RubyPasswordHash.FitsCInt(byteLength)
    ensures RubyPasswordHash.FitsCInt(iterations) && RubyPasswordHash.FitsCInt(byteLength) ==>
              && (r.Err? <==> kdf(Pbkdf2Algorithm, password, salt, iterations, byteLength).None?)
              && (r.Err? ==> r.error == CannotPerformOperation)
    ensures r.Ok? ==> Some(r.value) == kdf(Pbkdf2Algorithm, password, salt, iterations, byteLength)
  {
    if !RubyPasswordHash.FitsCInt(iterations) || !RubyPasswordHash.FitsCInt(byteLength) then Err(RangeError)
    else match kdf(Pbkdf2Algorithm, password, salt, iterations, byteLength)
    case None => Err(CannotPerformOperation)
    case Some(key) => Ok(key)
  }

  /** The fields createHash joins for a salt and a derived key. */
  function Fields(salt: seq<byte>, key: seq<byte>): (fields: seq<string>)
    ensures |fields| == HashSections && Unambiguous(fields)
    ensures fields[Pbkdf2Index] != [] <==> key != []
  {
    Base64.EncodeNoDelimiter(salt);
    Base64.EncodeNoDelimiter(key);
    FiveUnambiguous("sha1", IntToString(Pbkdf2Iterations), IntToString(|key|), Base64.Encode(salt), Base64.Encode(key));
    ["sha1", IntToString(Pbkdf2Iterations), IntToString(|key|), Base64.Encode(salt), Base64.Encode(key)]
  }

  /**
   * createHash with what SecureRandom gave (None when it raised NotImplementedError):
   * CannotPerformOperation without a salt or when PBKDF2 fails; otherwise the
   * colon-joined fields with the byte size of the key actually returned.
   */
  function CreateHash(kdf: Kdf, password: string, salt: Option<seq<byte>>): (r: Result<string, RubyError>)
    ensures r.Err? ==> r.error == CannotPerformOperation
    ensures r.Ok? <==> salt.Some? && kdf(Pbkdf2Algorithm, password, salt.value, Pbkdf2Iterations, OutputBytes).Some?
    ensures r.Ok? ==>
              var key := kdf(Pbkdf2Algorithm, password, salt.value, Pbkdf2Iterations, OutputBytes).value;
              var split := RubySplit(r.value);
              if key == [] then |split| < HashSections
              else
                && |split| == HashSections
                && split[HashAlgorithmIndex] == "sha1"
                && LeadingInt(split[IterationIndex]) == Pbkdf2Iterations
                && LeadingInt(split[HashSizeIndex]) == |key|
                && Base64.DecodeCanonical(split[SaltIndex]) == Some(salt.value)
                && Base64.DecodeCanonical(split[Pbkdf2Index]) == Some(key)
  {
    match salt
    case None => Err(CannotPerformOperation)
    case Some(saltBytes) =>
      match Pbkdf2HmacSha1(kdf, password, saltBytes, Pbkdf2Iterations, OutputBytes)
      case Err(e) => Err(e)
      case Ok(key) =>
        var fields := Fields(saltBytes, key);
        SplitJoin(fields);
        if key == [] then
          assert DropTrailingEmpty(fields) == DropTrailingEmpty(fields[..HashSections - 1]);
          Ok(Join(fields))
        else
          NatToStringReadBack(Pbkdf2Iterations);
          NatToStringReadBack(|key|);
          Base64.EncodeCanonical(saltBytes);
          Base64.EncodeCanonical(key);
          Base64.DecodeEncode(saltBytes);
          Base64.DecodeEncode(key);
          Ok(Join(fields))
  }

  /**
   * slow_equals: false at once when the byte sizes differ; otherwise the OR of the XORs
   * of the bytes at each index is zero exactly when the two are equal.
   */
  method SlowEquals(a: seq<byte>, b: seq<byte>) returns (equal: bool)
    ensures equal <==> a == b
  {
    if |a| != |b| {
      return false;
    }
    var result := 0;
    var i := 0;
    while i < |a|
      invariant 0 <= i <= |a|
      invariant result == 0 <==> a[..i] == b[..i]
    {
      XorZero(a[i], b[i]);
      OrZero(result, Xor(a[i], b[i]));
      result := Or(result, Xor(a[i], b[i]));
      assert a[..i + 1] == a[..i] + [a[i]] && b[..i + 1] == b[..i] + [b[i]];
      i := i + 1;
    }
    assert a[..i] == a && b[..i] == b;
    equal := result == 0;
  }

  /**
   * verifyPassword: InvalidHash unless the split gives five fields; CannotPerformOperation
   * unless field 0 is exactly "sha1"; InvalidHash when the key and then the salt are not
   * strict base64, when the key's byte size differs from to_i of the size field, or when
   * to_i of the iteration field is below 1; then the pbkdf2_hmac_sha1 wrapper for as many
   * bytes as the stored key has, whose RangeError for a count beyond the C int range
   * propagates, compared with slow_equals.
   */
  function VerifyPassword(kdf: Kdf, password: string, hash: string): (r: Verification<RubyError>)
    ensures r.derivation.Some? <==> RubyPasswordHash.WellFormed(RubySplit(hash))
    ensures |RubySplit(hash)| != HashSections ==> r == Verification(Err(InvalidHash), None)
    ensures |RubySplit(hash)| == HashSections && RubySplit(hash)[HashAlgorithmIndex] != "sha1" ==>
              r == Verification(Err(CannotPerformOperation), None)
    ensures (|RubySplit(hash)| == HashSections && RubySplit(hash)[HashAlgorithmIndex] == "sha1" &&
             !RubyPasswordHash.Structured(RubySplit(hash))) ==> r == Verification(Err(InvalidHash), None)
    ensures RubyPasswordHash.WellFormed(RubySplit(hash)) ==>
              var params := RubySplit(hash);
              var key := Base64.DecodeCanonical(params[Pbkdf2Index]).value;
              && r.derivation.value ==
                   KdfCall(Pbkdf2Algorithm, Base64.DecodeCanonical(params[SaltIndex]).value,
                           LeadingInt(params[IterationIndex]), |key|)
              && var testOutput := kdf(Pbkdf2Algorithm, password, r.derivation.value.salt,
                                       r.derivation.value.iterations, |key|);
                 r.outcome == if !RubyPasswordHash.FitsCInt(r.derivation.value.iterations) || !RubyPasswordHash.FitsCInt(|key|)
                              then Err(RangeError)
                              else if testOutput.Some? then Ok(testOutput.value == key)
                              else Err(CannotPerformOperation)
  {
    var params := RubySplit(hash);
    if |params| != HashSections then Verification(Err(InvalidHash), None)
    else if params[HashAlgorithmIndex] != "sha1" then Verification(Err(CannotPerformOperation), None)
    else match Base64.DecodeCanonical(params[Pbkdf2Index])
    case None => Verification(Err(InvalidHash), None)
    case Some(key) =>
      match Base64.DecodeCanonical(params[SaltIndex])
      case None => Verification(Err(InvalidHash), None)
      case Some(salt) =>
        if |key| != LeadingInt(params[HashSizeIndex]) then Verification(Err(InvalidHash), None)
        else
          var iterations := LeadingInt(params[IterationIndex]);
          if iterations < 1 then Verification(Err(InvalidHash), None)
          else
            var call := KdfCall(Pbkdf2Algorithm, salt, iterations, |key|);
            match Pbkdf2HmacSha1(kdf, password, salt, iterations, |key|)
            case Err(e) => Verification(Err(e), Some(call))
            case Ok(testOutput) => Verification(Ok(key == testOutput), Some(call))
  }

  // ---------------------------------------------------------------------------
  // Properties
  // ---------------------------------------------------------------------------

  /** A hash made by createHash verifies with the same password, by the very call that made it. */
  lemma CreateThenVerify(kdf: Kdf, password: string, salt: seq<byte>)
    requires HonoursLength(kdf)
    requires CreateHash(kdf, password, Some(salt)).Ok?
    ensures VerifyPassword(kdf, password, CreateHash(kdf, password, Some(salt)).value)
            == Verification(Ok(true), Some(KdfCall(Pbkdf2Algorithm, salt, Pbkdf2Iterations, OutputBytes)))
  {
    var key := kdf(Pbkdf2Algorithm, password, salt, Pbkdf2Iterations, OutputBytes).value;
    assert |key| == OutputBytes;
  }

  /** Every proper prefix of a created hash is an InvalidHash, and none reaches PBKDF2. */
  lemma TruncatedHashRejected(kdf: Kdf, password: string, salt: seq<byte>, n: nat)
    requires HonoursLength(kdf)
    requires CreateHash(kdf, password, Some(salt)).Ok?
    requires n < |CreateHash(kdf, password, Some(salt)).value|
    ensures VerifyPassword(kdf, password, CreateHash(kdf, password, Some(salt)).value[..n])
            == Verification(Err(InvalidHash), None)
  {
    var key := kdf(Pbkdf2Algorithm, password, salt, Pbkdf2Iterations, OutputBytes).value;
    var fields := Fields(salt, key);
    var whole := Split(Join(fields)[..n]);
    var cut := RubySplit(Join(fields)[..n]);
    SplitJoinPrefix(fields, n);
    if |cut| == HashSections {
      assert cut == whole;
      assert cut[HashAlgorithmIndex] == cut[..Pbkdf2Index][HashAlgorithmIndex] == "sha1";
      assert cut[HashSizeIndex] == cut[..Pbkdf2Index][HashSizeIndex] == fields[HashSizeIndex];
      var last := cut[Pbkdf2Index];
      assert |last| < Base64.EncodedLength(|key|);
      if Base64.DecodeCanonical(last).Some? {
        Base64.ShorterDecodesShorter(last, |key|);
        NatToStringReadBack(|key|);
      }
    }
  }

  /**
   * With a library that returns the length asked for, PasswordStorage.rb and
   * PasswordHash.rb turn away the same hashes for the same reasons, start the same
   * derivation and reach the same answer; only a failing library raises differently.
   */
  lemma SameAsPasswordHash(kdf: Kdf, password: string, hash: string)
    requires HonoursLength(kdf)
    ensures VerifyPassword(kdf, password, hash).derivation
            == RubyPasswordHash.VerifyPassword(kdf, password, hash).derivation
    ensures var mine, theirs := VerifyPassword(kdf, password, hash), RubyPasswordHash.VerifyPassword(kdf, password, hash);
            && (mine.outcome.Ok? <==> theirs.outcome.Ok?)
            && (mine.outcome.Ok? ==> theirs.outcome == Ok(mine.outcome.value))
            && (mine.outcome == Err(InvalidHash) <==> theirs.outcome == Err(RubyPasswordHash.InvalidHash))
            && (mine.outcome == Err(RangeError) <==> theirs.outcome == Err(RubyPasswordHash.RangeError))
            && (theirs.outcome == Err(RubyPasswordHash.Pkcs5Error) ==> mine.outcome == Err(CannotPerformOperation))
  {
  }
}
