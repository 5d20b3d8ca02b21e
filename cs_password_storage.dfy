/**
 * PasswordStorage.cs: CreateHash and VerifyPassword over the five-field format, with
 * every malformed hash raising InvalidHashException, an algorithm other than "sha1"
 * raising CannotPerformOperationException, and PBKDF2 reached only after every check.
 */
module CsPasswordStorage {

  import opened Common
  import opened Text
  import Base64
  import CsPasswordHash

  // These may change without breaking stored hashes.
  const SaltBytes: nat := 24
  const HashBytes: nat := 18
  const Pbkdf2Iterations: nat := 64000

  // These define the encoding.
  const HashSections: nat := 5
  const HashAlgorithmIndex: nat := 0
  const IterationIndex: nat := 1
  const HashSizeIndex: nat := 2
  const SaltIndex: nat := 3
  const Pbkdf2Index: nat := 4

  /** Rfc2898DeriveBytes always uses HMAC-SHA1; this is the name the model hands the library. */
  const Pbkdf2Algorithm: string := "sha1"

  datatype CsError =
    | InvalidHash             // InvalidHashException
    | CannotPerformOperation  // CannotPerformOperationException
    | LibraryException        // whatever Rfc2898DeriveBytes raises (None from the library)

  /**
   * CreateHash with what the generator gave (None when it raised): CannotPerformOperation
   * without a salt, otherwise PBKDF2 and the colon-joined fields, with the length of the
   * hash actually returned as the size.
   */
  function CreateHash(kdf: Kdf, password: string, salt: Option<seq<byte>>): (r: Result<string, CsError>)
    ensures salt.None? ==> r == Err(CannotPerformOperation)
    ensures r.Ok? <==> salt.Some? && kdf(Pbkdf2Algorithm, password, salt.value, Pbkdf2Iterations, HashBytes).Some?
    ensures salt.Some? && r.Err? ==> r.error == LibraryException
    ensures r.Ok? ==>
              var hash := kdf(Pbkdf2Algorithm, password, salt.value, Pbkdf2Iterations, HashBytes).value;
              var split := Split(r.value);
              && |split| == HashSections
              && split[HashAlgorithmIndex] == "sha1"
              && ParseInt32(split[IterationIndex]) == Ok(Pbkdf2Iterations)
              && SignedDigits(split[HashSizeIndex]) == Some(|hash|)
              && Base64.NetDecode(split[SaltIndex]) == Some(salt.value)
              && Base64.NetDecode(split[Pbkdf2Index]) == Some(hash)
  {
    match salt
    case None => Err(CannotPerformOperation)
    case Some(saltBytes) =>
      match kdf(Pbkdf2Algorithm, password, saltBytes, Pbkdf2Iterations, HashBytes)
      case None => Err(LibraryException)
      case Some(hash) =>
        var fields := Fields(saltBytes, hash);
        SplitJoin(fields);
        NatToStringReadBack(Pbkdf2Iterations);
        NatToStringReadBack(|hash|);
        Base64.NetDecodeEncode(saltBytes);
        Base64.NetDecodeEncode(hash);
        Ok(Join(fields))
  }

  /** The fields CreateHash writes for a salt and a derived hash. */
  function Fields(salt: seq<byte>, hash: seq<byte>): (fields: seq<string>)
    ensures |fields| == HashSections && Unambiguous(fields)
  {
    Base64.EncodeNoDelimiter(salt);
    Base64.EncodeNoDelimiter(hash);
    FiveUnambiguous("sha1", IntToString(Pbkdf2Iterations), IntToString(|hash|), Base64.Encode(salt), Base64.Encode(hash));
    ["sha1", IntToString(Pbkdf2Iterations), IntToString(|hash|), Base64.Encode(salt), Base64.Encode(hash)]
  }

  /** The checks after the field count and the algorithm, each an InvalidHash when it fails. */
  predicate Structured(split: seq<string>)
    requires |split| == HashSections
  {
    && ParseInt32(split[IterationIndex]).Ok?
    && ParseInt32(split[IterationIndex]).value >= 1
    && Base64.NetDecode(split[SaltIndex]).Some?
    && Base64.NetDecode(split[Pbkdf2Index]).Some?
    && ParseInt32(split[HashSizeIndex]) == Ok(|Base64.NetDecode(split[Pbkdf2Index]).value|)
  }

  /** Every check of VerifyPassword passes on these fields, so PBKDF2 is reached. */
  predicate WellFormed(split: seq<string>) {
    |split| == HashSections && split[HashAlgorithmIndex] == "sha1" && Structured(split)
  }

  /**
   * VerifyPassword: InvalidHash unless the split gives five fields; CannotPerformOperation
   * unless field 0 is exactly "sha1"; InvalidHash when the iteration count does not parse,
   * overflows or is below 1, when the salt and then the hash are not base64, when the size
   * does not parse or differs from the decoded hash length; then PBKDF2 with the parsed
   * iterations for as many bytes as the stored hash has, compared with SlowEquals.
   */
  function VerifyPassword(kdf: Kdf, password: string, goodHash: string): (r: Verification<CsError>)
    ensures r.derivation.Some? <==> WellFormed(Split(goodHash))
    ensures |Split(goodHash)| != HashSections ==> r == Verification(Err(InvalidHash), None)
    ensures |Split(goodHash)| == HashSections && Split(goodHash)[HashAlgorithmIndex] != "sha1" ==>
              r == Verification(Err(CannotPerformOperation), None)
    ensures (|Split(goodHash)| == HashSections && Split(goodHash)[HashAlgorithmIndex] == "sha1" &&
             !Structured(Split(goodHash))) ==> r == Verification(Err(InvalidHash), None)
    ensures WellFormed(Split(goodHash)) ==>
              var split := Split(goodHash);
              var hash := Base64.NetDecode(split[Pbkdf2Index]).value;
              && r.derivation.value ==
                   KdfCall(Pbkdf2Algorithm, Base64.NetDecode(split[SaltIndex]).value,
                           ParseInt32(split[IterationIndex]).value, |hash|)
              && var testHash := kdf(Pbkdf2Algorithm, password, r.derivation.value.salt,
                                     r.derivation.value.iterations, |hash|);
                 r.outcome == if testHash.Some? then Ok(testHash.value == hash) else Err(LibraryException)
  {
    var split := Split(goodHash);
    if |split| != HashSections then Verification(Err(InvalidHash), None)
    else if split[HashAlgorithmIndex] != "sha1" then Verification(Err(CannotPerformOperation), None)
    else match ParseInt32(split[IterationIndex])
    case Err(_) => Verification(Err(InvalidHash), None)
    case Ok(iterations) =>
      if iterations < 1 then Verification(Err(InvalidHash), None)
      else match Base64.NetDecode(split[SaltIndex])
      case None => Verification(Err(InvalidHash), None)
      case Some(salt) =>
        match Base64.NetDecode(split[Pbkdf2Index])
        case None => Verification(Err(InvalidHash), None)
        case Some(hash) =>
          match ParseInt32(split[HashSizeIndex])
          case Err(_) => Verification(Err(InvalidHash), None)
          case Ok(storedHashSize) =>
            if storedHashSize != |hash| then Verification(Err(InvalidHash), None)
            else
              var call := KdfCall(Pbkdf2Algorithm, salt, iterations, |hash|);
              match kdf(Pbkdf2Algorithm, password, salt, iterations, |hash|)
              case None => Verification(Err(LibraryException), Some(call))
              case Some(testHash) => Verification(Ok(hash == testHash), Some(call))
  }

  // ---------------------------------------------------------------------------
  // Properties
  // ---------------------------------------------------------------------------

  /** A hash made by CreateHash verifies with the same password, by the very call that made it. */
  lemma CreateThenVerify(kdf: Kdf, password: string, salt: seq<byte>)
    requires HonoursLength(kdf)
    requires CreateHash(kdf, password, Some(salt)).Ok?
    ensures VerifyPassword(kdf, password, CreateHash(kdf, password, Some(salt)).value)
            == Verification(Ok(true), Some(KdfCall(Pbkdf2Algorithm, salt, Pbkdf2Iterations, HashBytes)))
  {
    var hash := kdf(Pbkdf2Algorithm, password, salt, Pbkdf2Iterations, HashBytes).value;
    assert |hash| == HashBytes;
  }

  /** Every proper prefix of a created hash is an InvalidHash, and none reaches PBKDF2. */
  lemma TruncatedHashRejected(kdf: Kdf, password: string, salt: seq<byte>, n: nat)
    requires HonoursLength(kdf)
    requires CreateHash(kdf, password, Some(salt)).Ok?
    requires n < |CreateHash(kdf, password, Some(salt)).value|
    ensures VerifyPassword(kdf, password, CreateHash(kdf, password, Some(salt)).value[..n])
            == Verification(Err(InvalidHash), None)
  {
    var hash := kdf(Pbkdf2Algorithm, password, salt, Pbkdf2Iterations, HashBytes).value;
    var fields := Fields(salt, hash);
    var cut := Split(Join(fields)[..n]);
    SplitJoinPrefix(fields, n);
    if |cut| == HashSections {
      assert cut[HashAlgorithmIndex] == cut[..Pbkdf2Index][HashAlgorithmIndex] == "sha1";
      assert cut[HashSizeIndex] == cut[..Pbkdf2Index][HashSizeIndex] == fields[HashSizeIndex];
      var last := cut[Pbkdf2Index];
      assert |last| < Base64.EncodedLength(|hash|);
      if Base64.NetDecode(last).Some? {
        Base64.NetShorterDecodesShorter(last, |hash|);
        NatToStringReadBack(|hash|);
      }
    }
  }

  /**
   * Whatever PasswordStorage.cs hands to PBKDF2, PasswordHash.cs hands over the same call
   * and reaches the same answer; PasswordStorage.cs only turns away more hashes, and
   * raises where PasswordHash.cs answers false.
   */
  lemma StricterThanPasswordHash(kdf: Kdf, password: string, goodHash: string)
    requires VerifyPassword(kdf, password, goodHash).derivation.Some?
    ensures CsPasswordHash.ValidatePassword(kdf, password, goodHash).derivation
            == VerifyPassword(kdf, password, goodHash).derivation
    ensures VerifyPassword(kdf, password, goodHash).outcome.Ok? ==>
              CsPasswordHash.ValidatePassword(kdf, password, goodHash).outcome
              == Ok(VerifyPassword(kdf, password, goodHash).outcome.value)
  {
  }

  /** A hash PasswordHash.cs validates as false without raising is an InvalidHash here, or names another algorithm. */
  lemma RaisesWhereValidateAnswersFalse(kdf: Kdf, password: string, goodHash: string)
    requires CsPasswordHash.ValidatePassword(kdf, password, goodHash) == Verification(Ok(false), None)
    ensures VerifyPassword(kdf, password, goodHash).outcome.Err?
    ensures VerifyPassword(kdf, password, goodHash).derivation == None
  {
  }
}
