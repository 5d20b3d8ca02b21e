/**
 * PasswordStorage.php: the same five-field format as PasswordHash.php with 64000
 * iterations, no is_string checks, and the mcrypt salt source only.
 */
module PhpPasswordStorage {

  import opened Common
  import opened Text
  import Base64
  import opened PhpText
  import opened PhpPbkdf2
  import PhpPasswordHash

  const Pbkdf2HashAlgorithm: string := "sha1"
  const Pbkdf2Iterations: nat := 64000
  const Pbkdf2SaltBytes: nat := 24
  const Pbkdf2OutputBytes: nat := 18

  const HashSections: nat := 5
  const HashAlgorithmIndex: nat := 0
  const HashIterationIndex: nat := 1
  const HashSizeIndex: nat := 2
  const HashSaltIndex: nat := 3
  const HashPbkdf2Index: nat := 4

  /**
   * create_hash with what mcrypt_create_iv returned (None for false): CannotPerformOperation
   * without a salt, the error of pbkdf2 if it raises, otherwise the colon-joined fields.
   */
  function CreateHash(ext: HashExtension, password: string, salt: Option<seq<byte>>): (r: Result<string, PhpError>)
    ensures salt.None? ==> r == Err(CannotPerformOperation)
    ensures r.Ok? <==> salt.Some? &&
                       Derive(ext, Pbkdf2HashAlgorithm, password, salt.value, Pbkdf2Iterations, Pbkdf2OutputBytes, true).Ok?
    ensures r.Err? ==> r.error == CannotPerformOperation || r.error == DivisionByZero
    ensures r.Ok? ==>
              var fields := Split(r.value);
              |fields| == HashSections &&
              fields[HashAlgorithmIndex] == Pbkdf2HashAlgorithm &&
              LeadingInt(fields[HashIterationIndex]) == Pbkdf2Iterations &&
              LeadingInt(fields[HashSizeIndex]) == Pbkdf2OutputBytes &&
              Base64.PhpDecode(fields[HashSaltIndex]) == Some(salt.value) &&
              Base64.PhpDecode(fields[HashPbkdf2Index]) ==
                Some(Derive(ext, Pbkdf2HashAlgorithm, password, salt.value, Pbkdf2Iterations, Pbkdf2OutputBytes, true).value)
  {
    match salt
    case None => Err(CannotPerformOperation)
    case Some(saltRaw) =>
      match Derive(ext, Pbkdf2HashAlgorithm, password, saltRaw, Pbkdf2Iterations, Pbkdf2OutputBytes, true)
      case Err(e) => Err(e)
      case Ok(output) =>
        Base64.EncodeNoDelimiter(saltRaw);
        Base64.EncodeNoDelimiter(output);
        var fields := [Pbkdf2HashAlgorithm, IntToString(Pbkdf2Iterations), IntToString(Pbkdf2OutputBytes),
                       Base64.Encode(saltRaw), Base64.Encode(output)];
        FiveUnambiguous(fields[0], fields[1], fields[2], fields[3], fields[4]);
        SplitJoin(fields);
        NatToStringReadBack(Pbkdf2Iterations);
        NatToStringReadBack(Pbkdf2OutputBytes);
        Base64.PhpDecodeEncode(saltRaw);
        Base64.PhpDecodeEncode(output);
        Ok(Join(fields))
  }

  /**
   * verify_password: InvalidHash for a field count other than five, a key and then a salt
   * that are not strict base64, a key length other than (int) of the size field, and
   * (int) of the iteration field below 1; then pbkdf2 on the stored algorithm, salt and
   * iterations for strlen of the stored key, compared with slow_equals.
   */
  function VerifyPassword(ext: HashExtension, password: string, hash: string): (r: Verification<PhpError>)
    ensures r.derivation.Some? <==> PhpPasswordHash.WellFormed(Split(hash))
    ensures r.derivation.None? ==> r.outcome == Err(InvalidHash)
    ensures r.outcome == Err(CannotPerformOperation) ==> r.derivation.Some?
    ensures r.derivation.Some? ==>
              var fields := Split(hash);
              var key := Base64.PhpDecode(fields[HashPbkdf2Index]).value;
              && r.derivation.value ==
                   KdfCall(fields[HashAlgorithmIndex], Base64.PhpDecode(fields[HashSaltIndex]).value,
                           LeadingInt(fields[HashIterationIndex]), |key|)
              && var derived := Derive(ext, fields[HashAlgorithmIndex], password, r.derivation.value.salt,
                                      r.derivation.value.iterations, |key|, true);
                 r.outcome == if derived.Ok? then Ok(derived.value == key) else Err(derived.error)
  {
    var params := Split(hash);
    if |params| != HashSections then Verification(Err(InvalidHash), None)
    else match Base64.PhpDecode(params[HashPbkdf2Index])
    case None => Verification(Err(InvalidHash), None)
    case Some(pbkdf2) =>
      match Base64.PhpDecode(params[HashSaltIndex])
      case None => Verification(Err(InvalidHash), None)
      case Some(saltRaw) =>
        var storedOutputSize := LeadingInt(params[HashSizeIndex]);
        if |pbkdf2| != storedOutputSize then Verification(Err(InvalidHash), None)
        else
          var iterations := LeadingInt(params[HashIterationIndex]);
          if iterations < 1 then Verification(Err(InvalidHash), None)
          else
            var outcome := match Derive(ext, params[HashAlgorithmIndex], password, saltRaw, iterations, |pbkdf2|, true)
              case Err(e) => Err(e)
              case Ok(derived) => Ok(pbkdf2 == derived);
            Verification(outcome, Some(KdfCall(params[HashAlgorithmIndex], saltRaw, iterations, |pbkdf2|)))
  }

  // ---------------------------------------------------------------------------
  // Properties
  // ---------------------------------------------------------------------------

  /** On strings, verification behaves exactly as in PasswordHash.php. */
  lemma SameAsPasswordHash(ext: HashExtension, password: string, hash: string)
    ensures VerifyPassword(ext, password, hash) == PhpPasswordHash.VerifyPassword(ext, Str(password), Str(hash))
  {
  }

  /**
   * A disallowed algorithm name surfaces only once the structure is valid: a well-formed
   * hash naming an algorithm outside the allow-list is a CannotPerformOperation.
   */
  lemma DisallowedAlgorithmLate(ext: HashExtension, password: string, hash: string)
    requires PhpPasswordHash.WellFormed(Split(hash))
    requires Lower(Split(hash)[HashAlgorithmIndex]) !in Pbkdf2.AllowedAlgorithms
    ensures VerifyPassword(ext, password, hash).outcome == Err(CannotPerformOperation)
  {
  }

  /**
   * With an honest extension, pbkdf2 returns as many bytes as the stored key has, so
   * slow_equals compares strings of equal length.
   */
  lemma ComparesEqualLengths(ext: HashExtension, password: string, hash: string)
    requires PhpPasswordHash.WellFormed(Split(hash))
    requires Honest(ext, Lower(Split(hash)[HashAlgorithmIndex]))
    requires var f := Split(hash);
             Derive(ext, f[HashAlgorithmIndex], password, Base64.PhpDecode(f[HashSaltIndex]).value,
                    LeadingInt(f[HashIterationIndex]), |Base64.PhpDecode(f[HashPbkdf2Index]).value|, true).Ok?
    ensures var f := Split(hash);
            |Derive(ext, f[HashAlgorithmIndex], password, Base64.PhpDecode(f[HashSaltIndex]).value,
                    LeadingInt(f[HashIterationIndex]), |Base64.PhpDecode(f[HashPbkdf2Index]).value|, true).value|
            == |Base64.PhpDecode(f[HashPbkdf2Index]).value|
  {
    var f := Split(hash);
    DeriveLength(ext, f[HashAlgorithmIndex], password, Base64.PhpDecode(f[HashSaltIndex]).value,
                 LeadingInt(f[HashIterationIndex]), |Base64.PhpDecode(f[HashPbkdf2Index]).value|, true);
  }

  /** A hash made by create_hash verifies with the same password. */
  lemma CreateThenVerify(ext: HashExtension, password: string, salt: seq<byte>)
    requires Honest(ext, Pbkdf2HashAlgorithm)
    requires CreateHash(ext, password, Some(salt)).Ok?
    ensures VerifyPassword(ext, password, CreateHash(ext, password, Some(salt)).value)
            == Verification(Ok(true), Some(KdfCall(Pbkdf2HashAlgorithm, salt, Pbkdf2Iterations, Pbkdf2OutputBytes)))
  {
    LowerSha1();
    DeriveLength(ext, Pbkdf2HashAlgorithm, password, salt, Pbkdf2Iterations, Pbkdf2OutputBytes, true);
  }
}
