/**
 * PasswordHash.php: create_hash, verify_password, slow_equals and the argument checks of
 * pbkdf2, over the five-field format algorithm:iterations:outputSize:salt:pbkdf2output.
 */
module PhpPasswordHash {

  import opened Common
  import opened Text
  import Base64
  import opened PhpText
  import opened PhpPbkdf2
  import ConstantTime

  // These may change without breaking stored hashes.
  const Pbkdf2HashAlgorithm: string := "sha1"
  const Pbkdf2Iterations: nat := 32000
  const Pbkdf2SaltBytes: nat := 24
  const Pbkdf2OutputBytes: nat := 18

  // These define the encoding.
  const HashSections: nat := 5
  const HashAlgorithmIndex: nat := 0
  const HashIterationIndex: nat := 1
  const HashSizeIndex: nat := 2
  const HashSaltIndex: nat := 3
  const HashPbkdf2Index: nat := 4

  /**
   * pbkdf2: InvalidArgument unless algorithm, password and salt are strings, otherwise
   * the guards and derivation of the shared PHP body.
   */
  function Pbkdf2(ext: HashExtension, algorithm: Arg<string>, password: Arg<string>, salt: Arg<seq<byte>>,
                  count: int, keyLength: int, rawOutput: bool): (r: Result<seq<byte>, PhpError>)
    ensures r == Err(InvalidArgument) <==> algorithm.NotString? || password.NotString? || salt.NotString?
    ensures algorithm.Str? && password.Str? && salt.Str? ==>
              r == Derive(ext, algorithm.value, password.value, salt.value, count, keyLength, rawOutput)
  {
    if algorithm.NotString? || password.NotString? || salt.NotString? then Err(InvalidArgument)
    else Derive(ext, algorithm.value, password.value, salt.value, count, keyLength, rawOutput)
  }

  /** The five fields create_hash writes. */
  function Fields(salt: seq<byte>, output: seq<byte>): (fields: seq<string>)
    ensures |fields| == HashSections && Unambiguous(fields)
  {
    Base64.EncodeNoDelimiter(salt);
    Base64.EncodeNoDelimiter(output);
    FiveUnambiguous(Pbkdf2HashAlgorithm, IntToString(Pbkdf2Iterations), IntToString(Pbkdf2OutputBytes), Base64.Encode(salt), Base64.Encode(output));
    [Pbkdf2HashAlgorithm, IntToString(Pbkdf2Iterations), IntToString(Pbkdf2OutputBytes),
     Base64.Encode(salt), Base64.Encode(output)]
  }

  /**
   * create_hash with the salt the generator returned (None for false): CannotPerformOperation
   * without a salt, the error of pbkdf2 if it raises, otherwise the colon-joined fields.
   */
  function CreateHash(ext: HashExtension, password: Arg<string>, salt: Option<seq<byte>>): (r: Result<string, PhpError>)
    ensures salt.None? ==> r == Err(CannotPerformOperation)
    ensures r.Ok? <==> salt.Some? && password.Str? &&
                       Derive(ext, Pbkdf2HashAlgorithm, password.value, salt.value, Pbkdf2Iterations, Pbkdf2OutputBytes, true).Ok?
    ensures r.Ok? ==>
              var fields := Split(r.value);
              |fields| == HashSections &&
              fields[HashAlgorithmIndex] == Pbkdf2HashAlgorithm &&
              LeadingInt(fields[HashIterationIndex]) == Pbkdf2Iterations &&
              LeadingInt(fields[HashSizeIndex]) == Pbkdf2OutputBytes &&
              Base64.PhpDecode(fields[HashSaltIndex]) == Some(salt.value) &&
              Base64.PhpDecode(fields[HashPbkdf2Index]) ==
                Some(Derive(ext, Pbkdf2HashAlgorithm, password.value, salt.value, Pbkdf2Iterations, Pbkdf2OutputBytes, true).value)
  {
    match salt
    case None => Err(CannotPerformOperation)
    case Some(saltRaw) =>
      match Pbkdf2(ext, Str(Pbkdf2HashAlgorithm), password, Str(saltRaw), Pbkdf2Iterations, Pbkdf2OutputBytes, true)
      case Err(e) => Err(e)
      case Ok(output) =>
        var fields := Fields(saltRaw, output);
        SplitJoin(fields);
        NatToStringReadBack(Pbkdf2Iterations);
        NatToStringReadBack(Pbkdf2OutputBytes);
        Base64.PhpDecodeEncode(saltRaw);
        Base64.PhpDecodeEncode(output);
        Ok(Join(fields))
  }

  /** Every structural check of verify_password passes on these fields. */
  predicate WellFormed(fields: seq<string>) {
    && |fields| == HashSections
    && Base64.PhpDecode(fields[HashPbkdf2Index]).Some?
    && Base64.PhpDecode(fields[HashSaltIndex]).Some?
    && |Base64.PhpDecode(fields[HashPbkdf2Index]).value| == LeadingInt(fields[HashSizeIndex])
    && LeadingInt(fields[HashIterationIndex]) >= 1
  }

  /**
   * verify_password: InvalidArgument for a non-string argument; InvalidHash when the split
   * does not give five fields, when the key and then the salt are not strict base64, when
   * the key length differs from (int) of the size field, when (int) of the iteration field
   * is below 1; then pbkdf2 on the stored algorithm, salt and iterations for as many bytes
   * as the stored key has, compared with slow_equals.
   */
  function VerifyPassword(ext: HashExtension, password: Arg<string>, hash: Arg<string>): (r: Verification<PhpError>)
    ensures r.derivation.Some? <==> password.Str? && hash.Str? && WellFormed(Split(hash.value))
    ensures r.derivation.None? ==> r.outcome == Err(if password.Str? && hash.Str? then InvalidHash else InvalidArgument)
    ensures r.derivation.Some? ==>
              var fields := Split(hash.value);
              var key := Base64.PhpDecode(fields[HashPbkdf2Index]).value;
              && r.derivation.value ==
                   KdfCall(fields[HashAlgorithmIndex], Base64.PhpDecode(fields[HashSaltIndex]).value,
                           LeadingInt(fields[HashIterationIndex]), |key|)
              && var derived := Pbkdf2(ext, Str(r.derivation.value.algorithm), password, Str(r.derivation.value.salt),
                                      r.derivation.value.iterations, r.derivation.value.length, true);
                 r.outcome == if derived.Ok? then Ok(derived.value == key) else Err(derived.error)
  {
    if password.NotString? || hash.NotString? then Verification(Err(InvalidArgument), None)
    else
      var params := Split(hash.value);
      if |params| != HashSections then Verification(Err(InvalidHash), None)
      else match Base64.PhpDecode(params[HashPbkdf2Index])
      case None => Verification(Err(InvalidHash), None)
      case Some(pbkdf2) =>
        match Base64.PhpDecode(params[HashSaltIndex])
        case None => Verification(Err(InvalidHash), None)
        case Some(saltRaw) =>
          var storedOutputSize := LeadingInt(params[HashSizeIndex]) + 0;
          if OurStrlen(pbkdf2) != storedOutputSize then Verification(Err(InvalidHash), None)
          else
            var iterations := LeadingInt(params[HashIterationIndex]);
            if iterations < 1 then Verification(Err(InvalidHash), None)
            else
              var call := KdfCall(params[HashAlgorithmIndex], saltRaw, iterations, OurStrlen(pbkdf2));
              var outcome := match Pbkdf2(ext, Str(call.algorithm), password, Str(saltRaw), iterations, call.length, true)
                case Err(e) => Err(e)
                case Ok(derived) => Ok(pbkdf2 == derived);
              Verification(outcome, Some(call))
  }

  /**
   * slow_equals: InvalidArgument for a non-string argument, otherwise whether the two
   * strings are equal, by the length-constant loop (hash_equals, where present, answers
   * the same question).
   */
  method SlowEquals(a: Arg<seq<byte>>, b: Arg<seq<byte>>) returns (r: Result<bool, PhpError>)
    ensures a.NotString? || b.NotString? ==> r == Err(InvalidArgument)
    ensures a.Str? && b.Str? ==> r == Ok(a.value == b.value)
  {
    if a.NotString? || b.NotString? {
      return Err(InvalidArgument);
    }
    var equal := ConstantTime.SlowEquals(a.value, b.value);
    r := Ok(equal);
  }

  // ---------------------------------------------------------------------------
  // Properties
  // ---------------------------------------------------------------------------

  /**
   * A hash made by create_hash verifies with the same password: the stored fields lead
   * pbkdf2 to the very call create_hash made.
   */
  lemma CreateThenVerify(ext: HashExtension, password: string, salt: seq<byte>)
    requires Honest(ext, Pbkdf2HashAlgorithm)
    requires CreateHash(ext, Str(password), Some(salt)).Ok?
    ensures VerifyPassword(ext, Str(password), Str(CreateHash(ext, Str(password), Some(salt)).value))
            == Verification(Ok(true), Some(KdfCall(Pbkdf2HashAlgorithm, salt, Pbkdf2Iterations, Pbkdf2OutputBytes)))
  {
    CreatedJoin(ext, password, salt);
    var output := Derive(ext, Pbkdf2HashAlgorithm, password, salt, Pbkdf2Iterations, Pbkdf2OutputBytes, true).value;
    StoredFieldsVerify(ext, password, CreateHash(ext, Str(password), Some(salt)).value, salt, output);
  }

  /** What create_hash returns is the join of its fields, with a key of Pbkdf2OutputBytes bytes. */
  lemma CreatedJoin(ext: HashExtension, password: string, salt: seq<byte>)
    requires Honest(ext, Pbkdf2HashAlgorithm)
    requires CreateHash(ext, Str(password), Some(salt)).Ok?
    ensures var output := Derive(ext, Pbkdf2HashAlgorithm, password, salt, Pbkdf2Iterations, Pbkdf2OutputBytes, true);
            && output.Ok? && |output.value| == Pbkdf2OutputBytes
            && CreateHash(ext, Str(password), Some(salt)).value == Join(Fields(salt, output.value))
  {
    LowerSha1();
    DeriveLength(ext, Pbkdf2HashAlgorithm, password, salt, Pbkdf2Iterations, Pbkdf2OutputBytes, true);
  }

  /** Fields naming sha1, the iteration count, the key length, the salt and a derived key verify, by that derivation. */
  lemma StoredFieldsVerify(ext: HashExtension, password: string, hash: string, salt: seq<byte>, output: seq<byte>)
    requires var f := Split(hash);
             && |f| == HashSections && f[HashAlgorithmIndex] == Pbkdf2HashAlgorithm
             && LeadingInt(f[HashIterationIndex]) == Pbkdf2Iterations && LeadingInt(f[HashSizeIndex]) == Pbkdf2OutputBytes
             && Base64.PhpDecode(f[HashSaltIndex]) == Some(salt) && Base64.PhpDecode(f[HashPbkdf2Index]) == Some(output)
    requires Derive(ext, Pbkdf2HashAlgorithm, password, salt, Pbkdf2Iterations, Pbkdf2OutputBytes, true) == Ok(output)
    requires |output| == Pbkdf2OutputBytes
    ensures VerifyPassword(ext, Str(password), Str(hash))
            == Verification(Ok(true), Some(KdfCall(Pbkdf2HashAlgorithm, salt, Pbkdf2Iterations, Pbkdf2OutputBytes)))
  {
  }

  /** No proper prefix of a created hash verifies or reaches pbkdf2: each is an InvalidHash. */
  lemma TruncatedHashRejected(ext: HashExtension, password: string, salt: seq<byte>, n: nat)
    requires Honest(ext, Pbkdf2HashAlgorithm)
    requires CreateHash(ext, Str(password), Some(salt)).Ok?
    requires n < |CreateHash(ext, Str(password), Some(salt)).value|
    ensures VerifyPassword(ext, Str(password), Str(CreateHash(ext, Str(password), Some(salt)).value[..n]))
            == Verification(Err(InvalidHash), None)
  {
    CreatedJoin(ext, password, salt);
    var output := Derive(ext, Pbkdf2HashAlgorithm, password, salt, Pbkdf2Iterations, Pbkdf2OutputBytes, true).value;
    PrefixNotWellFormed(Fields(salt, output), n, output);
  }

  /**
   * Cutting the joined fields of a hash short leaves fewer fields, or a key field that does
   * not decode, or one that decodes to fewer bytes than the size field announces. The key
   * length must be a multiple of three (the 18 bytes of create_hash are): otherwise the
   * key field without its '=' padding still decodes to the whole key (Base64.PhpDecodeUnpadded).
   */
  lemma PrefixNotWellFormed(fields: seq<string>, n: nat, key: seq<byte>)
    requires |fields| == HashSections && Unambiguous(fields)
    requires fields[HashSizeIndex] == IntToString(|key|) && fields[HashPbkdf2Index] == Base64.Encode(key)
    requires |key| % 3 == 0
    requires n < |Join(fields)|
    ensures !WellFormed(Split(Join(fields)[..n]))
  {
    var cut := Split(Join(fields)[..n]);
    SplitJoinPrefix(fields, n);
    if |cut| == HashSections {
      assert cut[HashSizeIndex] == cut[..HashPbkdf2Index][HashSizeIndex] == fields[HashSizeIndex];
      var last := cut[HashPbkdf2Index];
      assert |last| < Base64.EncodedLength(|key|);
      if Base64.PhpDecode(last).Some? {
        Base64.PhpShorterDecodesShorter(last, |key|);
        NatToStringReadBack(|key|);
        assert LeadingInt(cut[HashSizeIndex]) == |key|;
      }
    }
  }

  /**
   * An unpadded salt and key are accepted: "sha1:1000:1:YQ:YQ" reaches pbkdf2 with the salt
   * "a", 1000 iterations and a one-byte key.
   */
  lemma UnpaddedFieldsDerive(ext: HashExtension, password: string)
    ensures VerifyPassword(ext, Str(password), Str("sha1:1000:1:YQ:YQ")).derivation
            == Some(KdfCall("sha1", [0x61], 1000, 1))
  {
    SplitUnpaddedExample();
    ReadsExampleCounts();
    Base64.PhpReadsUnpaddedByte();
    assert WellFormed(Split("sha1:1000:1:YQ:YQ"));
  }

  lemma ReadsExampleCounts()
    ensures LeadingInt("1000") == 1000 && LeadingInt("1") == 1
  {
    NatToStringReadBack(1000);
    NatToStringReadBack(1);
    assert IntToString(1000) == "1000" && IntToString(1) == "1";
  }

  lemma SplitUnpaddedExample()
    ensures Split("sha1:1000:1:YQ:YQ") == ["sha1", "1000", "1", "YQ", "YQ"]
  {
    var fields := ["sha1", "1000", "1", "YQ", "YQ"];
    assert Join(fields) == "sha1:1000:1:YQ:YQ";
    FiveUnambiguous(fields[0], fields[1], fields[2], fields[3], fields[4]);
    SplitJoin(fields);
  }
}
