/**
 * PasswordStorage.js: createHash and verifyPassword as Promises. The verifier calls
 * `reject` without returning, so every later check and crypto.pbkdf2 still run; the
 * Promise takes the first settlement. The model lists the settlement attempts in the
 * order the executor makes them and takes the first.
 */
module JsPasswordStorage {

  import opened Common
  import opened Text
  import Base64
  import opened NodeCrypto

  // These may change without breaking stored hashes.
  const SaltByteSize: nat := 24
  const HashByteSize: nat := 18
  const Pbkdf2Iterations: nat := 64000
  const DefaultDigest: string := "sha1"

  // These define the encoding.
  const HashSections: nat := 5
  const HashAlgorithmIndex: nat := 0
  const IterationIndex: nat := 1
  const HashSizeIndex: nat := 2
  const SaltIndex: nat := 3
  const Pbkdf2Index: nat := 4

  datatype JsError =
    | InvalidHash              // InvalidHashException
    | CannotPerformOperation   // CannotPerformOperationException
    | CryptoError              // an error of crypto.randomBytes or crypto.pbkdf2, passed on
    | Unsettled                // thrown inside the randomBytes callback: uncaught, the Promise stays pending

  /** The arguments verifyPassword hands crypto.pbkdf2; None stands for NaN. */
  datatype Pbkdf2Call = Pbkdf2Call(digest: string, salt: seq<byte>, iterations: Option<int>, length: Option<int>)

  /** How the Promise settles, and the crypto.pbkdf2 call the executor made, if any. */
  datatype Verdict = Verdict(outcome: Result<bool, JsError>, derivation: Option<Pbkdf2Call>)

  /** `digest || DEFAULT_DIGEST`: None for undefined; the empty string is falsy as well. */
  function DigestOf(digest: Option<string>): string {
    if digest.None? || digest.value == "" then DefaultDigest else digest.value
  }

  // ---------------------------------------------------------------------------
  // createHash
  // ---------------------------------------------------------------------------

  function Fields(name: string, salt: seq<byte>, hash: seq<byte>): (fields: seq<string>)
    ensures |fields| == HashSections
    ensures NoDelimiter(name) ==> Unambiguous(fields)
  {
    Base64.EncodeNoDelimiter(salt);
    Base64.EncodeNoDelimiter(hash);
    FiveUnambiguous(name, IntToString(Pbkdf2Iterations), IntToString(HashByteSize), Base64.Encode(salt), Base64.Encode(hash));
    [name, IntToString(Pbkdf2Iterations), IntToString(HashByteSize), Base64.Encode(salt), Base64.Encode(hash)]
  }

  /**
   * createHash as written, with what crypto.randomBytes gave (None for an error): the
   * error of randomBytes, then, for a digest getHashes() does not list, the exception
   * crypto.pbkdf2 throws inside the randomBytes callback, which nothing catches, so the
   * Promise never settles; then the error pbkdf2 hands its callback, otherwise the fields
   * joined by ':', the first of them "sha1" whatever digest derived the hash.
   */
  function CreateHash(crypto: Crypto, password: string, digest: Option<string>, salt: Option<seq<byte>>)
    : (r: Result<string, JsError>)
    ensures salt.None? ==> r == Err(CryptoError)
    ensures salt.Some? && DigestOf(digest) !in crypto.hashes ==> r == Err(Unsettled)
    ensures r.Err? ==> r.error == CryptoError || r.error == Unsettled
    ensures r.Ok? <==>
              && salt.Some? && DigestOf(digest) in crypto.hashes
              && crypto.pbkdf2(DigestOf(digest), password, salt.value, Pbkdf2Iterations, HashByteSize).Some?
    ensures r.Ok? ==> Split(r.value)[HashAlgorithmIndex] == "sha1"
  {
    match salt
    case None => Err(CryptoError)
    case Some(saltBytes) =>
      if DigestOf(digest) !in crypto.hashes then Err(Unsettled)
      else match crypto.pbkdf2(DigestOf(digest), password, saltBytes, Pbkdf2Iterations, HashByteSize)
      case None => Err(CryptoError)
      case Some(hash) =>
        SplitJoin(Fields("sha1", saltBytes, hash));
        Ok(Join(Fields("sha1", saltBytes, hash)))
  }

  /**
   * createHash as evidently meant: the digest that derived the hash is the one written in
   * the algorithm field, which verifyPassword hands back to crypto.pbkdf2. An unlisted
   * digest still throws inside the callback.
   */
  function CreateHashLabelled(crypto: Crypto, password: string, digest: Option<string>, salt: Option<seq<byte>>)
    : (r: Result<string, JsError>)
    ensures salt.None? ==> r == Err(CryptoError)
    ensures salt.Some? && DigestOf(digest) !in crypto.hashes ==> r == Err(Unsettled)
    ensures r.Err? ==> r.error == CryptoError || r.error == Unsettled
    ensures r.Ok? <==>
              && salt.Some? && DigestOf(digest) in crypto.hashes
              && crypto.pbkdf2(DigestOf(digest), password, salt.value, Pbkdf2Iterations, HashByteSize).Some?
    ensures r.Ok? && NoDelimiter(DigestOf(digest)) ==>
              var hash := crypto.pbkdf2(DigestOf(digest), password, salt.value, Pbkdf2Iterations, HashByteSize).value;
              var split := Split(r.value);
              && |split| == HashSections
              && split[HashAlgorithmIndex] == DigestOf(digest)
              && JsParseInt(split[IterationIndex]) == Some(Pbkdf2Iterations)
              && JsParseInt(split[HashSizeIndex]) == Some(HashByteSize)
              && Base64.Decode(split[SaltIndex]) == Some(salt.value)
              && Base64.Decode(split[Pbkdf2Index]) == Some(hash)
  {
    match salt
    case None => Err(CryptoError)
    case Some(saltBytes) =>
      if DigestOf(digest) !in crypto.hashes then Err(Unsettled)
      else match crypto.pbkdf2(DigestOf(digest), password, saltBytes, Pbkdf2Iterations, HashByteSize)
      case None => Err(CryptoError)
      case Some(hash) =>
        var fields := Fields(DigestOf(digest), saltBytes, hash);
        if NoDelimiter(DigestOf(digest)) then
          SplitJoin(fields);
          NatToStringReadBack(Pbkdf2Iterations);
          NatToStringReadBack(HashByteSize);
          Base64.DecodeEncode(saltBytes);
          Base64.DecodeEncode(hash);
          Ok(Join(fields))
        else Ok(Join(fields))
  }

  // ---------------------------------------------------------------------------
  // verifyPassword
  // ---------------------------------------------------------------------------

  /** parseInt(params[i], 10), NaN (None) when the field is undefined. */
  function ParamInt(params: seq<string>, i: nat): Option<int> {
    if i < |params| then JsParseInt(params[i]) else None
  }

  /** The reject calls of the checks, in order, each present when its check fails. */
  function Rejections(crypto: Crypto, decode: Base64.Decoder, params: seq<string>): (attempts: seq<Result<bool, JsError>>)
    requires |params| >= 1
    ensures |params| != HashSections ==> |attempts| >= 1 && attempts[0] == Err(InvalidHash)
  {
    var iterations := ParamInt(params, IterationIndex);
    var storedHashSize := ParamInt(params, HashSizeIndex);
    (if |params| != HashSections then [Err(InvalidHash)] else [])
    + (if params[HashAlgorithmIndex] !in crypto.hashes then [Err(CannotPerformOperation)] else [])
    + (if iterations.None? then [Err(InvalidHash)] else [])
    + (if iterations.Some? && iterations.value < 1 then [Err(InvalidHash)] else [])
    + (if |params| < HashSections then []
       else
         var hash := decode(params[Pbkdf2Index]);
         (if storedHashSize.None? then [Err(InvalidHash)] else [])
         + (if storedHashSize != Some(|hash|) then [Err(InvalidHash)] else []))
  }

  /** What crypto.pbkdf2 hands its callback: an error for a NaN argument, else the comparison. */
  function Settle(crypto: Crypto, password: string, hash: seq<byte>, call: Pbkdf2Call): Result<bool, JsError> {
    if call.iterations.None? || call.length.None? then Err(CryptoError)
    else match crypto.pbkdf2(call.digest, password, call.salt, call.iterations.value, call.length.value)
      case None => Err(CryptoError)
      case Some(testHash) => Ok(hash == testHash)
  }

  /**
   * verifyPassword as written. With fewer than five fields initBuffer(undefined) throws
   * after the field-count rejection, so crypto.pbkdf2 is not reached; with five or more it
   * is, whatever the checks found, and with the parsed digest, salt and iterations and the
   * stored size. The salt and hash are decoded leniently and never checked. The outcome
   * is the first settlement attempt; what it amounts to is stated against the corrected
   * verifier: SameOutcome (the same outcome on every input), DerivesOnRejectedHash and
   * DerivesWithRejectedIterations (the derivations it makes that the corrected one does not).
   */
  function VerifyPassword(crypto: Crypto, decode: Base64.Decoder, password: string, correctHash: string): (r: Verdict)
    ensures r.derivation.Some? <==> |Split(correctHash)| >= HashSections
    ensures r.derivation.Some? ==>
              var params := Split(correctHash);
              r.derivation.value == Pbkdf2Call(params[HashAlgorithmIndex], decode(params[SaltIndex]),
                                               JsParseInt(params[IterationIndex]), JsParseInt(params[HashSizeIndex]))
    ensures r.outcome == (Rejections(crypto, decode, Split(correctHash)) +
                          if r.derivation.Some? then
                            [Settle(crypto, password, decode(Split(correctHash)[Pbkdf2Index]), r.derivation.value)]
                          else [])[0]
  {
    var params := Split(correctHash);
    var rejections := Rejections(crypto, decode, params);
    if |params| < HashSections then Verdict(rejections[0], None)
    else
      var salt := decode(params[SaltIndex]);
      var hash := decode(params[Pbkdf2Index]);
      var call := Pbkdf2Call(params[HashAlgorithmIndex], salt, ParamInt(params, IterationIndex), ParamInt(params, HashSizeIndex));
      Verdict((rejections + [Settle(crypto, password, hash, call)])[0], Some(call))
  }

  /** Every check of verifyPassword passes on these fields. */
  predicate WellFormed(crypto: Crypto, decode: Base64.Decoder, params: seq<string>) {
    && |params| == HashSections
    && params[HashAlgorithmIndex] in crypto.hashes
    && JsParseInt(params[IterationIndex]).Some?
    && JsParseInt(params[IterationIndex]).value >= 1
    && JsParseInt(params[HashSizeIndex]) == Some(|decode(params[Pbkdf2Index])|)
  }

  /**
   * verifyPassword as evidently meant, with `return reject(…)`: InvalidHash for a field
   * count other than five; CannotPerformOperation for a digest getHashes() lacks; InvalidHash
   * when the iterations are NaN or below 1, and when the size is NaN or not the decoded
   * hash length; crypto.pbkdf2 only after all of them.
   */
  function VerifyPasswordReturning(crypto: Crypto, decode: Base64.Decoder, password: string, correctHash: string)
    : (r: Verdict)
    ensures r.derivation.Some? <==> WellFormed(crypto, decode, Split(correctHash))
    ensures r.derivation.None? ==> r.outcome == Err(InvalidHash) || r.outcome == Err(CannotPerformOperation)
    ensures r.outcome == Err(CannotPerformOperation) <==>
              |Split(correctHash)| == HashSections && Split(correctHash)[HashAlgorithmIndex] !in crypto.hashes
    ensures WellFormed(crypto, decode, Split(correctHash)) ==>
              var params := Split(correctHash);
              && r.derivation.value == Pbkdf2Call(params[HashAlgorithmIndex], decode(params[SaltIndex]),
                                                  JsParseInt(params[IterationIndex]), JsParseInt(params[HashSizeIndex]))
              && r.outcome == Settle(crypto, password, decode(params[Pbkdf2Index]), r.derivation.value)
  {
    var params := Split(correctHash);
    if |params| != HashSections then Verdict(Err(InvalidHash), None)
    else
      var digest := params[HashAlgorithmIndex];
      if digest !in crypto.hashes then Verdict(Err(CannotPerformOperation), None)
      else
        var iterations := JsParseInt(params[IterationIndex]);
        if iterations.None? || iterations.value < 1 then Verdict(Err(InvalidHash), None)
        else
          var salt := decode(params[SaltIndex]);
          var hash := decode(params[Pbkdf2Index]);
          var storedHashSize := JsParseInt(params[HashSizeIndex]);
          if storedHashSize != Some(|hash|) then Verdict(Err(InvalidHash), None)
          else
            var call := Pbkdf2Call(digest, salt, iterations, storedHashSize);
            Verdict(Settle(crypto, password, hash, call), Some(call))
  }

  // ---------------------------------------------------------------------------
  // Properties
  // ---------------------------------------------------------------------------

  /**
   * First-settlement-wins makes the missing returns invisible in the outcome: both
   * versions settle the same way on every input.
   */
  lemma SameOutcome(crypto: Crypto, decode: Base64.Decoder, password: string, correctHash: string)
    ensures VerifyPassword(crypto, decode, password, correctHash).outcome
            == VerifyPasswordReturning(crypto, decode, password, correctHash).outcome
  {
  }

  /**
   * As written, a hash the field count already rejects still reaches crypto.pbkdf2, with
   * whatever iteration count and size it carries.
   */
  lemma DerivesOnRejectedHash(crypto: Crypto, decode: Base64.Decoder, password: string, correctHash: string)
    requires |Split(correctHash)| > HashSections
    ensures VerifyPassword(crypto, decode, password, correctHash).outcome == Err(InvalidHash)
    ensures VerifyPassword(crypto, decode, password, correctHash).derivation.Some?
    ensures VerifyPasswordReturning(crypto, decode, password, correctHash).derivation.None?
  {
  }

  /**
   * The same happens to a five-field hash whose iteration count is below 1: crypto.pbkdf2
   * is still handed that count.
   */
  lemma DerivesWithRejectedIterations(crypto: Crypto, decode: Base64.Decoder, password: string, correctHash: string)
    requires |Split(correctHash)| == HashSections
    requires Split(correctHash)[HashAlgorithmIndex] in crypto.hashes
    requires JsParseInt(Split(correctHash)[IterationIndex]).Some?
    requires JsParseInt(Split(correctHash)[IterationIndex]).value < 1
    ensures VerifyPassword(crypto, decode, password, correctHash).outcome == Err(InvalidHash)
    ensures VerifyPassword(crypto, decode, password, correctHash).derivation.value.iterations
            == JsParseInt(Split(correctHash)[IterationIndex])
    ensures VerifyPasswordReturning(crypto, decode, password, correctHash).derivation.None?
  {
  }

  /**
   * As written, createHash with a digest other than "sha1" stores a hash that
   * verifyPassword re-derives with "sha1", not with the digest that made it.
   */
  lemma MislabelledDigest(crypto: Crypto, decode: Base64.Decoder, password: string, digest: Option<string>,
                          salt: seq<byte>)
    requires CreateHash(crypto, password, digest, Some(salt)).Ok?
    requires VerifyPasswordReturning(crypto, decode, password, CreateHash(crypto, password, digest, Some(salt)).value)
               .derivation.Some?
    ensures VerifyPasswordReturning(crypto, decode, password, CreateHash(crypto, password, digest, Some(salt)).value)
              .derivation.value.digest == "sha1"
  {
  }

  /** For the default digest both versions of createHash write the same hash. */
  lemma DefaultDigestLabelled(crypto: Crypto, password: string, digest: Option<string>, salt: Option<seq<byte>>)
    requires DigestOf(digest) == DefaultDigest
    ensures CreateHash(crypto, password, digest, salt) == CreateHashLabelled(crypto, password, digest, salt)
  {
  }

  /**
   * A hash from the corrected createHash verifies with the same password, by the very
   * crypto.pbkdf2 call that made it, for any digest getHashes() lists.
   */
  lemma CreateThenVerify(crypto: Crypto, decode: Base64.Decoder, password: string, digest: Option<string>,
                         salt: seq<byte>)
    requires HonoursLength(crypto.pbkdf2) && Base64.DecodesEncodings(decode)
    requires DigestOf(digest) in crypto.hashes && NoDelimiter(DigestOf(digest))
    requires CreateHashLabelled(crypto, password, digest, Some(salt)).Ok?
    ensures VerifyPasswordReturning(crypto, decode, password, CreateHashLabelled(crypto, password, digest, Some(salt)).value)
            == Verdict(Ok(true), Some(Pbkdf2Call(DigestOf(digest), salt, Some(Pbkdf2Iterations), Some(HashByteSize))))
  {
    var hash := crypto.pbkdf2(DigestOf(digest), password, salt, Pbkdf2Iterations, HashByteSize).value;
    var params := Split(CreateHashLabelled(crypto, password, digest, Some(salt)).value);
    assert params == Fields(DigestOf(digest), salt, hash) by {
      SplitJoin(Fields(DigestOf(digest), salt, hash));
    }
    NatToStringReadBack(Pbkdf2Iterations);
    NatToStringReadBack(HashByteSize);
    assert decode(Base64.Encode(hash)) == hash;
    assert decode(Base64.Encode(salt)) == salt;
  }

  /** What createHash returns is the join of its fields, with a hash of HashByteSize bytes. */
  lemma CreatedJoin(crypto: Crypto, password: string, digest: Option<string>, salt: seq<byte>)
    requires HonoursLength(crypto.pbkdf2)
    requires CreateHashLabelled(crypto, password, digest, Some(salt)).Ok?
    ensures var hash := crypto.pbkdf2(DigestOf(digest), password, salt, Pbkdf2Iterations, HashByteSize).value;
            && |hash| == HashByteSize
            && CreateHashLabelled(crypto, password, digest, Some(salt)).value == Join(Fields(DigestOf(digest), salt, hash))
  {
  }

  /**
   * Dropping the last character of a created hash (CreatedJoin: the fields joined, with
   * an 18-byte hash) is an InvalidHash, through the size check, in both versions of
   * verifyPassword: Node decodes the 23 characters left of the 24-character key to 17
   * bytes, not 18.
   */
  lemma LastCharacterDropped(crypto: Crypto, decode: Base64.Decoder, password: string, name: string,
                       salt: seq<byte>, hash: seq<byte>)
    requires Base64.ReadsSextets(decode) && name in crypto.hashes && NoDelimiter(name) && |hash| == HashByteSize
    ensures var h := Join(Fields(name, salt, hash));
            && VerifyPasswordReturning(crypto, decode, password, h[..|h| - 1]) == Verdict(Err(InvalidHash), None)
            && VerifyPassword(crypto, decode, password, h[..|h| - 1]).outcome == Err(InvalidHash)
  {
    var fields := Fields(name, salt, hash);
    var h := Join(fields);
    CutLastCharacter(name, salt, hash);
    var params := Split(h[..|h| - 1]);
    assert |decode(params[Pbkdf2Index])| == 17;
    assert params[HashAlgorithmIndex] == params[..Pbkdf2Index][HashAlgorithmIndex] == fields[HashAlgorithmIndex];
    assert params[IterationIndex] == params[..Pbkdf2Index][IterationIndex] == fields[IterationIndex];
    assert params[HashSizeIndex] == params[..Pbkdf2Index][HashSizeIndex] == fields[HashSizeIndex];
    NatToStringReadBack(Pbkdf2Iterations);
    NatToStringReadBack(HashByteSize);
    SizeMismatchRejected(crypto, decode, password, h[..|h| - 1]);
  }

  /** The fields of a created hash without its last character: the key is cut to 23 alphabet characters. */
  lemma CutLastCharacter(name: string, salt: seq<byte>, hash: seq<byte>)
    requires NoDelimiter(name) && |hash| == HashByteSize
    ensures var h := Join(Fields(name, salt, hash));
            var params := Split(h[..|h| - 1]);
            && |params| == HashSections
            && params[..Pbkdf2Index] == Fields(name, salt, hash)[..Pbkdf2Index]
            && |params[Pbkdf2Index]| == 23 && Base64.AllAlphabet(params[Pbkdf2Index])
  {
    var fields := Fields(name, salt, hash);
    var h := Join(fields);
    var key := Base64.Encode(hash);
    assert |key| == 24;
    Base64.EncodeFullGroups(hash);
    JoinLast(fields);
    CutInLastField(fields, |h| - 1);
    var params := Split(h[..|h| - 1]);
    assert params[Pbkdf2Index] == key[..23];
    assert Base64.AllAlphabet(key[..23]) by {
      assert forall i :: 0 <= i < 23 ==> key[..23][i] == key[i];
    }
  }

  /** Five fields whose stored size is not the decoded length: an InvalidHash for both versions. */
  lemma SizeMismatchRejected(crypto: Crypto, decode: Base64.Decoder, password: string, correctHash: string)
    requires var params := Split(correctHash);
             && |params| == HashSections
             && params[HashAlgorithmIndex] in crypto.hashes
             && JsParseInt(params[IterationIndex]) == Some(Pbkdf2Iterations)
             && JsParseInt(params[HashSizeIndex]) == Some(HashByteSize)
             && |decode(params[Pbkdf2Index])| != HashByteSize
    ensures VerifyPasswordReturning(crypto, decode, password, correctHash) == Verdict(Err(InvalidHash), None)
    ensures VerifyPassword(crypto, decode, password, correctHash).outcome == Err(InvalidHash)
  {
    SameOutcome(crypto, decode, password, correctHash);
  }
}
