/**
 * PasswordHash.cs: CreateHash and ValidatePassword over the five-field format
 * sha1:iterations:hashSize:salt:hash, with Rfc2898DeriveBytes (PBKDF2-HMAC-SHA1) as an
 * abstract library. ValidatePassword answers false for most malformed hashes, but a
 * missing or unreadable iteration field raises, and the algorithm field is never read.
 */
module CsPasswordHash {

  import opened Common
  import opened Text
  import Base64

  // These may change without breaking stored hashes.
  const SaltBytes: nat := 24
  const HashBytes: nat := 24
  const Pbkdf2Iterations: nat := 1000

  const IterationIndex: nat := 1
  const HashSizeIndex: nat := 2
  const SaltIndex: nat := 3
  const Pbkdf2Index: nat := 4

  /** Rfc2898DeriveBytes always uses HMAC-SHA1; this is the name the model hands the library. */
  const Pbkdf2Algorithm: string := "sha1"

  /** The exceptions that leave ValidatePassword or CreateHash. */
  datatype CsException =
    | IndexOutOfRange      // split[1] of a hash without a delimiter
    | FormatException      // Int32.Parse of an iteration field that is not a decimal
    | OverflowException    // Int32.Parse of an iteration field outside 32 bits
    | LibraryException     // whatever Rfc2898DeriveBytes raises (None from the library)

  function ParseException(e: ParseError): CsException {
    match e
    case FormatError => FormatException
    case OverflowError => OverflowException
  }

  /** The fields CreateHash writes for a salt and a derived hash. */
  function Fields(salt: seq<byte>, hash: seq<byte>): (fields: seq<string>)
    ensures |fields| == 5 && Unambiguous(fields)
  {
    Base64.EncodeNoDelimiter(salt);
    Base64.EncodeNoDelimiter(hash);
    FiveUnambiguous("sha1", IntToString(Pbkdf2Iterations), IntToString(|hash|), Base64.Encode(salt), Base64.Encode(hash));
    ["sha1", IntToString(Pbkdf2Iterations), IntToString(|hash|), Base64.Encode(salt), Base64.Encode(hash)]
  }

  /**
   * CreateHash with the salt the generator filled in: PBKDF2 for HashBytes bytes, then
   * "sha1", the iterations, the length of the hash actually returned, the salt and the
   * hash, joined by ':'.
   */
  function CreateHash(kdf: Kdf, password: string, salt: seq<byte>): (r: Result<string, CsException>)
    ensures r.Ok? <==> kdf(Pbkdf2Algorithm, password, salt, Pbkdf2Iterations, HashBytes).Some?
    ensures r.Err? ==> r.error == LibraryException
    ensures r.Ok? ==>
              var hash := kdf(Pbkdf2Algorithm, password, salt, Pbkdf2Iterations, HashBytes).value;
              var split := Split(r.value);
              && |split| == 5
              && split[0] == "sha1"
              && ParseInt32(split[IterationIndex]) == Ok(Pbkdf2Iterations)
              && SignedDigits(split[HashSizeIndex]) == Some(|hash|)
              && Base64.NetDecode(split[SaltIndex]) == Some(salt)
              && Base64.NetDecode(split[Pbkdf2Index]) == Some(hash)
  {
    match kdf(Pbkdf2Algorithm, password, salt, Pbkdf2Iterations, HashBytes)
    case None => Err(LibraryException)
    case Some(hash) =>
      SplitJoin(Fields(salt, hash));
      NatToStringReadBack(Pbkdf2Iterations);
      NatToStringReadBack(|hash|);
      Base64.NetDecodeEncode(salt);
      Base64.NetDecodeEncode(hash);
      Ok(Join(Fields(salt, hash)))
  }

  /** Every check of ValidatePassword passes on these fields, so PBKDF2 is reached. */
  predicate WellFormed(split: seq<string>) {
    && |split| > Pbkdf2Index
    && ParseInt32(split[IterationIndex]).Ok?
    && Base64.NetDecode(split[SaltIndex]).Some?
    && Base64.NetDecode(split[Pbkdf2Index]).Some?
    && ParseInt32(split[HashSizeIndex]) == Ok(|Base64.NetDecode(split[Pbkdf2Index]).value|)
  }

  /**
   * ValidatePassword: split on ':'; Int32.Parse of field 1 outside any try, so a hash
   * without a delimiter raises IndexOutOfRange and a bad count raises its parse error;
   * then false when field 3 or field 4 is missing or not base64, when Convert.ToInt32 of
   * field 2 fails, or when it differs from the decoded hash length; otherwise PBKDF2 with
   * the parsed iterations for as many bytes as the stored hash has, compared with
   * SlowEquals. Field 0 is never read, and fields beyond the fifth are ignored.
   */
  function ValidatePassword(kdf: Kdf, password: string, goodHash: string): (r: Verification<CsException>)
    ensures r.derivation.Some? <==> WellFormed(Split(goodHash))
    ensures |Split(goodHash)| <= IterationIndex ==> r == Verification(Err(IndexOutOfRange), None)
    ensures |Split(goodHash)| > IterationIndex && ParseInt32(Split(goodHash)[IterationIndex]).Err? ==>
              r == Verification(Err(ParseException(ParseInt32(Split(goodHash)[IterationIndex]).error)), None)
    ensures (|Split(goodHash)| > IterationIndex && ParseInt32(Split(goodHash)[IterationIndex]).Ok? &&
             !WellFormed(Split(goodHash))) ==> r == Verification(Ok(false), None)
    ensures WellFormed(Split(goodHash)) ==>
              var split := Split(goodHash);
              var hash := Base64.NetDecode(split[Pbkdf2Index]).value;
              && r.derivation.value ==
                   KdfCall(Pbkdf2Algorithm, Base64.NetDecode(split[SaltIndex]).value,
                           ParseInt32(split[IterationIndex]).value, |hash|)
              && var testHash := kdf(Pbkdf2Algorithm, password, r.derivation.value.salt,
                                     r.derivation.value.iterations, |hash|);
                 r.outcome == if testHash.Some? then Ok(testHash.value == hash) else Err(LibraryException)
  {
    var split := Split(goodHash);
    if |split| <= IterationIndex then Verification(Err(IndexOutOfRange), None)
    else match ParseInt32(split[IterationIndex])
    case Err(e) => Verification(Err(ParseException(e)), None)
    case Ok(iterations) =>
      // The first try block: any exception, an index out of range included, answers false.
      if |split| <= SaltIndex then Verification(Ok(false), None)
      else match Base64.NetDecode(split[SaltIndex])
      case None => Verification(Ok(false), None)
      case Some(salt) =>
        if |split| <= Pbkdf2Index then Verification(Ok(false), None)
        else match Base64.NetDecode(split[Pbkdf2Index])
        case None => Verification(Ok(false), None)
        case Some(hash) =>
          match ParseInt32(split[HashSizeIndex])
          case Err(_) => Verification(Ok(false), None)
          case Ok(storedHashSize) =>
            if storedHashSize != |hash| then Verification(Ok(false), None)
            else
              var call := KdfCall(Pbkdf2Algorithm, salt, iterations, |hash|);
              match kdf(Pbkdf2Algorithm, password, salt, iterations, |hash|)
              case None => Verification(Err(LibraryException), Some(call))
              case Some(testHash) => Verification(Ok(hash == testHash), Some(call))
  }

  // ---------------------------------------------------------------------------
  // Properties
  // ---------------------------------------------------------------------------

  /** A hash made by CreateHash validates with the same password, by the very call that made it. */
  lemma CreateThenValidate(kdf: Kdf, password: string, salt: seq<byte>)
    requires HonoursLength(kdf)
    requires CreateHash(kdf, password, salt).Ok?
    ensures ValidatePassword(kdf, password, CreateHash(kdf, password, salt).value)
            == Verification(Ok(true), Some(KdfCall(Pbkdf2Algorithm, salt, Pbkdf2Iterations, HashBytes)))
  {
    var hash := kdf(Pbkdf2Algorithm, password, salt, Pbkdf2Iterations, HashBytes).value;
    assert |hash| == HashBytes;
  }

  /** Whatever the algorithm field says, validation comes out the same. */
  lemma AlgorithmFieldIgnored(kdf: Kdf, password: string, a: string, b: string, rest: string)
    requires NoDelimiter(a) && NoDelimiter(b)
    ensures ValidatePassword(kdf, password, a + [Delimiter] + rest)
            == ValidatePassword(kdf, password, b + [Delimiter] + rest)
  {
    SplitAppend(a, rest);
    SplitAppend(b, rest);
    SplitWithoutDelimiter(a);
    SplitWithoutDelimiter(b);
  }

  /** Anything appended after a fifth field is never looked at. */
  lemma ExtraFieldsIgnored(kdf: Kdf, password: string, goodHash: string, extra: string)
    requires |Split(goodHash)| >= 5
    ensures ValidatePassword(kdf, password, goodHash + [Delimiter] + extra)
            == ValidatePassword(kdf, password, goodHash)
  {
    SplitAppend(goodHash, extra);
    var split, longer := Split(goodHash), Split(goodHash + [Delimiter] + extra);
    assert longer[..5] == split[..5];
    assert forall i :: 0 <= i < 5 ==> longer[i] == split[i];
  }

  /** No proper prefix of a created hash reaches PBKDF2 or validates. */
  lemma TruncatedNeverDerives(kdf: Kdf, password: string, salt: seq<byte>, n: nat)
    requires HonoursLength(kdf)
    requires CreateHash(kdf, password, salt).Ok?
    requires n < |CreateHash(kdf, password, salt).value|
    ensures ValidatePassword(kdf, password, CreateHash(kdf, password, salt).value[..n]).derivation == None
    ensures ValidatePassword(kdf, password, CreateHash(kdf, password, salt).value[..n]).outcome != Ok(true)
  {
    var hash := kdf(Pbkdf2Algorithm, password, salt, Pbkdf2Iterations, HashBytes).value;
    var fields := Fields(salt, hash);
    var cut := Split(Join(fields)[..n]);
    SplitJoinPrefix(fields, n);
    if |cut| == 5 {
      assert cut[HashSizeIndex] == cut[..Pbkdf2Index][HashSizeIndex] == fields[HashSizeIndex];
      var last := cut[Pbkdf2Index];
      assert |last| < Base64.EncodedLength(|hash|);
      if Base64.NetDecode(last).Some? {
        Base64.NetShorterDecodesShorter(last, |hash|);
        NatToStringReadBack(|hash|);
      }
    }
  }

  /**
   * Cutting a created hash anywhere after its last delimiter makes ValidatePassword
   * answer false without raising.
   */
  lemma TruncatedInLastField(kdf: Kdf, password: string, salt: seq<byte>, n: nat)
    requires HonoursLength(kdf)
    requires CreateHash(kdf, password, salt).Ok?
    requires |CreateHash(kdf, password, salt).value| - Base64.EncodedLength(HashBytes) <= n
    requires n < |CreateHash(kdf, password, salt).value|
    ensures ValidatePassword(kdf, password, CreateHash(kdf, password, salt).value[..n]) == Verification(Ok(false), None)
  {
    var hash := kdf(Pbkdf2Algorithm, password, salt, Pbkdf2Iterations, HashBytes).value;
    var fields := Fields(salt, hash);
    CutInLastField(fields, n);
    NatToStringReadBack(Pbkdf2Iterations);
    TruncatedNeverDerives(kdf, password, salt, n);
  }
}
