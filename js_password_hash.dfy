/**
 * PasswordHash.js: the option merge `defaults`, createVerifier, pbkdf2 (its guards; the
 * derivation itself is Node's), and validatePassword over the five-field verifier
 * algorithm:iterations:outputSize:salt:pbkdf2output. Callbacks are linearised: each
 * operation returns what it hands its callback.
 */
module JsPasswordHash {

  import opened Common
  import opened Text
  import Base64
  import Pbkdf2
  import opened NodeCrypto

  // ---------------------------------------------------------------------------
  // Options
  // ---------------------------------------------------------------------------

  /** An option value: the defaults hold one string and three numbers. */
  datatype OptionValue = Text(text: string) | Number(number: int)

  const HashAlgorithmKey: string := "PBKDF2_HASH_ALGORITHM"
  const IterationsKey: string := "PBKDF2_ITERATIONS"
  const SaltBytesKey: string := "PBKDF2_SALT_BYTES"
  const OutputBytesKey: string := "PBKDF2_OUTPUT_BYTES"

  /** The keys of `options` in the order for..in visits them. */
  const OptionKeys: seq<string> := [HashAlgorithmKey, IterationsKey, SaltBytesKey, OutputBytesKey]

  /** The module's `options`. */
  const Options: map<string, OptionValue> :=
    map[HashAlgorithmKey := Text("sha1"), IterationsKey := Number(32000),
        SaltBytesKey := Number(24), OutputBytesKey := Number(18)]

  const VerifierSections: nat := 5
  const VerifierAlgorithmIndex: nat := 0
  const VerifierIterationIndex: nat := 1
  const VerifierSizeIndex: nat := 2
  const VerifierSaltIndex: nat := 3
  const VerifierPbkdf2Index: nat := 4

  /**
   * The `opts` argument: None for a falsy one (undefined, null), otherwise the object's own
   * properties. Key k is taken from the defaults when `!opts || !hasOwnProperty(opts, k)`.
   */
  predicate Missing(opts: Option<map<string, OptionValue>>, k: string) {
    opts.None? || k !in opts.value
  }

  /** What createVerifier reads from this.options is there, with the kind the default has. */
  predicate Usable(options: map<string, OptionValue>) {
    && HashAlgorithmKey in options && options[HashAlgorithmKey].Text?
    && IterationsKey in options && options[IterationsKey].Number?
    && SaltBytesKey in options && options[SaltBytesKey].Number?
    && OutputBytesKey in options && options[OutputBytesKey].Number?
  }

  /** The own properties opts gives for option keys have the kind of the default. */
  predicate SameKinds(opts: Option<map<string, OptionValue>>) {
    opts.Some? ==>
      forall k :: k in Options && k in opts.value ==> opts.value[k].Text? == Options[k].Text?
  }

  /** defaults(opts) as written: the default of every key opts does not own, and nothing else. */
  function DefaultsOf(opts: Option<map<string, OptionValue>>): map<string, OptionValue> {
    map k | k in Options && Missing(opts, k) :: Options[k]
  }

  lemma OptionKeysAreOptions()
    ensures forall k :: k in OptionKeys <==> k in Options
  {
  }

  /** The for..in loop of defaults(opts). */
  method Defaults(opts: Option<map<string, OptionValue>>) returns (result: map<string, OptionValue>)
    ensures result == DefaultsOf(opts)
  {
    result := map[];
    var i := 0;
    while i < |OptionKeys|
      invariant 0 <= i <= |OptionKeys|
      invariant result == DefaultsAmong(opts, OptionKeys[..i])
    {
      var k := OptionKeys[i];
      assert OptionKeys[..i + 1] == OptionKeys[..i] + [k];
      DefaultsAmongStep(opts, OptionKeys[..i], k);
      if Missing(opts, k) {
        result := result[k := Options[k]];
      }
      i := i + 1;
    }
    assert OptionKeys[..i] == OptionKeys;
    OptionKeysAreOptions();
  }

  /** What the loop of defaults(opts) has collected after visiting keys. */
  function DefaultsAmong(opts: Option<map<string, OptionValue>>, keys: seq<string>): map<string, OptionValue> {
    map k | k in keys && k in Options && Missing(opts, k) :: Options[k]
  }

  lemma DefaultsAmongStep(opts: Option<map<string, OptionValue>>, keys: seq<string>, k: string)
    requires k in Options
    ensures DefaultsAmong(opts, keys + [k]) ==
              if Missing(opts, k) then DefaultsAmong(opts, keys)[k := Options[k]] else DefaultsAmong(opts, keys)
  {
    assert forall j :: j in keys + [k] <==> j in keys || j == k;
  }

  /**
   * As written, an option the caller sets is dropped rather than kept: the constructor's
   * this.options then lacks it, and createVerifier reads undefined.
   */
  lemma DefaultsDropOverrides(opts: Option<map<string, OptionValue>>)
    ensures Usable(DefaultsOf(opts)) <==> forall k :: k in Options ==> Missing(opts, k)
    ensures opts.Some? ==> forall k :: k in opts.value ==> k !in DefaultsOf(opts)
  {
    if !forall k :: k in Options ==> Missing(opts, k) {
      var k :| k in Options && !Missing(opts, k);
      assert k !in DefaultsOf(opts);
      assert k == HashAlgorithmKey || k == IterationsKey || k == SaltBytesKey || k == OutputBytesKey;
    }
  }

  /** Setting the iteration count leaves the constructor without one. */
  lemma IterationOverrideLost()
    ensures IterationsKey !in DefaultsOf(Some(map[IterationsKey := Number(64000)]))
    ensures !Usable(DefaultsOf(Some(map[IterationsKey := Number(64000)])))
  {
  }

  /**
   * The merge `defaults` evidently means, which the constructor stores as this.options:
   * every option key, with the caller's own value where there is one and the default
   * elsewhere.
   */
  method Merge(opts: Option<map<string, OptionValue>>) returns (result: map<string, OptionValue>)
    ensures result.Keys == Options.Keys
    ensures forall k :: k in Options ==> result[k] == if Missing(opts, k) then Options[k] else opts.value[k]
    ensures SameKinds(opts) ==> Usable(result)
  {
    result := map[];
    var i := 0;
    while i < |OptionKeys|
      invariant 0 <= i <= |OptionKeys|
      invariant result == MergedAmong(opts, OptionKeys[..i])
    {
      var k := OptionKeys[i];
      assert OptionKeys[..i + 1] == OptionKeys[..i] + [k];
      MergedAmongStep(opts, OptionKeys[..i], k);
      result := result[k := if Missing(opts, k) then Options[k] else opts.value[k]];
      i := i + 1;
    }
    assert OptionKeys[..i] == OptionKeys;
    MergedUsable(opts);
  }

  /** The caller's own value or else the default, for every option key among keys. */
  function MergedAmong(opts: Option<map<string, OptionValue>>, keys: seq<string>): map<string, OptionValue> {
    map k | k in keys && k in Options :: if Missing(opts, k) then Options[k] else opts.value[k]
  }

  lemma MergedAmongStep(opts: Option<map<string, OptionValue>>, keys: seq<string>, k: string)
    requires k in Options
    ensures MergedAmong(opts, keys + [k]) ==
              MergedAmong(opts, keys)[k := if Missing(opts, k) then Options[k] else opts.value[k]]
  {
    assert forall j :: j in keys + [k] <==> j in keys || j == k;
  }

  lemma MergedUsable(opts: Option<map<string, OptionValue>>)
    ensures MergedAmong(opts, OptionKeys).Keys == Options.Keys
    ensures SameKinds(opts) ==> Usable(MergedAmong(opts, OptionKeys))
  {
    OptionKeysAreOptions();
  }

  // ---------------------------------------------------------------------------
  // pbkdf2, createVerifier, validatePassword
  // ---------------------------------------------------------------------------

  datatype JsError =
    | InvalidVerifier
    | CannotPerformOperation
    | CryptoError            // the err crypto.pbkdf2 hands its callback

  /**
   * pbkdf2(algorithm, …, rawOutput = true): lower-case the name; CannotPerformOperation for
   * a name crypto.getHashes() lacks, for one outside the allow-list, and for count <= 0 or
   * keyLength <= 0, all before crypto.pbkdf2 runs; then its key or its error.
   */
  function Derive(crypto: Crypto, algorithm: string, password: string, salt: seq<byte>,
                  count: int, keyLength: int): (r: Result<seq<byte>, JsError>)
    ensures r == Err(CannotPerformOperation) <==>
              Lower(algorithm) !in crypto.hashes || Lower(algorithm) !in Pbkdf2.AllowedAlgorithms ||
              count <= 0 || keyLength <= 0
    ensures r != Err(CannotPerformOperation) ==>
              r == match crypto.pbkdf2(Lower(algorithm), password, salt, count, keyLength)
                   case None => Err(CryptoError)
                   case Some(key) => Ok(key)
    ensures HonoursLength(crypto.pbkdf2) && r.Ok? ==> |r.value| == keyLength
  {
    var name := Lower(algorithm);
    if name !in crypto.hashes then Err(CannotPerformOperation)
    else if name !in Pbkdf2.AllowedAlgorithms then Err(CannotPerformOperation)
    else if count <= 0 || keyLength <= 0 then Err(CannotPerformOperation)
    else match crypto.pbkdf2(name, password, salt, count, keyLength)
      case None => Err(CryptoError)
      case Some(key) => Ok(key)
  }

  /** The five fields createVerifier writes. */
  function Fields(algorithm: string, iterations: int, outputBytes: int, salt: seq<byte>, output: seq<byte>)
    : (fields: seq<string>)
    ensures |fields| == VerifierSections
    ensures NoDelimiter(algorithm) ==> Unambiguous(fields)
  {
    Base64.EncodeNoDelimiter(salt);
    Base64.EncodeNoDelimiter(output);
    FiveUnambiguous(algorithm, IntToString(iterations), IntToString(outputBytes), Base64.Encode(salt), Base64.Encode(output));
    [algorithm, IntToString(iterations), IntToString(outputBytes), Base64.Encode(salt), Base64.Encode(output)]
  }

  /**
   * createVerifier with the salt crypto.randomBytes gave (None for an error):
   * CannotPerformOperation without one; the error of pbkdf2; otherwise the algorithm, the
   * iterations and the output size of this.options, then the salt and the key in base64,
   * joined by ':'.
   */
  function CreateVerifier(crypto: Crypto, options: map<string, OptionValue>, password: string,
                          salt: Option<seq<byte>>): (r: Result<string, JsError>)
    requires Usable(options)
    ensures salt.None? ==> r == Err(CannotPerformOperation)
    ensures var algorithm, iterations, outputBytes :=
              options[HashAlgorithmKey].text, options[IterationsKey].number, options[OutputBytesKey].number;
            && (r.Ok? <==> salt.Some? && Derive(crypto, algorithm, password, salt.value, iterations, outputBytes).Ok?)
            && (r.Ok? && NoDelimiter(algorithm) ==>
                  var split := Split(r.value);
                  && |split| == VerifierSections
                  && split[VerifierAlgorithmIndex] == algorithm
                  && JsParseInt(split[VerifierIterationIndex]) == Some(iterations)
                  && JsParseInt(split[VerifierSizeIndex]) == Some(outputBytes)
                  && Base64.Decode(split[VerifierSaltIndex]) == Some(salt.value)
                  && Base64.Decode(split[VerifierPbkdf2Index]) ==
                       Some(Derive(crypto, algorithm, password, salt.value, iterations, outputBytes).value))
  {
    var algorithm, iterations, outputBytes :=
      options[HashAlgorithmKey].text, options[IterationsKey].number, options[OutputBytesKey].number;
    match salt
    case None => Err(CannotPerformOperation)
    case Some(saltRaw) =>
      match Derive(crypto, algorithm, password, saltRaw, iterations, outputBytes)
      case Err(e) => Err(e)
      case Ok(output) =>
        var text := Join(Fields(algorithm, iterations, outputBytes, saltRaw, output));
        if NoDelimiter(algorithm) then
          SplitJoin(Fields(algorithm, iterations, outputBytes, saltRaw, output));
          NatToStringReadBack(iterations);
          NatToStringReadBack(outputBytes);
          Base64.DecodeEncode(saltRaw);
          Base64.DecodeEncode(output);
          Ok(text)
        else Ok(text)
  }

  /**
   * Every check of validatePassword passes: five fields; a key and then a salt field that
   * the decoder's result re-encodes to exactly; a size that parses to the decoded key
   * length, which is not zero; iterations that parse to at least 1.
   */
  predicate WellFormed(params: seq<string>, decode: Base64.Decoder) {
    && |params| == VerifierSections
    && Base64.Encode(decode(params[VerifierPbkdf2Index])) == params[VerifierPbkdf2Index]
    && Base64.Encode(decode(params[VerifierSaltIndex])) == params[VerifierSaltIndex]
    && |decode(params[VerifierPbkdf2Index])| != 0
    && JsParseInt(params[VerifierSizeIndex]) == Some(|decode(params[VerifierPbkdf2Index])|)
    && JsParseInt(params[VerifierIterationIndex]).Some?
    && JsParseInt(params[VerifierIterationIndex]).value >= 1
  }

  /**
   * validatePassword, with new Buffer(…, 'base64') as the decoder: InvalidVerifier when the
   * split does not give five fields, when the key and then the salt do not re-encode to
   * their fields, when the size is NaN, zero or not the key length, when the iterations
   * are NaN or below 1; then pbkdf2 on the stored algorithm, salt and iterations for as
   * many bytes as the key has, compared with slowEquals.
   */
  function ValidatePassword(crypto: Crypto, decode: Base64.Decoder, password: string, verifier: string)
    : (r: Verification<JsError>)
    ensures r.derivation.Some? <==> WellFormed(Split(verifier), decode)
    ensures r.derivation.None? ==> r.outcome == Err(InvalidVerifier)
    ensures r.outcome == Err(CannotPerformOperation) ==> r.derivation.Some?
    ensures WellFormed(Split(verifier), decode) ==>
              var params := Split(verifier);
              var key := decode(params[VerifierPbkdf2Index]);
              && r.derivation.value ==
                   KdfCall(params[VerifierAlgorithmIndex], decode(params[VerifierSaltIndex]),
                           JsParseInt(params[VerifierIterationIndex]).value, |key|)
              && var derived := Derive(crypto, r.derivation.value.algorithm, password, r.derivation.value.salt,
                                       r.derivation.value.iterations, |key|);
                 r.outcome == if derived.Ok? then Ok(derived.value == key) else Err(derived.error)
  {
    var params := Split(verifier);
    if |params| != VerifierSections then Verification(Err(InvalidVerifier), None)
    else
      var pbkdf2 := decode(params[VerifierPbkdf2Index]);
      if Base64.Encode(pbkdf2) != params[VerifierPbkdf2Index] then Verification(Err(InvalidVerifier), None)
      else
        var saltRaw := decode(params[VerifierSaltIndex]);
        if Base64.Encode(saltRaw) != params[VerifierSaltIndex] then Verification(Err(InvalidVerifier), None)
        else
          var storedOutputSize := JsParseInt(params[VerifierSizeIndex]);
          if storedOutputSize.None? || storedOutputSize.value == 0 || |pbkdf2| != storedOutputSize.value then
            Verification(Err(InvalidVerifier), None)
          else
            var iterations := JsParseInt(params[VerifierIterationIndex]);
            if iterations.None? || iterations.value == 0 || iterations.value < 1 then
              Verification(Err(InvalidVerifier), None)
            else
              var call := KdfCall(params[VerifierAlgorithmIndex], saltRaw, iterations.value, |pbkdf2|);
              var outcome := match Derive(crypto, call.algorithm, password, saltRaw, iterations.value, |pbkdf2|)
                case Err(e) => Err(e)
                case Ok(result) => Ok(pbkdf2 == result);
              Verification(outcome, Some(call))
  }

  // ---------------------------------------------------------------------------
  // Properties
  // ---------------------------------------------------------------------------

  /**
   * With a decoder that reads encodings back, the re-encoding checks accept exactly the
   * canonical fields of section 4 of RFC 4648, which the strict decoder reads the same way.
   */
  lemma AcceptsCanonicalOnly(crypto: Crypto, decode: Base64.Decoder, password: string, verifier: string)
    requires Base64.DecodesEncodings(decode)
    requires |Split(verifier)| == VerifierSections
    ensures ValidatePassword(crypto, decode, password, verifier).outcome != Err(InvalidVerifier) ==>
              Base64.Canonical(Split(verifier)[VerifierPbkdf2Index]) &&
              Base64.Canonical(Split(verifier)[VerifierSaltIndex])
    ensures (!Base64.Canonical(Split(verifier)[VerifierPbkdf2Index]) ||
             !Base64.Canonical(Split(verifier)[VerifierSaltIndex])) ==>
              ValidatePassword(crypto, decode, password, verifier) == Verification(Err(InvalidVerifier), None)
    ensures ValidatePassword(crypto, decode, password, verifier).derivation.Some? ==>
              var params := Split(verifier);
              ValidatePassword(crypto, decode, password, verifier).derivation.value.salt
                == Base64.Decode(params[VerifierSaltIndex]).value &&
              ValidatePassword(crypto, decode, password, verifier).derivation.value.length
                == |Base64.Decode(params[VerifierPbkdf2Index]).value|
  {
    var params := Split(verifier);
    Base64.ReencodeCheck(decode, params[VerifierPbkdf2Index]);
    Base64.ReencodeCheck(decode, params[VerifierSaltIndex]);
  }

  /** A verifier made by createVerifier validates with the same password, by the very call that made it. */
  lemma CreateThenValidate(crypto: Crypto, decode: Base64.Decoder, options: map<string, OptionValue>,
                           password: string, salt: seq<byte>)
    requires HonoursLength(crypto.pbkdf2) && Base64.DecodesEncodings(decode)
    requires Usable(options) && NoDelimiter(options[HashAlgorithmKey].text)
    requires CreateVerifier(crypto, options, password, Some(salt)).Ok?
    ensures ValidatePassword(crypto, decode, password, CreateVerifier(crypto, options, password, Some(salt)).value)
            == Verification(Ok(true), Some(KdfCall(options[HashAlgorithmKey].text, salt,
                                                   options[IterationsKey].number, options[OutputBytesKey].number)))
  {
    var algorithm, iterations, outputBytes :=
      options[HashAlgorithmKey].text, options[IterationsKey].number, options[OutputBytesKey].number;
    var derived := Derive(crypto, algorithm, password, salt, iterations, outputBytes);
    var fields := Fields(algorithm, iterations, outputBytes, salt, derived.value);
    assert CreateVerifier(crypto, options, password, Some(salt)) == Ok(Join(fields));
    SplitJoin(fields);
    ValidateFields(crypto, decode, password, Join(fields), algorithm, iterations, outputBytes, salt, derived.value);
  }

  /** Validating the fields createVerifier writes repeats its derivation. */
  lemma ValidateFields(crypto: Crypto, decode: Base64.Decoder, password: string, verifier: string,
                       algorithm: string, iterations: int, outputBytes: int, salt: seq<byte>, output: seq<byte>)
    requires HonoursLength(crypto.pbkdf2) && Base64.DecodesEncodings(decode)
    requires Derive(crypto, algorithm, password, salt, iterations, outputBytes) == Ok(output)
    requires Split(verifier) == Fields(algorithm, iterations, outputBytes, salt, output)
    ensures ValidatePassword(crypto, decode, password, verifier)
            == Verification(Ok(true), Some(KdfCall(algorithm, salt, iterations, outputBytes)))
  {
    assert |output| == outputBytes && iterations >= 1 && outputBytes >= 1;
    NatToStringReadBack(iterations);
    NatToStringReadBack(outputBytes);
    assert decode(Base64.Encode(salt)) == salt;
    assert decode(Base64.Encode(output)) == output;
  }

  /**
   * No proper prefix of a verifier made by createVerifier reaches pbkdf2: each is an
   * InvalidVerifier, cut short in the last field included.
   */
  lemma TruncatedVerifierRejected(crypto: Crypto, decode: Base64.Decoder, options: map<string, OptionValue>,
                                  password: string, salt: seq<byte>, n: nat)
    requires HonoursLength(crypto.pbkdf2)
    requires Usable(options) && NoDelimiter(options[HashAlgorithmKey].text)
    requires CreateVerifier(crypto, options, password, Some(salt)).Ok?
    requires n < |CreateVerifier(crypto, options, password, Some(salt)).value|
    ensures ValidatePassword(crypto, decode, password, CreateVerifier(crypto, options, password, Some(salt)).value[..n])
            == Verification(Err(InvalidVerifier), None)
  {
    var algorithm, iterations, outputBytes :=
      options[HashAlgorithmKey].text, options[IterationsKey].number, options[OutputBytesKey].number;
    var output := Derive(crypto, algorithm, password, salt, iterations, outputBytes).value;
    var fields := Fields(algorithm, iterations, outputBytes, salt, output);
    var cut := Split(Join(fields)[..n]);
    SplitJoinPrefix(fields, n);
    if |cut| == VerifierSections {
      assert cut[VerifierSizeIndex] == cut[..VerifierPbkdf2Index][VerifierSizeIndex] == fields[VerifierSizeIndex];
      var last := cut[VerifierPbkdf2Index];
      assert |last| < Base64.EncodedLength(outputBytes);
      NatToStringReadBack(outputBytes);
      var key := decode(last);
      if Base64.Encode(key) == last {
        assert Base64.EncodedLength(|key|) < Base64.EncodedLength(outputBytes);
      }
    }
  }
}
