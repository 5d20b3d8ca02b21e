/**
 * The body of PHP's pbkdf2() that PasswordHash.php (from the lower-casing on) and
 * PasswordStorage.php share: three guards raising CannotPerformOperationException, then
 * hash_pbkdf2 when the hash extension has it, else the fallback loop.
 */
module PhpPbkdf2 {

  import opened Common
  import opened Text
  import opened PhpText
  import opened Pbkdf2

  /** The exceptions of the PHP variants (InvalidArgumentException is PasswordHash.php's only). */
  datatype PhpError =
    | InvalidArgument
    | InvalidHash
    | CannotPerformOperation
      /** PHP 8's DivisionByZeroError, for a hash whose raw digest is empty. */
    | DivisionByZero

  /**
   * hash_pbkdf2(algorithm, password, salt, count, length, raw): length counts bytes of raw
   * output and hexadecimal digits otherwise.
   */
  type Native = (string, string, seq<byte>, int, int, bool) -> seq<byte>

  /**
   * The hash extension: hash_algos(); hash_pbkdf2, None where function_exists says it is
   * missing; hash_hmac; hash.
   */
  datatype HashExtension = HashExtension(algos: set<string>, native: Option<Native>, hmac: Hmac, hash: Digest)

  /** The extension returns outputs of the advertised lengths for this algorithm. */
  ghost predicate Honest(ext: HashExtension, algorithm: string) {
    match ext.native
    case Some(native) =>
      forall password, salt, count, length, raw
        :: length >= 0 ==> |native(algorithm, password, salt, count, length, raw)| == length
    case None =>
      FixedLength(ext.hmac, algorithm, |ext.hash(algorithm, [])|)
  }

  /**
   * pbkdf2 from strtolower on: CannotPerformOperation for a name hash_algos() lacks, for a
   * name outside the allow-list, and for count <= 0 or key_length <= 0; otherwise the key.
   */
  function Derive(ext: HashExtension, algorithm: string, password: string, salt: seq<byte>,
                  count: int, keyLength: int, rawOutput: bool): (r: Result<seq<byte>, PhpError>)
    ensures r.Err? ==> r.error == CannotPerformOperation || r.error == DivisionByZero
    ensures r.Err? && r.error == CannotPerformOperation <==>
              Lower(algorithm) !in ext.algos || Lower(algorithm) !in AllowedAlgorithms || count <= 0 || keyLength <= 0
  {
    var name := Lower(algorithm);
    if name !in ext.algos then Err(CannotPerformOperation)
    else if name !in AllowedAlgorithms then Err(CannotPerformOperation)
    else if count <= 0 || keyLength <= 0 then Err(CannotPerformOperation)
    else
      match ext.native
      case Some(native) =>
        Ok(native(name, password, salt, count, if rawOutput then keyLength else keyLength * 2, rawOutput))
      case None =>
        var hashLength := OurStrlen(ext.hash(name, []));
        if hashLength == 0 then Err(DivisionByZero)
        else
          Ok(FallbackKey(ext.hmac, hashLength, name, password, salt, count, keyLength, rawOutput))
  }

  /**
   * With an honest extension the key has key_length bytes raw and 2 * key_length
   * hexadecimal digits otherwise, on either path.
   */
  lemma DeriveLength(ext: HashExtension, algorithm: string, password: string, salt: seq<byte>,
                     count: int, keyLength: int, rawOutput: bool)
    requires Honest(ext, Lower(algorithm))
    requires Derive(ext, algorithm, password, salt, count, keyLength, rawOutput).Ok?
    ensures |Derive(ext, algorithm, password, salt, count, keyLength, rawOutput).value|
            == if rawOutput then keyLength else 2 * keyLength
  {
    var name := Lower(algorithm);
    if ext.native.None? {
      FallbackKeyLength(ext.hmac, |ext.hash(name, [])|, name, password, salt, count, keyLength, rawOutput);
    }
  }
}
