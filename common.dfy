/**
 * Values shared by every variant of the password-storage routine: bytes, optional
 * values, results, the abstract PBKDF2 library, and the record of what a verifier
 * handed to key derivation.
 */
module Common {

  /** An unsigned byte. Java's signed bytes are read here as their unsigned value. */
  type byte = x: int | 0 <= x < 256

  datatype Option<+T> = None | Some(value: T)

  /** A value, or the exception (error) that the source raises instead of returning one. */
  datatype Result<+T, +E> = Ok(value: T) | Err(error: E)

  /**
   * A library PBKDF2: (algorithm, password, salt, iterations, output length in bytes).
   * None stands for the library raising an exception instead of returning a key.
   */
  type Kdf = (string, string, seq<byte>, int, int) -> Option<seq<byte>>

  /** The library returns exactly the number of bytes it was asked for, whenever it returns. */
  ghost predicate HonoursLength(kdf: Kdf) {
    forall algorithm, password, salt, iterations, length
      :: kdf(algorithm, password, salt, iterations, length).Some? ==>
         |kdf(algorithm, password, salt, iterations, length).value| == length
  }

  /** The arguments a verifier passed to its key-derivation routine (the password is the caller's). */
  datatype KdfCall = KdfCall(algorithm: string, salt: seq<byte>, iterations: int, length: int)

  /**
   * What one verification call ends with, together with the derivation it started, if any.
   * The second component makes "nothing reaches key derivation before every check has
   * passed" a statement about the model.
   */
  datatype Verification<+E> = Verification(outcome: Result<bool, E>, derivation: Option<KdfCall>)
}
