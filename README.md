# Salted PBKDF2 password storage, modelled in Dafny

The repository implements one routine in five languages: store a password as
`algorithm:iterations:outputSize:base64(salt):base64(key)`, where `key` is PBKDF2 of the password.
Verification parses that string back, checks it, derives the key again and compares the two in
"constant time". Java is the exception: it uses a fixed-width, length-prefixed encoding instead.
This project models nine of its files, one Dafny module per file:

| Dafny module | source file |
|---|---|
| `PhpPasswordHash` (`php_password_hash.dfy`) | PasswordHash.php |
| `PhpPasswordStorage` (`php_password_storage.dfy`) | PasswordStorage.php |
| `JavaPasswordStorage` (`java_password_storage.dfy`) | PasswordStorage.java |
| `CsPasswordHash` (`cs_password_hash.dfy`) | PasswordHash.cs |
| `CsPasswordStorage` (`cs_password_storage.dfy`) | PasswordStorage.cs |
| `JsPasswordHash` (`js_password_hash.dfy`) | PasswordHash.js |
| `JsPasswordStorage` (`js_password_storage.dfy`) | PasswordStorage.js |
| `RubyPasswordHash` (`ruby_password_hash.dfy`) | PasswordHash.rb |
| `RubyPasswordStorage` (`ruby_password_storage.dfy`) | PasswordStorage.rb |

Several files share a piece of logic. Each such piece is its own module, defined once:

* `Common` holds bytes, `Option`, `Result`, and the abstract library PBKDF2 `Kdf`.
  - `HonoursLength` is the assumption that `Kdf` returns as many bytes as it is asked for.
  - `KdfCall` and `Verification` record a verifier's outcome together with the derivation it started, if any.
  - With these, "nothing reaches PBKDF2 before every check has passed" is a statement about the model.
* `Text` holds the string operations the variants rely on:
  - `Split` models PHP `explode` and C#/JS `split`, which keep empty fields.
  - `RubySplit` models Ruby's `String#split`, which drops trailing empty fields.
  - `Join` joins fields with `:`.
  - `Lower` is ASCII lower-casing.
  - `NatToString` and `IntToString` render decimal numbers.
  - There are four integer readers: `LeadingInt` (PHP `(int)`, Ruby `to_i`), `JsParseInt` (`parseInt(s, 10)`), `SignedDigits` (C# `Convert.ToInt32`) and `ParseInt32` (C# `Int32.Parse`).
* `Base64` is a verified codec for section 4 of RFC 4648.
  - `Decode` is the strict decoder: a multiple of four characters, the alphabet, padding only at the end.
  - `NetDecode` is C#'s `Convert.FromBase64String`: `Decode` once space, tab, CR and LF are skipped.
  - `PhpDecode` is PHP's `base64_decode(s, true)` as PHP 7 and later implement it. It skips the same whitespace and accepts a missing padding. It rejects a last group of one character.
  - `DecodeCanonical` is Ruby's `strict_decode64`.
  - The lenient decoders of Java (`DatatypeConverter`) and Node (`Buffer`) are a parameter `Decoder`. The predicates `DecodesEncodings` and `ReadsSextets` state what is assumed about them.
* `ConstantTime.SlowEquals` is the comparison loop that every `slowEquals`/`slow_equals` except Ruby's shares:
  - `diff` starts as the XOR of the two lengths;
  - each byte XOR is OR-ed into it;
  - the result is `diff == 0`.

  `Bits` defines XOR and OR on naturals for it.
* `Pbkdf2` is the fallback loop of PHP's `pbkdf2()`, which computes section 5.2 of RFC 2898 over an abstract HMAC.
  - `U`, `F` and `Blocks` are its specification.
  - `Fallback`, `Concatenated` and `Block` are the nested loops.
* `PhpText` holds PHP `substr`, `ourStrlen`/`ourSubstr` and `bin2hex`.
* `PhpPbkdf2` holds the guards of PHP's `pbkdf2()`, then `hash_pbkdf2` or the fallback.
* `NodeCrypto` holds Node's `crypto.getHashes()` and `crypto.pbkdf2` as values.

Every verifier is a function from the stored string to a `Verification`.

* Where the source loops or updates an object, the model is imperative:
  - Java's `Hash` is a `class` with its six fields, its setters, `toString` and the parsing constructor;
  - each `slowEquals` is a method with a loop;
  - the PHP fallback is the two nested loops;
  - the JS `defaults` is a loop over the option keys.
* Each method is proved against a function, and the lemmas are stated about that function.

Three behaviours of the source are bugs. They are listed under "## Findings". For each one, the model
keeps the behaviour as written, exhibits it in a lemma, and adds a corrected member with its intended
property proved.

## Model

| member | source | states |
|---|---|---|
| Text.Split | PasswordHash.php:75 | `explode(":")` yields at least one field, and exactly one when the text has no `:` |
| Text.SplitJoin | PasswordHash.php:75 | splitting fields joined with `:` gives the fields back, provided no field but the first contains `:` |
| Text.SplitAppend | PasswordHash.cs:129 | the split of `x + ":" + y` is the split of `x` followed by the split of `y` |
| Text.SplitJoinPrefix | PasswordHash.php:75 | a proper prefix of joined fields splits into no more fields; when it has as many, all but the last agree and the last is a proper prefix of the original last field |
| Text.CutInLastField | PasswordHash.cs:129 | cutting joined fields inside the last field keeps every other field and shortens the last |
| Text.RubySplit | PasswordHash.rb:83 | Ruby's `split` gives a prefix of the `explode` fields whose last field is non-empty |
| Text.DropTrailingEmpty | PasswordHash.rb:83 | only empty fields are dropped, and only at the end |
| Text.RubySplitJoin | PasswordHash.rb:83 | Ruby's `split` reads back joined fields whose last field is non-empty |
| Text.Lower | PasswordHash.php:184 | `strtolower` keeps the length and maps exactly `A`-`Z` to `a`-`z` |
| Text.NatToString | PasswordHash.php:52 | a number renders as one or more digits, with no leading zero |
| Text.NatToStringLength | PasswordStorage.java:162 | a number below 10^k renders in at most k digits |
| Text.IntToString | PasswordHash.js:80-87 | a rendered number is non-empty and contains no `:` |
| Text.DigitsValueOfNatToString | PasswordHash.php:103 | reading the digits of a rendered number gives the number |
| Text.LeadingDigits | PasswordHash.php:96 | `(int)` reads the longest run of leading digits |
| Text.UnsignedDigitsRead | PasswordHash.cs:147 | `Convert.ToInt32` of a non-empty string of digits is its decimal value |
| Text.ParseInt32 | PasswordHash.cs:130 | `Int32.Parse` succeeds only with values within 32 bits |
| Text.NatToStringReadBack | PasswordHash.php:96-108 | PHP `(int)`, JS `parseInt` and C# `Convert.ToInt32` all read a rendered number back as itself |
| Bits.XorZero | PasswordHash.php:143 | `x ^ y` is zero exactly when `x == y` |
| Bits.OrZero | PasswordHash.php:143 | the bitwise OR of x and y is zero exactly when both are zero |
| Bits.XorBelow | PasswordHash.php:143 | XOR of two k-bit values is a k-bit value |
| Base64.Char | PasswordHash.php:56 | each of the 64 sextet values has an alphabet character |
| Base64.Value | PasswordHash.php:82 | an alphabet character's value is below 64 and maps back to the character |
| Base64.ValueOfChar | PasswordHash.php:82 | the value of a sextet's character is the sextet |
| Base64.Encode | PasswordHash.php:56-58 | the encoding has 4 characters per started group of 3 bytes |
| Base64.GroupRoundTrip | PasswordHash.php:82 | a full group of 3 bytes decodes back from its 4 characters |
| Base64.DecodeEncode | PasswordHash.rb:75-98 | the strict decoder reads back every encoding |
| Base64.EncodeInjective | PasswordHash.php:56-58 | distinct byte strings have distinct encodings |
| Base64.DecodedLength | PasswordHash.php:82 | whatever decodes has exactly the length of the encoding of its result |
| Base64.EncodeNoDelimiter | PasswordHash.php:56-58 | no encoding contains `:` |
| Base64.ShorterDecodesShorter | PasswordHash.rb:98-118 | text shorter than the encoding of n bytes cannot decode to n or more bytes |
| Base64.StripWhitespace | PasswordHash.php:82 | the whitespace the decoders skip is gone, nothing longer results, and text without whitespace is kept |
| Base64.NetDecode | PasswordHash.cs:137-138 | what `Convert.FromBase64String` accepts, whitespace aside, is exactly as long as the encoding of its result |
| Base64.PadStart | PasswordHash.php:82 | the index of the first `=`, with none before it |
| Base64.Padding | PasswordHash.php:82 | the `=` run that completes a last group of 2 or 3 data characters |
| Base64.PhpDecode | PasswordHash.php:82-94 | `base64_decode(s, true)` yields at most 3 bytes for every 4 characters |
| Base64.PaddedDataDecodes | PasswordHash.php:82-94 | alphabet data not ending in a lone character decodes, with its padding restored, to 3 bytes per 4 characters, rounded down |
| Base64.PadStartAfterData | PasswordHash.php:82 | the first `=` lies after any run of alphabet characters |
| Base64.EncodeSplitsAtPad | PasswordHash.php:56-58 | an encoding is alphabet data followed by exactly the padding its length calls for |
| Base64.EncodeHasNoWhitespace | PasswordHash.php:56-58 | an encoding has no whitespace for the decoders to skip |
| Base64.NetDecodeEncode | PasswordHash.cs:113-138 | `Convert.FromBase64String` reads back every `Convert.ToBase64String` output |
| Base64.PhpDecodeEncode | PasswordHash.php:56-89 | `base64_decode(.., true)` reads back every `base64_encode` output |
| Base64.PhpDecodeUnpadded | PasswordHash.php:82-94 | `base64_decode(.., true)` reads an encoding with its `=` dropped as the same bytes |
| Base64.NetShorterDecodesShorter | PasswordHash.cs:137-162 | text shorter than the encoding of n bytes cannot decode to n or more bytes under `Convert.FromBase64String` |
| Base64.PhpShorterDecodesShorter | PasswordHash.php:82-101 | for n a multiple of 3, text shorter than the encoding of n bytes cannot decode to n or more bytes under `base64_decode(.., true)` |
| Base64.PhpReadsUnpaddedByte | PasswordHash.php:82 | `base64_decode("YQ", true)` is the one byte `a` |
| Base64.NetSkipsWhitespace | PasswordHash.cs:137 | `Convert.FromBase64String("Y Q==")` is the one byte `a` |
| Base64.DecodeCanonical | PasswordHash.rb:98 | `strict_decode64` accepts only text that it re-encodes exactly |
| Base64.EncodeCanonical | PasswordHash.rb:75-76 | `strict_encode64` output is canonical |
| Base64.ReencodeCheck | PasswordHash.js:156-172 | decoding then re-encoding reproduces the field exactly when the field is canonical, and the decoded bytes are then the strict decoding |
| Base64.EncodeFullGroups | PasswordStorage.js:40-41 | the encoding of a whole number of 3-byte groups uses only alphabet characters, with no padding |
| ConstantTime.SlowEquals | PasswordStorage.java:219-224 | the loop seeded with the length XOR returns true exactly when the two byte strings are equal |
| Pbkdf2.XorStrings | PasswordHash.php:226 | `^=` on strings XORs byte by byte over the shorter length |
| Pbkdf2.Int32BE | PasswordHash.php:222 | `pack("N", i)` is 4 bytes whose big-endian value is i modulo 2^32 |
| Pbkdf2.BlockCount | PasswordHash.php:217 | `ceil(key_length / hLen)` is the least block count covering key_length |
| Pbkdf2.Fallback | PasswordHash.php:216-236 | the fallback returns the first key_length bytes of T_1 ‖ … ‖ T_l, or their hex |
| Pbkdf2.Concatenated | PasswordHash.php:219-230 | the outer loop appends blocks T_1 … T_n |
| Pbkdf2.Block | PasswordHash.php:221-229 | the inner loop computes T_i = U_1 ^ … ^ U_count, with U_1 = HMAC(salt ‖ INT(i)) and U_j = HMAC(U_(j-1)) |
| Pbkdf2.ULength | PasswordHash.php:224-227 | each U_j has the HMAC's fixed output length |
| Pbkdf2.FLength | PasswordHash.php:221-229 | each block has the HMAC's output length |
| Pbkdf2.BlocksLength | PasswordHash.php:219-230 | n blocks have n·hLen bytes |
| Pbkdf2.FallbackKeyLength | PasswordHash.php:231-235 | the output has exactly key_length bytes raw, or 2·key_length hex characters |
| Pbkdf2.FallbackKeyPrefix | PasswordHash.php:231-235 | the raw output is a prefix of the concatenated blocks, and the hex output is its `bin2hex` |
| PhpText.Substr | PasswordHash.php:313-317 | `substr` with a non-negative start and length, or with none, or a negative start taken from the end |
| PhpText.OurSubstr | PasswordHash.php:283-319 | `ourSubstr` with a length is `substr` |
| PhpText.OurSubstrToEnd | PasswordHash.php:300-308 | `ourSubstr` with a null length takes the rest of the string from start, counting a negative start from the end |
| PhpText.Bin2Hex | PasswordHash.php:235 | `bin2hex` doubles the length and emits only hex digits |
| PhpText.Hex2BinOfBin2Hex | PasswordHash.php:235 | the hex text determines the raw bytes |
| PhpPbkdf2.Derive | PasswordHash.php:184-236 | CannotPerformOperationException exactly for a name missing from `hash_algos()`, a name outside the nine allowed, or `count <= 0` or `key_length <= 0`; otherwise the key |
| PhpPbkdf2.DeriveLength | PasswordHash.php:208-236 | with an honest extension the key has key_length bytes raw, or 2·key_length hex characters |
| PhpPasswordHash.Pbkdf2 | PasswordHash.php:163-183 | a non-string algorithm, password or salt raises InvalidArgumentException; otherwise this is the shared guarded derivation |
| PhpPasswordHash.Fields | PasswordHash.php:50-58 | the five stored fields, none after the first containing `:` |
| PhpPasswordHash.CreateHash | PasswordHash.php:27-59 | a failed salt source raises CannotPerformOperationException; otherwise the hash splits into sha1, 32000, 18 and base64 that `base64_decode(.., true)` reads back as the salt and the derived key |
| PhpPasswordHash.VerifyPassword | PasswordHash.php:68-121 | non-strings raise InvalidArgumentException; a wrong field count, undecodable key or salt, size mismatch or iterations < 1 raise InvalidHashException before any derivation; otherwise it derives with the stored algorithm, salt and iterations and the decoded key's length, and compares |
| PhpPasswordHash.SlowEquals | PasswordHash.php:130-146 | non-strings raise InvalidArgumentException; otherwise the answer is equality, whether through `hash_equals` or the loop |
| PhpPasswordHash.CreateThenVerify | PasswordHash.php:27-121 | a created hash verifies its own password, through one derivation with sha1, the salt, 32000 and 18 |
| PhpPasswordHash.CreatedJoin | PasswordHash.php:50-58 | a created hash is its five fields joined with `:` |
| PhpPasswordHash.StoredFieldsVerify | PasswordHash.php:75-120 | a hash whose fields read as sha1, 32000, 18, the salt and the derived key verifies |
| PhpPasswordHash.TruncatedHashRejected | PasswordHash.php:75-101 | every proper prefix of a created hash raises InvalidHashException without deriving |
| PhpPasswordHash.PrefixNotWellFormed | PasswordHash.php:75-101 | for a key whose length is a multiple of 3, no proper prefix of the joined fields passes the structural checks |
| PhpPasswordHash.UnpaddedFieldsDerive | PasswordHash.php:75-113 | `sha1:1000:1:YQ:YQ`, with unpadded base64, passes every check and derives one byte with salt `a` and 1000 iterations |
| PhpPasswordStorage.CreateHash | PasswordStorage.php:22-50 | a failed salt source raises CannotPerformOperationException; a derivation error propagates; otherwise the five fields read back |
| PhpPasswordStorage.VerifyPassword | PasswordStorage.php:52-100 | the ordered structural checks raise InvalidHashException before any derivation; CannotPerformOperationException comes only from the derivation |
| PhpPasswordStorage.SameAsPasswordHash | PasswordStorage.php:52-100 | on strings this verifier agrees with PasswordHash.php's in outcome and derivation |
| PhpPasswordStorage.DisallowedAlgorithmLate | PasswordStorage.php:130-146 | a well-formed hash naming a disallowed algorithm passes every structural check and fails inside `pbkdf2` with CannotPerformOperationException |
| PhpPasswordStorage.ComparesEqualLengths | PasswordStorage.php:89-97 | re-derivation returns as many bytes as the stored key has |
| PhpPasswordStorage.CreateThenVerify | PasswordStorage.php:22-100 | a created hash verifies its own password |
| JavaPasswordStorage.Trim | PasswordStorage.java:88 | `trim` leaves no character `<= ' '` at either end |
| JavaPasswordStorage.TrimStart | PasswordStorage.java:88 | the leading-whitespace cut is a suffix starting with a visible character |
| JavaPasswordStorage.TrimEnd | PasswordStorage.java:88 | the trailing-whitespace cut is a prefix ending with a visible character |
| JavaPasswordStorage.PadLeft | PasswordStorage.java:159 | `%6s` pads to the width and does not truncate |
| JavaPasswordStorage.ZeroPad | PasswordStorage.java:162 | `%06d` output is non-empty |
| JavaPasswordStorage.ParseInt | PasswordStorage.java:92 | `Integer.parseInt` succeeds only within 32 bits |
| JavaPasswordStorage.TrimPadLeft | PasswordStorage.java:88 | trimming the padded algorithm gives the algorithm back |
| JavaPasswordStorage.ZeroPadReadBack | PasswordStorage.java:162 | a number below 10^w pads to exactly w digits, which `Integer.parseInt` reads back |
| JavaPasswordStorage.Step | PasswordStorage.java:85-118 | reading one item consumes a prefix of the remaining text |
| JavaPasswordStorage.RunStops | PasswordStorage.java:84-120 | the first exception ends the parse |
| JavaPasswordStorage.ParseOfFormat | PasswordStorage.java:80-179 | `new Hash(h.toString())` recovers the algorithm, iterations, both base64 strings and what the decoder makes of them, within the widths |
| JavaPasswordStorage.TrailingIgnored | PasswordStorage.java:80-121 | text after the last item is left unread |
| JavaPasswordStorage.StepShortened | PasswordStorage.java:85-118 | reading one item from a shortened text either throws StringIndexOutOfBoundsException or leaves the same text shortened by the same amount |
| JavaPasswordStorage.RunShortened | PasswordStorage.java:84-120 | the same holds for any run of items |
| JavaPasswordStorage.TruncatedFails | PasswordStorage.java:80-121 | every proper prefix of an encoding throws StringIndexOutOfBoundsException |
| JavaPasswordStorage.HashSizeFirst | PasswordStorage.java:99-102 | reaching PBKDF2 before HASH_SIZE throws IllegalArgumentException |
| JavaPasswordStorage.SaltSizeFirst | PasswordStorage.java:111-114 | reaching SALT before SALT_SIZE throws IllegalArgumentException |
| JavaPasswordStorage.Hash.constructor | PasswordStorage.java:77-78 | a new `Hash` has no fields set |
| JavaPasswordStorage.Hash.SetHashAlgorithm | PasswordStorage.java:127-129 | sets the algorithm and nothing else |
| JavaPasswordStorage.Hash.SetPbkdf2Iterations | PasswordStorage.java:131-133 | sets the iterations and nothing else |
| JavaPasswordStorage.Hash.SetHash | PasswordStorage.java:139-142 | sets the key and its base64 text together, and the text decodes to the key |
| JavaPasswordStorage.Hash.SetSalt | PasswordStorage.java:148-151 | sets the salt and its base64 text together, and the text decodes to the salt |
| JavaPasswordStorage.Hash.ToString | PasswordStorage.java:154-179 | the loop emits the items of HASH_SEQUENCE in order |
| JavaPasswordStorage.Hash.FromString | PasswordStorage.java:80-121 | the parsing constructor builds a fresh object holding the parsed fields, or throws the parse's exception |
| JavaPasswordStorage.Hash.ReadItem | PasswordStorage.java:85-118 | one switch arm updates the object and the two sizes as the parse step does, or throws |
| JavaPasswordStorage.Int32 | PasswordStorage.java:227 | `bytes * 8` wraps to a Java int |
| JavaPasswordStorage.DeriveKey | PasswordStorage.java:226-236 | every failure is IllegalArgumentException; an empty salt, a non-positive count or a non-positive bit length fails; otherwise the library decides, and an honest one returns `bytes` bytes |
| JavaPasswordStorage.CreateHash | PasswordStorage.java:186-201 | the setters and `toString` produce the encoding of sha512, 13000, the 20-byte key and the salt, or pbkdf2's exception |
| JavaPasswordStorage.VerifyPassword | PasswordStorage.java:207-217 | the parse's exception, or a derivation with the parsed algorithm, salt and iterations and the decoded key's length, compared with `slowEquals` |
| JavaPasswordStorage.CreatedEncodable | PasswordStorage.java:186-201 | a created object fits the fixed widths |
| JavaPasswordStorage.CreateThenVerify | PasswordStorage.java:186-217 | a created hash verifies its own password, through one derivation with sha512, the salt, 13000 and 20 |
| JavaPasswordStorage.TruncatedHashRejected | PasswordStorage.java:207-217 | every proper prefix of a created hash throws StringIndexOutOfBoundsException before any derivation |
| CsPasswordHash.CreateHash | PasswordHash.cs:96-117 | the hash splits into sha1, 1000, the key's length and the base64 of the salt and the key, which `Convert.FromBase64String` reads back |
| CsPasswordHash.ValidatePassword | PasswordHash.cs:125-166 | a hash without an iteration field throws IndexOutOfRangeException; a bad iteration field throws; bad base64 or a bad or mismatched size answers false; otherwise it derives with the iterations and the key length, and compares |
| CsPasswordHash.CreateThenValidate | PasswordHash.cs:96-166 | a created hash validates its own password |
| CsPasswordHash.AlgorithmFieldIgnored | PasswordHash.cs:125-166 | field 0 is never read |
| CsPasswordHash.ExtraFieldsIgnored | PasswordHash.cs:129-166 | fields after the fifth are never read |
| CsPasswordHash.TruncatedNeverDerives | PasswordHash.cs:125-166 | no proper prefix of a created hash reaches PBKDF2 or answers true |
| CsPasswordHash.TruncatedInLastField | PasswordHash.cs:137-162 | a created hash cut inside its last field answers false |
| CsPasswordStorage.CreateHash | PasswordStorage.cs:41-73 | an RNG failure raises CannotPerformOperationException; otherwise the five fields read back |
| CsPasswordStorage.VerifyPassword | PasswordStorage.cs:75-179 | a wrong field count raises InvalidHashException and an algorithm other than sha1 raises CannotPerformOperationException; a bad iteration count, base64 or size raises InvalidHashException; PBKDF2 runs only after every check |
| CsPasswordStorage.CreateThenVerify | PasswordStorage.cs:41-179 | a created hash verifies its own password |
| CsPasswordStorage.TruncatedHashRejected | PasswordStorage.cs:75-179 | every proper prefix of a created hash raises InvalidHashException |
| CsPasswordStorage.StricterThanPasswordHash | PasswordStorage.cs:75-179 | whenever this verifier derives, PasswordHash.cs derives the same, and where this one answers, PasswordHash.cs gives the same answer |
| CsPasswordStorage.RaisesWhereValidateAnswersFalse | PasswordStorage.cs:75-179 | where PasswordHash.cs answers false without deriving, this verifier raises |
| JsPasswordHash.Defaults | PasswordHash.js:38-46 | the `for..in` loop builds the map of default options the caller does not own |
| JsPasswordHash.DefaultsDropOverrides | PasswordHash.js:38-46 | the result is usable exactly when the caller owns no option, and every key the caller owns is absent from it |
| JsPasswordHash.IterationOverrideLost | PasswordHash.js:38-50 | overriding only the iteration count leaves no iteration count at all |
| JsPasswordHash.Merge | PasswordHash.js:38-46 | corrected `defaults`: every option is present, with the caller's value where the caller owns it and the default otherwise; values of the right kinds give usable options |
| JsPasswordHash.MergedUsable | PasswordHash.js:38-46 | the corrected merge covers exactly the option keys |
| JsPasswordHash.Derive | PasswordHash.js:110-142 | CannotPerformOperation exactly for a lower-cased name missing from `getHashes()`, outside the nine allowed, or a non-positive count or length, before any derivation; otherwise Node's result, of the requested length when honest |
| JsPasswordHash.CreateVerifier | PasswordHash.js:56-92 | a failed salt reports CannotPerformOperation; otherwise the verifier splits into the configured algorithm, iterations and size and the base64 of the salt and the key |
| JsPasswordHash.ValidatePassword | PasswordHash.js:145-207 | a wrong field count, non-canonical base64, a zero or mismatched size or iterations < 1 report InvalidVerifier before any derivation; otherwise it derives with the stored algorithm, salt, iterations and key length, and compares |
| JsPasswordHash.AcceptsCanonicalOnly | PasswordHash.js:156-172 | a field that does not re-encode to itself is rejected; an accepted field is decoded strictly |
| JsPasswordHash.CreateThenValidate | PasswordHash.js:56-207 | a created verifier validates its own password with the configured parameters |
| JsPasswordHash.ValidateFields | PasswordHash.js:145-207 | a verifier whose fields are those of a derivation validates |
| JsPasswordHash.TruncatedVerifierRejected | PasswordHash.js:145-207 | every proper prefix of a created verifier reports InvalidVerifier without deriving |
| JsPasswordStorage.Fields | PasswordStorage.js:36-42 | five fields, unambiguous when the digest name has no `:` |
| JsPasswordStorage.CreateHash | PasswordStorage.js:23-46 | as written: a salt or derivation error rejects; a digest `getHashes()` lacks throws inside the callback and the Promise never settles; otherwise the algorithm field is sha1, whatever the digest |
| JsPasswordStorage.CreateHashLabelled | PasswordStorage.js:23-46 | corrected `createHash`: the fields read back as the digest used, 64000, 18, the salt and the key |
| JsPasswordStorage.Rejections | PasswordStorage.js:50-78 | a wrong field count is the first rejection issued |
| JsPasswordStorage.VerifyPassword | PasswordStorage.js:47-92 | as written: it derives whenever there are at least five fields, and the outcome is the first of the rejections and the derivation's result |
| JsPasswordStorage.VerifyPasswordReturning | PasswordStorage.js:47-92 | corrected `verifyPassword`: it derives only when every check passes, and raises CannotPerformOperationException exactly for a digest missing from `getHashes()` |
| JsPasswordStorage.SameOutcome | PasswordStorage.js:47-92 | both versions settle with the same outcome |
| JsPasswordStorage.DerivesOnRejectedHash | PasswordStorage.js:50-53 | a hash with too many fields is rejected, yet still reaches `crypto.pbkdf2` |
| JsPasswordStorage.DerivesWithRejectedIterations | PasswordStorage.js:65-82 | an iteration count below 1 is rejected, yet `crypto.pbkdf2` is still called with it |
| JsPasswordStorage.MislabelledDigest | PasswordStorage.js:36-42 | the verifier of a created hash derives with sha1, whatever digest created it |
| JsPasswordStorage.DefaultDigestLabelled | PasswordStorage.js:24-42 | with the default digest, the as-written and the corrected `createHash` agree |
| JsPasswordStorage.CreateThenVerify | PasswordStorage.js:23-92 | a hash created with a listed digest verifies its own password |
| JsPasswordStorage.CreatedJoin | PasswordStorage.js:36-42 | a created hash is its five fields joined with `:` |
| JsPasswordStorage.LastCharacterDropped | PasswordStorage.js:47-92 | a created hash missing its last character is rejected with InvalidHashException, by both versions |
| JsPasswordStorage.CutLastCharacter | PasswordStorage.js:50 | dropping the last character keeps five fields, and leaves 23 base64 characters in the last one |
| JsPasswordStorage.SizeMismatchRejected | PasswordStorage.js:72-78 | a key whose decoded length differs from the size field is rejected with InvalidHashException |
| RubyPasswordHash.CreateHash | PasswordHash.rb:55-80 | a failed RNG raises CannotPerformOperationException and a PBKDF2 error propagates; otherwise the fields read back, except that an empty key loses its field to `split` |
| RubyPasswordHash.SlowEqualsResult | PasswordHash.rb:136-143 | `a` longer than `b` raises TypeError; equal lengths give equality |
| RubyPasswordHash.SlowEquals | PasswordHash.rb:136-143 | the loop over `a` answers whether `a` is a prefix of `b`, or raises TypeError when `a` is longer |
| RubyPasswordHash.VerifyPassword | PasswordHash.rb:82-134 | a wrong field count raises InvalidHashError and an algorithm other than sha1 raises CannotPerformOperationException; bad strict base64, a size mismatch or iterations < 1 raise InvalidHashError; only then does it derive, raising RangeError for a count beyond a C int, and compare |
| RubyPasswordHash.CreateThenVerify | PasswordHash.rb:55-134 | a created hash verifies its own password |
| RubyPasswordHash.TruncatedHashRejected | PasswordHash.rb:82-134 | every proper prefix of a created hash raises InvalidHashError |
| RubyPasswordHash.ComparesEqualLengths | PasswordHash.rb:113-133 | with an honest library, `slow_equals` receives equal lengths, so the answer is equality, unless the count is not a C int |
| RubyPasswordStorage.Pbkdf2HmacSha1 | PasswordStorage.rb:111-127 | a count or length beyond a C int raises RangeError, which is not rescued; a PKCS5Error becomes CannotPerformOperationException; otherwise the library's key |
| RubyPasswordStorage.CreateHash | PasswordStorage.rb:30-55 | a failed RNG or PBKDF2 raises CannotPerformOperationException; otherwise the fields read back |
| RubyPasswordStorage.SlowEquals | PasswordStorage.rb:129-140 | false for different sizes; otherwise true exactly when every byte agrees |
| RubyPasswordStorage.VerifyPassword | PasswordStorage.rb:57-109 | the same ordered checks as PasswordHash.rb, then a derivation that raises RangeError for a count beyond a C int and CannotPerformOperationException for a library failure |
| RubyPasswordStorage.CreateThenVerify | PasswordStorage.rb:30-109 | a created hash verifies its own password |
| RubyPasswordStorage.TruncatedHashRejected | PasswordStorage.rb:57-109 | every proper prefix of a created hash raises InvalidHashError |
| RubyPasswordStorage.SameAsPasswordHash | PasswordStorage.rb:57-109 | it derives exactly when PasswordHash.rb does, and answers as it does |

## Left out

- Random salts are an input. An RNG failure (`false`, `NotImplementedError`, an `error` in a callback) is `None`.
  - `random_bytes`, `mcrypt_create_iv`, `SecureRandom`, `RNGCryptoServiceProvider` and `crypto.randomBytes` are not part of this model.
  - So the salt length set in each file is not checked.
- The cryptographic libraries are parameters and are not part of this model:
  - `hash_pbkdf2`, `hash_hmac`, `hash`, `hash_algos`;
  - `SecretKeyFactory`, `Rfc2898DeriveBytes`, `OpenSSL::PKCS5`;
  - `crypto.pbkdf2`, `crypto.getHashes`.
  - Known-answer vectors, such as RFC 6070, cannot be stated without SHA-1.
  - That a wrong password is rejected rests on collision resistance, which is not modelled.
- Lenient base64 decoders are a parameter: Java's `DatatypeConverter.parseBase64Binary` and Node's `Buffer`. The lemmas that need them to read back encodings say so in their requires.
- Timing is not modelled: there is nothing in Dafny to state that a loop is constant-time. The comparison loops keep the source's shape, with no early exit, and their result is proved.
- Environment probing collapses to one branch:
  - `function_exists` for `hash_equals` and for `random_bytes`;
  - the `static $exists` mbstring switch in `ourStrlen`/`ourSubstr`, which are byte length and `substr`.
  - `hash_pbkdf2`'s presence is modelled as the `native` field of the hash extension.
- JavaScript callbacks and Promises are sequential calls:
  - the first `reject` or `resolve` decides the outcome;
  - JavaScript numbers are unbounded integers, not doubles;
  - the `'hex'` branch of PasswordHash.js `pbkdf2` is not modelled, since both of its callers ask for raw output;
  - the `new Buffer(a, 'binary')` conversion in PasswordHash.js `slowEquals` is not modelled;
  - neither is a TypeError from `initBuffer` on a non-string.
  - In PasswordStorage.js `createHash`, the digests `crypto.pbkdf2` throws for are taken to be those `getHashes()` does not list. `Unsettled` is the outcome where that exception escapes the `randomBytes` callback and the Promise stays pending.
- Integer parsing keeps only its decimal core:
  - leading whitespace and Ruby's `_` separators in `to_i` are not modelled;
  - neither is the exponent notation of PHP 7.1 and later, where `(int)"1e3"` is 1000;
  - neither is C#'s culture-dependent parsing;
  - PHP `(int)` is not bounded to 64 bits.
- Ruby's conversion of the password and salt lengths to a C int is not modelled; only the iteration count and key length are checked against the C int range.
- Strings are sequences of code units. There is no UTF-8 or UTF-16 encoding of passwords.
- Java's `null` fields and its `NullPointerException`s are not modelled. A new `Hash` holds empty values instead.
- Java's `createHash(String)` and `verifyPassword(String, …)` only convert to `char[]`, so they are not modelled separately.
- Self-tests and harnesses are not part of this model: `SelfTest` in PasswordHash.cs, and `runSelfTests`/`assert` in PasswordHash.rb.
- The JS `PasswordStorage(opts)` constructor is represented by the options map it stores: `CreateVerifier` takes that map, and `Defaults` computes it.
- PhpPbkdf2.Derive: when the fallback meets a digest of length zero, `ceil(key_length / 0)` is modelled as PHP 8's DivisionByZeroError.

## Findings

| source | as written | input that shows it | evidently intended | confidence | as-written member | corrected member |
|---|---|---|---|---|---|---|
| PasswordHash.js:38-46 | `defaults` copies only the options the caller does *not* own, so caller values are dropped | `opts = {PBKDF2_ITERATIONS: 64000}` gives options with no iteration count | merge: the caller's value where given, the default elsewhere | high, not executed | JsPasswordHash.IterationOverrideLost | JsPasswordHash.Merge |
| PasswordStorage.js:36-42 | `createHash` writes `"sha1"` in the algorithm field whatever `digest` derived the key | `createHash(p, "sha256")` stores sha1, so verifying `p` derives with sha1 and answers false | store the digest actually used | high, not executed | JsPasswordStorage.MislabelledDigest | JsPasswordStorage.CreateThenVerify |
| PasswordStorage.js:50-78 | `reject` is called without `return`, so the later checks and `crypto.pbkdf2` still run | a hash with six fields, or iterations `0`, still reaches `crypto.pbkdf2` | return after rejecting | medium, not executed | JsPasswordStorage.DerivesOnRejectedHash | JsPasswordStorage.VerifyPasswordReturning |
