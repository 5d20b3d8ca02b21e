/**
 * The parts of Node's crypto module both JavaScript variants use: the digest names
 * crypto.getHashes() lists, and crypto.pbkdf2 (None when it reports or throws an error).
 */
module NodeCrypto {

  import opened Common

  datatype Crypto = Crypto(hashes: set<string>, pbkdf2: Kdf)
}
