/** The two interfaces the host supplies: the cryptographic backend of
    `cpp/include/sesame/crypto.hpp` and the key directory of `cpp/include/sesame/keys.hpp`.
    Both are values made of functions, so every theorem holds for every backend and directory. */
module Seams {
  import opened Wrappers
  import opened Hex

  type Digest = b: Bytes | |b| == 32 witness seq(32, _ => 0)
  type AeadKey = b: Bytes | |b| == 32 witness seq(32, _ => 0)
  type Iv = b: Bytes | |b| == 12 witness seq(12, _ => 0)
  type RandomNonce = b: Bytes | |b| == 16 witness seq(16, _ => 0)

  datatype Backend = Backend(
    sha256: Bytes -> Digest,
    hmac: (Bytes, string) -> Digest,
    seal: (AeadKey, Iv, string, Bytes) -> Bytes,
    open: (AeadKey, Iv, string, Bytes) -> Option<Bytes>)

  /** What is assumed of authenticated encryption: opening undoes sealing. */
  ghost predicate IsLawful(c: Backend) {
    forall key, iv, aad, plaintext ::
      c.open(key, iv, aad, c.seal(key, iv, aad, plaintext)) == Some(plaintext)
  }

  /** A lawful backend, without any secrecy: evidence that the assumption can be met. */
  const PLAIN: Backend := Backend(
    _ => seq(32, _ => 0),
    (_, _) => seq(32, _ => 0),
    (_, _, _, plaintext) => plaintext,
    (_, _, _, sealed) => Some(sealed))

  type Crypto = c: Backend | IsLawful(c) witness PLAIN

  datatype KeyProvider = KeyProvider(
    signingKeys: string -> seq<Bytes>,
    aeadKey: string -> Option<AeadKey>,
    isAuthorized: (string, string) -> bool,
    isRevoked: string -> bool)
  {
    /** The primary key is the first of the valid ones. */
    function PrimarySigningKey(keyId: string): Option<Bytes> {
      if signingKeys(keyId) == [] then None else Some(signingKeys(keyId)[0])
    }
  }
}
