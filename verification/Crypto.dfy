/** The cryptography the tester borrows from its libraries, as functions nothing is known
    about but their output lengths. */
module Crypto {
  import opened Bytes

  /** What SHA-256 gives, or SHA-384. */
  type Digest = d: bytes | 32 <= |d| witness Zeros(32)
  type Octets24 = d: bytes | |d| == 24 witness Zeros(24)
  type Octets42 = d: bytes | |d| == 42 witness Zeros(42)

  datatype HashAlg = Sha256 | Sha384

  type Mac = (bytes, bytes) -> Digest

  datatype Primitives = Primitives(
    md5: bytes -> Octets16,
    hmacMd5: (bytes, bytes) -> Octets16,
    hmac: HashAlg -> Mac,
    ntResponse: (bytes, bytes, bytes, bytes) -> Octets24,
    authenticatorResponse: (bytes, bytes, bytes, bytes, bytes) -> Octets42,
    mschapSessionKey: (bytes, bytes) -> Octets32)
}
