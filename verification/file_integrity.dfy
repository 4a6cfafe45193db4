/**
 * `FileIntegrityManager` (server/utils/fileIntegrity.js): the SHA-256 digest
 * is a library call, passed in as `sha256`; the manager renders it as hex,
 * compares strings, and builds a metadata record.
 */
module FileIntegrity {
  import opened Types
  import Hex

  const SHA256_LENGTH: nat := 32

  /** `generateFileHash(buffer)`: the lower-case hex of the digest. */
  function GenerateFileHash(sha256: Bytes -> Bytes, buffer: Bytes): (h: string)
    ensures Hex.IsLowerHex(h)
    ensures Hex.Decode(h) == sha256(buffer)
    ensures |sha256(buffer)| == SHA256_LENGTH ==> |h| == 2 * SHA256_LENGTH
  {
    Hex.DecodeEncode(sha256(buffer));
    Hex.Encode(sha256(buffer))
  }

  /** `verifyFileIntegrity(buffer, storedHash)`: plain string equality. */
  function VerifyFileIntegrity(sha256: Bytes -> Bytes, buffer: Bytes, storedHash: string): bool {
    GenerateFileHash(sha256, buffer) == storedHash
  }

  /**
   * A stored hash is accepted exactly when it is the canonical lower-case
   * rendering of the buffer's digest. A digest written in upper case, or
   * with any other difference, is reported as a mismatch, never normalised.
   */
  lemma VerifyCharacterisation(sha256: Bytes -> Bytes, buffer: Bytes, storedHash: string)
    ensures VerifyFileIntegrity(sha256, buffer, storedHash)
        <==> Hex.IsLowerHex(storedHash) && Hex.Decode(storedHash) == sha256(buffer)
  {
    if Hex.IsLowerHex(storedHash) && Hex.Decode(storedHash) == sha256(buffer) {
      Hex.EncodeDecode(storedHash);
    }
  }

  /** A freshly generated hash always verifies against the same buffer. */
  lemma VerifyOwnHash(sha256: Bytes -> Bytes, buffer: Bytes)
    ensures VerifyFileIntegrity(sha256, buffer, GenerateFileHash(sha256, buffer))
  {
  }

  datatype Metadata = Metadata(hash: string, size: nat, timestamp: nat, lastVerified: nat)

  /** `generateFileMetadata(buffer)` with `Date.now()` supplied as `now`. */
  function GenerateFileMetadata(sha256: Bytes -> Bytes, buffer: Bytes, now: nat): (m: Metadata)
    ensures m.size == |buffer|
    ensures VerifyFileIntegrity(sha256, buffer, m.hash)
    ensures m.timestamp == now && m.lastVerified == m.timestamp
  {
    var hash := GenerateFileHash(sha256, buffer);
    Metadata(hash, |buffer|, now, now)
  }
}
