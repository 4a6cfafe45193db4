/**
 * The server's `encryptFile` / `decryptFile` pair and its key material.
 *
 * AES-256-CBC with PKCS#7 padding, scrypt and PBKDF2 are library calls whose
 * source is not visible; they are the function-valued fields of `Primitives`,
 * and the one law the server relies on, that decryption under the same key
 * and IV inverts encryption, is the predicate `RoundTrips`. The IV goes
 * through the concrete hex codec exactly as the server stores it.
 */
module Cipher {
  import opened Types
  import Hex

  const IV_LENGTH: nat := 16
  const KEY_LENGTH: nat := 32
  const ALGORITHM := "aes-256-cbc"

  /** Inputs of the process-wide `ENCRYPTION_KEY`. */
  const KDF_PASSWORD := "your-secure-password"
  const KDF_SALT := "salt"

  /** Parameters of the per-user `strongKey` the vault routes compute. */
  const VAULT_KDF_ITERATIONS: nat := 100000
  const VAULT_KDF_DIGEST := "sha512"

  /** The 16 fresh bytes `crypto.randomBytes(IV_LENGTH)` returns. */
  type Iv = s: Bytes | |s| == 16 witness seq(16, i => 0)

  datatype Primitives = Primitives(
    /** scryptSync(password, salt, keyLength) */
    scrypt: (string, string, nat) -> Bytes,
    /** pbkdf2Sync(password, salt, iterations, keyLength, digest) */
    pbkdf2: (string, Id, nat, nat, string) -> Bytes,
    /** AES-256-CBC encryption of a plaintext under (key, iv) */
    encrypt: (Bytes, Bytes, Bytes) -> Bytes,
    /** AES-256-CBC decryption of a ciphertext under (key, iv); `None` when the decipher throws */
    decrypt: (Bytes, Bytes, Bytes) -> Option<Bytes>)

  /** Decryption with the key and IV used for encryption recovers the plaintext. */
  ghost predicate RoundTrips(p: Primitives) {
    forall key, iv, m {:trigger p.encrypt(key, iv, m)} ::
      |iv| == IV_LENGTH ==> p.decrypt(key, iv, p.encrypt(key, iv, m)) == Some(m)
  }

  /** `ENCRYPTION_KEY`, the only key either function below ever uses. */
  function EncryptionKey(p: Primitives): Bytes {
    p.scrypt(KDF_PASSWORD, KDF_SALT, KEY_LENGTH)
  }

  /**
   * The vault routes' `strongKey`. It is computed from the caller's id, but
   * `EncryptFile` and `DecryptFile` take no key: every vault item is
   * encrypted under `EncryptionKey` like a shared file.
   */
  function VaultKey(p: Primitives, userId: Id): Bytes {
    p.pbkdf2(Hex.Encode(EncryptionKey(p)), userId, VAULT_KDF_ITERATIONS, KEY_LENGTH, VAULT_KDF_DIGEST)
  }

  /** The `{ iv, encryptedData }` pair `encryptFile` returns; `iv` is hex. */
  datatype Encrypted = Encrypted(iv: string, data: Bytes)

  /** `encryptFile(buffer)` with the fresh IV drawn by the caller. */
  function EncryptFile(p: Primitives, buffer: Bytes, freshIv: Iv): (e: Encrypted)
    ensures |e.iv| == 2 * IV_LENGTH && Hex.IsLowerHex(e.iv)
    ensures Hex.Decode(e.iv) == freshIv
    ensures e.data == p.encrypt(EncryptionKey(p), freshIv, buffer)
  {
    Hex.DecodeEncode(freshIv);
    Encrypted(Hex.Encode(freshIv), p.encrypt(EncryptionKey(p), freshIv, buffer))
  }

  /**
   * `decryptFile(encryptedData, ivHex)`: `None` when `createDecipheriv`
   * rejects the decoded IV's length or the decipher itself fails.
   */
  function DecryptFile(p: Primitives, data: Bytes, ivHex: string): (r: Option<Bytes>)
    ensures |Hex.Decode(ivHex)| != IV_LENGTH ==> r == None
  {
    var iv := Hex.Decode(ivHex);
    if |iv| != IV_LENGTH then None else p.decrypt(EncryptionKey(p), iv, data)
  }

  /** The stored IV and ciphertext decrypt back to the uploaded bytes. */
  lemma DecryptEncryptFile(p: Primitives, buffer: Bytes, freshIv: Iv)
    requires RoundTrips(p)
    ensures var e := EncryptFile(p, buffer, freshIv); DecryptFile(p, e.data, e.iv) == Some(buffer)
  {
    var e := EncryptFile(p, buffer, freshIv);
    assert Hex.Decode(e.iv) == freshIv;
    assert p.decrypt(EncryptionKey(p), freshIv, p.encrypt(EncryptionKey(p), freshIv, buffer)) == Some(buffer);
  }

  /** An IV that is missing (the empty string) can never decrypt. */
  lemma MissingIvNeverDecrypts(p: Primitives, data: Bytes)
    ensures DecryptFile(p, data, "") == None
  {
  }
}
