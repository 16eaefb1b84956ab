/** The cryptographic libraries the vault calls: argon2's PasswordHasher,
    argon2's low-level `hash_secret` with the pinned cost parameters, and
    Fernet. Their algorithms are not modelled; each is a function value of a
    `Suite`, and the only facts the vault relies on are the three properties
    gathered in `Suite.Valid`. */
module Crypto {
  import opened Wrappers

  type byte = x: int | 0 <= x < 256

  /** Key material: the bytes handed (base64-encoded) to Fernet. */
  type Key = seq<byte>

  /** Number of trailing bytes of the encoded Argon2 output used as the Fernet key. */
  const KeyLength: nat := 32

  /** Argon2id cost parameters pinned by the vault: time cost, memory cost,
      parallelism and requested hash length. `hashSecret` stands for
      `hash_secret` called with exactly these. */
  const TimeCost: nat := 3
  const MemoryCost: nat := 65536
  const Parallelism: nat := 4
  const HashLen: nat := 30

  datatype Suite = Suite(
    /** `PasswordHasher().hash(password)`, with the random salt it draws made a parameter. */
    hash: (seq<byte>, string) -> string,
    /** `PasswordHasher().verify(hash, password)`; false stands for VerifyMismatchError. */
    verify: (string, string) -> bool,
    /** `hash_secret(secret, salt, ...)`: the ENCODED Argon2id hash string. */
    hashSecret: (string, string) -> seq<byte>,
    /** `Fernet(key).encrypt(plaintext)`, with its random IV and timestamp made a parameter. */
    encrypt: (Key, nat, string) -> string,
    /** `Fernet(key).decrypt(token)`; None stands for InvalidToken. */
    decrypt: (Key, string) -> Option<string>)
  {
    /** A password verifies against a hash exactly when it is the password that was hashed. */
    ghost predicate HasherSound() {
      forall hashSalt, p, q :: verify(hash(hashSalt, p), q) <==> p == q
    }

    /** The encoded Argon2 string (header, salt, and 40 base64 characters of
        the 30-byte digest) is always longer than the key taken from its tail. */
    ghost predicate KdfOutputLong() {
      forall secret, salt :: |hashSecret(secret, salt)| > KeyLength
    }

    /** Decryption under the encrypting key returns the plaintext. */
    ghost predicate CipherSound() {
      forall key, nonce, m :: decrypt(key, encrypt(key, nonce, m)) == Some(m)
    }

    ghost predicate Valid() {
      HasherSound() && KdfOutputLong() && CipherSound()
    }

    /** `hash_secret(...)[-32:]`: the last 32 bytes of the encoded output,
        or all of it if it were shorter (Python slice semantics). */
    function DeriveKey(password: string, salt: string): (key: Key)
      ensures |key| <= KeyLength
      ensures var encoded := hashSecret(password, salt);
              |key| <= |encoded| && key == encoded[|encoded| - |key|..]
      ensures KdfOutputLong() ==> |key| == KeyLength
    {
      var encoded := hashSecret(password, salt);
      if |encoded| <= KeyLength then encoded else encoded[|encoded| - KeyLength..]
    }
  }

  /** The three properties are consistent: some suite has all of them, so a
      vault whose suite is required to be `Valid` is not vacuous. */
  lemma AxiomsSatisfiable()
    ensures exists suite: Suite :: suite.Valid()
  {
    var symbolic := Suite(
      (hashSalt: seq<byte>, p: string) => p,
      (h: string, q: string) => h == q,
      (secret: string, salt: string) => seq(KeyLength + 1, _ => 0),
      (key: Key, nonce: nat, m: string) => m,
      (key: Key, token: string) => Some(token));
    assert symbolic.Valid();
  }
}
