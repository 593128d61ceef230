/**
 The imported primitives, as records of uninterpreted functions.  `Lawful` collects the only facts the proofs
 use about them: output lengths and correctness.  No law says that a function is hard to invert or free of
 collisions; module ToyPrimitives exhibits records that satisfy every law.
 */
module Primitives {
  import opened ByteStrings
  import opened Results

  /** HKDF over one hash: `extract(salt, ikm)` and `expand(prk, info, length)` on whole strings. */
  datatype Kdf = Kdf(
    id: u16,
    hashLen: nat,
    extract: (Bytes, Bytes) -> Bytes,
    expand: (Bytes, Bytes, nat) -> Bytes)
  {
    ghost predicate Lawful() {
      // HKDF-SHA-256, HKDF-SHA-384 and HKDF-SHA-512
      && (id, hashLen) in {(1, 32), (2, 48), (3, 64)}
      && (forall salt, ikm :: |extract(salt, ikm)| == hashLen)
      && ExpandsExactly()
    }

    ghost predicate ExpandsExactly() {
      forall prk, info, n: nat ::
        |prk| >= hashLen && n <= 255 * hashLen ==> |expand(prk, info, n)| == n
    }
  }

  /** An AEAD.  `None` is the primitive's failure. */
  datatype Aead = Aead(
    id: u16,
    keyLen: nat,
    nonceLen: nat,
    encrypt: (Bytes, Bytes, Bytes, Bytes) -> Option<Bytes>, // key, nonce, associated data, plaintext
    decrypt: (Bytes, Bytes, Bytes, Bytes) -> Option<Bytes>)
  {
    /** Every AEAD but export-only implements the crate's sealing trait. */
    predicate Sealing() {
      id != 0xFFFF
    }

    /**
     Bounds that cover AES-128-GCM (16, 12), AES-256-GCM and ChaCha20-Poly1305 (32, 12), every nonce length the crate
     admits at compile time, and export-only (0, 0).
     */
    ghost predicate Lawful() {
      && (if Sealing() then 8 <= nonceLen <= 12 && keyLen <= 32 else keyLen == nonceLen == 0)
      && (forall key, nonce, aad, pt ::
            encrypt(key, nonce, aad, pt).Some? ==>
              decrypt(key, nonce, aad, encrypt(key, nonce, aad, pt).value) == Some(pt))
    }
  }

  /** A ciphersuite: the type parameters `K`, `F` and `A` of the crate. */
  datatype Suite = Suite(kemId: u16, kdf: Kdf, aead: Aead) {
    ghost predicate Lawful() {
      kdf.Lawful() && aead.Lawful()
    }
  }
}
