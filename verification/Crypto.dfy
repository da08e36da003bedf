/**
 The libsodium primitives the program calls, as functions. Nothing is assumed of them except
 where a lemma says so.
 */
module Cryptography {
  import opened Bytes
  import opened Options

  const SIGNATURE_BYTES := 64
  const PROOF_BYTES := 80
  const OUTPUT_BYTES := 64

  type Signature = s: seq<byte> | |s| == SIGNATURE_BYTES witness BigEndian(64, 0)
  type Proof = s: seq<byte> | |s| == PROOF_BYTES witness BigEndian(80, 0)
  type Output = s: seq<byte> | |s| == OUTPUT_BYTES witness BigEndian(64, 0)
  type Secret = seq<byte>

  datatype Crypto = Crypto(
    hash: seq<byte> -> Digest,
    sign: (Secret, Digest) -> Signature,
    verify: (Signature, Digest, Digest) -> bool,
    prove: (Secret, Digest) -> Proof,
    proofToHash: Proof -> Output,
    vrfVerify: (Digest, Proof, Digest) -> Option<Output>)

  /** What the owner of a key pair signs and proves is accepted under the public key. */
  ghost predicate KeyPair(c: Crypto, public: Digest, secret: Secret) {
    && (forall m :: c.verify(c.sign(secret, m), m, public))
    && (forall seed :: c.vrfVerify(public, c.prove(secret, seed), seed) == Some(c.proofToHash(c.prove(secret, seed))))
  }

  /** For one key and one seed, every proof that is accepted has the same output. */
  ghost predicate UniqueOutput(c: Crypto) {
    forall public, seed, p, q ::
      c.vrfVerify(public, p, seed).Some? && c.vrfVerify(public, q, seed).Some?
      ==> c.vrfVerify(public, p, seed) == c.vrfVerify(public, q, seed)
  }

  /** For one key, a message has one signature that is accepted. */
  ghost predicate UniqueSignature(c: Crypto) {
    forall public, m, s, t :: c.verify(s, m, public) && c.verify(t, m, public) ==> s == t
  }
}
