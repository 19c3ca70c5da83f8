/**
 SHA-256, zstd and ed25519 as parameters with laws. Nothing is assumed about them beyond `Lawful`,
 and hash collisions are ruled out only where a result says so, and only on the contents it names.
 */
module Cryptos {
  import opened Prelude
  import Digests
  import Signatures

  type Seed = seq<byte>

  datatype SecretKey = SecretKey(name: string, seed: Seed)

  datatype PublicKey = PublicKey(name: string, point: seq<byte>)

  /** `emitted(chunks)` is all the encoder has produced once it was fed `chunks`; `total` adds its tail. */
  datatype Crypto = Crypto(
    sha: seq<byte> -> Digests.Digest,
    emitted: seq<seq<byte>> -> seq<byte>,
    total: seq<seq<byte>> -> seq<byte>,
    inflate: seq<byte> -> Option<seq<byte>>,
    signWith: (Seed, string) -> Signatures.SigBytes,
    pointOf: Seed -> seq<byte>,
    accepts: (seq<byte>, string, Signatures.SigBytes) -> bool)

  ghost predicate LawfulEncoder(c: Crypto) {
    && c.emitted([]) == []
    && (forall chunks: seq<seq<byte>> :: c.emitted(chunks) <= c.total(chunks))
    && (forall chunks: seq<seq<byte>>, chunk: seq<byte> :: c.emitted(chunks) <= c.emitted(chunks + [chunk]))
    && (forall chunks: seq<seq<byte>> :: c.inflate(c.total(chunks)) == Some(Concat(chunks)))
  }

  ghost predicate LawfulSigner(c: Crypto) {
    forall seed: Seed, text: string :: c.accepts(c.pointOf(seed), text, c.signWith(seed, text))
  }

  ghost predicate CollisionFree(c: Crypto, contents: set<seq<byte>>) {
    forall x, y | x in contents && y in contents :: c.sha(x) == c.sha(y) ==> x == y
  }

  function Public(c: Crypto, key: SecretKey): PublicKey {
    PublicKey(key.name, c.pointOf(key.seed))
  }

  function Sign(c: Crypto, key: SecretKey, fingerprint: string): Signatures.Signature {
    Signatures.Signature(key.name, c.signWith(key.seed, fingerprint))
  }

  predicate Verifies(c: Crypto, key: PublicKey, fingerprint: string, signature: Signatures.Signature) {
    signature.name == key.name && c.accepts(key.point, fingerprint, signature.bytes)
  }
}
