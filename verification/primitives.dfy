/** The cryptographic primitives the core calls into: X25519 (section 5 of RFC 7748, the
    `x25519-dalek` crate), HKDF-SHA256 (RFC 5869, the `hkdf` and `sha2` crates) and the
    ChaCha20-Poly1305 AEAD (section 2.8 of RFC 8439, the `chacha20poly1305` crate). Their
    insides are not modelled: a `Primitives` value stands for one implementation of all of
    them, and `Lawful` states the facts about them that the core relies on. Every theorem
    about the core holds for every lawful implementation. */
module Primitives {
  import opened Common

  /** Length of the Poly1305 tag the AEAD appends to the ciphertext. */
  const TagLength: nat := 16

  datatype Primitives = Primitives(
    /** X25519(k, u): scalar `k` (clamped inside) times the point with u-coordinate `u`. */
    x25519: (Bytes32, Bytes32) -> Bytes32,
    /** HKDF-SHA256 extract-and-expand with (salt, input key material, info) to 32 bytes. */
    hkdf: (Bytes, Bytes, Bytes) -> Bytes32,
    /** AEAD encryption (key, nonce, plaintext, associated data) to ciphertext ++ tag, or
        failure (the crate refuses a plaintext longer than the cipher can count). */
    seal: (Bytes32, Bytes12, Bytes, Bytes) -> Option<Bytes>,
    /** AEAD decryption (key, nonce, ciphertext ++ tag, associated data) to the plaintext,
        or failure when the tag does not verify. */
    open: (Bytes32, Bytes12, Bytes, Bytes) -> Option<Bytes>)

  /** The u-coordinate 9 of the Curve25519 base point, little-endian. */
  function BasePoint(): (u: Bytes32)
    ensures u[0] == 9 && forall i :: 1 <= i < 32 ==> u[i] == 0
  {
    [9] + Zeros(31)
  }

  /** What the core relies on:
      - opening a sealed message with the same key, nonce and associated data gives the
        plaintext back, and the ciphertext is the plaintext plus a 16-byte tag;
      - opening succeeds only on what sealing produces: the construction is deterministic,
        so if a ciphertext opens to `m`, sealing `m` gives that very ciphertext;
      - Diffie-Hellman agreement: a's scalar times b's public point equals b's scalar times
        a's public point. */
  ghost predicate Lawful(p: Primitives) {
    && (forall k, n, m, a, c :: p.seal(k, n, m, a) == Some(c) ==>
          p.open(k, n, c, a) == Some(m) && |c| == |m| + TagLength)
    && (forall k, n, c, a, m :: p.open(k, n, c, a) == Some(m) ==> p.seal(k, n, m, a) == Some(c))
    && (forall a, b :: p.x25519(a, p.x25519(b, BasePoint())) == p.x25519(b, p.x25519(a, BasePoint())))
  }

  /** A stand-in implementation used only to show that `Lawful` can be met: a constant
      Diffie-Hellman and key derivation, and an "AEAD" whose tag is 16 zero bytes. */
  function StandIn(): Primitives {
    Primitives(
      (k: Bytes32, u: Bytes32) => Zeros(32),
      (salt: Bytes, ikm: Bytes, info: Bytes) => Zeros(32),
      (k: Bytes32, n: Bytes12, m: Bytes, a: Bytes) => Some(m + Zeros(TagLength)),
      (k: Bytes32, n: Bytes12, c: Bytes, a: Bytes) =>
        if |c| >= TagLength && c[|c| - TagLength..] == Zeros(TagLength)
        then Some(c[..|c| - TagLength]) else None)
  }

  /** The assumptions are consistent: some implementation meets them. */
  lemma LawfulIsSatisfiable()
    ensures Lawful(StandIn())
  {
    var p := StandIn();
    forall k, n, m, a, c | p.seal(k, n, m, a) == Some(c)
      ensures p.open(k, n, c, a) == Some(m) && |c| == |m| + TagLength
    {
      assert c[..|c| - TagLength] == m && c[|c| - TagLength..] == Zeros(TagLength);
    }
    forall k, n, c, a, m | p.open(k, n, c, a) == Some(m)
      ensures p.seal(k, n, m, a) == Some(c)
    {
      assert c == c[..|c| - TagLength] + c[|c| - TagLength..];
    }
  }

  /** Under the laws, a sealed message is the plaintext plus the tag. */
  lemma SealedLength(p: Primitives, k: Bytes32, n: Bytes12, m: Bytes, a: Bytes)
    requires Lawful(p) && p.seal(k, n, m, a).Some?
    ensures |p.seal(k, n, m, a).value| == |m| + TagLength
  {
  }

  /** Under the laws, what was sealed opens to the plaintext. */
  lemma OpenOfSeal(p: Primitives, k: Bytes32, n: Bytes12, m: Bytes, a: Bytes)
    requires Lawful(p) && p.seal(k, n, m, a).Some?
    ensures p.open(k, n, p.seal(k, n, m, a).value, a) == Some(m)
  {
  }

  /** Under the laws, whatever opens is the sealing of what it opens to. */
  lemma SealOfOpen(p: Primitives, k: Bytes32, n: Bytes12, c: Bytes, a: Bytes)
    requires Lawful(p) && p.open(k, n, c, a).Some?
    ensures p.seal(k, n, p.open(k, n, c, a).value, a) == Some(c)
  {
  }
}
