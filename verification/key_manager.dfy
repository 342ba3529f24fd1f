/** `KeyManager` (src/crypto/key_manager.rs): identity key pairs, and the base64 forms in
    which their private and public halves leave the device. */
module KeyManager {
  import opened Common
  import opened Utf8
  import Base64
  import opened Primitives

  /** The scalar is already in clamped form. */
  predicate Clamped(k: Bytes32) {
    k[0] & 7 == 0 && k[31] & 0x80 == 0 && k[31] & 0x40 == 0x40
  }

  /** Clamping of an X25519 scalar (decodeScalar25519, section 5 of RFC 7748): the three
      low bits cleared, the top bit cleared and bit 254 set. x25519-dalek 1.x applies it
      whenever a `StaticSecret` is built from bytes or from the random source. The result
      is clamped, and every other bit of the scalar is kept. */
  function Clamp(k: Bytes32): (r: Bytes32)
    ensures Clamped(r)
    ensures forall i :: 0 < i < 31 ==> r[i] == k[i]
    ensures r[0] >> 3 == k[0] >> 3 && r[31] & 63 == k[31] & 63
  {
    k[0 := k[0] & 248][31 := (k[31] & 127) | 64]
  }

  /** Clamping yields a clamped scalar and leaves a clamped one unchanged, so clamping twice
      is clamping once. */
  lemma ClampFixesClamped(k: Bytes32)
    ensures Clamped(Clamp(k))
    ensures Clamp(k) == k <==> Clamped(k)
  {
    var c := Clamp(k);
    assert c[0] == k[0] & 248 && c[31] == (k[31] & 127) | 64;
    if Clamped(k) {
      assert k[0] & 248 == k[0] && (k[31] & 127) | 64 == k[31];
      assert c == k;
    }
  }

  /** `IdentityKeyPair`: the private `StaticSecret` (its 32 bytes) and the public point. */
  datatype IdentityKeyPair = IdentityKeyPair(private: Bytes32, public: Bytes32)

  /** `PublicKey::from(&private)`: the scalar times the base point. */
  function PublicKeyOf(p: Primitives, private: Bytes32): Bytes32 {
    p.x25519(private, BasePoint())
  }

  /** The invariant of every pair the key manager hands out: a clamped private scalar and
      the public point that belongs to it. */
  predicate Consistent(p: Primitives, pair: IdentityKeyPair) {
    Clamped(pair.private) && pair.public == PublicKeyOf(p, pair.private)
  }

  /** The pair built from a `StaticSecret` made of these bytes. */
  function PairFromBytes(p: Primitives, bytes: Bytes32): (pair: IdentityKeyPair)
    ensures Consistent(p, pair)
  {
    ClampFixesClamped(bytes);
    var private := Clamp(bytes);
    IdentityKeyPair(private, PublicKeyOf(p, private))
  }

  /** `generate_identity_keypair`: `seed` stands for the 32 bytes `OsRng` supplies. */
  function GenerateIdentityKeypair(p: Primitives, seed: Bytes32): (pair: IdentityKeyPair)
    ensures Consistent(p, pair)
  {
    PairFromBytes(p, seed)
  }

  /** `export_private_key_base64`: the 44-character base64 text of exactly the 32 private
      bytes. */
  function ExportPrivateKeyBase64(pair: IdentityKeyPair): (r: Text)
    ensures Base64.Decode(r) == Ok(pair.private)
    ensures |r| == 44
  {
    Base64.DecodeEncode(pair.private);
    Base64.EncodeLength(pair.private);
    Base64.Encode(pair.private)
  }

  /** `import_private_key_base64`: text that is not base64 is an error; base64 of a length
      other than 32 bytes panics in `copy_from_slice`; 32 bytes give a consistent pair whose
      private scalar is those bytes clamped. */
  function ImportPrivateKeyBase64(p: Primitives, encoded: Text): (r: Run<Result<IdentityKeyPair, Base64.DecodeError>>)
    ensures r.Returned? && r.value.Err? <==> Base64.Decode(encoded).Err?
    ensures r.Panicked? <==> Base64.Decode(encoded).Ok? && |Base64.Decode(encoded).value| != 32
    ensures r.Returned? && r.value.Ok? ==>
      Consistent(p, r.value.value) && r.value.value.private == Clamp(Base64.Decode(encoded).value)
  {
    match Base64.Decode(encoded)
    case Err(e) => Returned(Err(e))
    case Ok(bytes) =>
      if |bytes| != 32 then Panicked(LengthMismatch)
      else Returned(Ok(PairFromBytes(p, bytes)))
  }

  /** `import_private_key_base64` as written: the decoded bytes are copied into a zeroed
      32-byte buffer, from which the secret is built. */
  method ImportIntoBuffer(p: Primitives, encoded: Text) returns (r: Run<Result<IdentityKeyPair, Base64.DecodeError>>)
    ensures r == ImportPrivateKeyBase64(p, encoded)
  {
    var decoded := Base64.Decode(encoded);
    if decoded.Err? {
      return Returned(Err(decoded.error));
    }
    var arr := new Byte[32](_ => 0);
    var copied := CopyFromSlice(arr, decoded.value);
    if copied.Panicked? {
      return Panicked(copied.reason);
    }
    return Returned(Ok(PairFromBytes(p, arr[..])));
  }

  /** `public_key_base64`: the base64 text of the 32 bytes of the public point. */
  function PublicKeyBase64(pair: IdentityKeyPair): (r: Text)
    ensures Base64.Decode(r) == Ok(pair.public)
    ensures |r| == 44
  {
    Base64.DecodeEncode(pair.public);
    Base64.EncodeLength(pair.public);
    Base64.Encode(pair.public)
  }

  /** `public_key_from_base64`: text that is not base64 is an error; base64 of a length
      other than 32 bytes panics in `copy_from_slice`; any 32 bytes are accepted as a point,
      with no check that they lie on the curve or have large order. */
  function PublicKeyFromBase64(encoded: Text): (r: Run<Result<Bytes32, Base64.DecodeError>>)
    ensures r.Returned? && r.value.Err? <==> Base64.Decode(encoded).Err?
    ensures r.Panicked? <==> Base64.Decode(encoded).Ok? && |Base64.Decode(encoded).value| != 32
    ensures r.Returned? && r.value.Ok? ==> Base64.Encode(r.value.value) == encoded
  {
    match Base64.Decode(encoded)
    case Err(e) => Returned(Err(e))
    case Ok(bytes) =>
      Base64.DecodedIsEncoding(encoded);
      if |bytes| != 32 then Panicked(LengthMismatch)
      else Returned(Ok(bytes))
  }

  /** `public_key_from_base64` as written: the decoded bytes are copied into a zeroed
      32-byte buffer, which becomes the point. */
  method PublicKeyIntoBuffer(encoded: Text) returns (r: Run<Result<Bytes32, Base64.DecodeError>>)
    ensures r == PublicKeyFromBase64(encoded)
  {
    var decoded := Base64.Decode(encoded);
    if decoded.Err? {
      return Returned(Err(decoded.error));
    }
    var arr := new Byte[32](_ => 0);
    var copied := CopyFromSlice(arr, decoded.value);
    if copied.Panicked? {
      return Panicked(copied.reason);
    }
    return Returned(Ok(arr[..]));
  }

  /** Every 32-byte string survives the trip through base64 as a public key, in particular
      the public half of any pair. */
  lemma PublicKeyRoundTrip(k: Bytes32, pair: IdentityKeyPair)
    ensures PublicKeyFromBase64(Base64.Encode(k)) == Returned(Ok(k))
    ensures PublicKeyFromBase64(PublicKeyBase64(pair)) == Returned(Ok(pair.public))
  {
    Base64.DecodeEncode(k);
    Base64.DecodeEncode(pair.public);
  }

  /** Importing an exported pair gives back the same pair, the same public key included. */
  lemma ImportExportRoundTrip(p: Primitives, pair: IdentityKeyPair)
    requires Consistent(p, pair)
    ensures ImportPrivateKeyBase64(p, ExportPrivateKeyBase64(pair)) == Returned(Ok(pair))
  {
    ClampFixesClamped(pair.private);
  }
}
