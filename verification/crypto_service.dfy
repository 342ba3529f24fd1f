/** `CryptoService` (src/crypto/crypto_service.rs): the Diffie-Hellman shared secret, the
    per-chat key derived from it, and the sealed message envelope
    `base64(nonce ++ ciphertext ++ tag)` bound to the chat and the sender. */
module CryptoService {
  import opened Common
  import opened Utf8
  import B64 = Base64
  import opened Primitives
  import opened KeyManager

  /** `ChatKey`: the symmetric key of one chat. */
  datatype ChatKey = ChatKey(bytes: Bytes32)

  /** `CryptoError`: the envelope was not base64, or the AEAD refused it. */
  datatype CryptoError = Base64(cause: B64.DecodeError) | Aead

  /** The HKDF info string `b"chat-key"`. */
  const ChatKeyInfo: Bytes := [0x63, 0x68, 0x61, 0x74, 0x2D, 0x6B, 0x65, 0x79]

  /** The byte `'|'` that separates the chat id from the sender id in the associated data. */
  const Separator: Byte := 0x7C

  /** Nonce length of ChaCha20-Poly1305. */
  const NonceLength: nat := 12

  /** `derive_shared_secret`: our scalar times the peer's public point. */
  function DeriveSharedSecret(p: Primitives, myPrivate: Bytes32, peerPublic: Bytes32): Bytes32 {
    p.x25519(myPrivate, peerPublic)
  }

  /** `derive_shared_secret_from_identities`: the same, with the scalar of an identity. */
  function DeriveSharedSecretFromIdentities(p: Primitives, me: IdentityKeyPair, peerPublic: Bytes32): (r: Bytes32)
    ensures r == DeriveSharedSecret(p, me.private, peerPublic)
  {
    DeriveSharedSecret(p, me.private, peerPublic)
  }

  /** Both ends of a conversation compute the same shared secret, each from its own private
      key and the other's public key. */
  lemma SharedSecretAgreement(p: Primitives, alice: IdentityKeyPair, bob: IdentityKeyPair)
    requires Lawful(p) && Consistent(p, alice) && Consistent(p, bob)
    ensures DeriveSharedSecretFromIdentities(p, alice, bob.public)
         == DeriveSharedSecretFromIdentities(p, bob, alice.public)
  {
    assert p.x25519(alice.private, p.x25519(bob.private, BasePoint()))
        == p.x25519(bob.private, p.x25519(alice.private, BasePoint()));
  }

  /** `derive_chat_key`: HKDF-SHA256 with the chat id as salt, the shared secret as input
      key material and "chat-key" as info, expanded to 32 bytes (an expansion that short
      never fails, so the `expect` cannot fire). */
  function DeriveChatKey(p: Primitives, sharedSecret: Bytes32, chatId: Text): ChatKey {
    ChatKey(p.hkdf(chatId, sharedSecret, ChatKeyInfo))
  }

  /** Both members of a chat derive the same chat key from their own identities. */
  lemma ChatKeyAgreement(p: Primitives, alice: IdentityKeyPair, bob: IdentityKeyPair, chatId: Text)
    requires Lawful(p) && Consistent(p, alice) && Consistent(p, bob)
    ensures DeriveChatKey(p, DeriveSharedSecretFromIdentities(p, alice, bob.public), chatId)
         == DeriveChatKey(p, DeriveSharedSecretFromIdentities(p, bob, alice.public), chatId)
  {
    SharedSecretAgreement(p, alice, bob);
  }

  /** `format!("{chat_id}|{sender_id}")`: the associated data that binds an envelope to its
      chat and its sender. */
  function AssociatedData(chatId: Text, senderId: Text): (r: Text)
    ensures |r| == |chatId| + 1 + |senderId|
    ensures r[..|chatId|] == chatId && r[|chatId|] == Separator && r[|chatId| + 1..] == senderId
  {
    assert Valid([Separator][..1]) by { AsciiIsValid([Separator]); }
    ValidConcat([Separator], senderId);
    ValidConcat(chatId, [Separator] + senderId);
    chatId + ([Separator] + senderId)
  }

  /** When no chat id contains `'|'`, the associated data determines the chat and the
      sender: an envelope made for one pair cannot be opened as another pair's. */
  lemma AssociatedDataInjective(chat1: Text, sender1: Text, chat2: Text, sender2: Text)
    requires Separator !in chat1 && Separator !in chat2
    requires AssociatedData(chat1, sender1) == AssociatedData(chat2, sender2)
    ensures chat1 == chat2 && sender1 == sender2
  {
    if |chat1| != |chat2| {
      assert false;
    }
  }

  /** Without that restriction the binding is ambiguous: chat "a|b" with sender "c" and
      chat "a" with sender "b|c" share the associated data "a|b|c". */
  lemma AssociatedDataCollision()
    ensures var chat1: Bytes, sender1: Bytes := [0x61, 0x7C, 0x62], [0x63];
            var chat2: Bytes, sender2: Bytes := [0x61], [0x62, 0x7C, 0x63];
            Valid(chat1) && Valid(sender1) && Valid(chat2) && Valid(sender2) &&
            chat1 != chat2 && AssociatedData(chat1, sender1) == AssociatedData(chat2, sender2)
  {
    var chat1: Bytes, sender1: Bytes := [0x61, 0x7C, 0x62], [0x63];
    var chat2: Bytes, sender2: Bytes := [0x61], [0x62, 0x7C, 0x63];
    AsciiIsValid(chat1);
    AsciiIsValid(sender1);
    AsciiIsValid(chat2);
    AsciiIsValid(sender2);
    var a1 := AssociatedData(chat1, sender1);
    var a2 := AssociatedData(chat2, sender2);
    assert a1 == [0x61, 0x7C, 0x62, 0x7C, 0x63];
    assert a2 == [0x61, 0x7C, 0x62, 0x7C, 0x63];
  }

  /** `encrypt_message`: `nonce` stands for the 12 bytes `getrandom` supplies. The AEAD
      failure is the only error, reported as `Aead`; on success the text is the base64 of
      the nonce followed by the sealed message. */
  function EncryptMessage(p: Primitives, chatKey: ChatKey, plaintext: Text, chatId: Text, senderId: Text, nonce: Bytes12)
    : (r: Result<Text, CryptoError>)
    ensures r.Err? <==> p.seal(chatKey.bytes, nonce, plaintext, AssociatedData(chatId, senderId)).None?
    ensures r.Err? ==> r.error == Aead
    ensures r.Ok? ==>
      B64.Decode(r.value) == Ok(nonce + p.seal(chatKey.bytes, nonce, plaintext, AssociatedData(chatId, senderId)).value)
  {
    match p.seal(chatKey.bytes, nonce, plaintext, AssociatedData(chatId, senderId))
    case None => Err(Aead)
    case Some(ciphertext) =>
      var combined := nonce + ciphertext;
      B64.DecodeEncode(combined);
      Ok(B64.Encode(combined))
  }

  /** `decrypt_message`: text that is not base64 is a `Base64` error, whatever its length;
      fewer than 12 decoded bytes, or a message whose tag does not verify under this key,
      nonce and associated data, is an `Aead` error; otherwise the opened bytes come back,
      with every ill-formed UTF-8 subpart replaced by U+FFFD. */
  function DecryptMessage(p: Primitives, chatKey: ChatKey, encoded: Text, chatId: Text, senderId: Text)
    : (r: Result<Text, CryptoError>)
    ensures r.Err? && r.error.Base64? <==> B64.Decode(encoded).Err?
    ensures r.Err? && r.error.Base64? ==> r.error.cause == B64.Decode(encoded).error
    ensures r.Err? && r.error.Aead? <==>
      (var raw := B64.Decode(encoded);
       raw.Ok? && (|raw.value| < NonceLength ||
                   p.open(chatKey.bytes, raw.value[..NonceLength], raw.value[NonceLength..],
                          AssociatedData(chatId, senderId)).None?))
    ensures r.Ok? ==>
      (var raw := B64.Decode(encoded).value;
       |raw| >= NonceLength &&
       var clear := p.open(chatKey.bytes, raw[..NonceLength], raw[NonceLength..], AssociatedData(chatId, senderId));
       clear.Some? && r.value == Lossy(clear.value))
  {
    match B64.Decode(encoded)
    case Err(e) => Err(Base64(e))
    case Ok(raw) =>
      if |raw| < NonceLength then Err(Aead)
      else
        var nonce, ciphertext := raw[..NonceLength], raw[NonceLength..];
        match p.open(chatKey.bytes, nonce, ciphertext, AssociatedData(chatId, senderId))
        case None => Err(Aead)
        case Some(clear) =>
          Ok(Lossy(clear))
  }

  /** What the recipient decrypts with the same chat key, chat id and sender id is exactly
      what the sender encrypted. */
  lemma EncryptDecryptRoundTrip(p: Primitives, chatKey: ChatKey, plaintext: Text, chatId: Text, senderId: Text,
                                nonce: Bytes12, envelope: Text)
    requires Lawful(p)
    requires EncryptMessage(p, chatKey, plaintext, chatId, senderId, nonce) == Ok(envelope)
    ensures DecryptMessage(p, chatKey, envelope, chatId, senderId) == Ok(plaintext)
  {
    var aad := AssociatedData(chatId, senderId);
    var ciphertext := p.seal(chatKey.bytes, nonce, plaintext, aad).value;
    var raw := nonce + ciphertext;
    assert B64.Decode(envelope) == Ok(raw);
    assert raw[..NonceLength] == nonce && raw[NonceLength..] == ciphertext;
    OpenOfSeal(p, chatKey.bytes, nonce, plaintext, aad);
    LossyFixesValid(plaintext);
  }

  /** The bytes inside an envelope: the nonce and the sealed message, which is as long as
      the plaintext and the tag. */
  lemma EnvelopeBytes(p: Primitives, chatKey: ChatKey, plaintext: Text, chatId: Text, senderId: Text,
                      nonce: Bytes12, envelope: Text)
    requires Lawful(p)
    requires EncryptMessage(p, chatKey, plaintext, chatId, senderId, nonce) == Ok(envelope)
    ensures B64.Decode(envelope).Ok?
    ensures B64.Decode(envelope).value[..NonceLength] == nonce
    ensures |B64.Decode(envelope).value| == NonceLength + |plaintext| + TagLength
  {
    var aad := AssociatedData(chatId, senderId);
    var ciphertext := p.seal(chatKey.bytes, nonce, plaintext, aad).value;
    SealedLength(p, chatKey.bytes, nonce, plaintext, aad);
    assert B64.Decode(envelope) == Ok(nonce + ciphertext);
    assert (nonce + ciphertext)[..NonceLength] == nonce;
  }

  /** An envelope is 12 + |plaintext| + 16 bytes before base64, so the text is
      4 * ceil((28 + |plaintext|) / 3) characters long. */
  lemma EnvelopeLength(p: Primitives, chatKey: ChatKey, plaintext: Text, chatId: Text, senderId: Text,
                       nonce: Bytes12, envelope: Text)
    requires Lawful(p)
    requires EncryptMessage(p, chatKey, plaintext, chatId, senderId, nonce) == Ok(envelope)
    ensures |envelope| == 4 * ((NonceLength + |plaintext| + TagLength + 2) / 3)
  {
    EnvelopeBytes(p, chatKey, plaintext, chatId, senderId, nonce, envelope);
    B64.DecodedLength(envelope, NonceLength + |plaintext| + TagLength);
  }

  /** Whatever decrypts is the base64 of a nonce and a ciphertext that open under the chat
      key and the associated data, and the result is what they open to, decoded lossily. */
  lemma DecryptedEnvelope(p: Primitives, chatKey: ChatKey, encoded: Text, chatId: Text, senderId: Text)
    returns (nonce: Bytes12, ciphertext: Bytes)
    requires DecryptMessage(p, chatKey, encoded, chatId, senderId).Ok?
    ensures encoded == B64.Encode(nonce + ciphertext)
    ensures p.open(chatKey.bytes, nonce, ciphertext, AssociatedData(chatId, senderId)).Some?
    ensures DecryptMessage(p, chatKey, encoded, chatId, senderId).value
         == Lossy(p.open(chatKey.bytes, nonce, ciphertext, AssociatedData(chatId, senderId)).value)
  {
    var raw := B64.Decode(encoded).value;
    nonce, ciphertext := raw[..NonceLength], raw[NonceLength..];
    assert nonce + ciphertext == raw;
    B64.DecodedIsEncoding(encoded);
  }

  /** Only authentic envelopes decrypt: whatever decrypts under a chat key, chat id and
      sender id is the base64 of a nonce and a ciphertext that sealing some message under
      that very key and associated data produces, and the result is that message decoded
      lossily. */
  lemma DecryptOnlyAuthentic(p: Primitives, chatKey: ChatKey, encoded: Text, chatId: Text, senderId: Text)
    requires Lawful(p)
    requires DecryptMessage(p, chatKey, encoded, chatId, senderId).Ok?
    ensures exists nonce: Bytes12, message: Bytes, ciphertext: Bytes ::
      && p.seal(chatKey.bytes, nonce, message, AssociatedData(chatId, senderId)) == Some(ciphertext)
      && encoded == B64.Encode(nonce + ciphertext)
      && DecryptMessage(p, chatKey, encoded, chatId, senderId).value == Lossy(message)
  {
    var aad := AssociatedData(chatId, senderId);
    var nonce, ciphertext := DecryptedEnvelope(p, chatKey, encoded, chatId, senderId);
    var message := p.open(chatKey.bytes, nonce, ciphertext, aad).value;
    SealOfOpen(p, chatKey.bytes, nonce, ciphertext, aad);
    assert p.seal(chatKey.bytes, nonce, message, aad) == Some(ciphertext)
        && encoded == B64.Encode(nonce + ciphertext)
        && DecryptMessage(p, chatKey, encoded, chatId, senderId).value == Lossy(message);
  }
}
