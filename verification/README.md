# Messenger crypto core — a Dafny model

This project models the Rust cryptographic core of the messenger and proves properties of
that model. The core has three parts:

- **Key manager** (`src/crypto/key_manager.rs`). It creates X25519 identity key pairs. It
  exports and imports the 32-byte private key as base64, and does the same for the 32-byte
  public key.
- **Crypto service** (`src/crypto/crypto_service.rs`). It computes the Diffie-Hellman
  shared secret and the per-chat key (HKDF-SHA256, salt = chat id, info = `"chat-key"`).
  It also seals and opens messages. An envelope is `base64(nonce ++ ciphertext ++ tag)`,
  made with ChaCha20-Poly1305 and the associated data `chat_id ++ "|" ++ sender_id`.
- **C interface** (`src/ffi.rs`). Each `hw_*` entry point runs an ordered ladder of
  checks. It returns the negative code of the first check that fails. On success it
  returns 0 and writes base64 or text into its out-slots as C strings.

Modules, one per file:

| file | module | contents |
|---|---|---|
| `common.dfy` | `Common` | bytes, `Option`, `Result`, `Run` (returned or panicked), `[u8; N]`, `copy_from_slice` |
| `utf8.dfy` | `Utf8` | UTF-8 validity (Unicode Table 3-7), `String::from_utf8_lossy` |
| `base64.dfy` | `Base64` | the `base64` crate's `STANDARD` engine (section 4 of RFC 4648: canonical padding, no trailing bits) |
| `primitives.dfy` | `Primitives` | X25519, HKDF-SHA256 and ChaCha20-Poly1305 as a value of function type, with their laws |
| `key_manager.dfy` | `KeyManager` | `key_manager.rs` |
| `crypto_service.dfy` | `CryptoService` | `crypto_service.rs` |
| `ffi.dfy` | `Ffi` | `ffi.rs` |

How each kind of input and effect is modelled:

- **Crypto primitives.** X25519, HKDF and the AEAD are not implemented. A `Primitives`
  value stands for one implementation, and every theorem that needs them assumes
  `Lawful(p)`. That law says:
  - opening a sealed message gives it back, with a 16-byte tag;
  - only sealed messages open, because the AEAD is deterministic;
  - X25519 on the base point commutes.

  `LawfulIsSatisfiable` shows these laws can all hold at once.
- **Base64 and UTF-8.** Both are written out in full, so their round trips are proved
  rather than assumed.
- **Randomness.** The random seed of key generation and the random nonce of encryption are
  parameters.
- **Panics.** A panic is the `Panicked` outcome of `Run`. Its `reason` is a label naming
  the panic, not Rust's message text (which, for `copy_from_slice`, also gives both lengths).
- **C pointers.** An input pointer is modelled by the memory it points at. An out-slot is
  modelled by whether it is null. A written C string is modelled by its bytes, terminator
  included.

The model follows the code in four places where the code does not do what its
documentation says:

- Importing a private key or decoding a public key from base64 that is well formed but not
  32 bytes long does not return a decode error. It panics in `copy_from_slice`.
- Decrypted bytes are converted with `String::from_utf8_lossy`, so ill-formed UTF-8 becomes
  U+FFFD. It is not rejected.
- The associated data `chat_id|sender_id` is ambiguous when an id contains `'|'`.
- `hw_decrypt_message` panics inside `CString::new` when a decrypted message contains a NUL
  byte. It does not return an error code.

## Model

| member | source | states |
|---|---|---|
| Common.CopyFromSlice | src/crypto/key_manager.rs:31-32 | Lengths that differ panic and leave the destination untouched. Otherwise the destination becomes the source, byte for byte. |
| Utf8.Lossy | src/crypto/crypto_service.rs:120 | `String::from_utf8_lossy` replaces each ill-formed subpart with U+FFFD. The result is always valid UTF-8, so the decrypted `String` is well formed. |
| Utf8.LossyIdentityIffValid | src/crypto/crypto_service.rs:120 | Lossy decoding leaves the bytes unchanged exactly when they are already valid UTF-8. |
| Utf8.LossyFixesValid | src/crypto/crypto_service.rs:120 | Bytes that came from a `&str` come back unchanged from lossy decoding. |
| Utf8.ValidConcat | src/crypto/crypto_service.rs:76 | Joining valid strings, as `format!` does, gives a valid string. |
| Base64.Encode | src/crypto/crypto_service.rs:90 | Base64 output is ASCII with no NUL byte, so it is a valid `String` and a valid C string. |
| Base64.EncodeLength | src/crypto/crypto_service.rs:90 | The encoding of n bytes has 4·⌈n/3⌉ characters. |
| Base64.Decode | src/crypto/key_manager.rs:30 | `BASE64.decode` with the `STANDARD` engine. A length that is not a multiple of four is refused. The quanta decode in turn; only the last may end in "=" or "==", and its unused low bits must be zero. It has no contract of its own: `DecodeIffEncode` states what it accepts and returns. |
| Base64.DecodeEncode | src/crypto/crypto_service.rs:100 | Decoding an encoding gives the original bytes. |
| Base64.DecodedIsEncoding | src/crypto/crypto_service.rs:100 | Any text that decodes is the encoding of its result, so there is one accepted text per byte string (canonical padding). |
| Base64.DecodeIffEncode | src/crypto/crypto_service.rs:100 | `Decode(s) == Ok(b)` holds exactly when `s == Encode(b)`. |
| Base64.DecodedLength | src/crypto/crypto_service.rs:100 | Text that decodes to n bytes has 4·⌈n/3⌉ characters. |
| Primitives.BasePoint | src/crypto/key_manager.rs:18 | The X25519 base point is u = 9, little-endian. |
| KeyManager.Clamp | src/crypto/key_manager.rs:33 | Building a `StaticSecret` from bytes clamps the scalar. The result is clamped, and every bit outside the five clamping bits is kept. |
| KeyManager.ClampFixesClamped | src/crypto/key_manager.rs:33 | Building a `StaticSecret` clamps the scalar. Clamping gives a clamped scalar and leaves a clamped one unchanged, so it is idempotent. |
| KeyManager.PublicKeyOf | src/crypto/key_manager.rs:34 | `PublicKey::from(&private)` is X25519 of the private scalar and the base point. It is a definition with no contract; `Consistent` and `SharedSecretAgreement` state what depends on it. |
| KeyManager.PairFromBytes | src/crypto/key_manager.rs:33-35 | A secret built from bytes gives a consistent pair: a clamped private key and `public == PublicKey::from(&private)`. |
| KeyManager.GenerateIdentityKeypair | src/crypto/key_manager.rs:16-20 | A generated pair satisfies `public == PublicKey::from(&private)`. |
| KeyManager.ExportPrivateKeyBase64 | src/crypto/key_manager.rs:23-26 | The export is 44 characters that decode to exactly the 32 private bytes. |
| KeyManager.ImportPrivateKeyBase64 | src/crypto/key_manager.rs:29-36 | Invalid base64 gives `Err`. Base64 of a length other than 32 bytes panics. 32 bytes give a consistent pair whose private key is those bytes, clamped. |
| KeyManager.ImportIntoBuffer | src/crypto/key_manager.rs:29-36 | Copying into the zeroed `[u8; 32]` buffer gives exactly the outcome of `ImportPrivateKeyBase64`. |
| KeyManager.PublicKeyBase64 | src/crypto/key_manager.rs:39-41 | The text is 44 characters that decode to exactly the 32 bytes of the public point. |
| KeyManager.PublicKeyFromBase64 | src/crypto/key_manager.rs:44-49 | Invalid base64 gives `Err`. Base64 of a length other than 32 bytes panics. Any 32 bytes are accepted, with no curve check, and re-encode to the input. |
| KeyManager.PublicKeyIntoBuffer | src/crypto/key_manager.rs:44-49 | Copying into the zeroed buffer gives exactly the outcome of `PublicKeyFromBase64`. |
| KeyManager.PublicKeyRoundTrip | src/crypto/key_manager.rs:39-49 | `public_key_from_base64(public_key_base64(pair))` is `Ok(pair.public)`. The same holds for the encoding of any 32 bytes. |
| KeyManager.ImportExportRoundTrip | src/crypto/key_manager.rs:23-35 | Importing the export of a consistent pair gives back the same pair, including the same public key. |
| CryptoService.DeriveSharedSecret | src/crypto/crypto_service.rs:34-39 | `diffie_hellman(peer).to_bytes()` is X25519 of our private scalar and the peer's point, 32 bytes, and cannot fail. It is a definition with no contract; `SharedSecretAgreement` states the agreement. |
| CryptoService.DeriveSharedSecretFromIdentities | src/crypto/crypto_service.rs:42-47 | Equals `derive_shared_secret(me.private, peer)`. |
| CryptoService.SharedSecretAgreement | src/crypto/crypto_service.rs:34-47 | For consistent pairs, each party's private key with the other's public key gives the same 32-byte secret. |
| CryptoService.DeriveChatKey | src/crypto/crypto_service.rs:50-56 | HKDF-SHA256 with salt = chat id, IKM = shared secret and info = `b"chat-key"`, expanded to 32 bytes. An expansion that short cannot fail, so there is no error and no panic. It is a definition with no contract; `ChatKeyAgreement` states the agreement. |
| CryptoService.ChatKeyAgreement | src/crypto/crypto_service.rs:50-56 | Both members of a chat derive the same chat key. |
| CryptoService.AssociatedData | src/crypto/crypto_service.rs:76 | The associated data is the chat id, then `'|'`, then the sender id. |
| CryptoService.AssociatedDataInjective | src/crypto/crypto_service.rs:111 | When neither chat id contains `'|'`, equal associated data means the same chat and the same sender. |
| CryptoService.AssociatedDataCollision | src/crypto/crypto_service.rs:111 | ("a\|b", "c") and ("a", "b\|c") give the same associated data. |
| CryptoService.EncryptMessage | src/crypto/crypto_service.rs:60-91 | It fails exactly when the AEAD fails, and then only with `Aead`. On success the text decodes to the sampled 12-byte nonce followed by the sealed message. |
| CryptoService.DecryptMessage | src/crypto/crypto_service.rs:94-122 | Not base64 gives `Base64`, before any length check. Fewer than 12 bytes, or a tag that fails under this key, nonce and associated data, gives `Aead`. Otherwise the result is the opened bytes decoded lossily. |
| CryptoService.EncryptDecryptRoundTrip | src/crypto/crypto_service.rs:60-122 | Decrypting an envelope with the same key, chat id and sender id gives back the plaintext. |
| CryptoService.EnvelopeBytes | src/crypto/crypto_service.rs:86-90 | An envelope decodes to 12 + \|plaintext\| + 16 bytes, and the first 12 are the nonce. |
| CryptoService.EnvelopeLength | src/crypto/crypto_service.rs:86-90 | The envelope text is 4·⌈(28 + \|plaintext\|)/3⌉ characters long. |
| CryptoService.DecryptedEnvelope | src/crypto/crypto_service.rs:103-121 | Anything that decrypts is the base64 of a nonce and a ciphertext that open under the chat key and associated data. The result is what they open to, decoded lossily. |
| CryptoService.DecryptOnlyAuthentic | src/crypto/crypto_service.rs:117-121 | Anything that decrypts is the base64 of a nonce and the sealing of some message under the same key and associated data. The result is that message, decoded lossily. |
| Ffi.UntilNul | src/ffi.rs:19 | `CStr::from_ptr` reads the bytes before the first NUL. They are a prefix of the memory, contain no NUL, and are followed by a NUL. |
| Ffi.CStrToString | src/ffi.rs:14-24 | `Err` exactly when the pointer is null or the bytes are not valid UTF-8. Otherwise the string the bytes spell. |
| Ffi.StringToC | src/ffi.rs:26-30 | Panics exactly when the string contains a NUL. Otherwise writes the string and its terminator. |
| Ffi.UntilNulOfTerminated | src/ffi.rs:26-30 | Reading back a NUL-free string followed by its terminator gives the string. |
| Ffi.CStringRoundTrip | src/ffi.rs:14-30 | `cstr_to_string` of what `string_to_c` wrote gives the string back. |
| Ffi.Base64ToC | src/ffi.rs:26-30 | Writing base64 text as a C string never panics. |
| Ffi.StatusCode | src/ffi.rs:78-108 | The ladder's status is 0 exactly when every check passes. Otherwise it is -(k+1) for the first failing check k. |
| Ffi.HwGenerateIdentityKeypair | src/ffi.rs:47-65 | Returns -1 when either slot is null, writing nothing. Otherwise returns 0 and writes the exported private key and the public key of the generated pair. |
| Ffi.HwDeriveSharedSecret | src/ffi.rs:73-109 | The status is between -5 and 0, and a string is written exactly when it is 0. |
| Ffi.HwDeriveSharedSecretStatus | src/ffi.rs:78-99 | The status is that of the ordered checks: out-slot (-1), private string (-2), peer string (-3), import error (-4), peer decode error (-5). It panics exactly when a key decodes to a length other than 32, checking the private key before the peer key. |
| Ffi.HwDeriveSharedSecretOutput | src/ffi.rs:101-108 | With two keys that decode to 32 bytes, returns 0 and writes the base64 of X25519(clamped private key, peer point). |
| Ffi.ParseMessageArgs | src/ffi.rs:126-155 | The shared argument ladder of the message calls fails only with a code from -7 to -1. |
| Ffi.ParseMessageArgsStatus | src/ffi.rs:126-154 | The ladder fails with the status of the ordered checks: out-slot (-1), the four strings in parameter order (-2..-5), shared key not base64 (-6), not 32 bytes (-7). It succeeds exactly when all of them pass. |
| Ffi.ParseMessageArgsValues | src/ffi.rs:147-158 | On success the arguments are the strings the pointers spell and the decoded 32-byte shared key. |
| Ffi.HwEncryptMessage | src/ffi.rs:119-175 | Never panics. The status is between -8 and 0, a string is written exactly when it is 0, and that string is the envelope `encrypt_message` makes under the chat key derived from the shared key and chat id. |
| Ffi.HwEncryptMessageStatus | src/ffi.rs:126-168 | The status is that of the argument checks followed by the encryption. Every `CryptoError` gives -8, after all argument checks. |
| Ffi.HwDecryptMessage | src/ffi.rs:183-239 | The status is between -8 and 0, and a string is written exactly when it is 0. On 0 the string is the text `decrypt_message` recovers. It panics exactly when that text contains a NUL. |
| Ffi.HwDecryptMessageSteps | src/ffi.rs:190-232 | A failed argument check returns its own status and writes nothing. A failed decryption returns -8. Once decryption succeeds, the call either panics or returns 0. |
| Ffi.HwDecryptMessageStatus | src/ffi.rs:190-232 | The status is that of the argument checks followed by the decryption, so `Base64` and `Aead` errors both give -8. A panic happens only after every check has passed. |
| Ffi.GeneratedStringsMatch | src/ffi.rs:55-62 | The two strings written by key generation form a matching identity: importing the private string gives the public key the public string spells. |
| Ffi.FfiSharedSecretAgreement | src/ffi.rs:73-109 | Two users who exchange generated public strings get identical shared-secret strings with code 0. |
| Ffi.FfiRoundTrip | src/ffi.rs:157-172 | Encrypt and decrypt derive the chat key the same way. What `hw_encrypt_message` writes, given to `hw_decrypt_message` with the same shared key, chat id and sender id, comes back as the plaintext string. |

## Left out

- `CryptoService::now_ms` reads the wall clock (src/crypto/crypto_service.rs:125-130).
- Randomness: `OsRng` and `getrandom` are replaced by seed and nonce parameters. Their failure (the `expect("random nonce")` panic) and the quality and independence of what they draw are not modelled.
- X25519, SHA-256/HKDF and ChaCha20-Poly1305 internals: only the laws in `Lawful` are assumed. The AEAD is assumed deterministic, as ChaCha20-Poly1305 is. The HKDF `expect` cannot fire for a 32-byte output, so HKDF is total.
- Secrecy, unforgeability and key independence are not expressible over this model. Authenticity is stated only relative to the sealing function.
- `base64::DecodeError` variants (invalid byte and offset, invalid length, invalid last symbol, padding) collapse into one `InvalidEncoding`. The core only propagates the error or maps it to a status code.
- Pointer ownership: `hw_free_string`, `CString::into_raw`/`from_raw` and `ptr::write` through raw pointers. Written strings are returned as values, with no allocation, aliasing or freeing.
- A C string whose memory holds no NUL is read to the end of the memory. In C, reading past the terminator is undefined behaviour.
- In-place buffers other than the two key-manager imports are modelled as values: the HKDF `okm` array, `nonce_bytes`, the `combined` vector built by two `extend_from_slice` calls, and the FFI `shared_bytes` copy.
- `ChatId` and `UserId` are taken to be strings whose `Display` writes the string itself. `src/models/ids.rs` is not part of this model.
- x25519-dalek 1.x semantics are assumed: a `StaticSecret` is clamped when it is built, so `to_bytes` returns the clamped scalar.
- There is no concurrency in the core. UI code, the C++ bridge stubs and the serde model records are not part of this model.
- Ffi.HwDecryptMessageStatus: states the panic in one direction only (it happens only after all checks pass). The converse is in the contract of `Ffi.HwDecryptMessage`.
