/** The C interface (src/ffi.rs): every `hw_*` entry point checks its arguments in a fixed
    order and returns the negative code of the first check that fails, or 0 after it has
    written a freshly allocated C string into each out-slot. Pointers are modelled by what
    they point at: an input string by the memory it starts, an out-slot by whether it is
    null; the C strings written come back as their bytes, terminator included. */
module Ffi {
  import opened Common
  import opened Utf8
  import B64 = Base64
  import opened Primitives
  import opened KeyManager
  import opened CryptoService

  /** A `*const c_char` argument: null, or the memory it points at. */
  datatype CStrPtr = Null | Points(mem: Bytes)

  /** A `*mut *mut c_char` out-parameter: null, or a slot the callee may write. */
  datatype OutPtr = NullSlot | Slot

  /** What a two-string entry point hands back: its status and, on success, the C string it
      wrote into the out-slot. */
  datatype Reply = Reply(code: int, written: Option<Bytes>)

  /** What `hw_generate_identity_keypair` hands back: its status and the two C strings. */
  datatype KeypairReply = KeypairReply(code: int, privateOut: Option<Bytes>, publicOut: Option<Bytes>)

  /** `CStr::from_ptr`: the bytes before the first NUL, which ends the string. (Memory that
      holds no NUL at all stands for a string that runs to its end.) */
  function UntilNul(mem: Bytes): (r: Bytes)
    ensures |r| <= |mem| && r == mem[..|r|]
    ensures 0 !in r
    ensures |r| < |mem| ==> mem[|r|] == 0
  {
    if mem == [] || mem[0] == 0 then [] else [mem[0]] + UntilNul(mem[1..])
  }

  /** `cstr_to_string`: a null pointer, or bytes that are not valid UTF-8, are an error;
      otherwise the string they spell. */
  function CStrToString(ptr: CStrPtr): (r: Result<Text, ()>)
    ensures r.Err? <==> ptr.Null? || !Valid(UntilNul(ptr.mem))
    ensures r.Ok? ==> r.value == UntilNul(ptr.mem)
  {
    match ptr
    case Null => Err(())
    case Points(mem) =>
      var s := UntilNul(mem);
      if Valid(s) then Ok(s) else Err(())
  }

  /** The panic of `CString::new(..).expect(..)` on a string with an interior NUL. */
  const InteriorNul: string := "CString::new failed"

  /** `string_to_c`: the string followed by its terminator, or a panic when the string
      itself holds a NUL. */
  function StringToC(s: Text): (r: Run<Bytes>)
    ensures r.Panicked? <==> 0 in s
    ensures r.Returned? ==> UntilNul(r.value) == s && |r.value| == |s| + 1
  {
    if 0 in s then Panicked(InteriorNul)
    else
      UntilNulOfTerminated(s);
      Returned(s + [0])
  }

  /** Reading back a C string written by `string_to_c` gives the string written. */
  lemma {:induction false} UntilNulOfTerminated(s: Bytes)
    requires 0 !in s
    ensures UntilNul(s + [0]) == s
    decreases |s|
  {
    if s != [] {
      assert (s + [0])[0] == s[0] && (s + [0])[1..] == s[1..] + [0];
      UntilNulOfTerminated(s[1..]);
      assert s == [s[0]] + s[1..];
    }
  }

  /** A C string written by `string_to_c` passes `cstr_to_string` unchanged. */
  lemma CStringRoundTrip(s: Text)
    requires 0 !in s
    ensures StringToC(s).Returned? && CStrToString(Points(StringToC(s).value)) == Ok(s)
  {
  }

  /** Base64 text never holds a NUL, so writing it as a C string cannot panic. */
  lemma Base64ToC(b: Bytes)
    ensures 0 !in B64.Encode(b)
    ensures StringToC(B64.Encode(b)) == Returned(B64.Encode(b) + [0])
  {
  }

  /** Index of the first check that fails, or the number of checks when all pass. */
  function FirstFailure(checks: seq<bool>): (i: nat)
    ensures i <= |checks|
    ensures forall j :: 0 <= j < i ==> checks[j]
    ensures i < |checks| ==> !checks[i]
  {
    if checks == [] || !checks[0] then 0 else 1 + FirstFailure(checks[1..])
  }

  /** The status an entry point returns for its checks in order: 0 when all pass, else
      -(k + 1) for the first check k that fails. */
  function StatusCode(checks: seq<bool>): (code: int)
    ensures -|checks| <= code <= 0
    ensures code == 0 <==> forall j :: 0 <= j < |checks| ==> checks[j]
    ensures code < 0 ==> !checks[-code - 1] && forall j :: 0 <= j < -code - 1 ==> checks[j]
  {
    var i := FirstFailure(checks);
    if i == |checks| then 0 else -(i + 1)
  }

  /** The status is fixed by where the first failure is: -(k + 1) when checks 0 to k - 1
      pass and check k fails, 0 when all pass. */
  lemma StatusIs(checks: seq<bool>, k: nat)
    requires k <= |checks|
    requires forall j :: 0 <= j < k ==> checks[j]
    requires k < |checks| ==> !checks[k]
    ensures StatusCode(checks) == if k == |checks| then 0 else -(k + 1)
  {

  }

  /** The import returned an error rather than a value or a panic. */
  predicate Rejected<T, E>(run: Run<Result<T, E>>) {
    run.Returned? && run.value.Err?
  }

  /** `hw_generate_identity_keypair`: -1 when either slot is null, else 0 with the base64
      private and public keys of a freshly generated pair written; `seed` stands for the
      random bytes the generator draws. Writing base64 as a C string never panics. */
  function HwGenerateIdentityKeypair(p: Primitives, outPrivate: OutPtr, outPublic: OutPtr, seed: Bytes32)
    : (r: Run<KeypairReply>)
    ensures r.Returned?
    ensures r.value.code == StatusCode([outPrivate.Slot? && outPublic.Slot?])
    ensures r.value.code == 0 <==> r.value.privateOut.Some? && r.value.publicOut.Some?
    ensures r.value.code != 0 ==> r.value.privateOut.None? && r.value.publicOut.None?
    ensures r.value.code == 0 ==>
      var pair := GenerateIdentityKeypair(p, seed);
      UntilNul(r.value.privateOut.value) == ExportPrivateKeyBase64(pair) &&
      UntilNul(r.value.publicOut.value) == PublicKeyBase64(pair)
  {
    if outPrivate.NullSlot? || outPublic.NullSlot? then
      StatusIs([outPrivate.Slot? && outPublic.Slot?], 0);
      Returned(KeypairReply(-1, None, None))
    else
      StatusIs([outPrivate.Slot? && outPublic.Slot?], 1);
      var pair := GenerateIdentityKeypair(p, seed);
      var privateB64 := ExportPrivateKeyBase64(pair);
      var publicB64 := PublicKeyBase64(pair);
      Base64ToC(pair.private);
      Base64ToC(pair.public);
      var privateC := StringToC(privateB64).value;
      var publicC := StringToC(publicB64).value;
      Returned(KeypairReply(0, Some(privateC), Some(publicC)))
  }

  /** The checks of `hw_derive_shared_secret`, in order (-1 to -5). */
  function DeriveChecks(p: Primitives, myPrivate: CStrPtr, peerPublic: CStrPtr, out: OutPtr): seq<bool> {
    var priv := CStrToString(myPrivate);
    var peer := CStrToString(peerPublic);
    [ out.Slot?,
      priv.Ok?,
      peer.Ok?,
      priv.Ok? ==> !Rejected(ImportPrivateKeyBase64(p, priv.value)),
      peer.Ok? ==> !Rejected(PublicKeyFromBase64(peer.value)) ]
  }

  /** `hw_derive_shared_secret`: a status between -5 and 0, and a written string exactly
      on success. Its ladder and its panics are stated by `HwDeriveSharedSecretStatus`, its
      output by `HwDeriveSharedSecretOutput`. */
  function HwDeriveSharedSecret(p: Primitives, myPrivate: CStrPtr, peerPublic: CStrPtr, out: OutPtr)
    : (r: Run<Reply>)
    ensures r.Returned? ==> -5 <= r.value.code <= 0 && (r.value.code == 0 <==> r.value.written.Some?)
  {
    if out.NullSlot? then Returned(Reply(-1, None))
    else match CStrToString(myPrivate)
    case Err(_) => Returned(Reply(-2, None))
    case Ok(myPrivStr) =>
      match CStrToString(peerPublic)
      case Err(_) => Returned(Reply(-3, None))
      case Ok(peerPubStr) =>
        match ImportPrivateKeyBase64(p, myPrivStr)
        case Panicked(why) => Panicked(why)
        case Returned(Err(_)) => Returned(Reply(-4, None))
        case Returned(Ok(pair)) =>
          match PublicKeyFromBase64(peerPubStr)
          case Panicked(why) => Panicked(why)
          case Returned(Err(_)) => Returned(Reply(-5, None))
          case Returned(Ok(peerPub)) =>
            var shared := DeriveSharedSecretFromIdentities(p, pair, peerPub);
            Base64ToC(shared);
            Returned(Reply(0, Some(StringToC(B64.Encode(shared)).value)))
  }

  /** The status of `hw_derive_shared_secret` is that of `DeriveChecks`, unless decoding a
      key yields a length other than 32 bytes, which panics (the private key is imported,
      and may panic, before the public key is decoded). */
  lemma HwDeriveSharedSecretStatus(p: Primitives, myPrivate: CStrPtr, peerPublic: CStrPtr, out: OutPtr)
    ensures var r := HwDeriveSharedSecret(p, myPrivate, peerPublic, out);
      && (r.Returned? ==> r.value.code == StatusCode(DeriveChecks(p, myPrivate, peerPublic, out)))
      && (r.Panicked? <==>
            && out.Slot? && CStrToString(myPrivate).Ok? && CStrToString(peerPublic).Ok?
            && var imported := ImportPrivateKeyBase64(p, CStrToString(myPrivate).value);
               || imported.Panicked?
               || (imported.value.Ok? && PublicKeyFromBase64(CStrToString(peerPublic).value).Panicked?))
  {
    FiveRungs(DeriveChecks(p, myPrivate, peerPublic, out));
  }

  /** When both strings are base64 of 32 bytes, `hw_derive_shared_secret` writes the base64
      of the Diffie-Hellman secret of the clamped private key and the peer's point. */
  lemma HwDeriveSharedSecretOutput(p: Primitives, myPrivate: CStrPtr, peerPublic: CStrPtr,
                                   privateKey: Bytes32, peerKey: Bytes32)
    requires CStrToString(myPrivate).Ok? && B64.Decode(CStrToString(myPrivate).value) == Ok(privateKey)
    requires CStrToString(peerPublic).Ok? && B64.Decode(CStrToString(peerPublic).value) == Ok(peerKey)
    ensures HwDeriveSharedSecret(p, myPrivate, peerPublic, Slot)
         == Returned(Reply(0, Some(B64.Encode(DeriveSharedSecret(p, Clamp(privateKey), peerKey)) + [0])))
  {
  }

  /** When the checks before a last one all pass, the last decides; otherwise the status
      of the checks before it stands. */
  lemma StatusAppend(checks: seq<bool>, last: bool)
    ensures StatusCode(checks) != 0 ==> StatusCode(checks + [last]) == StatusCode(checks)
    ensures StatusCode(checks) == 0 ==> StatusCode(checks + [last]) == if last then 0 else -(|checks| + 1)
  {
    var code := StatusCode(checks);
    var all := checks + [last];
    if code != 0 {
      StatusIs(all, -code - 1);
    } else if last {
      StatusIs(all, |all|);
    } else {
      StatusIs(all, |checks|);
    }
  }

  /** The status of five checks, rung by rung. */
  lemma FiveRungs(c: seq<bool>)
    requires |c| == 5
    ensures StatusCode(c) ==
      if !c[0] then -1 else if !c[1] then -2 else if !c[2] then -3 else if !c[3] then -4
      else if !c[4] then -5 else 0
  {
    if !c[0] { StatusIs(c, 0); }
    else if !c[1] { StatusIs(c, 1); }
    else if !c[2] { StatusIs(c, 2); }
    else if !c[3] { StatusIs(c, 3); }
    else if !c[4] { StatusIs(c, 4); }
    else { StatusIs(c, 5); }
  }

  /** The status of seven checks, rung by rung. */
  lemma SevenRungs(c: seq<bool>)
    requires |c| == 7
    ensures StatusCode(c) ==
      if !c[0] then -1 else if !c[1] then -2 else if !c[2] then -3 else if !c[3] then -4
      else if !c[4] then -5 else if !c[5] then -6 else if !c[6] then -7 else 0
  {
    if !c[0] { StatusIs(c, 0); }
    else if !c[1] { StatusIs(c, 1); }
    else if !c[2] { StatusIs(c, 2); }
    else if !c[3] { StatusIs(c, 3); }
    else if !c[4] { StatusIs(c, 4); }
    else if !c[5] { StatusIs(c, 5); }
    else if !c[6] { StatusIs(c, 6); }
    else { StatusIs(c, 7); }
  }

  /** The argument checks `hw_encrypt_message` and `hw_decrypt_message` share, in order
      (-1 to -7): the out-slot, the four strings, the shared key's base64 and its
      length. */
  function ArgumentChecks(shared: CStrPtr, chatId: CStrPtr, senderId: CStrPtr, input: CStrPtr, out: OutPtr)
    : seq<bool>
  {
    var sharedStr := CStrToString(shared);
    [ out.Slot?,
      sharedStr.Ok?,
      CStrToString(chatId).Ok?,
      CStrToString(senderId).Ok?,
      CStrToString(input).Ok?,
      sharedStr.Ok? ==> B64.Decode(sharedStr.value).Ok?,
      sharedStr.Ok? ==> B64.Decode(sharedStr.value).Ok? ==> |B64.Decode(sharedStr.value).value| == 32 ]
  }

  /** The arguments of a message call once they have passed the argument checks: the
      32-byte shared key, the chat id, the sender id and the text or envelope. */
  datatype MessageArgs = MessageArgs(shared: Bytes32, chat: Text, sender: Text, input: Text)

  /** The argument ladder `hw_encrypt_message` and `hw_decrypt_message` both run (each
      writes it out in full): the status of the first failing check, or the arguments. */
  function ParseMessageArgs(shared: CStrPtr, chatId: CStrPtr, senderId: CStrPtr, input: CStrPtr, out: OutPtr)
    : (r: Result<MessageArgs, int>)
    ensures r.Err? ==> -7 <= r.error <= -1
  {
    if out.NullSlot? then Err(-1)
    else match CStrToString(shared)
    case Err(_) => Err(-2)
    case Ok(sharedStr) =>
      match CStrToString(chatId)
      case Err(_) => Err(-3)
      case Ok(chat) =>
        match CStrToString(senderId)
        case Err(_) => Err(-4)
        case Ok(sender) =>
          match CStrToString(input)
          case Err(_) => Err(-5)
          case Ok(text) =>
            match B64.Decode(sharedStr)
            case Err(_) => Err(-6)
            case Ok(decoded) =>
              if |decoded| != 32 then Err(-7)
              else Ok(MessageArgs(decoded, chat, sender, text))
  }

  /** The argument ladder fails with the status of `ArgumentChecks`, and succeeds exactly
      when they all pass. */
  lemma ParseMessageArgsStatus(shared: CStrPtr, chatId: CStrPtr, senderId: CStrPtr, input: CStrPtr, out: OutPtr)
    ensures var r := ParseMessageArgs(shared, chatId, senderId, input, out);
      var code := StatusCode(ArgumentChecks(shared, chatId, senderId, input, out));
      && (r.Err? ==> r.error == code)
      && (r.Ok? <==> code == 0)
  {
    SevenRungs(ArgumentChecks(shared, chatId, senderId, input, out));
  }

  /** What the argument ladder passes on: the strings the pointers spell and the decoded
      shared key. */
  lemma ParseMessageArgsValues(shared: CStrPtr, chatId: CStrPtr, senderId: CStrPtr, input: CStrPtr, out: OutPtr)
    ensures var r := ParseMessageArgs(shared, chatId, senderId, input, out);
      r.Ok? ==>
        && CStrToString(shared).Ok? && CStrToString(chatId).Ok? && CStrToString(senderId).Ok?
        && CStrToString(input).Ok? && B64.Decode(CStrToString(shared).value) == Ok(r.value.shared)
        && r.value.chat == CStrToString(chatId).value && r.value.sender == CStrToString(senderId).value
        && r.value.input == CStrToString(input).value
  {
  }

  /** The chat key a message call derives: HKDF of the shared key with the chat id. */
  function CallChatKey(p: Primitives, args: MessageArgs): ChatKey {
    DeriveChatKey(p, args.shared, args.chat)
  }

  /** The outcome of `encrypt_message` on the arguments of a message call. */
  function CallEncrypt(p: Primitives, args: MessageArgs, nonce: Bytes12): Result<Text, CryptoError> {
    EncryptMessage(p, CallChatKey(p, args), args.input, args.chat, args.sender, nonce)
  }

  /** The outcome of `decrypt_message` on the arguments of a message call. */
  function CallDecrypt(p: Primitives, args: MessageArgs): Result<Text, CryptoError> {
    DecryptMessage(p, CallChatKey(p, args), args.input, args.chat, args.sender)
  }

  /** The checks of `hw_encrypt_message` (-1 to -8): the argument checks, then the
      encryption itself. */
  function EncryptChecks(p: Primitives, shared: CStrPtr, chatId: CStrPtr, senderId: CStrPtr, plaintext: CStrPtr,
                         out: OutPtr, nonce: Bytes12): seq<bool>
  {
    var args := ParseMessageArgs(shared, chatId, senderId, plaintext, out);
    ArgumentChecks(shared, chatId, senderId, plaintext, out) + [args.Ok? ==> CallEncrypt(p, args.value, nonce).Ok?]
  }

  /** The checks of `hw_decrypt_message` (-1 to -8): the argument checks, then the
      decryption itself. */
  function DecryptChecks(p: Primitives, shared: CStrPtr, chatId: CStrPtr, senderId: CStrPtr, encrypted: CStrPtr,
                         out: OutPtr): seq<bool>
  {
    var args := ParseMessageArgs(shared, chatId, senderId, encrypted, out);
    ArgumentChecks(shared, chatId, senderId, encrypted, out) + [args.Ok? ==> CallDecrypt(p, args.value).Ok?]
  }

  /** `hw_encrypt_message`: it never panics; a status between -8 and 0 (every `CryptoError`
      is -8), and on success the envelope `encrypt_message` makes under the chat key
      derived from the shared key and the chat id, written as a C string; `nonce` stands
      for the random nonce. The ladder is stated by `HwEncryptMessageStatus`. */
  function HwEncryptMessage(p: Primitives, shared: CStrPtr, chatId: CStrPtr, senderId: CStrPtr, plaintext: CStrPtr,
                            out: OutPtr, nonce: Bytes12): (r: Run<Reply>)
    ensures r.Returned?
    ensures -8 <= r.value.code <= 0 && (r.value.code == 0 <==> r.value.written.Some?)
    ensures r.value.code == 0 ==>
      var args := ParseMessageArgs(shared, chatId, senderId, plaintext, out);
      args.Ok? && CallEncrypt(p, args.value, nonce).Ok? &&
      UntilNul(r.value.written.value) == CallEncrypt(p, args.value, nonce).value
  {
    match ParseMessageArgs(shared, chatId, senderId, plaintext, out)
    case Err(code) => Returned(Reply(code, None))
    case Ok(args) =>
      var chatKey := DeriveChatKey(p, args.shared, args.chat);
      match EncryptMessage(p, chatKey, args.input, args.chat, args.sender, nonce)
      case Err(_) => Returned(Reply(-8, None))
      case Ok(encrypted) =>
        B64.DecodedIsEncoding(encrypted);
        Base64ToC(B64.Decode(encrypted).value);
        Returned(Reply(0, Some(StringToC(encrypted).value)))
  }

  /** The status of `hw_encrypt_message` is that of `EncryptChecks`. */
  lemma HwEncryptMessageStatus(p: Primitives, shared: CStrPtr, chatId: CStrPtr, senderId: CStrPtr, plaintext: CStrPtr,
                               out: OutPtr, nonce: Bytes12)
    ensures HwEncryptMessage(p, shared, chatId, senderId, plaintext, out, nonce).value.code
         == StatusCode(EncryptChecks(p, shared, chatId, senderId, plaintext, out, nonce))
  {
    var args := ParseMessageArgs(shared, chatId, senderId, plaintext, out);
    ParseMessageArgsStatus(shared, chatId, senderId, plaintext, out);
    StatusAppend(ArgumentChecks(shared, chatId, senderId, plaintext, out),
                 args.Ok? ==> CallEncrypt(p, args.value, nonce).Ok?);
  }

  /** `hw_decrypt_message`: a status between -8 and 0 (every `CryptoError` is -8), and on
      success the text `decrypt_message` recovers, written as a C string; a recovered text
      holding a NUL byte makes `string_to_c` panic instead. The ladder is stated by
      `HwDecryptMessageStatus`. */
  function HwDecryptMessage(p: Primitives, shared: CStrPtr, chatId: CStrPtr, senderId: CStrPtr, encrypted: CStrPtr,
                            out: OutPtr): (r: Run<Reply>)
    ensures r.Returned? ==> -8 <= r.value.code <= 0 && (r.value.code == 0 <==> r.value.written.Some?)
    ensures r.Panicked? || r.value.code == 0 ==>
      var args := ParseMessageArgs(shared, chatId, senderId, encrypted, out);
      args.Ok? && CallDecrypt(p, args.value).Ok? &&
      (r.Panicked? <==> 0 in CallDecrypt(p, args.value).value) &&
      (r.Returned? ==> UntilNul(r.value.written.value) == CallDecrypt(p, args.value).value)
  {
    match ParseMessageArgs(shared, chatId, senderId, encrypted, out)
    case Err(code) => Returned(Reply(code, None))
    case Ok(args) =>
      var chatKey := DeriveChatKey(p, args.shared, args.chat);
      match DecryptMessage(p, chatKey, args.input, args.chat, args.sender)
      case Err(_) => Returned(Reply(-8, None))
      case Ok(decrypted) =>
        match StringToC(decrypted)
        case Panicked(why) => Panicked(why)
        case Returned(c) => Returned(Reply(0, Some(c)))
  }

  /** How `hw_decrypt_message` ends at each step of its ladder. */
  lemma HwDecryptMessageSteps(p: Primitives, shared: CStrPtr, chatId: CStrPtr, senderId: CStrPtr, encrypted: CStrPtr,
                              out: OutPtr)
    ensures var args := ParseMessageArgs(shared, chatId, senderId, encrypted, out);
      var r := HwDecryptMessage(p, shared, chatId, senderId, encrypted, out);
      && (args.Err? ==> r == Returned(Reply(args.error, None)))
      && (args.Ok? && CallDecrypt(p, args.value).Err? ==> r == Returned(Reply(-8, None)))
      && (args.Ok? && CallDecrypt(p, args.value).Ok? ==> r.Panicked? || r.value.code == 0)
  {
  }

  /** The status of `hw_decrypt_message`, when it returns, is that of `DecryptChecks`, and
      it panics only once all checks have passed. */
  lemma HwDecryptMessageStatus(p: Primitives, shared: CStrPtr, chatId: CStrPtr, senderId: CStrPtr, encrypted: CStrPtr,
                               out: OutPtr)
    ensures var r := HwDecryptMessage(p, shared, chatId, senderId, encrypted, out);
      var code := StatusCode(DecryptChecks(p, shared, chatId, senderId, encrypted, out));
      && (r.Returned? ==> r.value.code == code)
      && (r.Panicked? ==> code == 0)
  {
    var args := ParseMessageArgs(shared, chatId, senderId, encrypted, out);
    HwDecryptMessageSteps(p, shared, chatId, senderId, encrypted, out);
    ParseMessageArgsStatus(shared, chatId, senderId, encrypted, out);
    StatusAppend(ArgumentChecks(shared, chatId, senderId, encrypted, out),
                 args.Ok? ==> CallDecrypt(p, args.value).Ok?);
  }

  /** The two strings `hw_generate_identity_keypair` writes are a matching identity:
      importing the private one gives a pair whose public key is the one the public string
      spells. */
  lemma GeneratedStringsMatch(p: Primitives, seed: Bytes32)
    ensures var r := HwGenerateIdentityKeypair(p, Slot, Slot, seed).value;
      && r.code == 0
      && var privateStr := CStrToString(Points(r.privateOut.value));
         var publicStr := CStrToString(Points(r.publicOut.value));
         && privateStr.Ok? && publicStr.Ok?
         && var imported := ImportPrivateKeyBase64(p, privateStr.value);
            imported.Returned? && imported.value.Ok? &&
            PublicKeyFromBase64(publicStr.value) == Returned(Ok(imported.value.value.public))
  {
    StatusIs([true], 1);
    var pair := GenerateIdentityKeypair(p, seed);
    ImportExportRoundTrip(p, pair);
    PublicKeyRoundTrip(pair.public, pair);
  }

  /** Two users who exchange the public strings `hw_generate_identity_keypair` wrote each
      get the same shared-secret string from `hw_derive_shared_secret`. */
  lemma FfiSharedSecretAgreement(p: Primitives, seedA: Bytes32, seedB: Bytes32)
    requires Lawful(p)
    ensures var a := HwGenerateIdentityKeypair(p, Slot, Slot, seedA).value;
      var b := HwGenerateIdentityKeypair(p, Slot, Slot, seedB).value;
      a.code == 0 && b.code == 0 &&
      var ab := HwDeriveSharedSecret(p, Points(a.privateOut.value), Points(b.publicOut.value), Slot);
      var ba := HwDeriveSharedSecret(p, Points(b.privateOut.value), Points(a.publicOut.value), Slot);
      ab.Returned? && ab.value.code == 0 && ab == ba
  {
    StatusIs([true], 1);
    var pairA := GenerateIdentityKeypair(p, seedA);
    var pairB := GenerateIdentityKeypair(p, seedB);
    var a := HwGenerateIdentityKeypair(p, Slot, Slot, seedA).value;
    var b := HwGenerateIdentityKeypair(p, Slot, Slot, seedB).value;
    ClampFixesClamped(pairA.private);
    ClampFixesClamped(pairB.private);
    HwDeriveSharedSecretOutput(p, Points(a.privateOut.value), Points(b.publicOut.value), pairA.private, pairB.public);
    HwDeriveSharedSecretOutput(p, Points(b.privateOut.value), Points(a.publicOut.value), pairB.private, pairA.public);
    SharedSecretAgreement(p, pairA, pairB);
  }

  /** What `hw_encrypt_message` writes, handed to `hw_decrypt_message` with the same shared
      key, chat id and sender id, comes back as the plaintext string. */
  lemma FfiRoundTrip(p: Primitives, shared: CStrPtr, chatId: CStrPtr, senderId: CStrPtr, plaintext: CStrPtr,
                     nonce: Bytes12, envelope: Bytes)
    requires Lawful(p)
    requires HwEncryptMessage(p, shared, chatId, senderId, plaintext, Slot, nonce) == Returned(Reply(0, Some(envelope)))
    ensures HwDecryptMessage(p, shared, chatId, senderId, Points(envelope), Slot)
         == Returned(Reply(0, Some(UntilNul(plaintext.mem) + [0])))
  {
    var args := ParseMessageArgs(shared, chatId, senderId, plaintext, Slot).value;
    ParseMessageArgsValues(shared, chatId, senderId, plaintext, Slot);
    var sealed := CallEncrypt(p, args, nonce).value;
    assert CStrToString(Points(envelope)) == Ok(sealed);
    ParseMessageArgsValues(shared, chatId, senderId, Points(envelope), Slot);
    assert ParseMessageArgs(shared, chatId, senderId, Points(envelope), Slot)
        == Ok(MessageArgs(args.shared, args.chat, args.sender, sealed));
    EncryptDecryptRoundTrip(p, CallChatKey(p, args), args.input, args.chat, args.sender, nonce, sealed);
  }
}
