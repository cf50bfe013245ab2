/** Key derivation from a wallet signature, and encryption and decryption of
    text under the derived AES-CTR key, with the envelope `ivHex:ctHex`.
    The cryptography, the text codec and the wallet are foreign: they are the
    fields of a `Platform` value and a wallet parameter, and what the proofs
    need of them is stated as predicates. */
module Helpers {
  import opened Js
  import opened Hex
  import opened Factories

  /** The fixed sentence the wallet is asked to sign. */
  const PayloadToSign: string := "The quick brown fox jumps over the lazy dog"

  const KeyErrorMessage: string := "Error generating the key"
  const EncryptErrorMessage: string := "Error encrypting the data"
  const DecryptErrorMessage: string := "Error decrypting the data"

  /** An opaque WebCrypto key handle. */
  datatype CryptoKey = CryptoKey(handle: nat)

  /** A request to the wallet provider, `window.ethereum.request({method, params})`. */
  datatype RpcRequest = RpcRequest(rpcMethod: string, params: seq<string>)

  /** The arguments of `crypto.subtle.importKey(format, keyData, {name, hash},
      extractable, usages)`. */
  datatype KeyImport = KeyImport(
    format: string,
    keyData: seq<byte>,
    algorithm: string,
    hash: string,
    extractable: bool,
    usages: seq<string>)

  /** `crypto.subtle.encrypt` or `crypto.subtle.decrypt`. */
  datatype CipherOp = EncryptOp | DecryptOp

  /** The algorithm argument `{name, counter, length}` of the cipher calls. */
  datatype CtrParams = CtrParams(name: string, counter: seq<byte>, length: nat)

  /** The two parts an envelope carries. */
  datatype Envelope = Envelope(iv: seq<byte>, ciphertext: seq<byte>)

  /** The foreign code the helpers call. Each field is a total function: a
      foreign call that can fail returns `Threw`. */
  datatype Platform = Platform(
    // new TextEncoder().encode(s), and Buffer.from(s), both UTF-8
    utf8Encode: string -> seq<byte>,
    // new TextDecoder().decode(bytes), without `fatal`, so it never fails
    utf8Decode: seq<byte> -> string,
    // crypto.subtle.digest(algorithm, data)
    digest: (string, seq<byte>) -> Outcome<seq<byte>>,
    // crypto.subtle.importKey(...)
    importKey: KeyImport -> Outcome<CryptoKey>,
    // crypto.subtle.encrypt / crypto.subtle.decrypt
    cipher: (CipherOp, CtrParams, CryptoKey, seq<byte>) -> Outcome<seq<byte>>,
    // what Buffer.from(undefined, "hex") throws
    missingArgument: Thrown)

  // ---------------------------------------------------------------------
  // Key derivation

  /** `0x` followed by the hex of the UTF-8 bytes of the fixed sentence; it
      takes no account. */
  function SigningMessage(p: Platform): (m: string)
    ensures |m| == 2 + 2 * |p.utf8Encode(PayloadToSign)|
    ensures m[..2] == "0x" && IsLowerHex(m[2..])
  {
    assert ("0x" + HexEncode(p.utf8Encode(PayloadToSign)))[2..] == HexEncode(p.utf8Encode(PayloadToSign));
    "0x" + HexEncode(p.utf8Encode(PayloadToSign))
  }

  /** The `personal_sign` request for `account`. */
  function SignRequest(p: Platform, account: string): (r: RpcRequest)
    ensures r.rpcMethod == "personal_sign"
    ensures |r.params| == 2 && r.params[0] == SigningMessage(p) && r.params[1] == account
  {
    RpcRequest("personal_sign", [SigningMessage(p), account])
  }

  /** `getSha256`: SHA-256 of the UTF-8 bytes of a string. With an encoder
      that maps ASCII to its codes, an ASCII text is hashed as its character
      codes. */
  function GetSha256(p: Platform, payload: string): (r: Outcome<seq<byte>>)
    ensures AsciiAsCodes(p) && IsAscii(payload) ==> r == p.digest("SHA-256", AsciiCodes(payload))
  {
    p.digest("SHA-256", p.utf8Encode(payload))
  }

  /** The import of raw key material as a non-extractable AES-CTR key usable
      only to encrypt and decrypt. */
  function AesCtrKeyImport(raw: seq<byte>): (k: KeyImport)
    ensures k.format == "raw" && k.keyData == raw
    ensures k.algorithm == "AES-CTR" && !k.extractable
    ensures k.usages == ["encrypt", "decrypt"]
  {
    KeyImport("raw", raw, "AES-CTR", "SHA-256", false, ["encrypt", "decrypt"])
  }

  /** The `catch` block of `getKeypair`: the key-generation message, and the
      trace `err.message || err.toString()` of what was thrown. */
  function KeyError(e: Thrown): (r: Result<CryptoKey>)
    ensures r.Err? && r.error.message == KeyErrorMessage
    ensures e.message.Some? && e.message.value != "" ==> r.error.trace == e.message
    ensures e.message == None || e.message == Some("") ==> r.error.trace == Some(e.text)
  {
    Err(CreateUIError(KeyErrorMessage, Some(Trace(e))))
  }

  /** `getKeypair(account)`: sign the fixed message, hash the signature text,
      import the digest as the key. */
  function GetKeypair(p: Platform, wallet: RpcRequest -> Outcome<string>, account: string): (r: Result<CryptoKey>)
    ensures r.Ok? <==>
      var sig := wallet(SignRequest(p, account));
      sig.Done? &&
      var raw := GetSha256(p, sig.value);
      raw.Done? && p.importKey(AesCtrKeyImport(raw.value)).Done?
    ensures r.Ok? ==>
      p.importKey(AesCtrKeyImport(GetSha256(p, wallet(SignRequest(p, account)).value).value)) == Done(r.value)
    ensures
      var sig := wallet(SignRequest(p, account));
      sig.Threw? ==> r.error == CreateUIError(KeyErrorMessage, Some(Trace(sig.exc)))
    ensures
      var sig := wallet(SignRequest(p, account));
      sig.Done? && GetSha256(p, sig.value).Threw? ==>
        r.error == CreateUIError(KeyErrorMessage, Some(Trace(GetSha256(p, sig.value).exc)))
    ensures
      var sig := wallet(SignRequest(p, account));
      sig.Done? && GetSha256(p, sig.value).Done? ==>
        var imported := p.importKey(AesCtrKeyImport(GetSha256(p, sig.value).value));
        imported.Threw? ==> r.error == CreateUIError(KeyErrorMessage, Some(Trace(imported.exc)))
  {
    match wallet(SignRequest(p, account))
    case Threw(e) => KeyError(e)
    case Done(sig) =>
      match GetSha256(p, sig)
      case Threw(e) => KeyError(e)
      case Done(raw) =>
        match p.importKey(AesCtrKeyImport(raw))
        case Threw(e) => KeyError(e)
        case Done(key) => Ok(key)
  }

  // ---------------------------------------------------------------------
  // Envelope

  /** `${ivHex}:${encryptedHex}`. */
  function Serialize(env: Envelope): (s: string)
    ensures |s| == 2 * |env.iv| + 1 + 2 * |env.ciphertext|
    ensures s[2 * |env.iv|] == ':'
    ensures IsLowerHex(s[..2 * |env.iv|]) && IsLowerHex(s[2 * |env.iv| + 1..])
    ensures forall i :: 0 <= i < |s| && i != 2 * |env.iv| ==> s[i] != ':'
  {
    var s := HexEncode(env.iv) + ":" + HexEncode(env.ciphertext);
    assert s[..2 * |env.iv|] == HexEncode(env.iv);
    assert s[2 * |env.iv| + 1..] == HexEncode(env.ciphertext);
    s
  }

  /** `const [ivHex, encryptedHex] = data.split(":")` and the two
      `Buffer.from(..., "hex")` calls; with no `:` the second piece is
      undefined and `Buffer.from` throws. */
  function ParseEnvelope(p: Platform, data: string): (r: Outcome<Envelope>)
    ensures r.Threw? <==> ':' !in data
    ensures r.Threw? ==> r.exc == p.missingArgument
  {
    var pieces := Split(data, ':');
    if |pieces| < 2 then Threw(p.missingArgument)
    else Done(Envelope(HexDecode(pieces[0]), HexDecode(pieces[1])))
  }

  /** Parsing what was serialised gives back the IV and the ciphertext. */
  lemma ParseSerialize(p: Platform, env: Envelope)
    ensures ParseEnvelope(p, Serialize(env)) == Done(env)
  {
    var a, b := HexEncode(env.iv), HexEncode(env.ciphertext);
    HexExcludes(a, ':');
    HexExcludes(b, ':');
    SplitJoin([a, b], ':');
    assert Join([a, b], ':') == Serialize(env);
    DecodeEncode(env.iv);
    DecodeEncode(env.ciphertext);
  }

  /** Conversely, an envelope of two even-length lower-case hex halves is
      exactly the serialisation of what it parses to. */
  lemma SerializeParse(p: Platform, a: string, b: string)
    requires |a| % 2 == 0 && IsLowerHex(a)
    requires |b| % 2 == 0 && IsLowerHex(b)
    ensures ParseEnvelope(p, a + ":" + b).Done?
    ensures Serialize(ParseEnvelope(p, a + ":" + b).value) == a + ":" + b
  {
    HexExcludes(a, ':');
    HexExcludes(b, ':');
    SplitJoin([a, b], ':');
    assert Join([a, b], ':') == a + ":" + b;
    EncodeDecode(a);
    EncodeDecode(b);
  }

  /** Only the first two `:`-separated pieces are read: whatever follows a
      second `:` is ignored. */
  lemma ParseIgnoresTail(p: Platform, a: string, b: string, tail: string)
    requires ':' !in a && ':' !in b
    ensures ParseEnvelope(p, a + ":" + b + ":" + tail) == ParseEnvelope(p, a + ":" + b)
    ensures ParseEnvelope(p, a + ":" + b) == Done(Envelope(HexDecode(a), HexDecode(b)))
  {
    SplitTwoThenRest(a, ':', b, tail);
    SplitTwo(a, ':', b);
  }

  // ---------------------------------------------------------------------
  // Encryption and decryption

  /** Both cipher calls pass `{name: "AES-CTR", counter: iv, length: 128}`. */
  function CtrParamsFor(iv: seq<byte>): (c: CtrParams)
    ensures c.name == "AES-CTR" && c.counter == iv && c.length == 128
  {
    CtrParams("AES-CTR", iv, 128)
  }

  /** `encrypt(pkey, data)`, with the 16 random bytes of
      `getRandomValues(new Uint8Array(16))` passed in as `iv`. */
  function Encrypt(p: Platform, key: CryptoKey, iv: seq<byte>, data: string): (r: Result<string>)
    requires |iv| == 16
    ensures
      var c := p.cipher(EncryptOp, CtrParamsFor(iv), key, p.utf8Encode(data));
      && (r.Ok? <==> c.Done?)
      && (r.Ok? ==> r.value == Serialize(Envelope(iv, c.value)))
      && (r.Err? ==> r.error == CreateUIError(EncryptErrorMessage, Some(Trace(c.exc))))
  {
    match p.cipher(EncryptOp, CtrParamsFor(iv), key, p.utf8Encode(data))
    case Threw(e) => Err(CreateUIError(EncryptErrorMessage, Some(Trace(e))))
    case Done(ct) => Ok(Serialize(Envelope(iv, ct)))
  }

  /** `decrypt(pkey, data)`. */
  function Decrypt(p: Platform, key: CryptoKey, data: string): (r: Result<string>)
    ensures ':' !in data ==> r == Err(CreateUIError(DecryptErrorMessage, Some(Trace(p.missingArgument))))
    ensures ':' in data ==>
      var env := ParseEnvelope(p, data).value;
      var c := p.cipher(DecryptOp, CtrParamsFor(env.iv), key, env.ciphertext);
      && (r.Ok? <==> c.Done?)
      && (r.Ok? ==> r.value == p.utf8Decode(c.value))
      && (r.Err? ==> r.error == CreateUIError(DecryptErrorMessage, Some(Trace(c.exc))))
  {
    match ParseEnvelope(p, data)
    case Threw(e) => Err(CreateUIError(DecryptErrorMessage, Some(Trace(e))))
    case Done(env) =>
      match p.cipher(DecryptOp, CtrParamsFor(env.iv), key, env.ciphertext)
      case Threw(e) => Err(CreateUIError(DecryptErrorMessage, Some(Trace(e))))
      case Done(plain) => Ok(p.utf8Decode(plain))
  }

  // ---------------------------------------------------------------------
  // What the foreign code is assumed to do

  /** The byte-order mark, U+FEFF. */
  const Bom: char := '\U{FEFF}'

  /** What `new TextDecoder()` does at the front of its text: with
      `ignoreBOM` false it drops one leading byte-order mark. The result is
      `s` with at most its first character removed, and that character is
      removed exactly when it is a byte-order mark. */
  function DropBom(s: string): (t: string)
    ensures |s| - 1 <= |t| <= |s| && t == s[|s| - |t|..]
    ensures |t| < |s| <==> |s| > 0 && s[0] == Bom
  {
    if |s| > 0 && s[0] == Bom then s[1..] else s
  }

  /** UTF-8 decoding undoes UTF-8 encoding, except that the decoder drops a
      leading byte-order mark that the encoder kept. */
  ghost predicate Utf8RoundTrip(p: Platform) {
    forall s :: p.utf8Decode(p.utf8Encode(s)) == DropBom(s)
  }

  predicate IsAscii(s: string) {
    forall i :: 0 <= i < |s| ==> s[i] < 128 as char
  }

  function AsciiCodes(s: string): (bs: seq<byte>)
    requires IsAscii(s)
    ensures |bs| == |s|
  {
    if s == [] then [] else [s[0] as int] + AsciiCodes(s[1..])
  }

  /** UTF-8 encodes an ASCII string as its character codes. */
  ghost predicate AsciiAsCodes(p: Platform) {
    forall s :: IsAscii(s) ==> p.utf8Encode(s) == AsciiCodes(s)
  }

  /** Counter mode (section 6.5 of NIST SP 800-38A): for a key imported as
      `getKeypair` imports it, usable to encrypt and to decrypt, decryption
      with the same counter parameters undoes encryption. */
  ghost predicate CtrInvertible(
    importKey: KeyImport -> Outcome<CryptoKey>,
    cipher: (CipherOp, CtrParams, CryptoKey, seq<byte>) -> Outcome<seq<byte>>)
  {
    forall raw: seq<byte>, k: CryptoKey, pa: CtrParams, d: seq<byte> ::
      importKey(AesCtrKeyImport(raw)) == Done(k) && cipher(EncryptOp, pa, k, d).Done? ==>
        cipher(DecryptOp, pa, k, cipher(EncryptOp, pa, k, d).value) == Done(d)
  }

  /** WebCrypto rejects an AES-CTR counter that is not 16 bytes long. */
  ghost predicate RejectsBadCounter(cipher: (CipherOp, CtrParams, CryptoKey, seq<byte>) -> Outcome<seq<byte>>) {
    forall op, pa: CtrParams, k, d :: |pa.counter| != 16 ==> cipher(op, pa, k, d).Threw?
  }

  // ---------------------------------------------------------------------
  // Properties

  /** The fixed sentence is 43 ASCII characters. */
  lemma PayloadIsAscii()
    ensures IsAscii(PayloadToSign) && |PayloadToSign| == 43
  {
  }

  /** With an encoder that maps ASCII to its codes, the message signed is
      `0x` and the lower-case hex of the character codes of the sentence, 88
      characters. */
  lemma SigningMessageIsFixed(p: Platform)
    requires AsciiAsCodes(p)
    ensures IsAscii(PayloadToSign)
    ensures SigningMessage(p) == "0x" + HexEncode(AsciiCodes(PayloadToSign))
    ensures |SigningMessage(p)| == 88
  {
    PayloadIsAscii();
    assert p.utf8Encode(PayloadToSign) == AsciiCodes(PayloadToSign);
  }

  /** The account reaches the wallet only as the second parameter: the
      message does not depend on it. */
  lemma MessageIndependentOfAccount(p: Platform, a1: string, a2: string)
    ensures SignRequest(p, a1).params[0] == SignRequest(p, a2).params[0]
    ensures SignRequest(p, a1).params[1] == a1
  {
  }

  /** The key depends on nothing but the signature text: two wallets that
      answer with the same signature, for whichever accounts, give the same
      key or the same error. */
  lemma KeyDeterminedBySignature(p: Platform, w1: RpcRequest -> Outcome<string>, a1: string, w2: RpcRequest -> Outcome<string>, a2: string)
    requires w1(SignRequest(p, a1)) == w2(SignRequest(p, a2))
    ensures GetKeypair(p, w1, a1) == GetKeypair(p, w2, a2)
  {
  }

  /** The key material is the SHA-256 digest of the UTF-8 bytes of the
      signature as text (for a `0x…` hex signature: its character codes), not
      of the signature bytes the text stands for. */
  lemma KeyMaterialIsDigestOfSignatureText(p: Platform, wallet: RpcRequest -> Outcome<string>, account: string, sig: string)
    requires AsciiAsCodes(p) && IsAscii(sig)
    requires wallet(SignRequest(p, account)) == Done(sig)
    requires GetKeypair(p, wallet, account).Ok?
    ensures p.digest("SHA-256", AsciiCodes(sig)).Done?
    ensures p.importKey(AesCtrKeyImport(p.digest("SHA-256", AsciiCodes(sig)).value)) == Done(GetKeypair(p, wallet, account).value)
  {
  }

  /** An envelope made by `Encrypt` is 32 lower-case hex digits, one `:`, and
      twice as many lower-case hex digits as there are ciphertext bytes. */
  lemma EnvelopeShape(p: Platform, key: CryptoKey, iv: seq<byte>, data: string)
    requires |iv| == 16
    requires Encrypt(p, key, iv, data).Ok?
    ensures var s := Encrypt(p, key, iv, data).value;
      var ct := p.cipher(EncryptOp, CtrParamsFor(iv), key, p.utf8Encode(data)).value;
      && |s| == 33 + 2 * |ct|
      && IsLowerHex(s[..32]) && s[32] == ':' && IsLowerHex(s[33..])
      && (forall i :: 0 <= i < |s| && i != 32 ==> s[i] != ':')
      && ParseEnvelope(p, s) == Done(Envelope(iv, ct))
  {
    var ct := p.cipher(EncryptOp, CtrParamsFor(iv), key, p.utf8Encode(data)).value;
    ParseSerialize(p, Envelope(iv, ct));
  }

  /** Decryption reads back the IV that encryption used, so both cipher calls
      get the same `{name, counter, length}`. */
  lemma SameCipherParameters(p: Platform, key: CryptoKey, iv: seq<byte>, data: string)
    requires |iv| == 16
    requires Encrypt(p, key, iv, data).Ok?
    ensures CtrParamsFor(ParseEnvelope(p, Encrypt(p, key, iv, data).value).value.iv) == CtrParamsFor(iv)
  {
    var ct := p.cipher(EncryptOp, CtrParamsFor(iv), key, p.utf8Encode(data)).value;
    ParseSerialize(p, Envelope(iv, ct));
  }

  /** Decrypting what was encrypted under the same imported key gives the
      text back, less a leading byte-order mark, which the decoder drops. */
  lemma DecryptEncrypt(p: Platform, raw: seq<byte>, key: CryptoKey, iv: seq<byte>, data: string)
    requires |iv| == 16
    requires Utf8RoundTrip(p) && CtrInvertible(p.importKey, p.cipher)
    requires p.importKey(AesCtrKeyImport(raw)) == Done(key)
    requires Encrypt(p, key, iv, data).Ok?
    ensures Decrypt(p, key, Encrypt(p, key, iv, data).value) == Ok(DropBom(data))
  {
    var ct := p.cipher(EncryptOp, CtrParamsFor(iv), key, p.utf8Encode(data)).value;
    ParseSerialize(p, Envelope(iv, ct));
    assert p.cipher(DecryptOp, CtrParamsFor(iv), key, ct) == Done(p.utf8Encode(data));
    assert p.utf8Decode(p.utf8Encode(data)) == DropBom(data);
  }

  /** A text that does not start with a byte-order mark comes back whole. */
  lemma DecryptEncryptWithoutBom(p: Platform, raw: seq<byte>, key: CryptoKey, iv: seq<byte>, data: string)
    requires |iv| == 16
    requires Utf8RoundTrip(p) && CtrInvertible(p.importKey, p.cipher)
    requires p.importKey(AesCtrKeyImport(raw)) == Done(key)
    requires Encrypt(p, key, iv, data).Ok?
    requires data == [] || data[0] != Bom
    ensures Decrypt(p, key, Encrypt(p, key, iv, data).value) == Ok(data)
  {
    DecryptEncrypt(p, raw, key, iv, data);
  }

  /** A leading byte-order mark does not survive the round trip. */
  lemma LeadingBomIsLost(p: Platform, raw: seq<byte>, key: CryptoKey, iv: seq<byte>, rest: string)
    requires |iv| == 16
    requires Utf8RoundTrip(p) && CtrInvertible(p.importKey, p.cipher)
    requires p.importKey(AesCtrKeyImport(raw)) == Done(key)
    requires Encrypt(p, key, iv, [Bom] + rest).Ok?
    ensures Decrypt(p, key, Encrypt(p, key, iv, [Bom] + rest).value) == Ok(rest)
  {
    DecryptEncrypt(p, raw, key, iv, [Bom] + rest);
    assert ([Bom] + rest)[1..] == rest;
  }

  /** End to end: under the key `GetKeypair` derives, decrypting what
      `Encrypt` produced gives the text back, less a leading byte-order
      mark. */
  lemma RoundTripUnderDerivedKey(p: Platform, wallet: RpcRequest -> Outcome<string>, account: string, iv: seq<byte>, data: string)
    requires |iv| == 16
    requires Utf8RoundTrip(p) && CtrInvertible(p.importKey, p.cipher)
    requires GetKeypair(p, wallet, account).Ok?
    requires Encrypt(p, GetKeypair(p, wallet, account).value, iv, data).Ok?
    ensures
      var key := GetKeypair(p, wallet, account).value;
      Decrypt(p, key, Encrypt(p, key, iv, data).value) == Ok(DropBom(data))
  {
    var raw := GetSha256(p, wallet(SignRequest(p, account)).value).value;
    DecryptEncrypt(p, raw, GetKeypair(p, wallet, account).value, iv, data);
  }

  /** The decoder is not fatal: once the cipher returns bytes, `Decrypt`
      returns text, for a wrong key or a tampered ciphertext as well. */
  lemma DecryptFailsOnlyOnMissingSeparatorOrCipher(p: Platform, key: CryptoKey, a: string, b: string)
    requires ':' !in a && ':' !in b
    ensures var c := p.cipher(DecryptOp, CtrParamsFor(HexDecode(a)), key, HexDecode(b));
      Decrypt(p, key, a + ":" + b) == if c.Done? then Ok(p.utf8Decode(c.value))
        else Err(CreateUIError(DecryptErrorMessage, Some(Trace(c.exc))))
  {
    ParseIgnoresTail(p, a, b, "");
  }

  /** An input with no `:` fails with the decryption message. */
  lemma DecryptWithoutSeparator(p: Platform, key: CryptoKey)
    ensures Decrypt(p, key, "not-a-valid-envelope") == Err(UIError(DecryptErrorMessage, Some(Trace(p.missingArgument))))
  {
    var data := "not-a-valid-envelope";
    assert forall i :: 0 <= i < |data| ==> data[i] != ':';
    assert ':' !in data;
  }

  /** Non-hex halves decode to empty buffers, and it is the cipher rejecting
      the empty counter that makes `zz:zz` fail with the decryption message. */
  lemma DecryptNonHex(p: Platform, key: CryptoKey)
    requires RejectsBadCounter(p.cipher)
    ensures HexDecode("zz") == []
    ensures Decrypt(p, key, "zz:zz").Err?
    ensures Decrypt(p, key, "zz:zz").error.message == DecryptErrorMessage
  {
    ParseIgnoresTail(p, "zz", "zz", "");
    assert "zz" + ":" + "zz" == "zz:zz";
  }
}
