# Signature-based encryption helpers, modelled in Dafny

The browser client derives a symmetric key from a wallet signature and uses
it to encrypt and decrypt short texts. Its own logic lives in
`src/utils/helpers.ts` and `src/utils/factories.ts`:

- `getKeypair(account)` asks the wallet (`personal_sign`) to sign a fixed
  message, `0x` followed by the hex of "The quick brown fox jumps over the
  lazy dog". It hashes the returned signature text with SHA-256 and imports
  the digest as a non-extractable AES-CTR key for `encrypt` and `decrypt`.
- `encrypt(key, text)` draws a 16-byte IV. It encrypts the UTF-8 bytes of
  the text with AES-CTR, using the IV as the counter and a counter length of
  128. It returns the envelope `ivHex:ctHex` in lower-case base16 (section 8
  of RFC 4648).
- `decrypt(key, envelope)` splits the envelope on `:`, hex-decodes the first
  two pieces, decrypts with the same parameters and decodes the bytes as
  UTF-8.
- None of them throws. A failure becomes the record built by
  `createUIError(message, trace?)`: a fixed message per operation and the
  trace `err.message || err.toString()`.

The model is made of pure functions and lemmas. The code it models has no
loops and no mutable state:

- `js.dfy` (module `Js`): bytes, `undefined` as `Option`, a thrown value
  and its trace, a foreign call's `Outcome`, and `split`/`join` on one
  character.
- `hex.dfy` (module `Hex`): `Buffer`'s hex encoder and decoder.
- `factories.dfy` (module `Factories`): `UIError`, `createUIError`, and
  the `Result` that replaces the caller's `instanceof`/`typeof` checks.
- `helpers.dfy` (module `Helpers`): the signing request, the key import,
  the envelope, `GetKeypair`, `Encrypt`, `Decrypt` and their properties.
- `ctr.dfy` (module `CounterMode`): a keystream-XOR cipher that meets the
  cipher assumptions below.

Foreign code is not interpreted. It is a `Platform` value of total
functions:
- the UTF-8 encoder and the non-fatal decoder;
- `crypto.subtle.digest`, `importKey`, and `encrypt`/`decrypt`;
- the exception `Buffer.from(undefined, "hex")` throws.

A foreign call that can fail returns `Threw`. The wallet is a function
from request to `Outcome`. The random IV is an argument of `Encrypt`.
What the proofs need of the foreign code is written as predicates that only
lemmas require:
- `Utf8RoundTrip`: decoding undoes encoding, except that `new TextDecoder()`
  (with `ignoreBOM` false) drops a leading byte-order mark, U+FEFF, which
  `TextEncoder` keeps.
- `AsciiAsCodes`: ASCII text is encoded as its character codes.
- `CtrInvertible`: for a key imported as `getKeypair` imports it, with
  usages encrypt and decrypt, decryption with the same parameters undoes
  encryption (counter mode, section 6.5 of NIST SP 800-38A). WebCrypto
  refuses to decrypt under a key that lacks the decrypt usage, so the
  predicate says nothing about other keys.
- `RejectsBadCounter`: WebCrypto rejects a counter that is not 16 bytes.

`XorCtrIsCounterMode` shows that a keystream-XOR cipher satisfies the two
cipher predicates, so they are not vacuous.

Five behaviours of the code are easy to misread:
- The key material is SHA-256 of the UTF-8 bytes of the signature text
  (`0x…`), not of the signature bytes that text stands for.
- Invalid hex is not an error by itself. The decoder stops at the first bad
  pair. `zz:zz` fails only because the cipher rejects the resulting empty
  counter.
- Text decoding is not fatal. A wrong key yields some text, not an error.
- The envelope is split on every `:`, and pieces after the second are
  ignored.
- A text that starts with U+FEFF comes back from `decrypt(encrypt(..))`
  without it.

## Model

| member | source | states |
|---|---|---|
| `Factories.CreateUIError` | src/utils/factories.ts:3-6 | the record's `message` is the message argument and its `trace` the trace argument, undefined (`None`) when omitted |
| `Factories.CreateUIErrorDeterminedByArguments` | src/utils/factories.ts:3-6 | the record has just the two fields: two records are equal exactly when both arguments are |
| `Factories.CreateUIErrorOmittedTrace` | src/utils/factories.ts:3 | leaving the trace out gives `trace == None` |
| `Js.Trace` | src/utils/helpers.ts:38 | a non-empty `message` is the trace; an absent or empty one falls back to `toString()` |
| `Js.Split` | src/utils/helpers.ts:72 | `split(":")` gives at least one piece, and exactly one when the string has no separator |
| `Js.SplitPiecesFree` | src/utils/helpers.ts:72 | no piece of a split contains the separator |
| `Js.SplitJoin` | src/utils/helpers.ts:72 | splitting the join of separator-free pieces gives the pieces back |
| `Js.JoinSplit` | src/utils/helpers.ts:72 | joining the pieces of a split gives the string back |
| `Js.SplitTwo` | src/utils/helpers.ts:72 | `a:b` with separator-free halves splits into exactly `[a, b]` |
| `Js.SplitTwoThenRest` | src/utils/helpers.ts:72 | after a second separator, the rest splits on its own |
| `Hex.HexEncode` | src/utils/helpers.ts:57-58 | the hex text has two characters per byte, all lower-case hex digits |
| `Hex.HexEncodeAt` | src/utils/helpers.ts:57-58 | byte `i` becomes characters `2i` and `2i+1`, high nibble first |
| `Hex.HexDecode` | src/utils/helpers.ts:73-74 | decoding never fails and yields at most half as many bytes as characters |
| `Hex.DecodeEncode` | src/utils/helpers.ts:57-58 | decoding the hex of any bytes gives the bytes back |
| `Hex.EncodeDecode` | src/utils/helpers.ts:73-74 | on even-length lower-case hex, encoding what was decoded gives the text back |
| `Helpers.SigningMessage` | src/utils/helpers.ts:15 | the message is `0x` and lower-case hex, two characters per byte of the sentence, and takes no account |
| `Helpers.PayloadIsAscii` | src/utils/helpers.ts:5 | the fixed sentence is 43 ASCII characters |
| `Helpers.SigningMessageIsFixed` | src/utils/helpers.ts:5-15 | the message is `0x` and the hex of the sentence's character codes, 88 characters |
| `Helpers.SignRequest` | src/utils/helpers.ts:16-19 | the wallet request is `personal_sign` with parameters exactly `[message, account]` |
| `Helpers.MessageIndependentOfAccount` | src/utils/helpers.ts:15-19 | every account gets the same first parameter; the account is only the second |
| `Helpers.GetSha256` | src/utils/helpers.ts:7-11 | the digest is SHA-256 of the text's UTF-8 bytes; for ASCII text under an encoder that maps ASCII to its codes, of its character codes |
| `Helpers.KeyError` | src/utils/helpers.ts:34-40 | the error says "Error generating the key"; its trace is a non-empty `message` of the thrown value, and otherwise its `toString()` |
| `Helpers.AesCtrKeyImport` | src/utils/helpers.ts:22-31 | the import is `raw` key data as AES-CTR, not extractable, with usages exactly encrypt and decrypt |
| `Helpers.GetKeypair` | src/utils/helpers.ts:13-41 | a key is returned exactly when signing, hashing and import all succeed, and it is what `importKey` returned for the digest of the signature text; otherwise the error says "Error generating the key" with the trace (the non-empty `message`, else `toString()`) of what the wallet, the digest or `importKey` threw |
| `Helpers.KeyDeterminedBySignature` | src/utils/helpers.ts:13-33 | two wallets that return the same signature, for any accounts, give the same key or error |
| `Helpers.KeyMaterialIsDigestOfSignatureText` | src/utils/helpers.ts:7-11 | for an ASCII signature the digest input is the text's character codes, and the key is the import of that SHA-256 digest |
| `Helpers.Serialize` | src/utils/helpers.ts:56-60 | the envelope has `2·|iv|` lower-case hex digits, one `:`, then `2·|ct|` lower-case hex digits, and no other `:` |
| `Helpers.ParseEnvelope` | src/utils/helpers.ts:72-74 | parsing throws exactly when there is no `:`, and it throws what `Buffer.from(undefined)` throws |
| `Helpers.ParseSerialize` | src/utils/helpers.ts:56-74 | parsing a serialised envelope gives back the same IV and ciphertext |
| `Helpers.SerializeParse` | src/utils/helpers.ts:56-74 | an envelope of two even-length lower-case hex halves is the serialisation of what it parses to |
| `Helpers.ParseIgnoresTail` | src/utils/helpers.ts:72-74 | anything after a second `:` is ignored, and `a:b` parses to the hex decoding of both halves |
| `Helpers.CtrParamsFor` | src/utils/helpers.ts:47-51 | the cipher parameters are AES-CTR, counter the IV, length 128 |
| `Helpers.Encrypt` | src/utils/helpers.ts:43-68 | encryption succeeds exactly when the cipher does, and returns the envelope of the IV and the ciphertext; otherwise the error says "Error encrypting the data" with the cipher's trace |
| `Helpers.Decrypt` | src/utils/helpers.ts:70-94 | with no `:` the result is "Error decrypting the data" with `Buffer.from`'s trace; otherwise it succeeds exactly when the cipher does and returns the decoded bytes |
| `Helpers.EnvelopeShape` | src/utils/helpers.ts:45-60 | an `Encrypt` envelope is 32 lower-case hex digits, `:`, then `2·|ct|` digits, with no other `:`, and it parses back to the IV and ciphertext |
| `Helpers.SameCipherParameters` | src/utils/helpers.ts:46-53 | decryption passes the cipher the same `{name, counter, length}` that encryption used |
| `Helpers.DropBom` | src/utils/helpers.ts:86 | the decoder's text loses at most its first character, and loses it exactly when it is U+FEFF |
| `Helpers.DecryptEncrypt` | src/utils/helpers.ts:43-94 | if the codec round-trips up to a leading U+FEFF and the cipher inverts itself under imported keys, decrypting an encryption under an imported key returns the plaintext less a leading U+FEFF |
| `Helpers.DecryptEncryptWithoutBom` | src/utils/helpers.ts:43-94 | under the same assumptions, a plaintext that does not start with U+FEFF comes back unchanged |
| `Helpers.LeadingBomIsLost` | src/utils/helpers.ts:43-94 | under the same assumptions, a plaintext U+FEFF followed by `rest` comes back as `rest` |
| `Helpers.RoundTripUnderDerivedKey` | src/utils/helpers.ts:13-94 | under the key `getKeypair` returns, decrypting what `encrypt` produced returns the plaintext less a leading U+FEFF |
| `Helpers.DecryptFailsOnlyOnMissingSeparatorOrCipher` | src/utils/helpers.ts:76-86 | for `a:b` the result is the decoded cipher output whenever the cipher returns bytes, even under a wrong key; otherwise it is the decryption error |
| `Helpers.DecryptWithoutSeparator` | src/utils/helpers.ts:72-74 | `not-a-valid-envelope` gives "Error decrypting the data" with `Buffer.from`'s trace |
| `Helpers.DecryptNonHex` | src/utils/helpers.ts:72-93 | `zz` decodes to no bytes, and `zz:zz` gives "Error decrypting the data" because the cipher rejects the empty counter |
| `CounterMode.XorCtrIsCounterMode` | src/utils/helpers.ts:46-53 | a cipher that XORs the data with a keystream from key and parameters satisfies `CtrInvertible`, for any `importKey`, and `RejectsBadCounter` |

## Left out

- `src/App.tsx`: React state, wallet discovery, event listeners and
  rendering. Its only rule is telling results apart with `instanceof` and
  `typeof`, and the `Result` datatype captures that.
- `src/hooks/useKeypair.ts`: a localStorage-backed ECDSA key-pair hook that
  the encryption path does not use. Its expiry rule depends on
  `KEYPAIR_VALIDITY` and `getExpiringLS`; neither is part of this model.
- SHA-256, the AES block function, the counter increment, `importKey`
  internals and `getRandomValues`: foreign WebCrypto code. They are
  `Platform` fields, and the IV is an input.
- The wallet's `personal_sign` (EIP-191 prefixing, ECDSA): the signature is
  an arbitrary string returned by the wallet function.
- UTF-8 encoding and decoding: assumed correct up to the decoder dropping a
  leading U+FEFF (`Utf8RoundTrip`, `AsciiAsCodes`), not proved. Strings
  with lone surrogates, which `TextEncoder` replaces by U+FFFD, cannot be
  expressed as Dafny strings.
- `HexDecode`: decoding stops at the first pair that is not two hex digits.
  The `buffer` package parses each pair with `parseInt`, which also reads a
  leading digit, a sign or whitespace (`1z`, `-1`, ` 1`). Those pairs are
  not reproduced.
- `SigningMessageIsFixed`: gives the message as `"0x" + HexEncode(AsciiCodes(sentence))`
  with its length 88, not as the literal 88-character text. Unfolding the
  encoder over the 43-character literal is too costly to prove.
- `Js.Trace`: a thrown `null` or `undefined` is not modelled. Reading
  `err.message` on it would itself throw out of the `catch` block.
- Promises and `async`, and `console.error` logging.
- Security properties: nonce freshness, tamper sensitivity and cross-key
  isolation. They are probabilistic, or not guaranteed by unauthenticated
  CTR mode.
