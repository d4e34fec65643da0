# easy-encrypt envelope codec, modelled in Dafny

easy-encrypt wraps a password-encrypted stream in a self-describing
envelope. `encrypt` derives a key with a KDF at the cipher's key length. It
serialises the KDF and cipher parameters as a JSON header and yields four
chunks: the magic `"EZ"`, the header length as a 4-byte big-endian unsigned
integer, the header bytes, and the cipher's output. `decrypt` reads the
envelope back through a buffered reader with fail-fast checks. It looks
the KDF and the cipher up by their `"algorithm"` names in two fixed tables,
re-derives the key and hands the rest of the stream to the cipher.

The model has these modules:

- `BigEndian`: `int.to_bytes(width, "big")` as `ToBytes` (None where Python
  raises OverflowError) and `int.from_bytes(bs, "big")` as `FromBytes`.
- `Framing`: the envelope as `encrypt` yields it (`Envelope`). It also has
  the pure parse of lines 37-50 (`ParseFrame`), with `Prefix` as what a
  `read(n)` returns.
- `Header`, `Registry`: the JSON header value, the subscripting `decrypt`
  does on it, and the two name tables.
- `Streams`: the `BufferedReader` as a class with the input bytes and a
  read position. `Read(n)` returns `min(n, remaining)` bytes and advances
  the position. It never moves past the end.
- `EasyEncrypt`: `Encrypt`, `OpenHeader` (header parse and registry
  dispatch), the function `DecryptOutcome` and the method `Decrypt`.
  `Decrypt` performs the same steps imperatively over a `BufferedReader`
  and is proved equal to `DecryptOutcome`.
- `Errors`, `Wrappers`: the error kinds and the Option/Result types.

The KDF, the cipher, both deserializers and JSON with UTF-8 are
collaborators. They are passed in as the function-valued fields of
`Primitives<K, C>`, with `K` and `C` the opaque instance types. A None
result stands for the collaborator raising. The cipher's random nonce
choice is folded into `encryptStream`. Generator output and `chunks()` are
modelled as the concatenation of their chunks.

An unknown algorithm name fails as the raw table lookup does (`UnknownKdf`,
`UnknownCipher`); the `header_len < 0` guard is kept as written, and
`HeaderLengthNeverNegative` proves that it never fires. Subscripting the
parsed header (`header["kdf"]`, `header_kdf["algorithm"]`, ...) is the
helper `Header.Field`: it yields the member of an object holding the key,
and None where Python raises KeyError or TypeError.

## Model

| member | source | states |
|---|---|---|
| `BigEndian.FromBytes` | easyencrypt.py:44 | the big-endian value of `n` bytes stays below 256^n |
| `BigEndian.FromBytesNonNegative` | easyencrypt.py:44-46 | an unsigned big-endian decode is never negative |
| `BigEndian.ToBytes` | easyencrypt.py:30 | `to_bytes(width, "big")` succeeds exactly when `n < 256^width`; it then has `width` bytes and decodes back to `n` |
| `BigEndian.ToBytesFromBytes` | easyencrypt.py:44 | re-encoding a decoded field at its own width gives back the same bytes, so the 4-byte field and lengths below 2^32 are in one-to-one correspondence |
| `BigEndian.Uint32RoundTrip` | easyencrypt.py:30 | the 4-byte length field exists exactly for lengths below 2^32 and decodes back to the length |
| `Framing.Prefix` | easyencrypt.py:37-48 | a read of `n` bytes returns a prefix of the remaining input, no longer than `n`, shorter only when it is all of it |
| `Framing.Envelope` | easyencrypt.py:29-31 | framing succeeds exactly when the header is shorter than 2^32 bytes, and fails otherwise with the overflow |
| `Framing.EnvelopeLayout` | easyencrypt.py:29-32 | the envelope is "EZ", then the 4-byte big-endian header length, then the header, then the body, with nothing in between |
| `Framing.ParseEnvelope` | easyencrypt.py:37-50 | parsing an envelope passes every check and returns exactly its header and its body |
| `Framing.ParseFrameSound` | easyencrypt.py:37-50 | whatever the parse accepts is exactly the envelope of the header and body it returns, and the header lies within the input |
| `Framing.MagicChecked` | easyencrypt.py:37-38 | "magic header missing" exactly when the input is shorter than 2 bytes or does not start with "EZ" |
| `Framing.LengthFieldChecked` | easyencrypt.py:40-42 | "header length field missing" exactly when "EZ" is followed by fewer than 4 bytes |
| `Framing.HeaderLengthNeverNegative` | easyencrypt.py:44-46 | the "header length is negative" error is never produced |
| `Framing.HeaderTruncationChecked` | easyencrypt.py:48-50 | "reached EOF while reading header" exactly when the framing before it is sound and fewer than the declared number of bytes follow offset 6 |
| `Header.HeaderRecord` | easyencrypt.py:23-26 | the header record is an object with exactly the members "kdf" and "cipher", and they are the two serialised records |
| `Registry.LookupKdf` | easyencrypt.py:57-61 | exactly the strings "argon2id", "argon2d" and "argon2i", compared exactly and case-sensitively, are known, and all reach the Argon2 deserializer; every other value, other spellings included, is unknown |
| `Registry.LookupCipher` | easyencrypt.py:63-65 | exactly the string "aes-256-gcm", compared exactly and case-sensitively, is known, reaching the AES-256-GCM deserializer; every other value is unknown |
| `Streams.BufferedReader.constructor` | easyencrypt.py:36 | a new reader is positioned at the start of the input |
| `Streams.BufferedReader.Read` | easyencrypt.py:37-48 | `read(n)` returns the next `min(n, remaining)` bytes and advances the position by that many |
| `Streams.BufferedReader.Chunks` | easyencrypt.py:69 | `chunks()` returns all unread bytes and exhausts the reader |
| `EasyEncrypt.Decrypt` | easyencrypt.py:35-69 | the step-by-step read over a reader computes exactly `DecryptOutcome`: same checks, same order, same errors |
| `EasyEncrypt.EncryptLayout` | easyencrypt.py:18-32 | in the model, where only derive can raise among the collaborators, `encrypt` fails exactly when derive raises or the header needs 2^32 bytes or more; otherwise its output is "EZ", the header length, the header and exactly the cipher's output under the key derived at the cipher's key length |
| `EasyEncrypt.OpenBuiltHeader` | easyencrypt.py:52-65 | a header written by `encrypt` opens, through both tables, to the same KDF and cipher |
| `EasyEncrypt.DecryptEncrypt` | easyencrypt.py:18-69 | decrypting what `encrypt` produced with the same password returns the plaintext, given that JSON, the deserializers and the cipher invert their own output |
| `EasyEncrypt.DecryptSucceeded` | easyencrypt.py:37-69 | a successful decrypt read a well-formed envelope, rebuilt the algorithms from its header, derived the key at that cipher's key length and gave the cipher exactly the bytes after the header |
| `EasyEncrypt.RejectedBeforeKeyDerivation` | easyencrypt.py:37-67 | a framing or header error is the result whatever the password and whatever derive and the cipher would do, so no key derivation is involved |
| `EasyEncrypt.UnknownCipherRejected` | easyencrypt.py:63-65 | a header naming a cipher outside the table fails with the lookup error |

## Left out

- `sha256hash` (easyencrypt.py:12-15) is a wrapper over hashlib and is not used by the envelope.
- Argon2 and AES-256-GCM themselves, and the `deserialize` methods of `Argon2Kdf` and `Aes256GcmCipher`: they are external and are represented only as abstract functions of `Primitives`. Nonce freshness, tag verification and tampering are the cipher's business.
- `json.dumps`, `json.loads` and UTF-8 conversion are abstract functions (`dumpHeader`, `loadHeader`). JSON numbers are integers in the `Json` value.
- The `BufferedReader`'s input shapes (bytes, a chunk iterable, a path) and its file handling and `with` scope: the reader is only a byte sequence with a position. `chunks()` keeps no chunk boundaries.
- Generator laziness: `encrypt` yields `b'EZ'` before `to_bytes` can raise, and `decrypt` returns a lazy stream whose failure appears only while it is consumed. The model gives whole outputs: `Failure(HeaderTooLong)` with nothing emitted, and an authentication failure as the result of `Decrypt`.
- `kdf.serialize()`, `cipher.serialize()`, `cipher.key_length()`, `json.dumps` and `cipher.encrypt` (easyencrypt.py:19-32) are modelled as never raising (`serializeKdf`, `serializeCipher`, `keyLength`, `dumpHeader`, `encryptStream` are total): an exception from one of them, such as `json.dumps` refusing a value that is not JSON, is not an error path of the model's `Encrypt`.
