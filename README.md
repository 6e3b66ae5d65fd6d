# cryptpad envelope, modelled in Dafny

cryptpad is a notepad that stores files encrypted. Its core is `cryptpad.py:29-126`, an encrypt-then-MAC envelope codec:

    PTSize (8-byte big-endian u64) || IV (16) || AES-CBC ciphertext || HMAC-SHA256 (32)

The model covers every part of that core:

- the constants `BLOCK_SIZE`, `MAC_SIZE` and `BIG_ENDIAN_SIZE`;
- `compare_digest`, `get_signature`, `encrypt`, `decrypt` and `mkpasswd`;
- `AuthenticationError`, as the error of a `Result`.

Modules, one per file:

- `Bytes` (`bytes.dfy`):
  - bytes as `bv8`, 16-byte blocks and 32-byte digests;
  - the 8-byte big-endian header `struct.pack('>Q')` / `struct.unpack('>Q')`;
  - splitting a byte string into blocks and joining them again.
  - The small module `Octets` in the same file holds the two byte-to-number conversion lemmas.
- `Crypto` (`crypto.dfy`):
  - The primitives AES (FIPS 197) and SHA-256 (FIPS 180-4) are abstract. They are the fields of a `Primitives` value.
  - Its predicate `Valid()` is the one law assumed: AES decryption under a key inverts AES encryption under that key.
  - HMAC follows section 2 of RFC 2104, written out over the abstract SHA-256.
  - CBC follows section 6.2 of NIST SP 800-38A.
  - The class `AesCbc` is the stateful PyCrypto cipher object, which carries the chaining value between calls.
- `StringBuffer` (`stringbuffer.dfy`): the class `StringIO` with the `cStringIO` semantics cryptpad relies on: seek, read, write and truncate.
- `Cryptpad` (`cryptpad.dfy`):
  - `compare_digest` as an accumulator loop;
  - `get_signature` and `mkpasswd` as functions;
  - `encrypt` and `decrypt` as methods that go step by step through the `StringIO` buffers and the cipher object, as the source does.
  - `Encrypt` is proved to return `Encryption(...)`, and `Decrypt` to return `Decryption(...)`; these two functions define the values.
- `EnvelopeProperties` (`envelope.dfy`): what the envelope promises:
  - the padding rule and the layout;
  - the acceptance condition;
  - that decrypt as written always fails;
  - that decrypt undoes encrypt when the intended comparison is used.
- `Tests` (`tests.dfy`): the scenarios of `tests.py` as lemmas.

`Decrypt` and `Decryption` take a `Comparison` argument:

- `AsWritten` is the code's behaviour: `compare_digest` returns `res % 1`, which is never truthy.
- `Intended` is the behaviour `tests.py:20-30` asserts: the MAC is accepted exactly when the accumulator is 0.

Decryption fails in the same place, at `cryptpad.py:101`, under both comparisons, and everything after the MAC check is shared.

`res % 1` is the integer 0, which is falsy, so `compare_digest` never reports equality. As a consequence, `decrypt` as written rejects every input.

## Model

| member | source | states |
|---|---|---|
| `Bytes.Spaces` | cryptpad.py:74 | `' ' * n` has n bytes, all of them ASCII spaces |
| `Bytes.XorBlockCancel` | cryptpad.py:118 | XOR-ing a block twice with the same block gives it back, which is what lets CBC decryption undo the chaining |
| `Bytes.BigEndian` | cryptpad.py:65 | the big-endian digits of n take exactly `width` bytes |
| `Bytes.FromBigEndian` | cryptpad.py:106 | definition: the value of a big-endian byte string; `Bytes.FromBigEndianBound`, `Bytes.FromBigEndianOfBigEndian` and `Bytes.BigEndianOfFromBigEndian` state its properties |
| `Bytes.FromBigEndianOfBigEndian` | cryptpad.py:65 | decoding the big-endian digits of n gives n back, for every n below 256^width |
| `Bytes.BigEndianOfFromBigEndian` | cryptpad.py:106 | encoding the value of a byte string in as many bytes gives the string back |
| `Bytes.PackU64` | cryptpad.py:65 | `struct.pack('>Q', n)` is `BIG_ENDIAN_SIZE` = 8 bytes long, for n below 2^64 |
| `Bytes.UnpackU64` | cryptpad.py:106 | `struct.unpack('>Q', s)[0]` of an 8-byte string is below 2^64 |
| `Bytes.UnpackPackU64` | cryptpad.py:65 | the length header round-trips: unpack(pack(n)) == n for all 0 <= n < 2^64 |
| `Bytes.PackUnpackU64` | cryptpad.py:106 | every 8-byte header is the packing of the number it unpacks to |
| `Bytes.Flatten` | cryptpad.py:76 | joining k blocks gives 16 * k bytes |
| `Bytes.ToBlocks` | cryptpad.py:115 | a string of 16 * k bytes splits into k blocks; `Bytes.FlattenToBlocks` and `Bytes.ToBlocksFlatten` state that this inverts `Bytes.Flatten` |
| `Bytes.ToBlocksSnoc` | cryptpad.py:115-118 | reading one more whole block appends it to the block list |
| `Bytes.FlattenToBlocks` | cryptpad.py:115-118 | splitting into blocks and joining them loses nothing |
| `Bytes.ToBlocksFlatten` | cryptpad.py:115-118 | joining blocks and splitting the result gives the blocks back |
| `Crypto.HmacKey` | cryptpad.py:48 | the HMAC key block K0 is 64 bytes: the key, or its SHA-256 digest when it is longer than 64 bytes, followed by zero bytes |
| `Crypto.Hmac` | cryptpad.py:45-49 | definition: section 2 of RFC 2104 over the abstract SHA-256, H((K0 xor opad) followed by H((K0 xor ipad) followed by the text)); `Crypto.HmacKey` states what K0 is |
| `Crypto.CbcEncrypt` | cryptpad.py:60-76 | CBC encryption gives one ciphertext block per plaintext block |
| `Crypto.CbcDecrypt` | cryptpad.py:110-118 | CBC decryption gives one plaintext block per ciphertext block |
| `Crypto.CbcEncryptSnoc` | cryptpad.py:76 | encrypting one more block appends Enc(key, P xor previous ciphertext block), with the IV as the first previous block |
| `Crypto.CbcDecryptSnoc` | cryptpad.py:118 | decrypting one more block appends Dec(key, C) xor the previous ciphertext block |
| `Crypto.CbcEncryptAt` | cryptpad.py:76 | ciphertext block i is Enc(key, P_i xor C_{i-1}), with C_{-1} the IV |
| `Crypto.CbcDecryptEncrypt` | cryptpad.py:110-118 | under the same key and IV, CBC decryption inverts CBC encryption block by block |
| `Crypto.AesCbc.constructor` | cryptpad.py:60 | `AES.new(Ek, AES.MODE_CBC, iv)` starts chaining from the IV |
| `Crypto.AesCbc.Encrypt` | cryptpad.py:76 | `encryptor.encrypt(chunk)` returns Enc(key, chunk xor chain), and that block becomes the chain |
| `Crypto.AesCbc.Decrypt` | cryptpad.py:118 | `decryptor.decrypt(chunk)` returns Dec(key, chunk) xor chain, and the chunk becomes the chain |
| `StringBuffer.StringIO.constructor` | cryptpad.py:56 | `StringIO(data)` holds data, positioned at 0 |
| `StringBuffer.StringIO.Seek` | cryptpad.py:62 | `seek(offset)` moves the position and leaves the contents alone |
| `StringBuffer.StringIO.Read` | cryptpad.py:69 | `read(n)` returns the next min(n, remaining) bytes and advances past them |
| `StringBuffer.StringIO.Write` | cryptpad.py:65-66 | `write(s)` overwrites from the position, extends as needed and moves past s; at the end of the buffer it appends |
| `StringBuffer.StringIO.Truncate` | cryptpad.py:120 | `truncate(size)` keeps the first min(size, length) bytes and puts the position at the new end |
| `Cryptpad.Accumulate` | cryptpad.py:39-41 | the for loop leaves in `res` the OR of the byte-wise XORs of a and b |
| `Cryptpad.PyValue.Truthy` | cryptpad.py:101 | definition: Python truthiness of what compare_digest returns, as `not` tests it: `False` is falsy and an `int` is truthy unless it is 0; `Cryptpad.CompareDigestResult` and `EnvelopeProperties.DecryptAsWrittenFails` state that the as-written result is never truthy |
| `Cryptpad.Accumulator` | cryptpad.py:39-41 | definition: `res` after the loop, the OR of the byte-wise XORs; `Cryptpad.Accumulate` and `Cryptpad.AccumulatorZeroIff` state its properties |
| `Cryptpad.AccumulatorZeroIff` | cryptpad.py:39-41 | for strings of equal length the accumulator is 0 exactly when the strings are equal |
| `Cryptpad.CompareDigestResult` | cryptpad.py:36-43 | compare_digest returns `False` when the lengths differ, and what it returns is never truthy, because `res % 1` is 0 |
| `Cryptpad.CompareDigest` | cryptpad.py:36-43 | the procedure as written returns that value |
| `Cryptpad.CompareDigestIntended` | cryptpad.py:36-43 | the comparison the callers rely on: false when the lengths differ, and true exactly when a == b |
| `Cryptpad.GetSignature` | cryptpad.py:45-49 | definition: `get_signature` is HMAC-SHA256 under Ak, i.e. `Crypto.Hmac`; `EnvelopeProperties.EncryptionLayout` and `EnvelopeProperties.DecryptIntendedAccepts` state where the envelope carries it and how decrypt checks it |
| `Cryptpad.MkPasswd` | cryptpad.py:123-126 | Ek == SHA256(phrase) and Ak == SHA256(Ek), both 32 bytes |
| `Cryptpad.PadLength` | cryptpad.py:73-74 | definition: the number of spaces the `elif` adds, `BLOCK_SIZE - len % BLOCK_SIZE` when the length is not a multiple of 16 and none otherwise; `EnvelopeProperties.PaddedLength` states that it brings the length to 16*ceil(n/16) with fewer than 16 spaces, and `Cryptpad.PadLengthShift` that whole blocks in front do not change it |
| `Cryptpad.Pad` | cryptpad.py:73-74 | definition: the plaintext followed by the spaces that fill its last block; `EnvelopeProperties.PaddedLength` and `EnvelopeProperties.PadLayout` state its length and contents |
| `Cryptpad.Chunks` | cryptpad.py:69-74 | definition: the padded 16-byte chunks the loop hands to the encryptor; `EnvelopeProperties.ChunkContents`, `Cryptpad.ChunksSnoc` and `Cryptpad.NoChunks` state what each block holds and how one more read extends them |
| `Cryptpad.Ciphertext` | cryptpad.py:68-76 | definition: the bytes the chunk loop writes, the CBC encryption of the chunks under Ek and the IV; `Cryptpad.EncryptChunks` is proved to write them, `EnvelopeProperties.CiphertextLength` states their length, `EnvelopeProperties.EncryptionLayout` where the envelope carries them, and `EnvelopeProperties.DecryptCiphertext` that decrypting them gives back the padded plaintext |
| `Cryptpad.ChunksSnoc` | cryptpad.py:69-74 | after whole blocks, reading a chunk of 1 to 16 bytes adds one 16-byte block: the chunk padded with spaces |
| `Cryptpad.NoChunks` | cryptpad.py:71-72 | the empty plaintext produces no blocks and no ciphertext |
| `Cryptpad.PadChunk` | cryptpad.py:73-74 | the `elif` pads a chunk to the end of its block, so a chunk of 1 to 16 bytes becomes exactly 16 |
| `Cryptpad.EncryptStep` | cryptpad.py:69-76 | one turn of the chunk loop extends the ciphertext by the encryption of the padded chunk, chained to the previous block |
| `Cryptpad.EncryptChunk` | cryptpad.py:73-76 | the rest of one loop turn after a non-empty read: `crypted` then holds header and the ciphertext of one more chunk, and the cipher's chain is that chunk's block |
| `Cryptpad.EncryptChunks` | cryptpad.py:68-76 | the chunk loop appends exactly the CBC ciphertext of the padded plaintext to `crypted`, and leaves `clear` read to its end and the cipher's chain at the last ciphertext block |
| `Cryptpad.Sign` | cryptpad.py:80 | the signing step appends, at the end of `crypted`, the HMAC under Ak of everything written to it so far |
| `Cryptpad.Encrypt` | cryptpad.py:51-83 | encrypt returns header, IV, ciphertext and the HMAC of those three, as `Encryption` defines |
| `Cryptpad.Encryption` | cryptpad.py:51-83 | definition: the envelope encrypt returns; `Cryptpad.Encrypt` is proved to compute it, and `EnvelopeProperties.EncryptionLayout` and `EnvelopeProperties.DecryptEncrypt` state its layout and that decrypt undoes it |
| `Cryptpad.MacStart` | cryptpad.py:95-97 | `crypted[:-MAC_SIZE]` and `crypted[-MAC_SIZE:]` split at a point that leaves min(n, 32) bytes for the MAC |
| `Cryptpad.Authentic` | cryptpad.py:101 | definition: whether the stored MAC is accepted, by compare_digest as written or by the intended equality; `EnvelopeProperties.DecryptAsWrittenFails` and `EnvelopeProperties.DecryptIntendedAccepts` state when it holds |
| `Cryptpad.Body` | cryptpad.py:112 | definition: `crypted[BLOCK_SIZE + BIG_ENDIAN_SIZE:-MAC_SIZE]`, empty when the string is too short to hold a header and an IV; `EnvelopeProperties.PlaintextLength` and `EnvelopeProperties.DecryptEncrypt` use it |
| `Cryptpad.Plaintext` | cryptpad.py:106-120 | definition: the body's whole blocks CBC-decrypted under the stored IV and cut to the stored length; `EnvelopeProperties.PlaintextLength` states its length and `EnvelopeProperties.DecryptEncrypt` that it is the plaintext encrypt was given |
| `Cryptpad.DecryptStep` | cryptpad.py:115-118 | one turn of the decrypt loop appends the CBC decryption of the next whole block |
| `Cryptpad.DecryptChunks` | cryptpad.py:114-118 | the decrypt loop leaves in `decrypted` the CBC decryption of the body's whole 16-byte blocks, and drops a partial trailing block; `handle` is then read to its end and the cipher's chain is the last whole block |
| `Cryptpad.Decryption` | cryptpad.py:85-121 | definition: what decrypt returns or raises; `Cryptpad.Decrypt` is proved to compute it, and `EnvelopeProperties.DecryptAsWrittenFails`, `EnvelopeProperties.DecryptIntendedAccepts` and `EnvelopeProperties.DecryptEncrypt` state its properties |
| `Cryptpad.Decrypt` | cryptpad.py:85-121 | decrypt returns what `Decryption` defines, or raises `AuthenticationError` |
| `EnvelopeProperties.PaddedLength` | cryptpad.py:73-74 | n plus its padding is 16 * ceil(n / 16), and fewer than 16 spaces are added |
| `EnvelopeProperties.PadLayout` | cryptpad.py:68-76 | the padded plaintext is the plaintext followed only by spaces, 16 * ceil(n / 16) bytes in all; it is unchanged exactly when n is a multiple of 16, the empty input included |
| `EnvelopeProperties.ChunkContents` | cryptpad.py:68-76 | each encrypted block is a full 16-byte chunk of the plaintext, or the final partial chunk followed by spaces |
| `EnvelopeProperties.CiphertextLength` | cryptpad.py:68-76 | the ciphertext is 16 * ceil(n / 16) bytes |
| `EnvelopeProperties.EncryptionLayout` | cryptpad.py:65-80 | the envelope is 8 + 16 + 16 * ceil(n / 16) + 32 bytes; the first 8 decode to n, the next 16 are the IV, then the ciphertext, and the last 32 are the HMAC of everything before them |
| `EnvelopeProperties.DecryptAsWrittenFails` | cryptpad.py:99-102 | decrypt as written raises `AuthenticationError` for every input, including every output of encrypt, before any decryption step |
| `EnvelopeProperties.DecryptIntendedAccepts` | cryptpad.py:95-102 | with the intended comparison decrypt succeeds exactly when the string has at least 32 bytes and its last 32 bytes are the HMAC of the rest |
| `EnvelopeProperties.PlaintextLength` | cryptpad.py:112-120 | an accepted string decrypts to min(stored length, bytes in the body's whole blocks) bytes |
| `EnvelopeProperties.DecryptCiphertext` | cryptpad.py:110-118 | CBC-decrypting the ciphertext encrypt wrote, split into blocks, gives back exactly the space-padded plaintext |
| `EnvelopeProperties.DecryptEncrypt` | cryptpad.py:85-121 | with the intended comparison decrypt(encrypt(P)) == P, for every plaintext, IV and key pair |
| `EnvelopeProperties.ReplacedMacRejected` | cryptpad.py:95-102 | an envelope whose MAC is replaced is accepted, under the intended comparison, exactly when the replacement is the true MAC |
| `Tests.MkPasswdVectors` | tests.py:10-18 | if SHA-256 maps "P3rl!" to the expected Ek, and that Ek to the expected Ak, mkpasswd returns that pair |
| `Tests.TestDecryptSucceeds` | tests.py:20-30 | the test message makes an 88-byte envelope; the intended comparison decrypts it back, while decrypt as written raises |
| `Tests.TestAuthFailBadMac` | tests.py:32-44 | with the MAC replaced by the HMAC of "bogus data", decrypt as written raises; under the intended comparison it raises exactly when that HMAC differs from the true one |

## Left out

- The Qt user interface is not modelled: `MainWindow`, `main` and `ui_cryptpad.py`, i.e. dialogs, file reading and writing, and the event loop.
- AES and SHA-256 are abstract functions.
  - All the model knows of them is their block and digest sizes, plus `Primitives.Valid`.
  - Four lemmas need `Primitives.Valid`: `Crypto.CbcDecryptEncrypt`, `EnvelopeProperties.DecryptCiphertext`, `EnvelopeProperties.DecryptEncrypt` and `Tests.TestDecryptSucceeds`. The other lemmas do not.
  - HMAC is not assumed: it is defined over the abstract hash.
- The IV is a parameter of `Encrypt`, not drawn with `randint` (cryptpad.py:58). Randomness is outside the model.
- `AES.new` raises `ValueError` for keys that are not 16, 24 or 32 bytes; the model does not. cryptpad's own keys come from `mkpasswd` and are always 32 bytes.
- PyCrypto's cipher object also accepts several blocks per call. cryptpad hands it exactly one, so `AesCbc` models single blocks.
- `Cryptpad.Encrypt`: requires the plaintext to be shorter than 2^64 bytes, where the source raises `struct.error` from `struct.pack('>Q', ...)`.
- `Cryptpad.Decryption`: does not model the case where the stored length is 2^63 or more. There `cStringIO`'s `truncate` raises `OverflowError`, while the model truncates.
  - That case needs an accepted MAC.
  - A MAC is never accepted as written.
  - Encrypt never writes such a length.
- `StringBuffer.StringIO.Seek`: requires an offset within the string. cryptpad only seeks to 0.
- encrypt and decrypt return `StringIO` objects. The model returns their contents, which is what `getvalue()` gives.
- The timing behaviour of `compare_digest` is not expressible. Only its return value is modelled.
- Python 2's `str.encode()` in `mkpasswd` is not modelled: the passphrase is already bytes. The bcrypt import is unused.
- The SHA-256 test vectors of tests.py:10-18 are not provable with an abstract hash. `Tests.MkPasswdVectors` takes them as preconditions.

## Findings

| source | as written | input that shows it | evidently intended | confidence | as-written member | corrected member |
|---|---|---|---|---|---|---|
| cryptpad.py:43 | `return res % 1`, which is 0 (falsy) for every `res`, so `not compare_digest(mac, real_mac)` at cryptpad.py:101 always holds | any envelope produced by encrypt, e.g. the 88-byte envelope of `Tests.TestDecryptSucceeds`: its MAC equals the recomputed one, yet decrypt raises `AuthenticationError` | `return res == 0`: equal exactly when the accumulator is 0 | not executed | `Cryptpad.CompareDigest` with `Cryptpad.CompareDigestResult` and `EnvelopeProperties.DecryptAsWrittenFails` | `Cryptpad.CompareDigestIntended` with `EnvelopeProperties.DecryptEncrypt` |
