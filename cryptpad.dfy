/**
 * The encrypted-envelope codec of cryptpad (cryptpad.py:29-126):
 *
 *   PTSize (8-byte big-endian u64) || IV (16) || AES-CBC ciphertext || HMAC-SHA256 (32)
 *
 * `Encrypt` and `Decrypt` follow the source step by step, through the
 * StringIO buffers and the stateful CBC cipher object; `Encryption` and
 * `Decryption` say what they compute as values, and the lemmas in this
 * module and in `EnvelopeProperties` state what the format promises.
 */
module Cryptpad {
  import opened Bytes
  import opened Crypto
  import opened StringBuffer

  /** `AuthenticationError` (cryptpad.py:33-34), the one error decrypt raises. */
  datatype Error = AuthenticationError

  datatype Result<T> = Success(value: T) | Failure(error: Error)

  /** A Python value as `if`/`not` see it: compare_digest returns either `False` or an `int`. */
  datatype PyValue = PyBool(b: bool) | PyInt(i: int)
  {
    predicate Truthy()
    {
      match this
      case PyBool(b) => b
      case PyInt(i) => i != 0
    }
  }

  // ---------------------------------------------------------------------
  // compare_digest (cryptpad.py:36-43)
  // ---------------------------------------------------------------------

  /** `res` after the loop `for x, y in zip(a, b): res |= ord(x) ^ ord(y)`. */
  function Accumulator(a: seq<byte>, b: seq<byte>): byte
    requires |a| == |b|
  {
    if a == [] then 0
    else Accumulator(a[..|a| - 1], b[..|b| - 1]) | (a[|a| - 1] ^ b[|b| - 1])
  }

  /** The accumulator is zero exactly when the two strings are equal. */
  lemma {:induction false} AccumulatorZeroIff(a: seq<byte>, b: seq<byte>)
    requires |a| == |b|
    ensures Accumulator(a, b) == 0 <==> a == b
  {
    if a != [] {
      var n := |a| - 1;
      AccumulatorZeroIff(a[..n], b[..n]);
      assert a == a[..n] + [a[n]];
      assert b == b[..n] + [b[n]];
    }
  }

  /** The accumulator loop of compare_digest (cryptpad.py:39-41). */
  method Accumulate(a: seq<byte>, b: seq<byte>) returns (res: byte)
    requires |a| == |b|
    ensures res == Accumulator(a, b)
  {
    res := 0;
    for i := 0 to |a|
      invariant res == Accumulator(a[..i], b[..i])
    {
      assert a[..i + 1][..i] == a[..i] && b[..i + 1][..i] == b[..i];
      res := res | (a[i] ^ b[i]);
    }
    assert a[..|a|] == a && b[..|b|] == b;
  }

  /**
   * The value compare_digest returns as written: `False` for strings of
   * different lengths, otherwise `res % 1`, which is 0 whatever `res` is.
   * So it is never truthy, not even for two equal strings.
   */
  function CompareDigestResult(a: seq<byte>, b: seq<byte>): (r: PyValue)
    ensures |a| != |b| ==> r == PyBool(false)
    ensures !r.Truthy()
  {
    if |a| != |b| then PyBool(false) else PyInt(Accumulator(a, b) as int % 1)
  }

  /** compare_digest as written (cryptpad.py:36-43). */
  method CompareDigest(a: seq<byte>, b: seq<byte>) returns (r: PyValue)
    ensures r == CompareDigestResult(a, b)
  {
    if |a| != |b| {
      return PyBool(false);
    }
    var res := Accumulate(a, b);
    r := PyInt(res as int % 1);
  }

  /**
   * compare_digest as its callers and tests.py:20-30 expect it to behave:
   * `False` for different lengths, otherwise true exactly when `res == 0`.
   */
  method CompareDigestIntended(a: seq<byte>, b: seq<byte>) returns (equal: bool)
    ensures equal <==> a == b
  {
    if |a| != |b| {
      return false;
    }
    var res := Accumulate(a, b);
    AccumulatorZeroIff(a, b);
    equal := res == 0;
  }

  // ---------------------------------------------------------------------
  // get_signature and mkpasswd (cryptpad.py:45-49, 123-126)
  // ---------------------------------------------------------------------

  /** `HMAC.new(Ak, data, digestmod=SHA256).digest()` */
  function GetSignature(p: Primitives, data: seq<byte>, ak: seq<byte>): Digest
  {
    Hmac(p.sha256, ak, data)
  }

  /** The encryption key Ek and the authentication key Ak. */
  datatype KeyPair = KeyPair(ek: Digest, ak: Digest)

  /** mkpasswd: Ek = SHA256(phrase), Ak = SHA256(Ek). */
  function MkPasswd(p: Primitives, phrase: seq<byte>): (keys: KeyPair)
    ensures keys.ek == p.sha256(phrase)
    ensures keys.ak == p.sha256(keys.ek)
  {
    var ek := p.sha256(phrase);
    KeyPair(ek, p.sha256(ek))
  }

  // ---------------------------------------------------------------------
  // encrypt (cryptpad.py:51-83)
  // ---------------------------------------------------------------------

  /** The number of spaces `' ' * (BLOCK_SIZE - len % BLOCK_SIZE)` adds, or 0 when nothing is added. */
  function PadLength(n: nat): nat
  {
    if n % 16 == 0 then 0 else BLOCK_SIZE - n % 16
  }

  /** Whole blocks in front do not change how much padding follows. */
  lemma PadLengthShift(m: nat, n: nat)
    requires m % 16 == 0
    ensures PadLength(m + n) == PadLength(n)
  {
    assert (m + n) % 16 == n % 16;
  }

  /** A byte string followed by the spaces that fill its last block. */
  function Pad(s: seq<byte>): (r: seq<byte>)
    ensures |r| % 16 == 0
  {
    s + Spaces(PadLength(|s|))
  }

  /** The blocks the chunk loop hands to the encryptor. */
  function Chunks(data: seq<byte>): seq<Block>
  {
    ToBlocks(Pad(data))
  }

  /** The CBC ciphertext part of the envelope. */
  function Ciphertext(p: Primitives, data: seq<byte>, iv: Block, ek: seq<byte>): seq<byte>
  {
    Flatten(CbcEncrypt(p, ek, iv, Chunks(data)))
  }

  /** The envelope encrypt produces: header, IV and ciphertext, then the HMAC of all of them. */
  function Encryption(p: Primitives, data: seq<byte>, iv: Block, ek: seq<byte>, ak: seq<byte>): seq<byte>
    requires |data| < U64_LIMIT
  {
    var signed := PackU64(|data|) + iv + Ciphertext(p, data, iv, ek);
    signed + GetSignature(p, signed, ak)
  }

  /** Reading one more chunk after whole blocks adds that chunk, padded, as the next block. */
  lemma ChunksSnoc(s: seq<byte>, chunk: seq<byte>)
    requires |s| % 16 == 0
    requires 0 < |chunk| <= BLOCK_SIZE
    ensures |Pad(chunk)| == BLOCK_SIZE
    ensures Chunks(s + chunk) == Chunks(s) + [Pad(chunk)]
  {
    var k := PadLength(|chunk|);
    PadLengthShift(|s|, |chunk|);
    AppendAssoc(s, chunk, Spaces(k));
    assert Pad(s) == s;
    ToBlocksSnoc(s, Pad(chunk));
  }

  /** Before the first chunk nothing has been encrypted. */
  lemma NoChunks(p: Primitives, iv: Block, ek: seq<byte>)
    ensures Chunks([]) == []
    ensures Ciphertext(p, [], iv, ek) == []
  {
    assert Pad([]) == [];
  }

  /**
   * One turn of the chunk loop: reading the next chunk (at most 16 bytes)
   * after `consumed` bytes and encrypting it, padded, chained to the
   * previous ciphertext block, extends the ciphertext by that block.
   */
  lemma EncryptStep(p: Primitives, data: seq<byte>, consumed: nat, next: nat, chunk: seq<byte>,
                    iv: Block, ek: seq<byte>, block: Block)
    requires consumed % 16 == 0 && consumed < |data|
    requires chunk == data[consumed .. Min(consumed + BLOCK_SIZE, |data|)]
    requires next == consumed + |chunk|
    requires |Pad(chunk)| == BLOCK_SIZE
    requires block == p.aesEncrypt(ek, XorBlock(Pad(chunk), Chain(iv, CbcEncrypt(p, ek, iv, Chunks(data[..consumed])))))
    ensures next % 16 == 0 || next == |data|
    ensures Ciphertext(p, data[..next], iv, ek) == Ciphertext(p, data[..consumed], iv, ek) + block
    ensures Chain(iv, CbcEncrypt(p, ek, iv, Chunks(data[..next]))) == block
  {
    assert data[..next] == data[..consumed] + chunk;
    ChunksSnoc(data[..consumed], chunk);
    EncryptedSnoc(p, ek, iv, Chunks(data[..consumed]), Pad(chunk), block);
  }

  /** The ciphertext grows by the chained encryption of one more plaintext block. */
  lemma EncryptedSnoc(p: Primitives, ek: seq<byte>, iv: Block, blocks: seq<Block>, padded: Block, block: Block)
    requires block == p.aesEncrypt(ek, XorBlock(padded, Chain(iv, CbcEncrypt(p, ek, iv, blocks))))
    ensures Flatten(CbcEncrypt(p, ek, iv, blocks + [padded])) == Flatten(CbcEncrypt(p, ek, iv, blocks)) + block
    ensures Chain(iv, CbcEncrypt(p, ek, iv, blocks + [padded])) == block
  {
    CbcEncryptSnoc(p, ek, iv, blocks, padded);
    FlattenSnoc(CbcEncrypt(p, ek, iv, blocks), block);
  }

  /** The `elif` of the chunk loop (cryptpad.py:73-74): a short chunk is filled up with spaces. */
  method PadChunk(chunk: seq<byte>) returns (padded: seq<byte>)
    ensures padded == Pad(chunk)
    ensures 0 < |chunk| <= BLOCK_SIZE ==> |padded| == BLOCK_SIZE
  {
    padded := chunk;
    if |chunk| % 16 != 0 {
      padded := chunk + Spaces(BLOCK_SIZE - |chunk| % 16);
    }
  }

  /**
   * The rest of one turn of the chunk loop of encrypt (cryptpad.py:73-76),
   * once a non-empty chunk has been read after `consumed` bytes: pad it,
   * encrypt it chained to the previous block, and append the result to
   * `crypted`, which then holds the ciphertext of one more chunk.
   */
  method EncryptChunk(ghost p: Primitives, ghost data: seq<byte>, ghost consumed: nat, ghost next: nat,
                      ghost iv: Block, ghost ek: seq<byte>, ghost header: seq<byte>,
                      chunk: seq<byte>, encryptor: AesCbc, crypted: StringIO)
    requires consumed % 16 == 0 && consumed < |data|
    requires chunk == data[consumed .. Min(consumed + BLOCK_SIZE, |data|)]
    requires next == consumed + |chunk|
    requires crypted.Valid() && crypted.pos == |crypted.buf|
    requires crypted.buf == header + Ciphertext(p, data[..consumed], iv, ek)
    requires encryptor.prims == p && encryptor.key == ek
    requires encryptor.chain == Chain(iv, CbcEncrypt(p, ek, iv, Chunks(data[..consumed])))
    modifies encryptor, crypted
    ensures next % 16 == 0 || next == |data|
    ensures crypted.Valid() && crypted.pos == |crypted.buf|
    ensures crypted.buf == header + Ciphertext(p, data[..next], iv, ek)
    ensures encryptor.chain == Chain(iv, CbcEncrypt(p, ek, iv, Chunks(data[..next])))
  {
    var padded := PadChunk(chunk);
    var block := encryptor.Encrypt(padded);
    EncryptStep(p, data, consumed, next, chunk, iv, ek, block);
    AppendAssoc(header, Ciphertext(p, data[..consumed], iv, ek), block);
    crypted.Write(block);
  }

  /**
   * The chunk loop of encrypt (cryptpad.py:68-76): reads `clear` 16 bytes
   * at a time, pads a short last chunk with spaces and appends each
   * encrypted block to `crypted`.
   */
  method EncryptChunks(ghost p: Primitives, ghost data: seq<byte>, ghost iv: Block, ghost ek: seq<byte>,
                       clear: StringIO, encryptor: AesCbc, crypted: StringIO)
    requires clear != crypted
    requires clear.Valid() && clear.buf == data && clear.pos == 0
    requires crypted.Valid() && crypted.pos == |crypted.buf|
    requires encryptor.prims == p && encryptor.key == ek && encryptor.chain == iv
    modifies clear, encryptor, crypted
    ensures crypted.Valid() && crypted.pos == |crypted.buf|
    ensures crypted.buf == old(crypted.buf) + Ciphertext(p, data, iv, ek)
    ensures clear.Valid() && clear.buf == data && clear.pos == |data|
    ensures encryptor.chain == Chain(iv, CbcEncrypt(p, ek, iv, Chunks(data)))
  {
    ghost var header := crypted.buf;
    ghost var consumed := 0;
    assert data[..0] == [];
    NoChunks(p, iv, ek);

    while true
      invariant clear.Valid() && crypted.Valid()
      invariant clear.buf == data && consumed == clear.pos
      invariant consumed % 16 == 0 || consumed == |data|
      invariant crypted.buf == header + Ciphertext(p, data[..consumed], iv, ek)
      invariant crypted.pos == |crypted.buf|
      invariant encryptor.chain == Chain(iv, CbcEncrypt(p, ek, iv, Chunks(data[..consumed])))
      decreases |data| - consumed
    {
      var chunk := clear.Read(BLOCK_SIZE);
      if |chunk| == 0 {
        assert clear.pos == consumed == |data| && data[..consumed] == data;
        break;
      }
      EncryptChunk(p, data, consumed, clear.pos, iv, ek, header, chunk, encryptor, crypted);
      consumed := clear.pos;
    }
  }

  /** The signing step of encrypt (cryptpad.py:80): appends to `crypted` the HMAC of everything written to it so far. */
  method Sign(p: Primitives, ak: seq<byte>, crypted: StringIO)
    requires crypted.Valid() && crypted.pos == |crypted.buf|
    modifies crypted
    ensures crypted.Valid() && crypted.pos == |crypted.buf|
    ensures crypted.buf == old(crypted.buf) + GetSignature(p, old(crypted.buf), ak)
  {
    var signature := GetSignature(p, crypted.buf, ak);
    crypted.Write(signature);
  }

  /**
   * encrypt(data, Ek, Ak), with the IV that cryptpad draws with randint
   * (cryptpad.py:58) passed in. Returns `crypted.getvalue()`.
   */
  method Encrypt(p: Primitives, data: seq<byte>, iv: Block, ek: seq<byte>, ak: seq<byte>)
    returns (envelope: seq<byte>)
    requires |data| < U64_LIMIT
    ensures envelope == Encryption(p, data, iv, ek, ak)
  {
    var clear := new StringIO(data);
    var encryptor := new AesCbc(p, ek, iv);
    clear.Seek(0);
    var crypted := new StringIO([]);
    crypted.Write(PackU64(|data|));
    crypted.Write(iv);
    ghost var header := crypted.buf;
    assert header == PackU64(|data|) + iv;
    EncryptChunks(p, data, iv, ek, clear, encryptor, crypted);
    ghost var signed := crypted.buf;
    Sign(p, ak, crypted);
    crypted.Seek(0);
    envelope := crypted.buf;
    EncryptionOf(p, data, iv, ek, ak, header, signed);
  }

  /** The envelope is the signed part followed by its HMAC. */
  lemma EncryptionOf(p: Primitives, data: seq<byte>, iv: Block, ek: seq<byte>, ak: seq<byte>,
                     header: seq<byte>, signed: seq<byte>)
    requires |data| < U64_LIMIT
    requires header == PackU64(|data|) + iv
    requires signed == header + Ciphertext(p, data, iv, ek)
    ensures Encryption(p, data, iv, ek, ak) == signed + GetSignature(p, signed, ak)
  {
  }

  // ---------------------------------------------------------------------
  // decrypt (cryptpad.py:85-121)
  // ---------------------------------------------------------------------

  /** Which comparison decides whether the MAC matches. */
  datatype Comparison =
    /** compare_digest as written: the code's behaviour. */
    | AsWritten
    /** `res == 0`: the behaviour tests.py:20-30 asserts. */
    | Intended

  /** Python's index for `[-MAC_SIZE]`: where the trailing MAC starts. */
  function MacStart(n: nat): (k: nat)
    ensures k <= n
    ensures n - k == Min(n, MAC_SIZE)
  {
    if n >= MAC_SIZE then n - MAC_SIZE else 0
  }

  /** Whether the stored MAC is accepted. */
  function Authentic(cmp: Comparison, mac: seq<byte>, realMac: Digest): bool
  {
    match cmp
    case AsWritten => CompareDigestResult(mac, realMac).Truthy()
    case Intended => mac == realMac
  }

  /** `crypted[BLOCK_SIZE + BIG_ENDIAN_SIZE:-MAC_SIZE]`, for a string holding at least a MAC. */
  function Body(crypted: seq<byte>): (body: seq<byte>)
    requires |crypted| >= MAC_SIZE
  {
    if |crypted| >= BIG_ENDIAN_SIZE + BLOCK_SIZE + MAC_SIZE
    then crypted[BIG_ENDIAN_SIZE + BLOCK_SIZE .. |crypted| - MAC_SIZE]
    else []
  }

  /**
   * What decrypt returns once the MAC is accepted: the body's whole
   * blocks CBC-decrypted under the stored IV and cut to the stored length.
   */
  function Plaintext(p: Primitives, crypted: seq<byte>, ek: seq<byte>): seq<byte>
    requires |crypted| >= MAC_SIZE
  {
    var size := UnpackU64(crypted[..BIG_ENDIAN_SIZE]);
    var iv: Block := crypted[BIG_ENDIAN_SIZE .. BIG_ENDIAN_SIZE + BLOCK_SIZE];
    var body := Body(crypted);
    var whole := body[..|body| / 16 * 16];
    var decrypted := Flatten(CbcDecrypt(p, ek, iv, ToBlocks(whole)));
    decrypted[..Min(size, |decrypted|)]
  }

  /** The length of the whole blocks at the front of n bytes is the multiple of 16 within one block of n. */
  lemma WholeBlocks(n: nat, k: nat)
    requires k % 16 == 0 && k <= n < k + BLOCK_SIZE
    ensures n / 16 * 16 == k
  {
  }

  /** What decrypt returns, or the error it raises. */
  function Decryption(p: Primitives, crypted: seq<byte>, ek: seq<byte>, ak: seq<byte>, cmp: Comparison)
    : Result<seq<byte>>
  {
    var start := MacStart(|crypted|);
    if !Authentic(cmp, crypted[start..], GetSignature(p, crypted[..start], ak))
    then Failure(AuthenticationError)
    else Success(Plaintext(p, crypted, ek))
  }

  /** One turn of the chunk loop of decrypt: a whole block read appends its decryption. */
  lemma DecryptStep(p: Primitives, body: seq<byte>, consumed: nat, next: nat, chunk: Block,
                    iv: Block, ek: seq<byte>, block: Block)
    requires consumed % 16 == 0 && next == consumed + BLOCK_SIZE <= |body|
    requires chunk == body[consumed .. next]
    requires block == XorBlock(p.aesDecrypt(ek, chunk), Chain(iv, ToBlocks(body[..consumed])))
    ensures next % 16 == 0
    ensures Flatten(CbcDecrypt(p, ek, iv, ToBlocks(body[..next])))
         == Flatten(CbcDecrypt(p, ek, iv, ToBlocks(body[..consumed]))) + block
    ensures Chain(iv, ToBlocks(body[..next])) == chunk
  {
    var blocks := ToBlocks(body[..consumed]);
    assert body[..next] == body[..consumed] + chunk;
    ToBlocksSnoc(body[..consumed], chunk);
    DecryptedSnoc(p, ek, iv, blocks, chunk, block);
  }

  /** The bytes decrypted so far grow by the decryption of one more ciphertext block. */
  lemma DecryptedSnoc(p: Primitives, ek: seq<byte>, iv: Block, blocks: seq<Block>, chunk: Block, block: Block)
    requires block == XorBlock(p.aesDecrypt(ek, chunk), Chain(iv, blocks))
    ensures Flatten(CbcDecrypt(p, ek, iv, blocks + [chunk])) == Flatten(CbcDecrypt(p, ek, iv, blocks)) + block
  {
    CbcDecryptSnoc(p, ek, iv, blocks, chunk);
    FlattenSnoc(CbcDecrypt(p, ek, iv, blocks), block);
  }

  /**
   * The chunk loop of decrypt (cryptpad.py:114-118): reads `handle` 16
   * bytes at a time and appends the decryption of each whole block to
   * `decrypted`; a short last chunk ends the loop and is dropped.
   */
  method DecryptChunks(ghost p: Primitives, ghost body: seq<byte>, ghost iv: Block, ghost ek: seq<byte>,
                       handle: StringIO, decryptor: AesCbc, decrypted: StringIO)
    requires handle != decrypted
    requires handle.Valid() && handle.buf == body && handle.pos == 0
    requires decrypted.Valid() && decrypted.buf == [] && decrypted.pos == 0
    requires decryptor.prims == p && decryptor.key == ek && decryptor.chain == iv
    modifies handle, decryptor, decrypted
    ensures decrypted.Valid() && decrypted.pos == |decrypted.buf|
    ensures decrypted.buf == Flatten(CbcDecrypt(p, ek, iv, ToBlocks(body[..|body| / 16 * 16])))
    ensures handle.Valid() && handle.buf == body && handle.pos == |body|
    ensures decryptor.chain == Chain(iv, ToBlocks(body[..|body| / 16 * 16]))
  {
    ghost var consumed := 0;
    assert body[..0] == [];

    while true
      invariant handle.Valid() && decrypted.Valid()
      invariant handle.buf == body
      invariant consumed == handle.pos && consumed % 16 == 0
      invariant decrypted.buf == Flatten(CbcDecrypt(p, ek, iv, ToBlocks(body[..consumed])))
      invariant decrypted.pos == |decrypted.buf|
      invariant decryptor.chain == Chain(iv, ToBlocks(body[..consumed]))
      decreases |body| - consumed
    {
      var chunk := handle.Read(BLOCK_SIZE);
      if |chunk| < BLOCK_SIZE {
        break;
      }
      var block := decryptor.Decrypt(chunk);
      DecryptStep(p, body, consumed, handle.pos, chunk, iv, ek, block);
      decrypted.Write(block);
      consumed := handle.pos;
    }
    assert consumed <= |body| < consumed + BLOCK_SIZE;
    WholeBlocks(|body|, consumed);
  }

  /** decrypt(crypted, Ek, Ak) with the given comparison; returns `decrypted.getvalue()`. */
  method Decrypt(p: Primitives, crypted: seq<byte>, ek: seq<byte>, ak: seq<byte>, cmp: Comparison)
    returns (r: Result<seq<byte>>)
    ensures r == Decryption(p, crypted, ek, ak, cmp)
  {
    var start := MacStart(|crypted|);
    var data := crypted[..start];
    var mac := crypted[start..];
    var realMac := GetSignature(p, data, ak);
    var authentic: bool;
    match cmp {
      case AsWritten =>
        var v := CompareDigest(mac, realMac);
        authentic := v.Truthy();
      case Intended =>
        authentic := CompareDigestIntended(mac, realMac);
    }
    if !authentic {
      return Failure(AuthenticationError);
    }

    var size := UnpackU64(crypted[..BIG_ENDIAN_SIZE]);
    var iv: Block := crypted[BIG_ENDIAN_SIZE .. BIG_ENDIAN_SIZE + BLOCK_SIZE];
    var decryptor := new AesCbc(p, ek, iv);
    var decrypted := new StringIO([]);
    var handle := new StringIO(Body(crypted));
    DecryptChunks(p, Body(crypted), iv, ek, handle, decryptor, decrypted);
    decrypted.Truncate(size);
    r := Success(decrypted.buf);
  }
}
