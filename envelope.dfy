/**
 * What the envelope format promises, stated over `Encryption` and
 * `Decryption`, the values that `Cryptpad.Encrypt` and `Cryptpad.Decrypt`
 * are proved to compute: the padding and the layout written by encrypt,
 * decrypt's acceptance condition, that decrypt as written rejects every
 * input, and that with the intended comparison decrypt undoes encrypt.
 */
module EnvelopeProperties {
  import opened Bytes
  import opened Crypto
  import opened StringBuffer
  import opened Cryptpad

  // ---------------------------------------------------------------------
  // Padding and chunks (cryptpad.py:68-76)
  // ---------------------------------------------------------------------

  /** n plus its padding is the next multiple of 16: 16 * ceil(n / 16). */
  lemma PaddedLength(n: nat)
    ensures n + PadLength(n) == 16 * ((n + 15) / 16)
    ensures PadLength(n) < BLOCK_SIZE
  {
    var q, r := n / 16, n % 16;
    assert n == 16 * q + r;
    if r == 0 {
      assert (n + 15) / 16 == q;
    } else {
      assert (n + 15) / 16 == q + 1;
    }
  }

  /**
   * The padded plaintext is the plaintext followed by fewer than 16 spaces,
   * 16 * ceil(n / 16) bytes in all; it gains nothing exactly when its length
   * is already a multiple of 16 (the empty string included).
   */
  lemma PadLayout(s: seq<byte>)
    ensures |Pad(s)| == 16 * ((|s| + 15) / 16)
    ensures Pad(s)[..|s|] == s
    ensures forall i :: |s| <= i < |Pad(s)| ==> Pad(s)[i] == SPACE
    ensures |Pad(s)| - |s| < BLOCK_SIZE
    ensures |s| % 16 == 0 <==> Pad(s) == s
  {
    PaddedLength(|s|);
    assert (s + Spaces(PadLength(|s|)))[..|s|] == s;
  }

  /**
   * The blocks the chunk loop encrypts: every full 16-byte chunk of the
   * plaintext as it is, and a final partial chunk followed by spaces.
   */
  lemma ChunkContents(data: seq<byte>, i: nat)
    requires i < |Chunks(data)|
    ensures 16 * i + 16 <= |data| ==> Chunks(data)[i] == data[16 * i .. 16 * i + 16]
    ensures |data| < 16 * i + 16 ==> Chunks(data)[i] == data[16 * i ..] + Spaces(16 * i + 16 - |data|)
  {
    var padded := Pad(data);
    PadLayout(data);
    assert Chunks(data)[i] == padded[16 * i .. 16 * i + 16];
    if 16 * i + 16 <= |data| {
      assert padded[16 * i .. 16 * i + 16] == padded[..|data|][16 * i .. 16 * i + 16];
    } else {
      assert |padded| == 16 * i + 16;
      var tail := data[16 * i ..] + Spaces(16 * i + 16 - |data|);
      forall k | 0 <= k < 16
        ensures padded[16 * i + k] == tail[k]
      {
        if 16 * i + k < |data| {
          assert padded[16 * i + k] == padded[..|data|][16 * i + k];
        }
      }
    }
  }

  /** The CBC ciphertext is exactly as long as the padded plaintext. */
  lemma CiphertextLength(p: Primitives, data: seq<byte>, iv: Block, ek: seq<byte>)
    ensures |Ciphertext(p, data, iv, ek)| == 16 * ((|data| + 15) / 16)
  {
    PadLayout(data);
  }

  // ---------------------------------------------------------------------
  // The envelope encrypt writes (cryptpad.py:65-80)
  // ---------------------------------------------------------------------

  /**
   * PTSize (8) || IV (16) || ciphertext (16 * ceil(n / 16)) || MAC (32):
   * the header decodes to the plaintext length, the IV is stored as given,
   * and the last 32 bytes are the HMAC of everything before them.
   */
  lemma EncryptionLayout(p: Primitives, data: seq<byte>, iv: Block, ek: seq<byte>, ak: seq<byte>)
    requires |data| < U64_LIMIT
    ensures var e := Encryption(p, data, iv, ek, ak);
      && |e| == BIG_ENDIAN_SIZE + BLOCK_SIZE + 16 * ((|data| + 15) / 16) + MAC_SIZE
      && UnpackU64(e[..BIG_ENDIAN_SIZE]) == |data|
      && e[BIG_ENDIAN_SIZE .. BIG_ENDIAN_SIZE + BLOCK_SIZE] == iv
      && e[BIG_ENDIAN_SIZE + BLOCK_SIZE .. |e| - MAC_SIZE] == Ciphertext(p, data, iv, ek)
      && e[|e| - MAC_SIZE ..] == GetSignature(p, e[..|e| - MAC_SIZE], ak)
  {
    var header, cipher := PackU64(|data|), Ciphertext(p, data, iv, ek);
    var signed := header + iv + cipher;
    var mac := GetSignature(p, signed, ak);
    CiphertextLength(p, data, iv, ek);
    UnpackPackU64(|data|);
    Fields(header, iv, cipher, mac);
  }

  // ---------------------------------------------------------------------
  // decrypt (cryptpad.py:85-121)
  // ---------------------------------------------------------------------

  /**
   * decrypt as written raises AuthenticationError on every input, an
   * envelope fresh from encrypt included: compare_digest is never truthy,
   * so the check at cryptpad.py:101 always fails.
   */
  lemma DecryptAsWrittenFails(p: Primitives, crypted: seq<byte>, ek: seq<byte>, ak: seq<byte>)
    ensures Decryption(p, crypted, ek, ak, AsWritten) == Failure(AuthenticationError)
  {
    var start := MacStart(|crypted|);
    var nope := CompareDigestResult(crypted[start..], GetSignature(p, crypted[..start], ak));
    assert !nope.Truthy();
  }

  /**
   * With the intended comparison decrypt accepts a string exactly when it
   * holds at least a MAC and its last 32 bytes are the HMAC of the rest.
   */
  lemma DecryptIntendedAccepts(p: Primitives, crypted: seq<byte>, ek: seq<byte>, ak: seq<byte>)
    ensures Decryption(p, crypted, ek, ak, Intended).Success?
        <==> |crypted| >= MAC_SIZE
             && crypted[|crypted| - MAC_SIZE ..] == GetSignature(p, crypted[..|crypted| - MAC_SIZE], ak)
  {
    if |crypted| < MAC_SIZE {
      assert |crypted[MacStart(|crypted|)..]| < MAC_SIZE;
    }
  }

  /**
   * What decrypt returns once the MAC is accepted is the stored length,
   * capped by the bytes in the whole 16-byte blocks of the body: a partial
   * trailing block is never decrypted, and truncate never extends.
   */
  lemma PlaintextLength(p: Primitives, crypted: seq<byte>, ek: seq<byte>)
    requires |crypted| >= MAC_SIZE
    ensures |Plaintext(p, crypted, ek)|
         == Min(UnpackU64(crypted[..BIG_ENDIAN_SIZE]), 16 * (|Body(crypted)| / 16))
  {
    var body := Body(crypted);
    var whole := body[..|body| / 16 * 16];
    assert |ToBlocks(whole)| == |body| / 16;
  }

  /** Decrypting the ciphertext of encrypt gives back the padded plaintext. */
  lemma DecryptCiphertext(p: Primitives, data: seq<byte>, iv: Block, ek: seq<byte>)
    requires p.Valid()
    ensures |Ciphertext(p, data, iv, ek)| % 16 == 0
    ensures Flatten(CbcDecrypt(p, ek, iv, ToBlocks(Ciphertext(p, data, iv, ek)))) == Pad(data)
  {
    var blocks := CbcEncrypt(p, ek, iv, Chunks(data));
    ToBlocksFlatten(blocks);
    CbcDecryptEncrypt(p, ek, iv, Chunks(data));
    FlattenToBlocks(Pad(data));
  }

  /**
   * With the intended comparison, decrypt undoes encrypt for every
   * plaintext, IV and key pair, given only that AES decryption inverts AES
   * encryption.
   */
  lemma DecryptEncrypt(p: Primitives, data: seq<byte>, iv: Block, ek: seq<byte>, ak: seq<byte>)
    requires p.Valid()
    requires |data| < U64_LIMIT
    ensures Decryption(p, Encryption(p, data, iv, ek, ak), ek, ak, Intended) == Success(data)
  {
    var e := Encryption(p, data, iv, ek, ak);
    EncryptionLayout(p, data, iv, ek, ak);
    var body := Body(e);
    assert body == Ciphertext(p, data, iv, ek);
    DecryptCiphertext(p, data, iv, ek);
    assert body[..|body| / 16 * 16] == body;
    PadLayout(data);
    var decrypted := Flatten(CbcDecrypt(p, ek, iv, ToBlocks(body)));
    assert Min(UnpackU64(e[..BIG_ENDIAN_SIZE]), |decrypted|) == |data|;
    assert Plaintext(p, e, ek) == data;
  }

  /**
   * Replacing the MAC of an envelope by another 32-byte string, as the
   * bad-MAC test does, is accepted under the intended comparison exactly
   * when that string is the envelope's true MAC.
   */
  lemma ReplacedMacRejected(p: Primitives, data: seq<byte>, iv: Block, ek: seq<byte>, ak: seq<byte>, mac: Digest)
    requires |data| < U64_LIMIT
    ensures var e := Encryption(p, data, iv, ek, ak);
      var forged := e[..|e| - MAC_SIZE] + mac;
      Decryption(p, forged, ek, ak, Intended).Success? <==> mac == e[|e| - MAC_SIZE ..]
  {
    var e := Encryption(p, data, iv, ek, ak);
    var forged := e[..|e| - MAC_SIZE] + mac;
    EncryptionLayout(p, data, iv, ek, ak);
    DecryptIntendedAccepts(p, forged, ek, ak);
    assert forged[..|forged| - MAC_SIZE] == e[..|e| - MAC_SIZE];
    assert forged[|forged| - MAC_SIZE ..] == mac;
  }
}
