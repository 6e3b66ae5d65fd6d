/**
 * The cryptographic primitives cryptpad takes from PyCrypto, and the CBC
 * mode of operation it runs AES in.
 *
 * AES (FIPS 197) and SHA-256 (FIPS 180-4) are not defined here: a
 * `Primitives` value carries them as functions, and all the model knows
 * of them is what their types say (blocks are 16 bytes, digests 32) and,
 * through `Valid`, that AES decryption under a key undoes AES encryption
 * under the same key. HMAC (RFC 2104, section 2) and CBC (NIST SP 800-38A,
 * section 6.2) are written out on top of them.
 */
module Crypto {
  import opened Bytes

  datatype Primitives = Primitives(
    /** AES block encryption under a key. */
    aesEncrypt: (seq<byte>, Block) -> Block,
    /** AES block decryption under a key. */
    aesDecrypt: (seq<byte>, Block) -> Block,
    /** The SHA-256 digest of a message. */
    sha256: seq<byte> -> Digest)
  {
    /** The one law the model assumes of the block cipher. */
    ghost predicate Valid()
    {
      forall key, x :: aesDecrypt(key, aesEncrypt(key, x)) == x
    }
  }

  // ---------------------------------------------------------------------
  // HMAC-SHA256 (RFC 2104, section 2), as `HMAC.new(key, msg, SHA256)` computes it
  // ---------------------------------------------------------------------

  /** The block size B of SHA-256's compression function. */
  const HMAC_BLOCK_SIZE: nat := 64
  const IPAD: byte := 0x36
  const OPAD: byte := 0x5C

  /** The key padded with zero bytes to B bytes, hashed first when it is longer than B. */
  function HmacKey(sha256: seq<byte> -> Digest, key: seq<byte>): (k: seq<byte>)
    ensures |k| == HMAC_BLOCK_SIZE
    ensures |key| <= HMAC_BLOCK_SIZE ==> k[..|key|] == key
    ensures |key| > HMAC_BLOCK_SIZE ==> k[..MAC_SIZE] == sha256(key)
    ensures forall i :: (if |key| <= HMAC_BLOCK_SIZE then |key| else MAC_SIZE) <= i < HMAC_BLOCK_SIZE ==> k[i] == 0
  {
    var short := if |key| > HMAC_BLOCK_SIZE then sha256(key) else key;
    short + Zeros(HMAC_BLOCK_SIZE - |short|)
  }

  function Zeros(n: nat): (r: seq<byte>)
    ensures |r| == n
    ensures forall i :: 0 <= i < n ==> r[i] == 0
  {
    if n == 0 then [] else Zeros(n - 1) + [0]
  }

  function XorEach(s: seq<byte>, pad: byte): (r: seq<byte>)
    ensures |r| == |s|
  {
    seq(|s|, i requires 0 <= i < |s| => s[i] ^ pad)
  }

  /** H((K0 xor opad) || H((K0 xor ipad) || text)) */
  function Hmac(sha256: seq<byte> -> Digest, key: seq<byte>, text: seq<byte>): Digest
  {
    var k0 := HmacKey(sha256, key);
    sha256(XorEach(k0, OPAD) + sha256(XorEach(k0, IPAD) + text))
  }

  // ---------------------------------------------------------------------
  // CBC mode (NIST SP 800-38A, section 6.2)
  // ---------------------------------------------------------------------

  /** The chaining value for the next block: C_0 = IV, then the last ciphertext block. */
  function Chain(iv: Block, cs: seq<Block>): Block
  {
    if cs == [] then iv else cs[|cs| - 1]
  }

  /** C_i = Enc(key, P_i xor C_{i-1}). */
  function CbcEncrypt(p: Primitives, key: seq<byte>, iv: Block, ps: seq<Block>): (cs: seq<Block>)
    ensures |cs| == |ps|
  {
    if ps == [] then []
    else
      var init := CbcEncrypt(p, key, iv, ps[..|ps| - 1]);
      init + [p.aesEncrypt(key, XorBlock(ps[|ps| - 1], Chain(iv, init)))]
  }

  /** P_i = Dec(key, C_i) xor C_{i-1}. */
  function CbcDecrypt(p: Primitives, key: seq<byte>, iv: Block, cs: seq<Block>): (ps: seq<Block>)
    ensures |ps| == |cs|
  {
    seq(|cs|, i requires 0 <= i < |cs| => DecryptAt(p, key, iv, cs, i))
  }

  function DecryptAt(p: Primitives, key: seq<byte>, iv: Block, cs: seq<Block>, i: nat): Block
    requires i < |cs|
  {
    XorBlock(p.aesDecrypt(key, cs[i]), if i == 0 then iv else cs[i - 1])
  }

  /** Encrypting one more block extends the ciphertext by one chained block. */
  lemma CbcEncryptSnoc(p: Primitives, key: seq<byte>, iv: Block, ps: seq<Block>, b: Block)
    ensures CbcEncrypt(p, key, iv, ps + [b])
         == CbcEncrypt(p, key, iv, ps) + [p.aesEncrypt(key, XorBlock(b, Chain(iv, CbcEncrypt(p, key, iv, ps))))]
  {
    assert (ps + [b])[..|ps|] == ps;
  }

  /** Decrypting one more block extends the plaintext by one block. */
  lemma CbcDecryptSnoc(p: Primitives, key: seq<byte>, iv: Block, cs: seq<Block>, c: Block)
    ensures CbcDecrypt(p, key, iv, cs + [c])
         == CbcDecrypt(p, key, iv, cs) + [XorBlock(p.aesDecrypt(key, c), Chain(iv, cs))]
  {
  }

  /** Every ciphertext block is the encryption of its plaintext block XOR the previous ciphertext block. */
  lemma {:induction false} CbcEncryptAt(p: Primitives, key: seq<byte>, iv: Block, ps: seq<Block>, i: nat)
    requires i < |ps|
    ensures CbcEncrypt(p, key, iv, ps)[i]
         == p.aesEncrypt(key, XorBlock(ps[i], if i == 0 then iv else CbcEncrypt(p, key, iv, ps)[i - 1]))
  {
    var init := ps[..|ps| - 1];
    if i < |ps| - 1 {
      CbcEncryptAt(p, key, iv, init, i);
    }
  }

  /** CBC decryption inverts CBC encryption, block by block, under the same key and IV. */
  lemma CbcDecryptEncrypt(p: Primitives, key: seq<byte>, iv: Block, ps: seq<Block>)
    requires p.Valid()
    ensures CbcDecrypt(p, key, iv, CbcEncrypt(p, key, iv, ps)) == ps
  {
    var cs := CbcEncrypt(p, key, iv, ps);
    var rs := CbcDecrypt(p, key, iv, cs);
    forall i | 0 <= i < |ps|
      ensures rs[i] == ps[i]
    {
      var prev := if i == 0 then iv else cs[i - 1];
      CbcEncryptAt(p, key, iv, ps, i);
      XorBlockCancel(ps[i], prev);
    }
  }

  /**
   * The cipher object `AES.new(key, AES.MODE_CBC, iv)` (cryptpad.py:60, 110).
   * It keeps the chaining value between calls; cryptpad hands it exactly
   * one block per call.
   */
  class AesCbc {
    const prims: Primitives
    const key: seq<byte>
    /** C_{i-1}: the IV until the first block, then the last ciphertext block seen. */
    var chain: Block

    constructor (prims: Primitives, key: seq<byte>, iv: Block)
      ensures this.prims == prims && this.key == key && chain == iv
    {
      this.prims := prims;
      this.key := key;
      chain := iv;
    }

    /** `encryptor.encrypt(chunk)` on one block */
    method Encrypt(plain: Block) returns (c: Block)
      modifies this
      ensures c == prims.aesEncrypt(key, XorBlock(plain, old(chain)))
      ensures chain == c
    {
      c := prims.aesEncrypt(key, XorBlock(plain, chain));
      chain := c;
    }

    /** `decryptor.decrypt(chunk)` on one block */
    method Decrypt(c: Block) returns (plain: Block)
      modifies this
      ensures plain == XorBlock(prims.aesDecrypt(key, c), old(chain))
      ensures chain == c
    {
      plain := XorBlock(prims.aesDecrypt(key, c), chain);
      chain := c;
    }
  }
}
