/**
 * The scenarios of tests.py as lemmas over the model. The strings the
 * tests use are written out as their ASCII bytes. SHA-256 is abstract
 * here, so the digests tests.py expects of mkpasswd appear as
 * preconditions about the hash function, not as facts.
 */
module Tests {
  import opened Bytes
  import opened Crypto
  import opened Cryptpad
  import opened EnvelopeProperties

  /** "<avenj> Goodnight, NSA." */
  const TEST_DATA: seq<byte> := [
    0x3C, 0x61, 0x76, 0x65, 0x6E, 0x6A, 0x3E, 0x20, 0x47, 0x6F, 0x6F, 0x64,
    0x6E, 0x69, 0x67, 0x68, 0x74, 0x2C, 0x20, 0x4E, 0x53, 0x41, 0x2E]

  /** "P3rl!" */
  const TEST_PASS: seq<byte> := [0x50, 0x33, 0x72, 0x6C, 0x21]

  /** "bogus data" */
  const BOGUS_DATA: seq<byte> := [0x62, 0x6F, 0x67, 0x75, 0x73, 0x20, 0x64, 0x61, 0x74, 0x61]

  /** The Ek tests.py expects for "P3rl!". */
  const EK_VECTOR: seq<byte> := [
    0x64, 0xF8, 0x4C, 0xD4, 0x53, 0xF1, 0x40, 0x39, 0x83, 0xA6, 0xFD, 0x83, 0xA9, 0x9C, 0xAD, 0x11,
    0xBA, 0xD0, 0xB6, 0xFC, 0x15, 0xF6, 0x73, 0x0D, 0xEB, 0xAE, 0x5C, 0x7E, 0x7B, 0x7E, 0x87, 0xCC]

  /** The Ak tests.py expects for "P3rl!". */
  const AK_VECTOR: seq<byte> := [
    0x36, 0x5E, 0x9B, 0xC5, 0xDB, 0xFD, 0x80, 0xE8, 0x39, 0x67, 0xCE, 0x63, 0x34, 0x56, 0x81, 0xC4,
    0xFF, 0xF3, 0x26, 0xC9, 0x92, 0x81, 0xC2, 0xE4, 0x3C, 0x55, 0x10, 0x53, 0x09, 0x12, 0x93, 0xF1]

  /**
   * test_mkpasswd_encrytion_key and test_mkpasswd_authentication_key: if
   * SHA-256 maps "P3rl!" to the expected Ek and that Ek to the expected
   * Ak, mkpasswd returns exactly that pair.
   */
  lemma MkPasswdVectors(p: Primitives)
    requires p.sha256(TEST_PASS) == EK_VECTOR
    requires p.sha256(EK_VECTOR) == AK_VECTOR
    ensures MkPasswd(p, TEST_PASS) == KeyPair(EK_VECTOR, AK_VECTOR)
  {
  }

  /**
   * test_decrypt_succeeds: the 23-byte message makes an 88-byte envelope
   * (two ciphertext blocks). Decrypting it with the
   * intended comparison gives the message back; decrypt as written raises
   * AuthenticationError instead, so the test fails against the code.
   */
  lemma TestDecryptSucceeds(p: Primitives, iv: Block)
    requires p.Valid()
    ensures var keys := MkPasswd(p, TEST_PASS);
      var e := Encryption(p, TEST_DATA, iv, keys.ek, keys.ak);
      && |e| == 88
      && Decryption(p, e, keys.ek, keys.ak, Intended) == Success(TEST_DATA)
      && Decryption(p, e, keys.ek, keys.ak, AsWritten) == Failure(AuthenticationError)
  {
    var keys := MkPasswd(p, TEST_PASS);
    var e := Encryption(p, TEST_DATA, iv, keys.ek, keys.ak);
    EncryptionLayout(p, TEST_DATA, iv, keys.ek, keys.ak);
    assert |TEST_DATA| == 23 && (23 + 15) / 16 == 2;
    DecryptEncrypt(p, TEST_DATA, iv, keys.ek, keys.ak);
    DecryptAsWrittenFails(p, e, keys.ek, keys.ak);
  }

  /**
   * test_auth_fail_bad_mac: the envelope with its MAC replaced by the HMAC
   * of "bogus data". Decrypt as written raises AuthenticationError, as the
   * test expects; with the intended comparison it does so exactly when
   * that HMAC differs from the envelope's own.
   */
  lemma TestAuthFailBadMac(p: Primitives, iv: Block)
    ensures var keys := MkPasswd(p, TEST_DATA);
      var e := Encryption(p, TEST_DATA, iv, keys.ek, keys.ak);
      var badMac := GetSignature(p, BOGUS_DATA, keys.ak);
      var forged := e[..|e| - MAC_SIZE] + badMac;
      && Decryption(p, forged, keys.ek, keys.ak, AsWritten) == Failure(AuthenticationError)
      && (Decryption(p, forged, keys.ek, keys.ak, Intended) == Failure(AuthenticationError)
          <==> badMac != e[|e| - MAC_SIZE ..])
  {
    var keys := MkPasswd(p, TEST_DATA);
    var e := Encryption(p, TEST_DATA, iv, keys.ek, keys.ak);
    var badMac := GetSignature(p, BOGUS_DATA, keys.ak);
    var forged := e[..|e| - MAC_SIZE] + badMac;
    DecryptAsWrittenFails(p, forged, keys.ek, keys.ak);
    ReplacedMacRejected(p, TEST_DATA, iv, keys.ek, keys.ak, badMac);
  }
}
