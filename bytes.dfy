/**
 * Conversions between 8-bit vectors and the numbers 0..255: each is
 * lossless in both directions.
 */
module Octets {
  /** Converting a digit to an 8-bit vector and back is lossless. */
  lemma ByteOfNat(d: nat)
    requires d < 256
    ensures (d as bv8) as nat == d
  {
    assert d / 256 == 0;
  }

  /** Converting an 8-bit vector to a number and back is lossless. */
  lemma NatOfByte(b: bv8)
    ensures (b as nat) as bv8 == b
  {
  }
}

/**
 * Byte-level building blocks of the cryptpad envelope: the sizes it is
 * framed with, fixed-size blocks and digests, XOR of blocks, the 8-byte
 * big-endian length header, and the split of a byte string into
 * 16-byte blocks and back.
 */
module Bytes {
  import opened Octets

  /** Python 2 `str` values in cryptpad are byte strings. */
  type byte = bv8

  /** AES block size (cryptpad.py:29). */
  const BLOCK_SIZE: nat := 16
  /** SHA-256 digest size, the length of the trailing MAC (cryptpad.py:30). */
  const MAC_SIZE: nat := 32
  /** `struct.calcsize('Q')`, the length of the plaintext-length header (cryptpad.py:31). */
  const BIG_ENDIAN_SIZE: nat := 8

  /** One past the largest value `struct.pack('>Q', n)` accepts. */
  const U64_LIMIT: nat := 0x1_0000_0000_0000_0000

  type Block = s: seq<byte> | |s| == BLOCK_SIZE witness seq(BLOCK_SIZE, _ => 0)
  type Digest = s: seq<byte> | |s| == MAC_SIZE witness seq(MAC_SIZE, _ => 0)

  /** The ASCII space, the byte cryptpad pads with. */
  const SPACE: byte := 0x20

  /** `' ' * n` */
  function Spaces(n: nat): (r: seq<byte>)
    ensures |r| == n
    ensures forall i :: 0 <= i < n ==> r[i] == SPACE
  {
    seq(n, _ => SPACE)
  }

  function XorBlock(a: Block, b: Block): Block
  {
    seq(BLOCK_SIZE, i requires 0 <= i < BLOCK_SIZE => a[i] ^ b[i])
  }

  /** XOR-ing the same block twice gives the original back. */
  lemma XorBlockCancel(a: Block, b: Block)
    ensures XorBlock(XorBlock(a, b), b) == a
  {
    var x := XorBlock(XorBlock(a, b), b);
    forall i | 0 <= i < BLOCK_SIZE
      ensures x[i] == a[i]
    {
      assert x[i] == (a[i] ^ b[i]) ^ b[i];
    }
  }

  /** Concatenation regrouped; stated once so that loops appending to a buffer need not re-derive it. */
  lemma AppendAssoc<T>(a: seq<T>, b: seq<T>, c: seq<T>)
    ensures (a + b) + c == a + (b + c)
  {
  }

  /** The four fields of a concatenation a + b + c + d are found again at their offsets. */
  lemma Fields<T>(a: seq<T>, b: seq<T>, c: seq<T>, d: seq<T>)
    ensures var s := a + b + c + d;
      && s[..|a|] == a
      && s[|a| .. |a| + |b|] == b
      && s[|a| + |b| .. |s| - |d|] == c
      && s[..|s| - |d|] == a + b + c
      && s[|s| - |d| ..] == d
  {
    var s := a + b + c + d;
    assert s == ((a + b) + c) + d;
    assert s[..|s| - |d|] == (a + b) + c;
  }

  // ---------------------------------------------------------------------
  // Big-endian unsigned integers (`struct.pack('>Q', n)` / `struct.unpack`)
  // ---------------------------------------------------------------------

  function Pow256(width: nat): (r: nat)
    ensures r > 0
  {
    if width == 0 then 1 else 256 * Pow256(width - 1)
  }

  lemma Pow256Of8()
    ensures Pow256(BIG_ENDIAN_SIZE) == U64_LIMIT
  {
    assert Pow256(2) == 0x1_0000;
    assert Pow256(4) == 0x1_0000_0000 by {
      assert Pow256(3) == 256 * Pow256(2);
    }
    assert Pow256(6) == 0x1_0000_0000_0000 by {
      assert Pow256(5) == 256 * Pow256(4);
    }
    assert Pow256(8) == U64_LIMIT by {
      assert Pow256(7) == 256 * Pow256(6);
    }
  }

  /** The `width` least significant base-256 digits of `n`, most significant first. */
  function BigEndian(n: nat, width: nat): (r: seq<byte>)
    ensures |r| == width
  {
    if width == 0 then [] else BigEndian(n / 256, width - 1) + [(n % 256) as byte]
  }

  /** The value of a big-endian byte string. */
  function FromBigEndian(s: seq<byte>): (n: nat)
  {
    if s == [] then 0 else FromBigEndian(s[..|s| - 1]) * 256 + s[|s| - 1] as nat
  }

  lemma {:induction false} FromBigEndianBound(s: seq<byte>)
    ensures FromBigEndian(s) < Pow256(|s|)
  {
    if s != [] {
      var init := s[..|s| - 1];
      FromBigEndianBound(init);
      var h := FromBigEndian(init);
      assert h + 1 <= Pow256(|s| - 1);
      assert (h + 1) * 256 <= Pow256(|s| - 1) * 256;
    }
  }

  lemma DivBound(n: nat, p: nat)
    requires n < 256 * p
    ensures n / 256 < p
  {
  }

  /** Decoding what was encoded gives the number back, for every number that fits. */
  lemma {:induction false} FromBigEndianOfBigEndian(n: nat, width: nat)
    requires n < Pow256(width)
    ensures FromBigEndian(BigEndian(n, width)) == n
  {
    if width > 0 {
      var q, d := n / 256, n % 256;
      assert n == q * 256 + d;
      DivBound(n, Pow256(width - 1));
      FromBigEndianOfBigEndian(q, width - 1);
      var init := BigEndian(q, width - 1);
      var s := init + [d as byte];
      assert s == BigEndian(n, width);
      assert s[..|s| - 1] == init;
      ByteOfNat(d);
    }
  }

  /** The last base-256 digit of h * 256 + d is d, and the others are those of h. */
  lemma SplitDigit(h: nat, d: nat)
    requires d < 256
    ensures (h * 256 + d) / 256 == h && (h * 256 + d) % 256 == d
  {
  }

  /** Encoding what was decoded gives the byte string back. */
  lemma {:induction false} BigEndianOfFromBigEndian(s: seq<byte>)
    ensures BigEndian(FromBigEndian(s), |s|) == s
  {
    if s != [] {
      var init, last := s[..|s| - 1], s[|s| - 1];
      BigEndianOfFromBigEndian(init);
      var h, n := FromBigEndian(init), FromBigEndian(s);
      assert n == h * 256 + last as nat;
      SplitDigit(h, last as nat);
      NatOfByte(last);
      assert BigEndian(n, |s|) == BigEndian(h, |init|) + [last];
      assert s == init + [last];
    }
  }

  /** `struct.pack('>Q', n)` */
  function PackU64(n: nat): (r: seq<byte>)
    requires n < U64_LIMIT
    ensures |r| == BIG_ENDIAN_SIZE
  {
    BigEndian(n, BIG_ENDIAN_SIZE)
  }

  /** `struct.unpack('>Q', s)[0]` */
  function UnpackU64(s: seq<byte>): (n: nat)
    requires |s| == BIG_ENDIAN_SIZE
    ensures n < U64_LIMIT
  {
    FromBigEndianBound(s);
    Pow256Of8();
    FromBigEndian(s)
  }

  /** The header round-trips: unpack(pack(n)) == n for 0 <= n < 2^64 ... */
  lemma UnpackPackU64(n: nat)
    requires n < U64_LIMIT
    ensures UnpackU64(PackU64(n)) == n
  {
    Pow256Of8();
    FromBigEndianOfBigEndian(n, BIG_ENDIAN_SIZE);
  }

  /** ... and pack(unpack(s)) == s for every 8-byte header. */
  lemma PackUnpackU64(s: seq<byte>)
    requires |s| == BIG_ENDIAN_SIZE
    ensures PackU64(UnpackU64(s)) == s
  {
    BigEndianOfFromBigEndian(s);
  }

  // ---------------------------------------------------------------------
  // Byte strings as sequences of 16-byte blocks
  // ---------------------------------------------------------------------

  /** Concatenation of the blocks, in order. */
  function Flatten(bs: seq<Block>): (r: seq<byte>)
    ensures |r| == 16 * |bs|
  {
    if bs == [] then [] else Flatten(bs[..|bs| - 1]) + bs[|bs| - 1]
  }

  /** Joining one more block appends its bytes. */
  lemma FlattenSnoc(bs: seq<Block>, b: Block)
    ensures Flatten(bs + [b]) == Flatten(bs) + b
  {
    assert (bs + [b])[..|bs|] == bs;
  }

  /** The consecutive 16-byte blocks of a byte string whose length is a multiple of 16. */
  function ToBlocks(s: seq<byte>): (r: seq<Block>)
    requires |s| % 16 == 0
    ensures |r| == |s| / 16
  {
    seq(|s| / 16, i requires 0 <= i < |s| / 16 =>
      s[16 * i .. 16 * i + BLOCK_SIZE])
  }

  /** Reading one more whole block appends it to the block list. */
  lemma ToBlocksSnoc(s: seq<byte>, b: Block)
    requires |s| % 16 == 0
    ensures ToBlocks(s + b) == ToBlocks(s) + [b]
  {
    var l, r := ToBlocks(s + b), ToBlocks(s) + [b];
    assert |l| == |r|;
    forall i | 0 <= i < |l|
      ensures l[i] == r[i]
    {
      if i < |l| - 1 {
        assert (s + b)[16 * i .. 16 * i + BLOCK_SIZE]
            == s[16 * i .. 16 * i + BLOCK_SIZE];
      } else {
        assert (s + b)[16 * i .. 16 * i + BLOCK_SIZE] == b;
      }
    }
  }

  /** Splitting into blocks and concatenating them gives the byte string back. */
  lemma {:induction false} FlattenToBlocks(s: seq<byte>)
    requires |s| % 16 == 0
    ensures Flatten(ToBlocks(s)) == s
  {
    if s != [] {
      var k := |s| - BLOCK_SIZE;
      var init, last := s[..k], s[k..];
      FlattenToBlocks(init);
      ToBlocksSnoc(init, last);
      assert s == init + last;
      assert ToBlocks(s)[..|ToBlocks(s)| - 1] == ToBlocks(init);
    }
  }

  /** Concatenating blocks and splitting the result gives the blocks back. */
  lemma {:induction false} ToBlocksFlatten(bs: seq<Block>)
    ensures ToBlocks(Flatten(bs)) == bs
  {
    if bs != [] {
      var init := bs[..|bs| - 1];
      ToBlocksFlatten(init);
      ToBlocksSnoc(Flatten(init), bs[|bs| - 1]);
      assert bs == init + [bs[|bs| - 1]];
    }
  }
}
