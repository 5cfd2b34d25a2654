/** The secure hash SHA-1 of FIPS 180-4 and the keyed hash of RFC 2104 over it, as functions of a message. */
module Sha1Standard {
  type Byte = bv8
  type Word = bv32

  datatype Hash = Hash(a: Word, b: Word, c: Word, d: Word, e: Word)

  /** Section 2.2.2: circular left shifts. */
  function Rotl1(x: Word): Word {
    (x << 1) | (x >> 31)
  }

  function Rotl5(x: Word): Word {
    (x << 5) | (x >> 27)
  }

  function Rotl30(x: Word): Word {
    (x << 30) | (x >> 2)
  }

  /** Bit i of a word, counted from the least significant one. */
  predicate Bit(x: Word, i: Word)
    requires i < 32
  {
    (x >> i) & 1 == 1
  }

  /** Each shift moves every bit by its number of places, and those that leave at the top come in at the bottom. */
  lemma Rotations(x: Word, i: Word)
    requires i < 32
    ensures Bit(Rotl1(x), (i + 1) % 32) == Bit(x, i)
    ensures Bit(Rotl5(x), (i + 5) % 32) == Bit(x, i)
    ensures Bit(Rotl30(x), (i + 30) % 32) == Bit(x, i)
  {
  }

  /** Addition modulo 2^32. */
  function Add(x: Word, y: Word): Word {
    x + y
  }

  /** The exclusive or of four words. */
  function Xor4(w: Word, x: Word, y: Word, z: Word): Word {
    w ^ x ^ y ^ z
  }

  function Ch(x: Word, y: Word, z: Word): Word {
    (x & y) ^ (!x & z)
  }

  function Parity(x: Word, y: Word, z: Word): Word {
    x ^ y ^ z
  }

  function Maj(x: Word, y: Word, z: Word): Word {
    (x & y) ^ (x & z) ^ (y & z)
  }

  /** Section 4.1.1: the function of round t. */
  function F(t: nat, x: Word, y: Word, z: Word): Word {
    if t < 20 then Ch(x, y, z) else if t < 40 then Parity(x, y, z) else if t < 60 then Maj(x, y, z) else Parity(x, y, z)
  }

  /** Section 4.2.1: the constant of round t. */
  function K(t: nat): Word {
    if t < 20 then 0x5a827999 else if t < 40 then 0x6ed9eba1 else if t < 60 then 0x8f1bbcdc else 0xca62c1d6
  }

  /** Section 5.3.1 */
  const H0 := Hash(0x67452301, 0xefcdab89, 0x98badcfe, 0x10325476, 0xc3d2e1f0)

  type Block = m: seq<Word> | |m| == 16 witness seq(16, _ => 0)

  /** Section 6.1.2, step 1: the message schedule. */
  function W(m: Block, t: nat): Word {
    if t < 16 then m[t] else Rotl1(Xor4(W(m, t - 3), W(m, t - 8), W(m, t - 14), W(m, t - 16)))
  }

  /** Section 6.1.2, step 3: round t. */
  function Round(h: Hash, t: nat, w: Word): Hash {
    Hash(Add(Add(Add(Add(Rotl5(h.a), F(t, h.b, h.c, h.d)), h.e), K(t)), w), h.a, Rotl30(h.b), h.c, h.d)
  }

  /** The working variables after n rounds. */
  function Rounds(h: Hash, m: Block, n: nat): Hash {
    if n == 0 then h else Round(Rounds(h, m, n - 1), n - 1, W(m, n - 1))
  }

  function Plus(h: Hash, g: Hash): Hash {
    Hash(Add(h.a, g.a), Add(h.b, g.b), Add(h.c, g.c), Add(h.d, g.d), Add(h.e, g.e))
  }

  /** Section 6.1.2: the hash value after one more block. */
  function Compress(h: Hash, m: Block): Hash {
    Plus(h, Rounds(h, m, 80))
  }

  /** Four bytes as a word, the first byte most significant. */
  function WordOf(a: Byte, b: Byte, c: Byte, d: Byte): Word {
    ((a as Word) << 24) | ((b as Word) << 16) | ((c as Word) << 8) | (d as Word)
  }

  /** Section 5.2.1: 64 bytes as a block. */
  function BlockOf(bytes: seq<Byte>): Block
    requires |bytes| == 64
  {
    seq(16, (i: int) requires 0 <= i < 16 => WordOf(bytes[4 * i], bytes[4 * i + 1], bytes[4 * i + 2], bytes[4 * i + 3]))
  }

  /** The hash value after a number of whole blocks. */
  function HashBlocks(bytes: seq<Byte>): Hash
    requires |bytes| % 64 == 0
    decreases |bytes|
  {
    if bytes == [] then H0 else Compress(HashBlocks(bytes[..|bytes| - 64]), BlockOf(bytes[|bytes| - 64..]))
  }

  function ByteOf(n: nat): Byte {
    (n % 256) as Byte
  }

  /** A number below 2^64 as eight bytes, the first most significant. */
  function LengthBytes(n: nat): (b: seq<Byte>)
    ensures |b| == 8
  {
    [ByteOf(n / 0x100_0000_0000_0000), ByteOf(n / 0x1_0000_0000_0000), ByteOf(n / 0x100_0000_0000),
        ByteOf(n / 0x1_0000_0000),
     ByteOf(n / 0x100_0000), ByteOf(n / 0x1_0000), ByteOf(n / 0x100), ByteOf(n)]
  }

  function Zeros(n: nat): (z: seq<Byte>)
    ensures |z| == n
  {
    seq(n, _ => 0)
  }

  /** How many zero bytes bring a message with its end mark to eight bytes before the end of a block. */
  function Gap(length: nat): nat {
    if length % 64 < 56 then 55 - length % 64 else 119 - length % 64
  }

  lemma GapFits(length: nat)
    ensures Gap(length) < 64 && (length + 1 + Gap(length)) % 64 == 56
  {
  }

  function EndMark(): (m: seq<Byte>)
    ensures |m| == 1
  {
    [0x80]
  }

  /** The padding of section 5.1.1, for a message of so many bytes. */
  function Padding(length: nat): (p: seq<Byte>)
    ensures |p| == Gap(length) + 9
  {
    EndMark() + Zeros(Gap(length)) + LengthBytes(8 * length)
  }

  lemma PaddedWhole(length: nat)
    ensures (length + |Padding(length)|) % 64 == 0
  {
    GapFits(length);
    hide Padding, Gap;
    var n := length + 1 + Gap(length);
    assert n % 64 == 56;
    assert (n + 8) % 64 == 0;
  }

  function BytesOf(w: Word): seq<Byte> {
    [(w >> 24) as Byte, ((w >> 16) & 0xFF) as Byte, ((w >> 8) & 0xFF) as Byte, (w & 0xFF) as Byte]
  }

  function Digest(h: Hash): (d: seq<Byte>)
    ensures |d| == 20
  {
    BytesOf(h.a) + BytesOf(h.b) + BytesOf(h.c) + BytesOf(h.d) + BytesOf(h.e)
  }

  /** Section 6.1 */
  function Sha1(message: seq<Byte>): (d: seq<Byte>)
    ensures |d| == 20
  {
    PaddedWhole(|message|);
    Digest(HashBlocks(message + Padding(|message|)))
  }

  /** RFC 2104, section 2: the key, hashed if it is longer than a block, filled up with zeros. */
  function BlockKey(key: seq<Byte>): (k: seq<Byte>)
    ensures |k| == 64
  {
    var short := if |key| > 64 then Sha1(key) else key;
    short + Zeros(64 - |short|)
  }

  function Mask(x: Byte, pad: Byte): Byte {
    x ^ pad
  }

  /** Masking turns over exactly the bits of the mask, so that masking twice changes nothing. */
  lemma MaskTurnsOver(x: Byte, pad: Byte)
    ensures Mask(x, pad) & pad == !x & pad && Mask(x, pad) & !pad == x & !pad
    ensures Mask(Mask(x, pad), pad) == x
  {
  }

  function Masked(key: seq<Byte>, pad: Byte): (k: seq<Byte>)
    ensures |k| == |key|
  {
    seq(|key|, i requires 0 <= i < |key| => Mask(key[i], pad))
  }

  /** RFC 2104, section 2 */
  function Hmac(key: seq<Byte>, text: seq<Byte>): seq<Byte> {
    Sha1(Masked(BlockKey(key), 0x5c) + Sha1(Masked(BlockKey(key), 0x36) + text))
  }
}
