/** SHA-256 as sections 4.1.2, 4.2.2, 5.1.1, 5.3.3 and 6.2.2 of FIPS 180-4 define it. */
module Fips180 {
  import opened Bytes

  const Modulus: nat := 0x1_0000_0000

  /** A block has 512 bits. */
  const BlockBytes: nat := 64

  /** uint32_t */
  type word = x: int | 0 <= x < 0x1_0000_0000

  // ---------------------------------------------------------------- words

  /** Addition modulo 2^32. */
  function Add(x: word, y: word): (r: word) {
    (x + y) % Modulus
  }

  /** The functions of section 4.1.2 on 32 bits, with ROTR as RotateRight. */
  function ChBits(x: bv32, y: bv32, z: bv32): (r: bv32) {
    (x & y) ^ (!x & z)
  }

  function MajBits(x: bv32, y: bv32, z: bv32): (r: bv32) {
    (x & y) ^ (x & z) ^ (y & z)
  }

  function BigSigma0Bits(x: bv32): (r: bv32) {
    x.RotateRight(2) ^ x.RotateRight(13) ^ x.RotateRight(22)
  }

  function BigSigma1Bits(x: bv32): (r: bv32) {
    x.RotateRight(6) ^ x.RotateRight(11) ^ x.RotateRight(25)
  }

  function SmallSigma0Bits(x: bv32): (r: bv32) {
    x.RotateRight(7) ^ x.RotateRight(18) ^ (x >> 3)
  }

  function SmallSigma1Bits(x: bv32): (r: bv32) {
    x.RotateRight(17) ^ x.RotateRight(19) ^ (x >> 10)
  }

  /** The same functions on words. */
  function Ch(x: word, y: word, z: word): (r: word) {
    ChBits(x as bv32, y as bv32, z as bv32) as int
  }

  function Maj(x: word, y: word, z: word): (r: word) {
    MajBits(x as bv32, y as bv32, z as bv32) as int
  }

  function BigSigma0(x: word): (r: word) {
    BigSigma0Bits(x as bv32) as int
  }

  function BigSigma1(x: word): (r: word) {
    BigSigma1Bits(x as bv32) as int
  }

  function SmallSigma0(x: word): (r: word) {
    SmallSigma0Bits(x as bv32) as int
  }

  function SmallSigma1(x: word): (r: word) {
    SmallSigma1Bits(x as bv32) as int
  }

  /** A word from its bytes, the most significant first. */
  function WordOf(b0: byte, b1: byte, b2: byte, b3: byte): (r: word) {
    b0 * 0x100_0000 + b1 * 0x1_0000 + b2 * 0x100 + b3
  }

  function ByteOf(w: word, i: nat): (r: byte)
    requires i < 4
  {
    if i == 0 then w / 0x100_0000 else if i == 1 then w / 0x1_0000 % 256 else if i == 2 then w / 0x100 % 256 else w % 256
  }

  // ---------------------------------------------------------------- constants

  function InitialHash(): (r: seq<word>)
    ensures |r| == 8
  {
    [0x6a09e667, 0xbb67ae85, 0x3c6ef372, 0xa54ff53a, 0x510e527f, 0x9b05688c, 0x1f83d9ab, 0x5be0cd19]
  }

  /** The round constants. */
  function K(t: nat): (r: word)
    requires t < 64
  {
    if t < 16 then KTable0()[t] else if t < 32 then KTable1()[t - 16] else if t < 48 then KTable2()[t - 32] else KTable3()[t - 48]
  }

  function KTable0(): (r: seq<word>)
    ensures |r| == 16
  {
    [0x428a2f98, 0x71374491, 0xb5c0fbcf, 0xe9b5dba5, 0x3956c25b, 0x59f111f1, 0x923f82a4, 0xab1c5ed5,
     0xd807aa98, 0x12835b01, 0x243185be, 0x550c7dc3, 0x72be5d74, 0x80deb1fe, 0x9bdc06a7, 0xc19bf174]
  }

  function KTable1(): (r: seq<word>)
    ensures |r| == 16
  {
    [0xe49b69c1, 0xefbe4786, 0x0fc19dc6, 0x240ca1cc, 0x2de92c6f, 0x4a7484aa, 0x5cb0a9dc, 0x76f988da,
     0x983e5152, 0xa831c66d, 0xb00327c8, 0xbf597fc7, 0xc6e00bf3, 0xd5a79147, 0x06ca6351, 0x14292967]
  }

  function KTable2(): (r: seq<word>)
    ensures |r| == 16
  {
    [0x27b70a85, 0x2e1b2138, 0x4d2c6dfc, 0x53380d13, 0x650a7354, 0x766a0abb, 0x81c2c92e, 0x92722c85,
     0xa2bfe8a1, 0xa81a664b, 0xc24b8b70, 0xc76c51a3, 0xd192e819, 0xd6990624, 0xf40e3585, 0x106aa070]
  }

  function KTable3(): (r: seq<word>)
    ensures |r| == 16
  {
    [0x19a4c116, 0x1e376c08, 0x2748774c, 0x34b0bcb5, 0x391c0cb3, 0x4ed8aa4a, 0x5b9cca4f, 0x682e6ff3,
     0x748f82ee, 0x78a5636f, 0x84c87814, 0x8cc70208, 0x90befffa, 0xa4506ceb, 0xbef9a3f7, 0xc67178f2]
  }

  // ---------------------------------------------------------------- one block

  /** The message schedule of a block. */
  ghost function W(block: bytes, t: nat): (r: word)
    requires |block| == 64 && t < 64
  {
    if t < 16 then WordOf(block[4 * t], block[4 * t + 1], block[4 * t + 2], block[4 * t + 3])
    else Add(Add(Add(SmallSigma1(W(block, t - 2)), W(block, t - 7)), SmallSigma0(W(block, t - 15))), W(block, t - 16))
  }

  function T1(v: seq<word>, k: word, w: word): (r: word)
    requires |v| == 8
  {
    Add(Add(Add(Add(v[7], BigSigma1(v[4])), Ch(v[4], v[5], v[6])), k), w)
  }

  function T2(v: seq<word>): (r: word)
    requires |v| == 8
  {
    Add(BigSigma0(v[0]), Maj(v[0], v[1], v[2]))
  }

  /** One round on the working variables a to h. */
  ghost function Round(v: seq<word>, k: word, w: word): (r: seq<word>)
    requires |v| == 8
    ensures |r| == 8
  {
    var t1 := T1(v, k, w);
    [Add(t1, T2(v)), v[0], v[1], v[2], Add(v[3], t1), v[4], v[5], v[6]]
  }

  ghost function Rounds(h: seq<word>, block: bytes, n: nat): (r: seq<word>)
    requires |h| == 8 && |block| == 64 && n <= 64
    ensures |r| == 8
  {
    if n == 0 then h else Round(Rounds(h, block, n - 1), K(n - 1), W(block, n - 1))
  }

  ghost function Compress(h: seq<word>, block: bytes): (r: seq<word>)
    requires |h| == 8 && |block| == 64
    ensures |r| == 8
  {
    var v := Rounds(h, block, 64);
    seq(8, i requires 0 <= i < 8 => Add(h[i], v[i]))
  }

  // ---------------------------------------------------------------- a message

  /** The hash value after the first `n` blocks. */
  ghost function HashBlocks(data: bytes, n: nat): (r: seq<word>)
    requires 64 * n <= |data|
    ensures |r| == 8
  {
    if n == 0 then InitialHash() else Compress(HashBlocks(data, n - 1), data[64 * (n - 1)..64 * n])
  }

  const LengthLimit: nat := 0x1_0000_0000_0000_0000

  /** The length of a message in bits, in eight bytes. */
  function LengthBytes(bits: nat): (r: bytes)
    requires bits < LengthLimit
    ensures |r| == 8
  {
    [bits / 0x100_0000_0000_0000, bits / 0x1_0000_0000_0000 % 256,
     bits / 0x100_0000_0000 % 256, bits / 0x1_0000_0000 % 256,
     bits / 0x100_0000 % 256, bits / 0x1_0000 % 256,
     bits / 0x100 % 256, bits % 256]
  }

  /** The least number of zero bytes that brings the length to 56 modulo 64. */
  function ZeroCount(n: nat): (k: nat)
    ensures k < 64 && (n + 1 + k) % 64 == 56
  {
    if n % 64 < 56 then 55 - n % 64 else 119 - n % 64
  }

  function MessageBits(n: nat): (bits: nat)
    ensures bits < LengthLimit
  {
    8 * n % LengthLimit
  }

  /** It is the least one. */
  lemma ZeroCountLeast(n: nat, k: nat)
    requires (n + 1 + k) % 64 == 56
    ensures ZeroCount(n) <= k
  {
  }

  lemma PaddedLength(n: nat)
    ensures (n + (1 + ZeroCount(n) + 8)) % 64 == 0
  {
    hide ZeroCount;
    var m := n + 1 + ZeroCount(n);
    assert m % 64 == 56;
    assert m + 8 == 64 * (m / 64 + 1);
  }

  /** The padding of a message: a one bit, zeros and the length, which section 5.1.1 defines below 2^64 bits. */
  function Padding(n: nat): (r: bytes)
    ensures (n + |r|) % 64 == 0
  {
    PaddedLength(n);
    [0x80] + Zeros(ZeroCount(n)) + LengthBytes(MessageBits(n))
  }

  ghost function Sha256(msg: bytes): (r: bytes)
    ensures |r| == 32
  {
    var padded := msg + Padding(|msg|);
    HashBytes(HashBlocks(padded, |padded| / 64))
  }

  function HashBytes(h: seq<word>): (r: bytes)
    requires |h| == 8
    ensures |r| == 32
  {
    seq(32, n requires 0 <= n < 32 => ByteOf(h[n / 4], n % 4))
  }

  // ---------------------------------------------------------------- facts

  /** The bytes that make a word come back from it. */
  lemma WordBytes(b0: byte, b1: byte, b2: byte, b3: byte)
    ensures var w := WordOf(b0, b1, b2, b3);
            ByteOf(w, 0) == b0 && ByteOf(w, 1) == b1 && ByteOf(w, 2) == b2 && ByteOf(w, 3) == b3
  {
    var w := WordOf(b0, b1, b2, b3);
    assert w / 0x100_0000 == b0;
    assert w / 0x1_0000 == b0 * 0x100 + b1;
    assert w / 0x100 == (b0 * 0x100 + b1) * 0x100 + b2;
    LastByte(b0, b1);
    LastByte(b0 * 0x100 + b1, b2);
    LastByte((b0 * 0x100 + b1) * 0x100 + b2, b3);
  }

  /** The length is written as a number of eight bytes, the most significant first. */
  lemma LengthIsBigEndian(bits: nat)
    requires bits < LengthLimit
    ensures Number(LengthBytes(bits)) == bits
  {
    hide Number;
    var r := LengthBytes(bits);
    assert Number(r[..0]) == 0 by { NumberOfNone(); }
    NextDigit(r, 0, bits / 0x100_0000_0000_0000);
    NextDigit(r, 1, bits / 0x1_0000_0000_0000);
    NextDigit(r, 2, bits / 0x100_0000_0000);
    NextDigit(r, 3, bits / 0x1_0000_0000);
    NextDigit(r, 4, bits / 0x100_0000);
    NextDigit(r, 5, bits / 0x1_0000);
    NextDigit(r, 6, bits / 0x100);
    NextDigit(r, 7, bits);
    assert r[..8] == r;
  }

  lemma NumberOfNone()
    ensures Number([]) == 0
  {
  }

  lemma NextDigit(r: bytes, k: nat, x: nat)
    requires k < |r| && Number(r[..k]) == x / 256 && r[k] == x % 256
    ensures Number(r[..k + 1]) == x
  {
    assert r[..k + 1][..k] == r[..k];
    assert x == 256 * (x / 256) + x % 256;
  }

  /** The hash value of the first blocks depends on these blocks only. */
  lemma {:induction false} HashPrefix(a: bytes, b: bytes, n: nat)
    requires 64 * n <= |a| && 64 * n <= |b| && a[..64 * n] == b[..64 * n]
    ensures HashBlocks(a, n) == HashBlocks(b, n)
  {
    hide Compress;
    if n > 0 {
      assert a[..64 * (n - 1)] == a[..64 * n][..64 * (n - 1)];
      assert b[..64 * (n - 1)] == b[..64 * n][..64 * (n - 1)];
      HashPrefix(a, b, n - 1);
      assert a[64 * (n - 1)..64 * n] == a[..64 * n][64 * (n - 1)..];
      assert b[64 * (n - 1)..64 * n] == b[..64 * n][64 * (n - 1)..];
    }
  }
}
