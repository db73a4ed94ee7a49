/** bls12_381::sha256: a hash object that buffers what it is given and hashes it block by block. */
module Sha256Model {
  import opened Fips180
  import opened Bytes

  // ---------------------------------------------------------------- the code's functions on words

  function Rotr(x: bv32, n: nat): (r: bv32)
    requires 0 < n < 32
  {
    (x >> n) | (x << (32 - n))
  }

  function ChooseBits(e: bv32, f: bv32, g: bv32): (r: bv32) {
    (e & f) ^ (!e & g)
  }

  function MajorityBits(a: bv32, b: bv32, c: bv32): (r: bv32) {
    (a & (b | c)) | (b & c)
  }

  function XorABits(x: bv32): (r: bv32) {
    Rotr(x, 2) ^ Rotr(x, 13) ^ Rotr(x, 22)
  }

  function XorEBits(x: bv32): (r: bv32) {
    Rotr(x, 6) ^ Rotr(x, 11) ^ Rotr(x, 25)
  }

  function Sig0Bits(x: bv32): (r: bv32) {
    Rotr(x, 7) ^ Rotr(x, 18) ^ (x >> 3)
  }

  function Sig1Bits(x: bv32): (r: bv32) {
    Rotr(x, 17) ^ Rotr(x, 19) ^ (x >> 10)
  }

  function Choose(e: word, f: word, g: word): (r: word) {
    ChooseBits(e as bv32, f as bv32, g as bv32) as int
  }

  function Majority(a: word, b: word, c: word): (r: word) {
    MajorityBits(a as bv32, b as bv32, c as bv32) as int
  }

  function XorA(x: word): (r: word) {
    XorABits(x as bv32) as int
  }

  function XorE(x: word): (r: word) {
    XorEBits(x as bv32) as int
  }

  function Sig0(x: word): (r: word) {
    Sig0Bits(x as bv32) as int
  }

  function Sig1(x: word): (r: word) {
    Sig1Bits(x as bv32) as int
  }

  /** Two shifts make the rotation of section 3.2. */
  lemma RotrRotates(x: bv32)
    ensures Rotr(x, 2) == x.RotateRight(2) && Rotr(x, 6) == x.RotateRight(6) && Rotr(x, 7) == x.RotateRight(7)
    ensures Rotr(x, 11) == x.RotateRight(11) && Rotr(x, 13) == x.RotateRight(13) && Rotr(x, 17) == x.RotateRight(17)
    ensures Rotr(x, 18) == x.RotateRight(18) && Rotr(x, 19) == x.RotateRight(19) && Rotr(x, 22) == x.RotateRight(22)
    ensures Rotr(x, 25) == x.RotateRight(25)
  {
  }

  function Xor3(a: bv32, b: bv32, c: bv32): (r: bv32) {
    a ^ b ^ c
  }

  lemma CodeSigmas(x: bv32)
    ensures XorABits(x) == Xor3(Rotr(x, 2), Rotr(x, 13), Rotr(x, 22))
    ensures XorEBits(x) == Xor3(Rotr(x, 6), Rotr(x, 11), Rotr(x, 25))
    ensures Sig0Bits(x) == Xor3(Rotr(x, 7), Rotr(x, 18), x >> 3)
    ensures Sig1Bits(x) == Xor3(Rotr(x, 17), Rotr(x, 19), x >> 10)
  {
    hide Rotr;
  }

  lemma StandardSigmas(x: bv32)
    ensures BigSigma0Bits(x) == Xor3(x.RotateRight(2), x.RotateRight(13), x.RotateRight(22))
    ensures BigSigma1Bits(x) == Xor3(x.RotateRight(6), x.RotateRight(11), x.RotateRight(25))
    ensures SmallSigma0Bits(x) == Xor3(x.RotateRight(7), x.RotateRight(18), x >> 3)
    ensures SmallSigma1Bits(x) == Xor3(x.RotateRight(17), x.RotateRight(19), x >> 10)
  {
  }

  lemma SigmaBitsAgree(x: bv32)
    ensures XorABits(x) == BigSigma0Bits(x) && XorEBits(x) == BigSigma1Bits(x)
    ensures Sig0Bits(x) == SmallSigma0Bits(x) && Sig1Bits(x) == SmallSigma1Bits(x)
  {
    hide *;
    RotrRotates(x);
    CodeSigmas(x);
    StandardSigmas(x);
  }

  /** The code's sigmas are those of section 4.1.2. */
  lemma SigmasAgree(x: word)
    ensures XorA(x) == BigSigma0(x) && XorE(x) == BigSigma1(x) && Sig0(x) == SmallSigma0(x) && Sig1(x) == SmallSigma1(x)
  {
    hide XorABits, XorEBits, Sig0Bits, Sig1Bits, BigSigma0Bits, BigSigma1Bits, SmallSigma0Bits, SmallSigma1Bits;
    SigmaBitsAgree(x as bv32);
  }

  lemma MajorityBitsAgree(x: bv32, y: bv32, z: bv32)
    ensures MajorityBits(x, y, z) == MajBits(x, y, z)
  {
    calc {
      MajorityBits(x, y, z);
      (x & (y | z)) | (y & z);
      { MajorityShape(x, y, z); }
      (x & y) ^ (x & z) ^ (y & z);
      MajBits(x, y, z);
    }
  }

  lemma MajorityShape(x: bv32, y: bv32, z: bv32)
    ensures (x & (y | z)) | (y & z) == (x & y) ^ (x & z) ^ (y & z)
  {
  }

  /** The majority with fewer operations is the one of section 4.1.2. */
  lemma MajorityIsMaj(a: word, b: word, c: word)
    ensures Majority(a, b, c) == Maj(a, b, c)
  {
    hide MajorityBits, MajBits;
    MajorityBitsAgree(a as bv32, b as bv32, c as bv32);
  }

  lemma ChooseBitsAgree(x: bv32, y: bv32, z: bv32)
    ensures ChooseBits(x, y, z) == ChBits(x, y, z)
  {
  }

  lemma ChooseIsCh(e: word, f: word, g: word)
    ensures Choose(e, f, g) == Ch(e, f, g)
  {
    hide ChooseBits, ChBits;
    ChooseBitsAgree(e as bv32, f as bv32, g as bv32);
  }

  /** The order of the sums in the code gives T1 and T2 of section 6.2.2. */
  lemma SumOrder(m: word, k: word, h: word, ch: word, x: word)
    ensures Add(Add(Add(Add(m, k), h), ch), x) == Add(Add(Add(Add(h, x), ch), k), m)
  {
    SumOf(m, k, h, ch, x);
    SumOf(h, x, ch, k, m);
  }

  lemma SumOf(a: word, b: word, c: word, d: word, e: word)
    ensures Add(Add(Add(Add(a, b), c), d), e) == (a + b + c + d + e) % Modulus
  {
    hide Add;
    AddInto(a, b, a);
    AddInto(a + b, c, Add(a, b));
    AddInto(a + b + c, d, Add(Add(a, b), c));
    AddInto(a + b + c + d, e, Add(Add(Add(a, b), c), d));
  }

  lemma AddInto(sum: int, y: word, r: word)
    requires r == sum % Modulus
    ensures Add(r, y) == (sum + y) % Modulus
  {
  }

  /** One turn of the main loop of transform, on the local state. */
  method OneRound(v: array<word>, k: word, w: word)
    requires v.Length == 8
    modifies v
    ensures v[..] == Round(old(v[..]), k, w)
  {
    hide Add, Maj, Majority, Ch, Choose, BigSigma0, BigSigma1, XorA, XorE, T1, T2;
    var maj := Majority(v[0], v[1], v[2]);
    var xorA := XorA(v[0]);
    var ch := Choose(v[4], v[5], v[6]);
    var xorE := XorE(v[4]);
    var sum := Add(Add(Add(Add(w, k), v[7]), ch), xorE);
    var newA := Add(Add(xorA, maj), sum);
    var newE := Add(v[3], sum);
    RoundParts(v[..], k, w);
    v[7] := v[6];
    v[6] := v[5];
    v[5] := v[4];
    v[4] := newE;
    v[3] := v[2];
    v[2] := v[1];
    v[1] := v[0];
    v[0] := newA;
  }

  /** The sums of one round, as the code forms them. */
  lemma RoundParts(v: seq<word>, k: word, w: word)
    requires |v| == 8
    ensures var sum := Add(Add(Add(Add(w, k), v[7]), Choose(v[4], v[5], v[6])), XorE(v[4]));
            && sum == T1(v, k, w)
            && Add(Add(XorA(v[0]), Majority(v[0], v[1], v[2])), sum) == Add(T1(v, k, w), T2(v))
  {
    hide Add, Maj, Majority, BigSigma0, BigSigma1, XorA, XorE, Choose, Ch;
    SigmasAgree(v[0]);
    SigmasAgree(v[4]);
    MajorityIsMaj(v[0], v[1], v[2]);
    assert Choose(v[4], v[5], v[6]) == Ch(v[4], v[5], v[6]) by { ChooseIsCh(v[4], v[5], v[6]); }
    SumOrder(w, k, v[7], Choose(v[4], v[5], v[6]), BigSigma1(v[4]));
    assert Add(T2(v), T1(v, k, w)) == Add(T1(v, k, w), T2(v)) by { AddCommutes(T2(v), T1(v, k, w)); }
  }

  lemma AddCommutes(x: word, y: word)
    ensures Add(x, y) == Add(y, x)
  {
  }

  /** The words of a block. */
  method Schedule(data: array<byte>) returns (m: array<word>)
    requires data.Length == 64
    ensures fresh(m) && m.Length == 64 && forall t | 0 <= t < 64 :: m[t] == W(data[..], t)
  {
    hide Add, SmallSigma0, SmallSigma1, Sig0, Sig1, WordOf;
    m := new word[64];
    var i, j := 0, 0;
    while i < 16
      invariant 0 <= i <= 16 && j == 4 * i
      invariant forall t | 0 <= t < i :: m[t] == W(data[..], t)
    {
      m[i] := WordOf(data[j], data[j + 1], data[j + 2], data[j + 3]);
      i, j := i + 1, j + 4;
    }
    var k := 16;
    while k < 64
      invariant 16 <= k <= 64
      invariant forall t | 0 <= t < k :: m[t] == W(data[..], t)
    {
      SigmasAgree(m[k - 2]);
      SigmasAgree(m[k - 15]);
      m[k] := Add(Add(Add(Sig1(m[k - 2]), m[k - 7]), Sig0(m[k - 15])), m[k - 16]);
      k := k + 1;
    }
  }

  /** The full blocks of a message have been hashed, and the rest of it is in the buffer. */
  ghost predicate Hashed(msg: bytes, data: bytes, state: seq<word>, blocklen: nat, bitlen: nat)
    requires |data| == 64
  {
    && blocklen < 64
    && |msg| % 64 == blocklen && msg[|msg| - blocklen..] == data[..blocklen]
    && state == HashBlocks(msg, |msg| / 64)
    && bitlen == MessageBits(|msg| - blocklen)
  }

  lemma NothingHashed(data: bytes)
    requires |data| == 64
    ensures Hashed([], data, InitialHash(), 0, 0) && 0 < LengthLimit
  {
    hide InitialHash;
    assert [][0..] == data[..0];
  }

  method SetInitialHash(state: array<word>)
    requires state.Length == 8
    modifies state
    ensures state[..] == InitialHash()
  {
    state[0] := 0x6a09e667;
    state[1] := 0xbb67ae85;
    state[2] := 0x3c6ef372;
    state[3] := 0xa54ff53a;
    state[4] := 0x510e527f;
    state[5] := 0x9b05688c;
    state[6] := 0x1f83d9ab;
    state[7] := 0x5be0cd19;
  }

  class Sha256 {
    const data: array<byte>
    const state: array<word>
    var blocklen: nat
    var bitlen: nat
    /** What has been given to the object. */
    ghost var msg: bytes

    ghost predicate Shape()
      reads this, data, state
    {
      data.Length == 64 && state.Length == 8 && bitlen < LengthLimit && data as object != state as object
    }

    ghost predicate Valid()
      reads this, data, state
    {
      Shape() && Hashed(msg, data[..], state[..], blocklen, bitlen)
    }

    constructor ()
      ensures Valid() && msg == [] && fresh(data) && fresh(state)
    {
      data := new byte[64];
      state := new word[8];
      blocklen, bitlen, msg := 0, 0, [];
      new;
      hide HashBlocks, InitialHash, MessageBits, Hashed;
      NothingHashed(data[..]);
      SetInitialHash(state);
    }

    /** transform: hashes the block in the buffer. */
    method Transform()
      requires Shape()
      modifies state
      ensures state[..] == Compress(old(state[..]), data[..])
    {
      hide W, Round, Add;
      var m := Schedule(data);
      ghost var ms := m[..];
      var v := new word[8];
      ghost var h, block := state[..], data[..];
      var i := 0;
      while i < 8
        invariant 0 <= i <= 8 && state[..] == h && m[..] == ms && forall j | 0 <= j < i :: v[j] == h[j]
      {
        v[i] := state[i];
        i := i + 1;
      }
      assert v[..] == h;
      i := 0;
      while i < 64
        invariant 0 <= i <= 64 && state[..] == h && m[..] == ms && v[..] == Rounds(h, block, i)
      {
        assert m[i] == ms[i] == W(block, i);
        OneRound(v, K(i), m[i]);
        i := i + 1;
      }
      ghost var vs := v[..];
      i := 0;
      while i < 8
        invariant 0 <= i <= 8 && v[..] == vs
        invariant forall j | 0 <= j < 8 :: state[j] == if j < i then Add(h[j], vs[j]) else h[j]
      {
        state[i] := Add(state[i], v[i]);
        i := i + 1;
      }
    }
  
    /** One turn of update: a byte more, and a block hashed when it is the last of one. */
    method UpdateByte(b: byte)
      requires Valid()
      modifies this, data, state
      ensures Valid() && msg == old(msg) + [b]
    {
      hide HashBlocks, MessageBits, Compress;
      ghost var q := |msg| / 64;
      data[blocklen] := b;
      blocklen := blocklen + 1;
      msg := msg + [b];
      HashPrefix(old(msg), msg, q);
      assert msg[64 * q..] == data[..blocklen];
      if blocklen == 64 {
        assert data[..64] == data[..];
        Transform();
        BlockDone(msg, q);
        bitlen := (bitlen + 512) % LengthLimit;
        blocklen := 0;
      }
    }

    /** update. */
    method Update(bytes: bytes)
      requires Valid()
      modifies this, data, state
      ensures Valid() && msg == old(msg) + bytes
    {
      hide HashBlocks, MessageBits;
      var i := 0;
      while i < |bytes|
        invariant 0 <= i <= |bytes| && Valid() && msg == old(msg) + bytes[..i]
      {
        UpdateByte(bytes[i]);
        i := i + 1;
      }
    }

    /** The first of two padding blocks, for a message whose length does not fit behind it. */
    method PadFirst()
      requires Valid() && blocklen >= 56
      modifies data, state
      ensures Shape() && state[..] == HashBlocks(Padded(msg), |msg| / 64 + 1) && data[..56] == Zeros(56)
    {
      hide HashBlocks, MessageBits, Compress, Padded, Zeros;
      ghost var q := |msg| / 64;
      PaddedTwice(msg, q, blocklen);
      PadKeeps(msg, q);
      PadBuffer(data, blocklen, 64);
      assert data[..64] == data[..];
      Transform();
      NextBlock(Padded(msg), q);
      forall i | 0 <= i < 56 {
        data[i] := 0;
      }
      assert data[..56] == Zeros(56);
    }

    /** pad. */
    method Pad()
      requires Valid()
      modifies this`bitlen, data, state
      ensures Shape() && state[..] == HashBlocks(Padded(msg), |Padded(msg)| / 64)
    {
      hide HashBlocks, MessageBits, Compress, Padded, Zeros, LengthBytes;
      ghost var q := |msg| / 64;
      MessageBitsAdd(|msg| - blocklen, blocklen);
      if blocklen >= 56 {
        PaddedTwice(msg, q, blocklen);
        PadFirst();
        q := q + 1;
      } else {
        PaddedOnce(msg, q, blocklen);
        PadKeeps(msg, q);
        PadBuffer(data, blocklen, 56);
      }
      bitlen := (bitlen + blocklen * 8) % LengthLimit;
      StoreLength(data, bitlen);
      assert data[..] == Padded(msg)[64 * q..];
      Transform();
      assert Padded(msg)[64 * q..64 * (q + 1)] == Padded(msg)[64 * q..];
      NextBlock(Padded(msg), q);
    }

    /** digest: the hash of everything that was given, however it was split. The object is spent. */
    method Digest() returns (hash: bytes)
      requires Valid()
      modifies this`bitlen, data, state
      ensures hash == Fips180.Sha256(msg)
    {
      hide HashBlocks, Padding;
      Pad();
      hash := Revert(state);
    }
  }

  /** Writes 0x80 and zeros behind the first `n` bytes, up to `end`. */
  method PadBuffer(data: array<byte>, n: nat, end: nat)
    requires data.Length == 64 && n < end <= 64
    modifies data
    ensures data[..end] == old(data[..n]) + [0x80] + Zeros(end - n - 1)
  {
    var i := n;
    data[i] := 0x80;
    i := i + 1;
    while i < end
      invariant n < i <= end && data[..n] == old(data[..n]) && data[n] == 0x80
      invariant forall j | n < j < i :: data[j] == 0
    {
      data[i] := 0;
      i := i + 1;
    }
  }

  /** Writes the length into the last eight bytes. */
  method StoreLength(data: array<byte>, bitlen: nat)
    requires data.Length == 64 && bitlen < LengthLimit
    modifies data
    ensures data[..] == old(data[..56]) + LengthBytes(bitlen)
  {
    data[63] := bitlen % 256;
    data[62] := bitlen / 0x100 % 256;
    data[61] := bitlen / 0x1_0000 % 256;
    data[60] := bitlen / 0x100_0000 % 256;
    data[59] := bitlen / 0x1_0000_0000 % 256;
    data[58] := bitlen / 0x100_0000_0000 % 256;
    data[57] := bitlen / 0x1_0000_0000_0000 % 256;
    data[56] := bitlen / 0x100_0000_0000_0000 % 256;
  }

  /** revert: the words of the state, the most significant byte first. */
  method Revert(state: array<word>) returns (hash: bytes)
    requires state.Length == 8
    ensures hash == HashBytes(state[..])
  {
    hide ByteOf;
    var out := new byte[32];
    var i := 0;
    while i < 4
      invariant 0 <= i <= 4
      invariant forall n | 0 <= n < 32 && n % 4 < i :: out[n] == ByteOf(state[n / 4], n % 4)
    {
      var j := 0;
      while j < 8
        invariant 0 <= j <= 8
        invariant forall n | 0 <= n < 32 && (n % 4 < i || (n % 4 == i && n / 4 < j)) :: out[n] == ByteOf(state[n / 4], n % 4)
      {
        assert (i + j * 4) / 4 == j && (i + j * 4) % 4 == i;
        out[i + j * 4] := ByteOf(state[j], i);
        j := j + 1;
      }
      i := i + 1;
    }
    hash := out[..];
  }

  lemma NextBlock(data: bytes, q: nat)
    requires 64 * (q + 1) <= |data|
    ensures HashBlocks(data, q + 1) == Compress(HashBlocks(data, q), data[64 * q..64 * (q + 1)])
  {
  }

  /** Padding does not change the blocks before it. */
  lemma PadKeeps(msg: bytes, q: nat)
    requires 64 * q <= |msg|
    ensures HashBlocks(Padded(msg), q) == HashBlocks(msg, q)
  {
    hide HashBlocks, Padding;
    HashPrefix(Padded(msg), msg, q);
  }

  lemma BlockDone(msg: bytes, q: nat)
    requires |msg| == 64 * (q + 1)
    ensures HashBlocks(msg, q + 1) == Compress(HashBlocks(msg, q), msg[64 * q..])
    ensures (MessageBits(64 * q) + 512) % LengthLimit == MessageBits(64 * (q + 1))
  {
    hide Compress;
    assert msg[64 * q..64 * (q + 1)] == msg[64 * q..];
    MessageBitsAdd(64 * q, 64);
  }

  lemma MessageBitsAdd(n: nat, more: nat)
    ensures (MessageBits(n) + 8 * more) % LengthLimit == MessageBits(n + more)
  {
  }

  // ---------------------------------------------------------------- the padding

  ghost function Padded(msg: bytes): (r: bytes)
    ensures |r| % 64 == 0
  {
    msg + Padding(|msg|)
  }

  lemma ZeroCountIs(q: nat, r: nat)
    requires r < 64
    ensures ZeroCount(64 * q + r) == if r < 56 then 55 - r else 119 - r
  {
    var n := 64 * q + r;
    assert n / 64 == q && n % 64 == r;
  }

  /** The last block when the length still fits behind the message. */
  lemma PaddedOnce(msg: bytes, q: nat, r: nat)
    requires |msg| == 64 * q + r && r < 56
    ensures |Padded(msg)| == 64 * (q + 1)
    ensures Padded(msg)[64 * q..] == msg[64 * q..] + [0x80] + Zeros(55 - r) + LengthBytes(MessageBits(|msg|))
  {
    hide ZeroCount, LengthBytes, MessageBits, Zeros;
    ZeroCountIs(q, r);
  }

  /** The last two blocks when it does not. */
  lemma PaddedTwice(msg: bytes, q: nat, r: nat)
    requires |msg| == 64 * q + r && 56 <= r < 64
    ensures |Padded(msg)| == 64 * (q + 2)
    ensures Padded(msg)[64 * q..64 * (q + 1)] == msg[64 * q..] + [0x80] + Zeros(63 - r)
    ensures Padded(msg)[64 * (q + 1)..] == Zeros(56) + LengthBytes(MessageBits(|msg|))
  {
    hide ZeroCount, LengthBytes, MessageBits;
    ZeroCountIs(q, r);
    assert Zeros(119 - r) == Zeros(63 - r) + Zeros(56);
    var head := msg + [0x80] + Zeros(63 - r);
    assert Padded(msg) == head + (Zeros(56) + LengthBytes(MessageBits(|msg|)));
    assert |head| == 64 * (q + 1);
    assert head[64 * q..] == msg[64 * q..] + [0x80] + Zeros(63 - r);
  }
}
