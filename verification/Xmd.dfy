/** xmd_sh256: the extensible-output function that hashes messages to curve points. */
module XmdModel {
  import opened Bytes
  import opened Fips180
  import opened Powers
  import opened Sha256Model
  import opened WordBits

  // ---------------------------------------------------------------- section 5.3.1 of RFC 9380

  function Xor(a: byte, b: byte): (r: byte) {
    ((a as bv8) ^ (b as bv8)) as int
  }

  function StrXor(a: bytes, b: bytes): (r: bytes)
    requires |a| == |b|
    ensures |r| == |a|
  {
    seq(|a|, i requires 0 <= i < |a| => Xor(a[i], b[i]))
  }

  function DstPrime(dst: bytes): (r: bytes)
    requires |dst| <= 255
  {
    dst + [|dst|]
  }

  /** Z_pad || msg || l_i_b_str || I2OSP(0, 1) || DST_prime, where Z_pad fills one block of the hash. */
  ghost function MsgPrime(msg: bytes, dst: bytes, len: nat): (r: bytes)
    requires |dst| <= 255 && len <= 65535
  {
    Zeros(BlockBytes) + msg + BigEndian(2, len) + BigEndian(1, 0) + DstPrime(dst)
  }

  ghost function B0(msg: bytes, dst: bytes, len: nat): (r: bytes)
    requires |dst| <= 255 && len <= 65535
    ensures |r| == 32
  {
    Fips180.Sha256(MsgPrime(msg, dst, len))
  }

  /** H(block || I2OSP(i, 1) || DST_prime) */
  ghost function HashLink(block: bytes, dst: bytes, i: nat): (r: bytes)
    requires |dst| <= 255 && i <= 255
    ensures |r| == 32
  {
    Fips180.Sha256(LinkMessage(block, dst, i))
  }

  function LinkMessage(block: bytes, dst: bytes, i: nat): (r: bytes)
    requires |dst| <= 255 && i <= 255
  {
    block + [i] + DstPrime(dst)
  }

  ghost function B(b0: bytes, dst: bytes, i: nat): (r: bytes)
    requires |dst| <= 255 && |b0| == 32 && 1 <= i <= 255
    ensures |r| == 32
  {
    HashLink(if i == 1 then b0 else StrXor(b0, B(b0, dst, i - 1)), dst, i)
  }

  /** b_1 || ... || b_n */
  ghost function UniformBytes(b0: bytes, dst: bytes, n: nat): (r: bytes)
    requires |dst| <= 255 && |b0| == 32 && n <= 255
    ensures |r| == 32 * n
  {
    if n == 0 then [] else UniformBytes(b0, dst, n - 1) + B(b0, dst, n)
  }

  /** ceil(len / 32) */
  function Ell(len: nat): (r: nat)
    ensures 32 * r >= len && (r == 0 || 32 * (r - 1) < len)
  {
    (len + 31) / 32
  }

  ghost function ExpandMessage(msg: bytes, dst: bytes, len: nat): (r: bytes)
    requires |dst| <= 255 && Ell(len) <= 255
    ensures |r| == len
  {
    UniformBytes(B0(msg, dst, len), dst, Ell(len))[..len]
  }

  // ---------------------------------------------------------------- what the definitions say

  /** Bit by bit, the sum modulo 2. */
  lemma XorDigit(a: byte, b: byte, i: nat)
    requires i < 8
    ensures Digit(Xor(a, b), i) == (Digit(a, i) + Digit(b, i)) % 2
  {
    hide Digit, Xor, ByteBit;
    XorBits(a, b);
    ByteBitXor(a as bv8, b as bv8, i);
    ByteBitDigit(a, i);
    ByteBitDigit(b, i);
    ByteBitDigit(Xor(a, b), i);
  }

  function ByteBit(p: bv8, i: nat): (d: nat)
    requires i < 8
  {
    if i == 0 then ((p >> 0) & 1) as int else if i == 1 then ((p >> 1) & 1) as int
    else if i == 2 then ((p >> 2) & 1) as int else if i == 3 then ((p >> 3) & 1) as int
    else if i == 4 then ((p >> 4) & 1) as int else if i == 5 then ((p >> 5) & 1) as int
    else if i == 6 then ((p >> 6) & 1) as int else ((p >> 7) & 1) as int
  }

  lemma ByteBitXor(p: bv8, q: bv8, i: nat)
    requires i < 8
    ensures ByteBit(p ^ q, i) == (ByteBit(p, i) + ByteBit(q, i)) % 2
  {
    hide ByteBit;
    LowBitsXor(p, q);
    HighBitsXor(p, q);
    assert i == 0 || i == 1 || i == 2 || i == 3 || i == 4 || i == 5 || i == 6 || i == 7;
  }

  lemma LowBitsXor(p: bv8, q: bv8)
    ensures ByteBit(p ^ q, 0) == (ByteBit(p, 0) + ByteBit(q, 0)) % 2
    ensures ByteBit(p ^ q, 1) == (ByteBit(p, 1) + ByteBit(q, 1)) % 2
    ensures ByteBit(p ^ q, 2) == (ByteBit(p, 2) + ByteBit(q, 2)) % 2
    ensures ByteBit(p ^ q, 3) == (ByteBit(p, 3) + ByteBit(q, 3)) % 2
  {
  }

  lemma HighBitsXor(p: bv8, q: bv8)
    ensures ByteBit(p ^ q, 4) == (ByteBit(p, 4) + ByteBit(q, 4)) % 2
    ensures ByteBit(p ^ q, 5) == (ByteBit(p, 5) + ByteBit(q, 5)) % 2
    ensures ByteBit(p ^ q, 6) == (ByteBit(p, 6) + ByteBit(q, 6)) % 2
    ensures ByteBit(p ^ q, 7) == (ByteBit(p, 7) + ByteBit(q, 7)) % 2
  {
  }

  lemma ByteBitDigit(x: byte, i: nat)
    requires i < 8
    ensures ByteBit(x as bv8, i) == Digit(x, i)
  {
    hide Digit;
    ByteDigits(x);
    LowDigits(x);
  }

  lemma XorBits(a: byte, b: byte)
    ensures Xor(a, b) as bv8 == (a as bv8) ^ (b as bv8)
  {
  }

  lemma ByteDigits(x: byte)
    ensures ((x as bv8 >> 0) & 1) as int == x % 2
    ensures ((x as bv8 >> 1) & 1) as int == x / 2 % 2
    ensures ((x as bv8 >> 2) & 1) as int == x / 4 % 2
    ensures ((x as bv8 >> 3) & 1) as int == x / 8 % 2
    ensures ((x as bv8 >> 4) & 1) as int == x / 16 % 2
    ensures ((x as bv8 >> 5) & 1) as int == x / 32 % 2
    ensures ((x as bv8 >> 6) & 1) as int == x / 64 % 2
    ensures ((x as bv8 >> 7) & 1) as int == x / 128 % 2
  {
  }

  lemma LowDigits(x: nat)
    ensures Digit(x, 0) == x % 2 && Digit(x, 1) == x / 2 % 2 && Digit(x, 2) == x / 4 % 2 && Digit(x, 3) == x / 8 % 2
    ensures Digit(x, 4) == x / 16 % 2 && Digit(x, 5) == x / 32 % 2 && Digit(x, 6) == x / 64 % 2 && Digit(x, 7) == x / 128 % 2
  {
    assert Pow2(3) == 8 && Pow2(4) == 16 && Pow2(5) == 32 && Pow2(6) == 64 && Pow2(7) == 128;
  }

  /** The zeros in front are one block of the hash, which is hashed before the message begins. */
  lemma ZerosAreOneBlock(msg: bytes, dst: bytes, len: nat, first: bytes)
    requires |dst| <= 255 && len <= 65535 && first == MsgPrime(msg, dst, len)[..BlockBytes]
    ensures first == Zeros(64) && HashBlocks(MsgPrime(msg, dst, len), 1) == Compress(InitialHash(), first)
  {
    hide Compress, Zeros;
    var m := MsgPrime(msg, dst, len);
    assert m[64 * 0..64 * 1] == first;
    assert HashBlocks(m, 0) == InitialHash();
  }

  /** Where the parts of the first message are: the message, the length as a number, a zero, the tag and its length. */
  lemma MsgPrimeParts(msg: bytes, dst: bytes, len: nat)
    requires |dst| <= 255 && len <= 65535
    ensures var m, n := MsgPrime(msg, dst, len), 64 + |msg|;
            && |m| == n + 3 + |dst| + 1
            && m[64..n] == msg && Number(m[n..n + 2]) == len && m[n + 2] == 0
            && m[n + 3..n + 3 + |dst|] == dst && m[|m| - 1] == |dst|
  {
    hide Zeros, BigEndian, Number;
    var m, n := MsgPrime(msg, dst, len), 64 + |msg|;
    LengthBytes(len);
    assert Pow256(2) == 65536;
    NumberOfBigEndian(2, len);
    assert m[n..n + 2] == BigEndian(2, len);
  }

  /** And where those of each later one are: the block, its number, the tag and its length. */
  lemma LinkMessageParts(block: bytes, dst: bytes, i: nat)
    requires |dst| <= 255 && i <= 255
    ensures var m, n := LinkMessage(block, dst, i), |block|;
            |m| == n + 1 + |dst| + 1 && m[..n] == block && m[n] == i && m[n + 1..n + 1 + |dst|] == dst && m[|m| - 1] == |dst|
  {
  }

  /** The first block hashes b_0, and every further one b_0 combined with the block before. */
  lemma ChainBlocks(b0: bytes, dst: bytes, i: nat)
    requires |dst| <= 255 && |b0| == 32 && 1 <= i < 255
    ensures B(b0, dst, 1) == Fips180.Sha256(LinkMessage(b0, dst, 1))
    ensures B(b0, dst, i + 1) == Fips180.Sha256(LinkMessage(StrXor(b0, B(b0, dst, i)), dst, i + 1))
  {
    hide LinkMessage, StrXor, Fips180.Sha256;
  }

  /** The i-th block of the output is b_i. */
  lemma {:induction false} UniformAt(b0: bytes, dst: bytes, n: nat, i: nat)
    requires |dst| <= 255 && |b0| == 32 && 1 <= i <= n <= 255
    ensures UniformBytes(b0, dst, n)[32 * (i - 1)..32 * i] == B(b0, dst, i)
  {
    hide B;
    if i < n {
      UniformAt(b0, dst, n - 1, i);
    }
  }

  // ---------------------------------------------------------------- the code

  /** The chain starts from zeros, which leave b_0 as it is. */
  lemma XorZero(a: byte)
    ensures Xor(a, 0) == a
  {
  }

  lemma StrXorZeros(a: bytes)
    ensures StrXor(a, Zeros(|a|)) == a
  {
    hide Xor;
    forall i | 0 <= i < |a|
      ensures Xor(a[i], 0) == a[i]
    {
      XorZero(a[i]);
    }
  }

  /** b_0, from five updates. */
  method FirstHash(input: bytes, dst: bytes, len: nat) returns (b0: bytes)
    requires |dst| <= 255 && len <= 65535
    ensures b0 == B0(input, dst, len)
  {
    var sha := new Sha256Model.Sha256();
    hide sha.Valid, Fips180.Sha256, Zeros, BigEndian;
    sha.Update(Zeros(64));
    sha.Update(input);
    sha.Update([len / 256, len % 256, 0]);
    sha.Update(dst);
    sha.Update([|dst|]);
    LengthBytes(len);
    assert sha.msg == MsgPrime(input, dst, len);
    b0 := sha.Digest();
  }

  lemma LengthBytes(len: nat)
    requires len <= 65535
    ensures BigEndian(2, len) == [len / 256, len % 256] && BigEndian(1, 0) == [0]
  {
    assert BigEndian(0, len / 256 / 256) == [];
    assert BigEndian(1, len / 256) == [len / 256];
  }

  /** The hash of a numbered block, from three updates. */
  method HashNumbered(block: bytes, dst: bytes) returns (hash: bytes)
    requires |dst| <= 255
    ensures hash == Fips180.Sha256(block + DstPrime(dst))
  {
    var s := new Sha256Model.Sha256();
    hide s.Valid, Fips180.Sha256;
    s.Update(block);
    s.Update(dst);
    s.Update([|dst|]);
    assert s.msg == block + DstPrime(dst);
    hash := s.Digest();
  }

  /** One turn of the loop: b_i is combined with b_0 in place, numbered and hashed. */
  method NextHash(b0: bytes, dst: bytes, bi: array<byte>, i: nat)
    requires |dst| <= 255 && |b0| == 32 && bi.Length == 33 && 1 <= i <= 255
    modifies bi
    ensures bi[..32] == HashLink(StrXor(b0, old(bi[..32])), dst, i)
  {
    hide Xor, Fips180.Sha256;
    var j := 0;
    while j < 32
      invariant 0 <= j <= 32
      invariant forall t | 0 <= t < 32 :: bi[t] == if t < j then Xor(b0[t], old(bi[t])) else old(bi[t])
    {
      bi[j] := Xor(b0[j], bi[j]);
      j := j + 1;
    }
    bi[32] := i;
    assert bi[..] == StrXor(b0, old(bi[..32])) + [i];
    var hash := HashNumbered(bi[..], dst);
    forall t | 0 <= t < 32 {
      bi[t] := hash[t];
    }
    assert bi[..32] == hash;
  }

  /** What a turn of the loop hashes is the next block of the chain. */
  lemma ChainStep(b0: bytes, dst: bytes, i: nat, prev: bytes)
    requires |dst| <= 255 && |b0| == |prev| == 32 && 1 <= i <= 255
    requires prev == if i == 1 then Zeros(32) else B(b0, dst, i - 1)
    ensures HashLink(StrXor(b0, prev), dst, i) == B(b0, dst, i)
  {
    hide HashLink, Zeros, StrXor;
    StrXorZeros(b0);
  }

  /** memcpy of as much of b_i as there is room for. */
  method CopyBlock(buf: array<byte>, at: nat, block: bytes, count: nat)
    requires count <= |block| && at + count <= buf.Length
    modifies buf
    ensures buf[..] == old(buf[..at]) + block[..count] + old(buf[at + count..])
  {
    forall t | 0 <= t < count {
      buf[at + t] := block[t];
    }
  }

  lemma ZerosAre(a: bytes)
    requires forall i | 0 <= i < |a| :: a[i] == 0
    ensures a == Zeros(|a|)
  {
  }

  /** The buffer after `n` turns. */
  ghost function Filled(b0: bytes, dst: bytes, n: nat, len: nat, before: bytes): (r: bytes)
    requires |dst| <= 255 && |b0| == 32 && n <= 255 && len <= |before|
    ensures |r| == |before|
  {
    var done := if 32 * n <= len then 32 * n else len;
    UniformBytes(b0, dst, n)[..done] + before[done..]
  }

  lemma FillStart(b0: bytes, dst: bytes, len: nat, before: bytes)
    requires |dst| <= 255 && |b0| == 32 && len <= |before|
    ensures Filled(b0, dst, 0, len, before) == before
  {
  }

  lemma FillDone(input: bytes, dst: bytes, len: nat, before: bytes)
    requires |dst| <= 255 && Ell(len) <= 255 && len <= |before|
    ensures Filled(B0(input, dst, len), dst, Ell(len), len, before) == ExpandMessage(input, dst, len) + before[len..]
  {
    hide B0, UniformBytes;
  }

  lemma FillStep(b0: bytes, dst: bytes, i: nat, len: nat, before: bytes, at: nat, count: nat)
    requires |dst| <= 255 && |b0| == 32 && 1 <= i <= 255 && 32 * (i - 1) < len <= |before|
    requires at == 32 * (i - 1) && count == if len < 32 * i then 32 + (len - 32 * i) else 32
    ensures var was := Filled(b0, dst, i - 1, len, before);
            && at + count <= |was|
            && Filled(b0, dst, i, len, before) == was[..at] + B(b0, dst, i)[..count] + was[at + count..]
  {
    hide B, UniformBytes;
    var u, b := UniformBytes(b0, dst, i - 1), B(b0, dst, i);
    UniformStep(b0, dst, i);
    JoinBlock(u, b, before, count);
  }

  lemma UniformStep(b0: bytes, dst: bytes, i: nat)
    requires |dst| <= 255 && |b0| == 32 && 1 <= i <= 255
    ensures UniformBytes(b0, dst, i) == UniformBytes(b0, dst, i - 1) + B(b0, dst, i)
  {
  }

  lemma JoinBlock(u: bytes, b: bytes, before: bytes, count: nat)
    requires count <= |b| && |u| + count <= |before|
    ensures var was := u[..|u|] + before[|u|..];
            (u + b)[..|u| + count] + before[|u| + count..] == was[..|u|] + b[..count] + was[|u| + count..]
  {
    var was := u[..|u|] + before[|u|..];
    assert was[..|u|] == u;
    assert was[|u| + count..] == before[|u| + count..];
    assert (u + b)[..|u| + count] == u + b[..count];
  }

  /** One turn of the loop of xmd_sh256. */
  method Turn(buf: array<byte>, bufLen: nat, b0: bytes, dst: bytes, bi: array<byte>, i: nat, ghost before: bytes)
    requires |dst| <= 255 && |b0| == 32 && 1 <= i <= 255 && 32 * (i - 1) < bufLen <= |before| && buf != bi && bi.Length == 33
    requires bi[..32] == (if i == 1 then Zeros(32) else B(b0, dst, i - 1)) && buf[..] == Filled(b0, dst, i - 1, bufLen, before)
    modifies buf, bi
    ensures bi[..32] == B(b0, dst, i) && buf[..] == Filled(b0, dst, i, bufLen, before)
  {
    hide HashLink, B, Filled, Zeros, StrXor;
    ChainStep(b0, dst, i, bi[..32]);
    NextHash(b0, dst, bi, i);
    var remAfter := bufLen - i * 32;
    var copyLen := 32 + (if remAfter < 0 then remAfter else 0);
    FillStep(b0, dst, i, bufLen, before, (i - 1) * 32, copyLen);
    CopyBlock(buf, (i - 1) * 32, bi[..32], copyLen);
  }

  /** xmd_sh256: writes nothing for lengths that the function does not serve. */
  method XmdSha256(buf: array<byte>, bufLen: int, input: bytes, dst: bytes)
    requires bufLen <= buf.Length
    modifies buf
    ensures bufLen < 0 || Ell(bufLen) > 255 || |dst| > 255 ==> buf[..] == old(buf[..])
    ensures 0 <= bufLen && Ell(bufLen) <= 255 && |dst| <= 255 ==>
              buf[..] == ExpandMessage(input, dst, bufLen) + old(buf[bufLen..])
  {
    hide HashLink, B0, B, Fips180.Sha256, Filled, ExpandMessage, Zeros, StrXor, UniformBytes, Ell;
    if bufLen < 0 || Ell(bufLen) > 255 || |dst| > 255 {
      return;
    }
    FillStart(B0(input, dst, bufLen), dst, bufLen, buf[..]);
    var ell := Ell(bufLen);
    var b0 := FirstHash(input, dst, bufLen);
    var bi := new byte[33](_ => 0);
    ghost var before := buf[..];
    assert bi[..32] == Zeros(32) by { ZerosAre(bi[..32]); }
    var i := 1;
    while i <= ell
      invariant 1 <= i <= ell + 1
      invariant bi[..32] == if i == 1 then Zeros(32) else B(b0, dst, i - 1)
      invariant buf[..] == Filled(b0, dst, i - 1, bufLen, before)
    {
      Turn(buf, bufLen, b0, dst, bi, i, before);
      i := i + 1;
    }
    assert Filled(b0, dst, ell, bufLen, before) == ExpandMessage(input, dst, bufLen) + before[bufLen..] by { FillDone(input, dst, bufLen, before); }
  }
}
