/** The one-block example of SHA-256, the message "abc": its schedule, its 64 rounds and its digest. */
module Sha256Abc {
  import opened Bytes
  import opened Fips180

  /** The padded message. */
  ghost predicate Padded(block: bytes) {
    block == [0x61, 0x62, 0x63, 0x80] + Zeros(52) + [0, 0, 0, 0, 0, 0, 0, 0x18]
  }

  lemma PaddedIs()
    ensures |[0x61, 0x62, 0x63] + Padding(3)| == 64 && Padded([0x61, 0x62, 0x63] + Padding(3))
  {
    hide Zeros;
    assert ZeroCount(3) == 52;
    assert LengthBytes(MessageBits(3)) == [0, 0, 0, 0, 0, 0, 0, 0x18];
    assert [0x61, 0x62, 0x63] + ([0x80] + Zeros(52) + LengthBytes(MessageBits(3)))
        == [0x61, 0x62, 0x63, 0x80] + Zeros(52) + [0, 0, 0, 0, 0, 0, 0, 0x18];
  }

  // ---------------------------------------------------------------- the schedule

  lemma NextWord(block: bytes, t: nat, w2: word, w7: word, w15: word, w16: word)
    requires 16 <= t < 64
    requires |block| == 64 && W(block, t - 2) == w2 && W(block, t - 7) == w7 && W(block, t - 15) == w15 && W(block, t - 16) == w16
    ensures W(block, t) == Add(Add(Add(SmallSigma1(w2), w7), SmallSigma0(w15)), w16)
  {
    hide Add, SmallSigma0, SmallSigma1;
  }

  lemma FirstWord(block: bytes, t: nat)
    requires |block| == 64 && Padded(block)
    requires t < 16
    ensures W(block, t) == if t == 0 then 0x61626380 else if t == 15 then 0x18 else 0
  {
  }

  lemma Words0(block: bytes)
    requires |block| == 64 && Padded(block)
    ensures W(block, 0) == 0x61626380 && W(block, 1) == 0x00000000 && W(block, 2) == 0x00000000 && W(block, 3) == 0x00000000
    ensures W(block, 4) == 0x00000000 && W(block, 5) == 0x00000000 && W(block, 6) == 0x00000000 && W(block, 7) == 0x00000000
    ensures W(block, 8) == 0x00000000 && W(block, 9) == 0x00000000 && W(block, 10) == 0x00000000 && W(block, 11) == 0x00000000
    ensures W(block, 12) == 0x00000000 && W(block, 13) == 0x00000000 && W(block, 14) == 0x00000000 && W(block, 15) == 0x00000018
  {
    hide W, Padded;
    FirstWord(block, 0);
    FirstWord(block, 1);
    FirstWord(block, 2);
    FirstWord(block, 3);
    FirstWord(block, 4);
    FirstWord(block, 5);
    FirstWord(block, 6);
    FirstWord(block, 7);
    FirstWord(block, 8);
    FirstWord(block, 9);
    FirstWord(block, 10);
    FirstWord(block, 11);
    FirstWord(block, 12);
    FirstWord(block, 13);
    FirstWord(block, 14);
    FirstWord(block, 15);
  }

  lemma Schedule16()
    ensures SmallSigma0(0x00000000) == 0x00000000 && SmallSigma1(0x00000000) == 0x00000000
    ensures SmallSigma0(0x00000000) == 0x00000000 && SmallSigma1(0x00000018) == 0x000f0000
    ensures SmallSigma0(0x00000000) == 0x00000000 && SmallSigma1(0x61626380) == 0x7da86405
    ensures SmallSigma0(0x00000000) == 0x00000000 && SmallSigma1(0x000f0000) == 0x600003c6
    ensures SmallSigma0(0x00000000) == 0x00000000 && SmallSigma1(0x7da86405) == 0x3e9d7b78
    ensures SmallSigma0(0x00000000) == 0x00000000 && SmallSigma1(0x600003c6) == 0x0183fc00
    ensures SmallSigma0(0x00000000) == 0x00000000 && SmallSigma1(0x3e9d7b78) == 0x12dcbfc3
    ensures SmallSigma0(0x00000000) == 0x00000000 && SmallSigma1(0x0183fc00) == 0x8180600e
  {
  }

  lemma Words16(block: bytes)
    requires |block| == 64 && Padded(block)
    ensures W(block, 16) == 0x61626380 && W(block, 17) == 0x000f0000 && W(block, 18) == 0x7da86405 && W(block, 19) == 0x600003c6
    ensures W(block, 20) == 0x3e9d7b78 && W(block, 21) == 0x0183fc00 && W(block, 22) == 0x12dcbfdb && W(block, 23) == 0xe2e2c38e
  {
    hide W, Padded, SmallSigma0, SmallSigma1;
    Words0(block);
    Schedule16();
    NextWord(block, 16, 0x00000000, 0x00000000, 0x00000000, 0x61626380);
    NextWord(block, 17, 0x00000018, 0x00000000, 0x00000000, 0x00000000);
    NextWord(block, 18, 0x61626380, 0x00000000, 0x00000000, 0x00000000);
    NextWord(block, 19, 0x000f0000, 0x00000000, 0x00000000, 0x00000000);
    NextWord(block, 20, 0x7da86405, 0x00000000, 0x00000000, 0x00000000);
    NextWord(block, 21, 0x600003c6, 0x00000000, 0x00000000, 0x00000000);
    NextWord(block, 22, 0x3e9d7b78, 0x00000018, 0x00000000, 0x00000000);
    NextWord(block, 23, 0x0183fc00, 0x61626380, 0x00000000, 0x00000000);
  }

  lemma Schedule24()
    ensures SmallSigma0(0x00000000) == 0x00000000 && SmallSigma1(0x12dcbfdb) == 0xc8125c1a
    ensures SmallSigma0(0x00000000) == 0x00000000 && SmallSigma1(0xe2e2c38e) == 0x398e159d
    ensures SmallSigma0(0x00000000) == 0x00000000 && SmallSigma1(0xc8215c1a) == 0x85bc3543
    ensures SmallSigma0(0x00000000) == 0x00000000 && SmallSigma1(0xb73679a2) == 0xf3c8c0e3
    ensures SmallSigma0(0x00000000) == 0x00000000 && SmallSigma1(0xe5bc3909) == 0x9b9ca167
    ensures SmallSigma0(0x00000000) == 0x00000000 && SmallSigma1(0x32663c5b) == 0xd9aa66f0
    ensures SmallSigma0(0x00000018) == 0x30060003 && SmallSigma1(0x9d209d67) == 0x5d387513
    ensures SmallSigma0(0x61626380) == 0x940e90ef && SmallSigma1(0xec8726cb) == 0x7787aa1a
  {
  }

  lemma Words24(block: bytes)
    requires |block| == 64 && Padded(block)
    ensures W(block, 24) == 0xc8215c1a && W(block, 25) == 0xb73679a2 && W(block, 26) == 0xe5bc3909 && W(block, 27) == 0x32663c5b
    ensures W(block, 28) == 0x9d209d67 && W(block, 29) == 0xec8726cb && W(block, 30) == 0x702138a4 && W(block, 31) == 0xd3b7973b
  {
    hide W, Padded, SmallSigma0, SmallSigma1;
    Words0(block);
    Words16(block);
    Schedule24();
    NextWord(block, 24, 0x12dcbfdb, 0x000f0000, 0x00000000, 0x00000000);
    NextWord(block, 25, 0xe2e2c38e, 0x7da86405, 0x00000000, 0x00000000);
    NextWord(block, 26, 0xc8215c1a, 0x600003c6, 0x00000000, 0x00000000);
    NextWord(block, 27, 0xb73679a2, 0x3e9d7b78, 0x00000000, 0x00000000);
    NextWord(block, 28, 0xe5bc3909, 0x0183fc00, 0x00000000, 0x00000000);
    NextWord(block, 29, 0x32663c5b, 0x12dcbfdb, 0x00000000, 0x00000000);
    NextWord(block, 30, 0x9d209d67, 0xe2e2c38e, 0x00000018, 0x00000000);
    NextWord(block, 31, 0xec8726cb, 0xc8215c1a, 0x61626380, 0x00000018);
  }

  lemma Schedule32()
    ensures SmallSigma0(0x000f0000) == 0xc001fe03 && SmallSigma1(0x702138a4) == 0xbb5abe5a
    ensures SmallSigma0(0x7da86405) == 0x1c4f0322 && SmallSigma1(0xd3b7973b) == 0x394e7e48
    ensures SmallSigma0(0x600003c6) == 0x8031987f && SmallSigma1(0x93f5997f) == 0x7fb4c6e2
    ensures SmallSigma0(0x3e9d7b78) == 0xa9709a3e && SmallSigma1(0x3b68ba73) == 0x4a7920f7
    ensures SmallSigma0(0x0183fc00) == 0xff337818 && SmallSigma1(0xaff4ffc1) == 0xe0331f3b
    ensures SmallSigma0(0x12dcbfdb) == 0x9b88ea33 && SmallSigma1(0xf10a5c62) == 0x65816433
    ensures SmallSigma0(0xe2e2c38e) == 0xb17a254e && SmallSigma1(0x0a8b3996) == 0xfbfb66da
    ensures SmallSigma0(0xc8215c1a) == 0x7b92db33 && SmallSigma1(0x72af830a) == 0x31f8dce2
  {
  }

  lemma Words32(block: bytes)
    requires |block| == 64 && Padded(block)
    ensures W(block, 32) == 0x93f5997f && W(block, 33) == 0x3b68ba73 && W(block, 34) == 0xaff4ffc1 && W(block, 35) == 0xf10a5c62
    ensures W(block, 36) == 0x0a8b3996 && W(block, 37) == 0x72af830a && W(block, 38) == 0x9409e33e && W(block, 39) == 0x24641522
  {
    hide W, Padded, SmallSigma0, SmallSigma1;
    Words16(block);
    Words24(block);
    Schedule32();
    NextWord(block, 32, 0x702138a4, 0xb73679a2, 0x000f0000, 0x61626380);
    NextWord(block, 33, 0xd3b7973b, 0xe5bc3909, 0x7da86405, 0x000f0000);
    NextWord(block, 34, 0x93f5997f, 0x32663c5b, 0x600003c6, 0x7da86405);
    NextWord(block, 35, 0x3b68ba73, 0x9d209d67, 0x3e9d7b78, 0x600003c6);
    NextWord(block, 36, 0xaff4ffc1, 0xec8726cb, 0x0183fc00, 0x3e9d7b78);
    NextWord(block, 37, 0xf10a5c62, 0x702138a4, 0x12dcbfdb, 0x0183fc00);
    NextWord(block, 38, 0x0a8b3996, 0xd3b7973b, 0xe2e2c38e, 0x12dcbfdb);
    NextWord(block, 39, 0x72af830a, 0x93f5997f, 0xc8215c1a, 0xe2e2c38e);
  }

  lemma Schedule40()
    ensures SmallSigma0(0xb73679a2) == 0xcde00e0a && SmallSigma1(0x9409e33e) == 0xcddd9afd
    ensures SmallSigma0(0xe5bc3909) == 0x013e863c && SmallSigma1(0x24641522) == 0x883c4fbb
    ensures SmallSigma0(0x32663c5b) == 0x3f3ec76a && SmallSigma1(0x9f47bf94) == 0x281f0da4
    ensures SmallSigma0(0x9d209d67) == 0xfbc7b5de && SmallSigma1(0xf0a64f5a) == 0xee7a0fd4
    ensures SmallSigma0(0xec8726cb) == 0x43fb11b5 && SmallSigma1(0x3e246a79) == 0xb87c31cc
    ensures SmallSigma0(0x702138a4) == 0x08cd796d && SmallSigma1(0x27333ba3) == 0xfaac3bb1
    ensures SmallSigma0(0xd3b7973b) == 0x881f6924 && SmallSigma1(0x0c4763f2) == 0x5d845673
    ensures SmallSigma0(0x93f5997f) == 0x8b06bce0 && SmallSigma1(0x840abf27) == 0x0856302b
  {
  }

  lemma Words40(block: bytes)
    requires |block| == 64 && Padded(block)
    ensures W(block, 40) == 0x9f47bf94 && W(block, 41) == 0xf0a64f5a && W(block, 42) == 0x3e246a79 && W(block, 43) == 0x27333ba3
    ensures W(block, 44) == 0x0c4763f2 && W(block, 45) == 0x840abf27 && W(block, 46) == 0x7a290d5d && W(block, 47) == 0x065c43da
  {
    hide W, Padded, SmallSigma0, SmallSigma1;
    Words24(block);
    Words32(block);
    Schedule40();
    NextWord(block, 40, 0x9409e33e, 0x3b68ba73, 0xb73679a2, 0xc8215c1a);
    NextWord(block, 41, 0x24641522, 0xaff4ffc1, 0xe5bc3909, 0xb73679a2);
    NextWord(block, 42, 0x9f47bf94, 0xf10a5c62, 0x32663c5b, 0xe5bc3909);
    NextWord(block, 43, 0xf0a64f5a, 0x0a8b3996, 0x9d209d67, 0x32663c5b);
    NextWord(block, 44, 0x3e246a79, 0x72af830a, 0xec8726cb, 0x9d209d67);
    NextWord(block, 45, 0x27333ba3, 0x9409e33e, 0x702138a4, 0xec8726cb);
    NextWord(block, 46, 0x0c4763f2, 0x24641522, 0xd3b7973b, 0x702138a4);
    NextWord(block, 47, 0x840abf27, 0x9f47bf94, 0x93f5997f, 0xd3b7973b);
  }

  lemma Schedule48()
    ensures SmallSigma0(0x3b68ba73) == 0xcf8708e0 && SmallSigma1(0x7a290d5d) == 0xa71b9812
    ensures SmallSigma0(0xaff4ffc1) == 0xa9511dfa && SmallSigma1(0x065c43da) == 0xa997d4f5
    ensures SmallSigma0(0xf10a5c62) == 0x4cdbe376 && SmallSigma1(0xfb3e89cb) == 0x95e24d5a
    ensures SmallSigma0(0x0a8b3996) == 0xe321f3e3 && SmallSigma1(0xcc7617db) == 0xc9258230
    ensures SmallSigma0(0x72af830a) == 0xfa7233cc && SmallSigma1(0xb9e66c34) == 0xfbb2b254
    ensures SmallSigma0(0x9409e33e) == 0x17668aa3 && SmallSigma1(0xa9993667) == 0xbdd547b2
    ensures SmallSigma0(0x24641522) == 0x458cc397 && SmallSigma1(0x84badedd) == 0x34945c7d
    ensures SmallSigma0(0x9f47bf94) == 0xd5335f5c && SmallSigma1(0xc21462bc) == 0xbd397c50
  {
  }

  lemma Words48(block: bytes)
    requires |block| == 64 && Padded(block)
    ensures W(block, 48) == 0xfb3e89cb && W(block, 49) == 0xcc7617db && W(block, 50) == 0xb9e66c34 && W(block, 51) == 0xa9993667
    ensures W(block, 52) == 0x84badedd && W(block, 53) == 0xc21462bc && W(block, 54) == 0x1487472c && W(block, 55) == 0xb20f7a99
  {
    hide W, Padded, SmallSigma0, SmallSigma1;
    Words32(block);
    Words40(block);
    Schedule48();
    NextWord(block, 48, 0x7a290d5d, 0xf0a64f5a, 0x3b68ba73, 0x93f5997f);
    NextWord(block, 49, 0x065c43da, 0x3e246a79, 0xaff4ffc1, 0x3b68ba73);
    NextWord(block, 50, 0xfb3e89cb, 0x27333ba3, 0xf10a5c62, 0xaff4ffc1);
    NextWord(block, 51, 0xcc7617db, 0x0c4763f2, 0x0a8b3996, 0xf10a5c62);
    NextWord(block, 52, 0xb9e66c34, 0x840abf27, 0x72af830a, 0x0a8b3996);
    NextWord(block, 53, 0xa9993667, 0x7a290d5d, 0x9409e33e, 0x72af830a);
    NextWord(block, 54, 0x84badedd, 0x065c43da, 0x24641522, 0x9409e33e);
    NextWord(block, 55, 0xc21462bc, 0xfb3e89cb, 0x9f47bf94, 0x24641522);
  }

  lemma Schedule56()
    ensures SmallSigma0(0xf0a64f5a) == 0x3823395c && SmallSigma1(0x1487472c) == 0x4b76a902
    ensures SmallSigma0(0x3e246a79) == 0xef268a12 && SmallSigma1(0xb20f7a99) == 0x52336c98
    ensures SmallSigma0(0x27333ba3) == 0x8c40c8cf && SmallSigma1(0xef57b9cd) == 0x2be49faf
    ensures SmallSigma0(0x0c4763f2) == 0x3d6ce1a8 && SmallSigma1(0xebe6b238) == 0x8f619123
    ensures SmallSigma0(0x840abf27) == 0xf040a398 && SmallSigma1(0x9fe3095e) == 0xe5a364cf
    ensures SmallSigma0(0x7a290d5d) == 0xf6e62d3b && SmallSigma1(0x78bc8d4b) == 0xd712fc6a
    ensures SmallSigma0(0x065c43da) == 0xa431b16b && SmallSigma1(0xa43fcf15) == 0x1e41696b
    ensures SmallSigma0(0xfb3e89cb) == 0x2ae352e5 && SmallSigma1(0x668b2ff8) == 0xf21a9d5f
  {
  }

  lemma Words56(block: bytes)
    requires |block| == 64 && Padded(block)
    ensures W(block, 56) == 0xef57b9cd && W(block, 57) == 0xebe6b238 && W(block, 58) == 0x9fe3095e && W(block, 59) == 0x78bc8d4b
    ensures W(block, 60) == 0xa43fcf15 && W(block, 61) == 0x668b2ff8 && W(block, 62) == 0xeeaba2cc && W(block, 63) == 0x12b1edeb
  {
    hide W, Padded, SmallSigma0, SmallSigma1;
    Words40(block);
    Words48(block);
    Schedule56();
    NextWord(block, 56, 0x1487472c, 0xcc7617db, 0xf0a64f5a, 0x9f47bf94);
    NextWord(block, 57, 0xb20f7a99, 0xb9e66c34, 0x3e246a79, 0xf0a64f5a);
    NextWord(block, 58, 0xef57b9cd, 0xa9993667, 0x27333ba3, 0x3e246a79);
    NextWord(block, 59, 0xebe6b238, 0x84badedd, 0x0c4763f2, 0x27333ba3);
    NextWord(block, 60, 0x9fe3095e, 0xc21462bc, 0x840abf27, 0x0c4763f2);
    NextWord(block, 61, 0x78bc8d4b, 0x1487472c, 0x7a290d5d, 0x840abf27);
    NextWord(block, 62, 0xa43fcf15, 0xb20f7a99, 0x065c43da, 0x7a290d5d);
    NextWord(block, 63, 0x668b2ff8, 0xef57b9cd, 0xfb3e89cb, 0x065c43da);
  }

  // ---------------------------------------------------------------- the rounds

  ghost predicate StateAfter(block: bytes, n: nat, v: seq<word>)
    requires |block| == 64 && n <= 64
  {
    v == Rounds(InitialHash(), block, n)
  }

  /** The working variables after `n` rounds. */
  ghost predicate At(block: bytes, n: nat, a: word, b: word, c: word, d: word, e: word, f: word, g: word, h: word)
    requires |block| == 64 && n <= 64
  {
    exists v :: StateAfter(block, n, v) && v == [a, b, c, d, e, f, g, h]
  }

  lemma Step(block: bytes, n: nat, a: word, b: word, c: word, d: word, e: word, f: word, g: word, h: word)
    requires |block| == 64 && n < 64 && At(block, n, a, b, c, d, e, f, g, h)
    ensures var t1 := Add(Add(Add(Add(h, BigSigma1(e)), Ch(e, f, g)), K(n)), W(block, n));
            At(block, n + 1, Add(t1, Add(BigSigma0(a), Maj(a, b, c))), a, b, c, Add(d, t1), e, f, g)
  {
    hide BigSigma0, BigSigma1, Ch, Maj, W, K, Add, InitialHash;
    var v := Rounds(InitialHash(), block, n);
    assert StateAfter(block, n + 1, Round(v, K(n), W(block, n)));
  }

  lemma Constants0()
    ensures K(0) == 0x428a2f98 && K(1) == 0x71374491 && K(2) == 0xb5c0fbcf && K(3) == 0xe9b5dba5
    ensures K(4) == 0x3956c25b && K(5) == 0x59f111f1 && K(6) == 0x923f82a4 && K(7) == 0xab1c5ed5
  {
  }

  lemma Functions0()
    ensures BigSigma0(0x6a09e667) == 0xce20b47e && BigSigma1(0x510e527f) == 0x3587272b
    ensures Ch(0x510e527f, 0x9b05688c, 0x1f83d9ab) == 0x1f85c98c && Maj(0x6a09e667, 0xbb67ae85, 0x3c6ef372) == 0x3a6fe667
    ensures BigSigma0(0x5d6aebcd) == 0xa29f64d1 && BigSigma1(0xfa2a4622) == 0x5a94fd2d
    ensures Ch(0xfa2a4622, 0x510e527f, 0x9b05688c) == 0x510f6aae && Maj(0x5d6aebcd, 0x6a09e667, 0xbb67ae85) == 0x7b6beec5
    ensures BigSigma0(0x5a6ad9ad) == 0x3096d054 && BigSigma1(0x78ce7989) == 0x73f0e495
    ensures Ch(0x78ce7989, 0xfa2a4622, 0x510e527f) == 0x790a4276 && Maj(0x5a6ad9ad, 0x5d6aebcd, 0x6a09e667) == 0x5a6aebed
    ensures BigSigma0(0xc8c347a7) == 0xc21008d0 && BigSigma1(0xf92939eb) == 0x0607743c
    ensures Ch(0xf92939eb, 0x78ce7989, 0xfa2a4622) == 0x7a0a7f89 && Maj(0xc8c347a7, 0x5a6ad9ad, 0x5d6aebcd) == 0x586acbad
  {
  }

  lemma Rounds0(block: bytes)
    requires |block| == 64 && Padded(block)
    ensures At(block, 4, 0xd550f666, 0xc8c347a7, 0x5a6ad9ad, 0x5d6aebcd, 0x24e00850, 0xf92939eb, 0x78ce7989, 0xfa2a4622)
  {
    hide BigSigma0, BigSigma1, Ch, Maj, W, K, At, Padded;
    Start(block);
    Functions0();
    Constants0();
    Words0(block);
    Step(block, 0, 0x6a09e667, 0xbb67ae85, 0x3c6ef372, 0xa54ff53a, 0x510e527f, 0x9b05688c, 0x1f83d9ab, 0x5be0cd19);
    Step(block, 1, 0x5d6aebcd, 0x6a09e667, 0xbb67ae85, 0x3c6ef372, 0xfa2a4622, 0x510e527f, 0x9b05688c, 0x1f83d9ab);
    Step(block, 2, 0x5a6ad9ad, 0x5d6aebcd, 0x6a09e667, 0xbb67ae85, 0x78ce7989, 0xfa2a4622, 0x510e527f, 0x9b05688c);
    Step(block, 3, 0xc8c347a7, 0x5a6ad9ad, 0x5d6aebcd, 0x6a09e667, 0xf92939eb, 0x78ce7989, 0xfa2a4622, 0x510e527f);
  }

  lemma Functions4()
    ensures BigSigma0(0xd550f666) == 0x45bb0c4b && BigSigma1(0x24e00850) == 0x3a933432
    ensures Ch(0x24e00850, 0xf92939eb, 0x78ce7989) == 0x782e79c9 && Maj(0xd550f666, 0xc8c347a7, 0x5a6ad9ad) == 0xd842d7a7
    ensures BigSigma0(0x04409a6a) == 0x5029ac8f && BigSigma1(0x43ada245) == 0x8b77e19c
    ensures Ch(0x43ada245, 0x24e00850, 0xf92939eb) == 0xb8a019ea && Maj(0x04409a6a, 0xd550f666, 0xc8c347a7) == 0xc440d666
    ensures BigSigma0(0x2b4209f5) == 0x0d5e0cc0 && BigSigma1(0x714260ad) == 0x015b7776
    ensures Ch(0x714260ad, 0x43ada245, 0x24e00850) == 0x45a02855 && Maj(0x2b4209f5, 0x04409a6a, 0xd550f666) == 0x05409a66
    ensures BigSigma0(0xe5030380) == 0x2949eb6c && BigSigma1(0x9b27a401) == 0x158dfaa9
    ensures Ch(0x9b27a401, 0x714260ad, 0x43ada245) == 0x518a2245 && Maj(0xe5030380, 0x2b4209f5, 0x04409a6a) == 0x25420be0
  {
  }

  lemma Rounds4(block: bytes)
    requires |block| == 64 && Padded(block)
    ensures At(block, 8, 0x85a07b5f, 0xe5030380, 0x2b4209f5, 0x04409a6a, 0x0c657a79, 0x9b27a401, 0x714260ad, 0x43ada245)
  {
    hide BigSigma0, BigSigma1, Ch, Maj, W, K, At, Padded;
    Rounds0(block);
    Functions4();
    Constants0();
    Words0(block);
    Step(block, 4, 0xd550f666, 0xc8c347a7, 0x5a6ad9ad, 0x5d6aebcd, 0x24e00850, 0xf92939eb, 0x78ce7989, 0xfa2a4622);
    Step(block, 5, 0x04409a6a, 0xd550f666, 0xc8c347a7, 0x5a6ad9ad, 0x43ada245, 0x24e00850, 0xf92939eb, 0x78ce7989);
    Step(block, 6, 0x2b4209f5, 0x04409a6a, 0xd550f666, 0xc8c347a7, 0x714260ad, 0x43ada245, 0x24e00850, 0xf92939eb);
    Step(block, 7, 0xe5030380, 0x2b4209f5, 0x04409a6a, 0xd550f666, 0x9b27a401, 0x714260ad, 0x43ada245, 0x24e00850);
  }

  lemma Constants8()
    ensures K(8) == 0xd807aa98 && K(9) == 0x12835b01 && K(10) == 0x243185be && K(11) == 0x550c7dc3
    ensures K(12) == 0x72be5d74 && K(13) == 0x80deb1fe && K(14) == 0x9bdc06a7 && K(15) == 0xc19bf174
  {
  }

  lemma Functions8()
    ensures BigSigma0(0x85a07b5f) == 0xba794dc2 && BigSigma1(0x0c657a79) == 0x99ad25c0
    ensures Ch(0x0c657a79, 0x9b27a401, 0x714260ad) == 0x79272085 && Maj(0x85a07b5f, 0xe5030380, 0x2b4209f5) == 0xa5020bd5
    ensures BigSigma0(0x8e04ecb9) == 0x15ffad31 && BigSigma1(0x32ca2d8c) == 0xe45bb7ea
    ensures Ch(0x32ca2d8c, 0x0c657a79, 0x9b27a401) == 0x8965a809 && Maj(0x8e04ecb9, 0x85a07b5f, 0xe5030380) == 0x85006b99
    ensures BigSigma0(0x8c87346b) == 0x5cac0711 && BigSigma1(0x1cc92596) == 0x8e2276bc
    ensures Ch(0x1cc92596, 0x32ca2d8c, 0x0c657a79) == 0x10ec7fed && Maj(0x8c87346b, 0x8e04ecb9, 0x85a07b5f) == 0x8c847c7b
    ensures BigSigma0(0x4798a3f4) == 0x6ccbc526 && BigSigma1(0x436b23e8) == 0x699435ca
    ensures Ch(0x436b23e8, 0x1cc92596, 0x32ca2d8c) == 0x30c92d84 && Maj(0x4798a3f4, 0x8c87346b, 0x8e04ecb9) == 0x8e84a4f9
  {
  }

  lemma Rounds8(block: bytes)
    requires |block| == 64 && Padded(block)
    ensures At(block, 12, 0xf71fc5a9, 0x4798a3f4, 0x8c87346b, 0x8e04ecb9, 0x816fd6e9, 0x436b23e8, 0x1cc92596, 0x32ca2d8c)
  {
    hide BigSigma0, BigSigma1, Ch, Maj, W, K, At, Padded;
    Rounds4(block);
    Functions8();
    Constants8();
    Words0(block);
    Step(block, 8, 0x85a07b5f, 0xe5030380, 0x2b4209f5, 0x04409a6a, 0x0c657a79, 0x9b27a401, 0x714260ad, 0x43ada245);
    Step(block, 9, 0x8e04ecb9, 0x85a07b5f, 0xe5030380, 0x2b4209f5, 0x32ca2d8c, 0x0c657a79, 0x9b27a401, 0x714260ad);
    Step(block, 10, 0x8c87346b, 0x8e04ecb9, 0x85a07b5f, 0xe5030380, 0x1cc92596, 0x32ca2d8c, 0x0c657a79, 0x9b27a401);
    Step(block, 11, 0x4798a3f4, 0x8c87346b, 0x8e04ecb9, 0x85a07b5f, 0x436b23e8, 0x1cc92596, 0x32ca2d8c, 0x0c657a79);
  }

  lemma Functions12()
    ensures BigSigma0(0xf71fc5a9) == 0x2f9eee48 && BigSigma1(0x816fd6e9) == 0xccdee661
    ensures Ch(0x816fd6e9, 0x436b23e8, 0x1cc92596) == 0x1deb23fe && Maj(0xf71fc5a9, 0x4798a3f4, 0x8c87346b) == 0xc79fa5e9
    ensures BigSigma0(0x87912990) == 0x29c634f3 && BigSigma1(0x1e578218) == 0x08bb98f7
    ensures Ch(0x1e578218, 0x816fd6e9, 0x436b23e8) == 0x416fa3e8 && Maj(0x87912990, 0xf71fc5a9, 0x4798a3f4) == 0xc799a1b0
    ensures BigSigma0(0xd932eb16) == 0x25562836 && BigSigma1(0x745a48de) == 0x4f3b8d50
    ensures Ch(0x745a48de, 0x1e578218, 0x816fd6e9) == 0x95779639 && Maj(0xd932eb16, 0x87912990, 0xf71fc5a9) == 0xd713e990
    ensures BigSigma0(0xc0645fde) == 0xdf906fd4 && BigSigma1(0x0b92f20c) == 0xb8d63f93
    ensures Ch(0x0b92f20c, 0x745a48de, 0x1e578218) == 0x1457401c && Maj(0xc0645fde, 0xd932eb16, 0x87912990) == 0xc1306b96
  {
  }

  lemma Rounds12(block: bytes)
    requires |block| == 64 && Padded(block)
    ensures At(block, 16, 0xb0fa238e, 0xc0645fde, 0xd932eb16, 0x87912990, 0x07590dcd, 0x0b92f20c, 0x745a48de, 0x1e578218)
  {
    hide BigSigma0, BigSigma1, Ch, Maj, W, K, At, Padded;
    Rounds8(block);
    Functions12();
    Constants8();
    Words0(block);
    Step(block, 12, 0xf71fc5a9, 0x4798a3f4, 0x8c87346b, 0x8e04ecb9, 0x816fd6e9, 0x436b23e8, 0x1cc92596, 0x32ca2d8c);
    Step(block, 13, 0x87912990, 0xf71fc5a9, 0x4798a3f4, 0x8c87346b, 0x1e578218, 0x816fd6e9, 0x436b23e8, 0x1cc92596);
    Step(block, 14, 0xd932eb16, 0x87912990, 0xf71fc5a9, 0x4798a3f4, 0x745a48de, 0x1e578218, 0x816fd6e9, 0x436b23e8);
    Step(block, 15, 0xc0645fde, 0xd932eb16, 0x87912990, 0xf71fc5a9, 0x0b92f20c, 0x745a48de, 0x1e578218, 0x816fd6e9);
  }

  lemma Constants16()
    ensures K(16) == 0xe49b69c1 && K(17) == 0xefbe4786 && K(18) == 0x0fc19dc6 && K(19) == 0x240ca1cc
    ensures K(20) == 0x2de92c6f && K(21) == 0x4a7484aa && K(22) == 0x5cb0a9dc && K(23) == 0x76f988da
  {
  }

  lemma Functions16()
    ensures BigSigma0(0xb0fa238e) == 0x58c535f1 && BigSigma1(0x07590dcd) == 0x213b6995
    ensures Ch(0x07590dcd, 0x0b92f20c, 0x745a48de) == 0x7312401e && Maj(0xb0fa238e, 0xc0645fde, 0xd932eb16) == 0xd0726b9e
    ensures BigSigma0(0x21da9a9b) == 0x76c5c4f5 && BigSigma1(0x8034229c) == 0x3b81984e
    ensures Ch(0x8034229c, 0x07590dcd, 0x0b92f20c) == 0x0b92d08c && Maj(0x21da9a9b, 0xb0fa238e, 0xc0645fde) == 0xa0fa1b9e
    ensures BigSigma0(0xc2fbd9d1) == 0x5157a6a1 && BigSigma1(0x846ee454) == 0xeff31c0f
    ensures Ch(0x846ee454, 0x8034229c, 0x07590dcd) == 0x8335299d && Maj(0xc2fbd9d1, 0x21da9a9b, 0xb0fa238e) == 0xa0fa9b9b
    ensures BigSigma0(0xfe777bbf) == 0xff8cd2ad && BigSigma1(0xcc899961) == 0xefc707b0
    ensures Ch(0xcc899961, 0x846ee454, 0x8034229c) == 0x843ca2dc && Maj(0xfe777bbf, 0xc2fbd9d1, 0x21da9a9b) == 0xe2fbdb9b
  {
  }

  lemma Rounds16(block: bytes)
    requires |block| == 64 && Padded(block)
    ensures At(block, 20, 0xe1f20c33, 0xfe777bbf, 0xc2fbd9d1, 0x21da9a9b, 0xb0638179, 0xcc899961, 0x846ee454, 0x8034229c)
  {
    hide BigSigma0, BigSigma1, Ch, Maj, W, K, At, Padded;
    Rounds12(block);
    Functions16();
    Constants16();
    Words16(block);
    Step(block, 16, 0xb0fa238e, 0xc0645fde, 0xd932eb16, 0x87912990, 0x07590dcd, 0x0b92f20c, 0x745a48de, 0x1e578218);
    Step(block, 17, 0x21da9a9b, 0xb0fa238e, 0xc0645fde, 0xd932eb16, 0x8034229c, 0x07590dcd, 0x0b92f20c, 0x745a48de);
    Step(block, 18, 0xc2fbd9d1, 0x21da9a9b, 0xb0fa238e, 0xc0645fde, 0x846ee454, 0x8034229c, 0x07590dcd, 0x0b92f20c);
    Step(block, 19, 0xfe777bbf, 0xc2fbd9d1, 0x21da9a9b, 0xb0fa238e, 0xcc899961, 0x846ee454, 0x8034229c, 0x07590dcd);
  }

  lemma Functions20()
    ensures BigSigma0(0xe1f20c33) == 0x51d3431b && BigSigma1(0xb0638179) == 0xf8373ead
    ensures Ch(0xb0638179, 0xcc899961, 0x846ee454) == 0x840de565 && Maj(0xe1f20c33, 0xfe777bbf, 0xc2fbd9d1) == 0xe2f359b3
    ensures BigSigma0(0x9dc68b63) == 0xa640c29b && BigSigma1(0x8ada8930) == 0x897ea930
    ensures Ch(0x8ada8930, 0xb0638179, 0xcc899961) == 0xc4439171 && Maj(0x9dc68b63, 0xe1f20c33, 0xfe777bbf) == 0xfdf60b33
    ensures BigSigma0(0xc2606d6d) == 0x9a43bf51 && BigSigma1(0xe1257970) == 0x7f24093a
    ensures Ch(0xe1257970, 0x8ada8930, 0xb0638179) == 0x90428939 && Maj(0xc2606d6d, 0x9dc68b63, 0xe1f20c33) == 0xc1e20d63
    ensures BigSigma0(0xa7a3623f) == 0x759d1b0a && BigSigma1(0x49f5114a) == 0xfae64fc3
    ensures Ch(0x49f5114a, 0xe1257970, 0x8ada8930) == 0xc32f9970 && Maj(0xa7a3623f, 0xc2606d6d, 0x9dc68b63) == 0x87e26b6f
  {
  }

  lemma Rounds20(block: bytes)
    requires |block| == 64 && Padded(block)
    ensures At(block, 24, 0xc5d53d8d, 0xa7a3623f, 0xc2606d6d, 0x9dc68b63, 0xaa47c347, 0x49f5114a, 0xe1257970, 0x8ada8930)
  {
    hide BigSigma0, BigSigma1, Ch, Maj, W, K, At, Padded;
    Rounds16(block);
    Functions20();
    Constants16();
    Words16(block);
    Step(block, 20, 0xe1f20c33, 0xfe777bbf, 0xc2fbd9d1, 0x21da9a9b, 0xb0638179, 0xcc899961, 0x846ee454, 0x8034229c);
    Step(block, 21, 0x9dc68b63, 0xe1f20c33, 0xfe777bbf, 0xc2fbd9d1, 0x8ada8930, 0xb0638179, 0xcc899961, 0x846ee454);
    Step(block, 22, 0xc2606d6d, 0x9dc68b63, 0xe1f20c33, 0xfe777bbf, 0xe1257970, 0x8ada8930, 0xb0638179, 0xcc899961);
    Step(block, 23, 0xa7a3623f, 0xc2606d6d, 0x9dc68b63, 0xe1f20c33, 0x49f5114a, 0xe1257970, 0x8ada8930, 0xb0638179);
  }

  lemma Constants24()
    ensures K(24) == 0x983e5152 && K(25) == 0xa831c66d && K(26) == 0xb00327c8 && K(27) == 0xbf597fc7
    ensures K(28) == 0xc6e00bf3 && K(29) == 0xd5a79147 && K(30) == 0x06ca6351 && K(31) == 0x14292967
  {
  }

  lemma Functions24()
    ensures BigSigma0(0xc5d53d8d) == 0xc9ed56dd && BigSigma1(0xaa47c347) == 0x55bdf420
    ensures Ch(0xaa47c347, 0x49f5114a, 0xe1257970) == 0x49653972 && Maj(0xc5d53d8d, 0xa7a3623f, 0xc2606d6d) == 0xc7e16d2d
    ensures BigSigma0(0x1c2c2838) == 0xf66b0b1f && BigSigma1(0x2823ef91) == 0xa7724357
    ensures Ch(0x2823ef91, 0xaa47c347, 0x49f5114a) == 0x69d7d34b && Maj(0x1c2c2838, 0xc5d53d8d, 0xa7a3623f) == 0x85a5283d
    ensures BigSigma0(0xcde8037d) == 0xc89998a8 && BigSigma1(0x14383d8e) == 0x958ca0fb
    ensures Ch(0x14383d8e, 0x2823ef91, 0xaa47c347) == 0xaa67efc1 && Maj(0xcde8037d, 0x1c2c2838, 0xc5d53d8d) == 0xcdec293d
    ensures BigSigma0(0xb62ec4bc) == 0xb37cf281 && BigSigma1(0xc74c6516) == 0x5ff7537b
    ensures Ch(0xc74c6516, 0x14383d8e, 0x2823ef91) == 0x2c2baf87 && Maj(0xb62ec4bc, 0xcde8037d, 0x1c2c2838) == 0x9c2c003c
  {
  }

  lemma Rounds24(block: bytes)
    requires |block| == 64 && Padded(block)
    ensures At(block, 28, 0x77d37528, 0xb62ec4bc, 0xcde8037d, 0x1c2c2838, 0xedffbff8, 0xc74c6516, 0x14383d8e, 0x2823ef91)
  {
    hide BigSigma0, BigSigma1, Ch, Maj, W, K, At, Padded;
    Rounds20(block);
    Functions24();
    Constants24();
    Words24(block);
    Step(block, 24, 0xc5d53d8d, 0xa7a3623f, 0xc2606d6d, 0x9dc68b63, 0xaa47c347, 0x49f5114a, 0xe1257970, 0x8ada8930);
    Step(block, 25, 0x1c2c2838, 0xc5d53d8d, 0xa7a3623f, 0xc2606d6d, 0x2823ef91, 0xaa47c347, 0x49f5114a, 0xe1257970);
    Step(block, 26, 0xcde8037d, 0x1c2c2838, 0xc5d53d8d, 0xa7a3623f, 0x14383d8e, 0x2823ef91, 0xaa47c347, 0x49f5114a);
    Step(block, 27, 0xb62ec4bc, 0xcde8037d, 0x1c2c2838, 0xc5d53d8d, 0xc74c6516, 0x14383d8e, 0x2823ef91, 0xaa47c347);
  }

  lemma Functions28()
    ensures BigSigma0(0x77d37528) == 0xf963c20e && BigSigma1(0xedffbff8) == 0xe375bd7e
    ensures Ch(0xedffbff8, 0xc74c6516, 0x14383d8e) == 0xd54c2516 && Maj(0x77d37528, 0xb62ec4bc, 0xcde8037d) == 0xf7ea453c
    ensures BigSigma0(0x363482c9) == 0x89cfb5ce && BigSigma1(0x6112a3b7) == 0x2239b36a
    ensures Ch(0x6112a3b7, 0xedffbff8, 0xc74c6516) == 0xe75ee7b0 && Maj(0x363482c9, 0x77d37528, 0xb62ec4bc) == 0x3636c4a8
    ensures BigSigma0(0xa0060b30) == 0x69a8407c && BigSigma1(0xade79437) == 0xab883974
    ensures Ch(0xade79437, 0x6112a3b7, 0xedffbff8) == 0x611aabff && Maj(0xa0060b30, 0x363482c9, 0x77d37528) == 0x36160328
    ensures BigSigma0(0xea992a22) == 0x8f1995eb && BigSigma1(0x0109ab3a) == 0x0b919a99
    ensures Ch(0x0109ab3a, 0xade79437, 0x6112a3b7) == 0x611380b7 && Maj(0xea992a22, 0xa0060b30, 0x363482c9) == 0xa2140a20
  {
  }

  lemma Rounds28(block: bytes)
    requires |block| == 64 && Padded(block)
    ensures At(block, 32, 0x73b33bf5, 0xea992a22, 0xa0060b30, 0x363482c9, 0xba591112, 0x0109ab3a, 0xade79437, 0x6112a3b7)
  {
    hide BigSigma0, BigSigma1, Ch, Maj, W, K, At, Padded;
    Rounds24(block);
    Functions28();
    Constants24();
    Words24(block);
    Step(block, 28, 0x77d37528, 0xb62ec4bc, 0xcde8037d, 0x1c2c2838, 0xedffbff8, 0xc74c6516, 0x14383d8e, 0x2823ef91);
    Step(block, 29, 0x363482c9, 0x77d37528, 0xb62ec4bc, 0xcde8037d, 0x6112a3b7, 0xedffbff8, 0xc74c6516, 0x14383d8e);
    Step(block, 30, 0xa0060b30, 0x363482c9, 0x77d37528, 0xb62ec4bc, 0xade79437, 0x6112a3b7, 0xedffbff8, 0xc74c6516);
    Step(block, 31, 0xea992a22, 0xa0060b30, 0x363482c9, 0x77d37528, 0x0109ab3a, 0xade79437, 0x6112a3b7, 0xedffbff8);
  }

  lemma Constants32()
    ensures K(32) == 0x27b70a85 && K(33) == 0x2e1b2138 && K(34) == 0x4d2c6dfc && K(35) == 0x53380d13
    ensures K(36) == 0x650a7354 && K(37) == 0x766a0abb && K(38) == 0x81c2c92e && K(39) == 0x92722c85
  {
  }

  lemma Functions32()
    ensures BigSigma0(0x73b33bf5) == 0x4fa886aa && BigSigma1(0xba591112) == 0x4436a63b
    ensures Ch(0xba591112, 0x0109ab3a, 0xade79437) == 0x05af8537 && Maj(0x73b33bf5, 0xea992a22, 0xa0060b30) == 0xe2932b30
    ensures BigSigma0(0x98e12507) == 0x4a90902b && BigSigma1(0x9cd9f5f6) == 0x085a07a7
    ensures Ch(0x9cd9f5f6, 0xba591112, 0x0109ab3a) == 0x99591b1a && Maj(0x98e12507, 0x73b33bf5, 0xea992a22) == 0xfab12b27
    ensures BigSigma0(0xfe604df5) == 0x91003786 && BigSigma1(0x59249dd3) == 0x65415f48
    ensures Ch(0x59249dd3, 0x9cd9f5f6, 0xba591112) == 0xba5995d2 && Maj(0xfe604df5, 0x98e12507, 0x73b33bf5) == 0xfae12df5
    ensures BigSigma0(0xa9a7738c) == 0x2bc2a37e && BigSigma1(0x085f3833) == 0xe5dc6e83
    ensures Ch(0x085f3833, 0x59249dd3, 0x9cd9f5f6) == 0x9c84ddd7 && Maj(0xa9a7738c, 0xfe604df5, 0x98e12507) == 0xb8e16585
  {
  }

  lemma Rounds32(block: bytes)
    requires |block| == 64 && Padded(block)
    ensures At(block, 36, 0x65a0cfe4, 0xa9a7738c, 0xfe604df5, 0x98e12507, 0xf4b002d6, 0x085f3833, 0x59249dd3, 0x9cd9f5f6)
  {
    hide BigSigma0, BigSigma1, Ch, Maj, W, K, At, Padded;
    Rounds28(block);
    Functions32();
    Constants32();
    Words32(block);
    Step(block, 32, 0x73b33bf5, 0xea992a22, 0xa0060b30, 0x363482c9, 0xba591112, 0x0109ab3a, 0xade79437, 0x6112a3b7);
    Step(block, 33, 0x98e12507, 0x73b33bf5, 0xea992a22, 0xa0060b30, 0x9cd9f5f6, 0xba591112, 0x0109ab3a, 0xade79437);
    Step(block, 34, 0xfe604df5, 0x98e12507, 0x73b33bf5, 0xea992a22, 0x59249dd3, 0x9cd9f5f6, 0xba591112, 0x0109ab3a);
    Step(block, 35, 0xa9a7738c, 0xfe604df5, 0x98e12507, 0x73b33bf5, 0x085f3833, 0x59249dd3, 0x9cd9f5f6, 0xba591112);
  }

  lemma Functions36()
    ensures BigSigma0(0x65a0cfe4) == 0xe5748f69 && BigSigma1(0xf4b002d6) == 0x590d3d71
    ensures Ch(0xf4b002d6, 0x085f3833, 0x59249dd3) == 0x09149d13 && Maj(0x65a0cfe4, 0xa9a7738c, 0xfe604df5) == 0xeda04fe4
    ensures BigSigma0(0x41a65cb1) == 0x2c915f18 && BigSigma1(0x0772a26b) == 0x582c115e
    ensures Ch(0x0772a26b, 0xf4b002d6, 0x085f3833) == 0x0c3d1a52 && Maj(0x41a65cb1, 0x65a0cfe4, 0xa9a7738c) == 0x61a65fa4
    ensures BigSigma0(0x34df1604) == 0xc14e73aa && BigSigma1(0xa507a53d) == 0xd2f220b2
    ensures Ch(0xa507a53d, 0x0772a26b, 0xf4b002d6) == 0x55b2a2eb && Maj(0x34df1604, 0x41a65cb1, 0x65a0cfe4) == 0x65a65ea4
    ensures BigSigma0(0x6dc57a8a) == 0x5ac8193e && BigSigma1(0xf0781bc8) == 0x66d20b14
    ensures Ch(0xf0781bc8, 0xa507a53d, 0x0772a26b) == 0xa702a12b && Maj(0x6dc57a8a, 0x34df1604, 0x41a65cb1) == 0x65c75e80
  {
  }

  lemma Rounds36(block: bytes)
    requires |block| == 64 && Padded(block)
    ensures At(block, 40, 0x79ea687a, 0x6dc57a8a, 0x34df1604, 0x41a65cb1, 0x1efbc0a0, 0xf0781bc8, 0xa507a53d, 0x0772a26b)
  {
    hide BigSigma0, BigSigma1, Ch, Maj, W, K, At, Padded;
    Rounds32(block);
    Functions36();
    Constants32();
    Words32(block);
    Step(block, 36, 0x65a0cfe4, 0xa9a7738c, 0xfe604df5, 0x98e12507, 0xf4b002d6, 0x085f3833, 0x59249dd3, 0x9cd9f5f6);
    Step(block, 37, 0x41a65cb1, 0x65a0cfe4, 0xa9a7738c, 0xfe604df5, 0x0772a26b, 0xf4b002d6, 0x085f3833, 0x59249dd3);
    Step(block, 38, 0x34df1604, 0x41a65cb1, 0x65a0cfe4, 0xa9a7738c, 0xa507a53d, 0x0772a26b, 0xf4b002d6, 0x085f3833);
    Step(block, 39, 0x6dc57a8a, 0x34df1604, 0x41a65cb1, 0x65a0cfe4, 0xf0781bc8, 0xa507a53d, 0x0772a26b, 0xf4b002d6);
  }

  lemma Constants40()
    ensures K(40) == 0xa2bfe8a1 && K(41) == 0xa81a664b && K(42) == 0xc24b8b70 && K(43) == 0xc76c51a3
    ensures K(44) == 0xd192e819 && K(45) == 0xd6990624 && K(46) == 0xf40e3585 && K(47) == 0x106aa070
  {
  }

  lemma Functions40()
    ensures BigSigma0(0x79ea687a) == 0x7408bcaa && BigSigma1(0x1efbc0a0) == 0xe9986075
    ensures Ch(0x1efbc0a0, 0xf0781bc8, 0xa507a53d) == 0xb17c259d && Maj(0x79ea687a, 0x6dc57a8a, 0x34df1604) == 0x7dcf7a0a
    ensures BigSigma0(0xd6670766) == 0x12b2e9b8 && BigSigma1(0x26352d63) == 0x3a6aa383
    ensures Ch(0x26352d63, 0x1efbc0a0, 0xf0781bc8) == 0xd67912a8 && Maj(0xd6670766, 0x79ea687a, 0x6dc57a8a) == 0x7de76a6a
    ensures BigSigma0(0xdf46652f) == 0xc73bdc05 && BigSigma1(0x838b2711) == 0x61add539
    ensures Ch(0x838b2711, 0x26352d63, 0x1efbc0a0) == 0x1e71e5a1 && Maj(0xdf46652f, 0xd6670766, 0x79ea687a) == 0xdf66656e
    ensures BigSigma0(0x17aa0dfe) == 0x422dc671 && BigSigma1(0xdecd4715) == 0xd363665b
    ensures Ch(0xdecd4715, 0x838b2711, 0x26352d63) == 0xa2b92f73 && Maj(0x17aa0dfe, 0xdf46652f, 0xd6670766) == 0xd766056e
  {
  }

  lemma Rounds40(block: bytes)
    requires |block| == 64 && Padded(block)
    ensures At(block, 44, 0x9d4baf93, 0x17aa0dfe, 0xdf46652f, 0xd6670766, 0xfda24c2e, 0xdecd4715, 0x838b2711, 0x26352d63)
  {
    hide BigSigma0, BigSigma1, Ch, Maj, W, K, At, Padded;
    Rounds36(block);
    Functions40();
    Constants40();
    Words40(block);
    Step(block, 40, 0x79ea687a, 0x6dc57a8a, 0x34df1604, 0x41a65cb1, 0x1efbc0a0, 0xf0781bc8, 0xa507a53d, 0x0772a26b);
    Step(block, 41, 0xd6670766, 0x79ea687a, 0x6dc57a8a, 0x34df1604, 0x26352d63, 0x1efbc0a0, 0xf0781bc8, 0xa507a53d);
    Step(block, 42, 0xdf46652f, 0xd6670766, 0x79ea687a, 0x6dc57a8a, 0x838b2711, 0x26352d63, 0x1efbc0a0, 0xf0781bc8);
    Step(block, 43, 0x17aa0dfe, 0xdf46652f, 0xd6670766, 0x79ea687a, 0xdecd4715, 0x838b2711, 0x26352d63, 0x1efbc0a0);
  }

  lemma Functions44()
    ensures BigSigma0(0x9d4baf93) == 0xb5704fcc && BigSigma1(0xfda24c2e) == 0xef0f2a07
    ensures Ch(0xfda24c2e, 0xdecd4715, 0x838b2711) == 0xde896715 && Maj(0x9d4baf93, 0x17aa0dfe, 0xdf46652f) == 0x9f4a2dbf
    ensures BigSigma0(0x26628815) == 0x8311c588 && BigSigma1(0xa80f11f0) == 0xfb3dc5f1
    ensures Ch(0xa80f11f0, 0xfda24c2e, 0xdecd4715) == 0xfec24625 && Maj(0x26628815, 0x9d4baf93, 0x17aa0dfe) == 0x176a8d97
    ensures BigSigma0(0x72ab4b91) == 0xad0f0274 && BigSigma1(0xb7755da1) == 0x8845eb06
    ensures Ch(0xb7755da1, 0xa80f11f0, 0xfda24c2e) == 0xe88711ae && Maj(0x72ab4b91, 0x26628815, 0x9d4baf93) == 0x366b8b91
    ensures BigSigma0(0xa14c14b0) == 0xbd84cdc9 && BigSigma1(0xd57b94a9) == 0x8fa515ca
    ensures Ch(0xd57b94a9, 0xb7755da1, 0xa80f11f0) == 0xbd7515f1 && Maj(0xa14c14b0, 0x72ab4b91, 0x26628815) == 0x226a0891
  {
  }

  lemma Rounds44(block: bytes)
    requires |block| == 64 && Padded(block)
    ensures At(block, 48, 0x4172328d, 0xa14c14b0, 0x72ab4b91, 0x26628815, 0xfecf0bc6, 0xd57b94a9, 0xb7755da1, 0xa80f11f0)
  {
    hide BigSigma0, BigSigma1, Ch, Maj, W, K, At, Padded;
    Rounds40(block);
    Functions44();
    Constants40();
    Words40(block);
    Step(block, 44, 0x9d4baf93, 0x17aa0dfe, 0xdf46652f, 0xd6670766, 0xfda24c2e, 0xdecd4715, 0x838b2711, 0x26352d63);
    Step(block, 45, 0x26628815, 0x9d4baf93, 0x17aa0dfe, 0xdf46652f, 0xa80f11f0, 0xfda24c2e, 0xdecd4715, 0x838b2711);
    Step(block, 46, 0x72ab4b91, 0x26628815, 0x9d4baf93, 0x17aa0dfe, 0xb7755da1, 0xa80f11f0, 0xfda24c2e, 0xdecd4715);
    Step(block, 47, 0xa14c14b0, 0x72ab4b91, 0x26628815, 0x9d4baf93, 0xd57b94a9, 0xb7755da1, 0xa80f11f0, 0xfda24c2e);
  }

  lemma Constants48()
    ensures K(48) == 0x19a4c116 && K(49) == 0x1e376c08 && K(50) == 0x2748774c && K(51) == 0x34b0bcb5
    ensures K(52) == 0x391c0cb3 && K(53) == 0x4ed8aa4a && K(54) == 0x5b9cca4f && K(55) == 0x682e6ff3
  {
  }

  lemma Functions48()
    ensures BigSigma0(0x4172328d) == 0x0cfcb237 && BigSigma1(0xfecf0bc6) == 0x04a106b1
    ensures Ch(0xfecf0bc6, 0xd57b94a9, 0xb7755da1) == 0xd57b54a1 && Maj(0x4172328d, 0xa14c14b0, 0x72ab4b91) == 0x616a1291
    ensures BigSigma0(0x05757ceb) == 0xf3f6d884 && BigSigma1(0xbd714038) == 0x5d427776
    ensures Ch(0xbd714038, 0xfecf0bc6, 0xd57b94a9) == 0xfc4b9481 && Maj(0x05757ceb, 0x4172328d, 0xa14c14b0) == 0x017434a9
    ensures BigSigma0(0xf11bfaa8) == 0x86ebd5b1 && BigSigma1(0x6e5c390c) == 0x3e283d54
    ensures Ch(0x6e5c390c, 0xbd714038, 0xfecf0bc6) == 0xbcd302ca && Maj(0xf11bfaa8, 0x05757ceb, 0x4172328d) == 0x41737aa9
    ensures BigSigma0(0x7a0508a1) == 0x0fa817e8 && BigSigma1(0x52f1ccf7) == 0x3b47e2a3
    ensures Ch(0x52f1ccf7, 0x6e5c390c, 0xbd714038) == 0xef50080c && Maj(0x7a0508a1, 0xf11bfaa8, 0x05757ceb) == 0x711578a9
  {
  }

  lemma Rounds48(block: bytes)
    requires |block| == 64 && Padded(block)
    ensures At(block, 52, 0x886e7a22, 0x7a0508a1, 0xf11bfaa8, 0x05757ceb, 0x49231c1e, 0x52f1ccf7, 0x6e5c390c, 0xbd714038)
  {
    hide BigSigma0, BigSigma1, Ch, Maj, W, K, At, Padded;
    Rounds44(block);
    Functions48();
    Constants48();
    Words48(block);
    Step(block, 48, 0x4172328d, 0xa14c14b0, 0x72ab4b91, 0x26628815, 0xfecf0bc6, 0xd57b94a9, 0xb7755da1, 0xa80f11f0);
    Step(block, 49, 0x05757ceb, 0x4172328d, 0xa14c14b0, 0x72ab4b91, 0xbd714038, 0xfecf0bc6, 0xd57b94a9, 0xb7755da1);
    Step(block, 50, 0xf11bfaa8, 0x05757ceb, 0x4172328d, 0xa14c14b0, 0x6e5c390c, 0xbd714038, 0xfecf0bc6, 0xd57b94a9);
    Step(block, 51, 0x7a0508a1, 0xf11bfaa8, 0x05757ceb, 0x4172328d, 0x52f1ccf7, 0x6e5c390c, 0xbd714038, 0xfecf0bc6);
  }

  lemma Functions52()
    ensures BigSigma0(0x886e7a22) == 0xcae757da && BigSigma1(0x49231c1e) == 0x6b63a737
    ensures Ch(0x49231c1e, 0x52f1ccf7, 0x6e5c390c) == 0x667d2d16 && Maj(0x886e7a22, 0x7a0508a1, 0xf11bfaa8) == 0xf80f7aa0
    ensures BigSigma0(0x101fd28f) == 0x2f35481d && BigSigma1(0x529e7d00) == 0xee7eaa12
    ensures Ch(0x529e7d00, 0x49231c1e, 0x52f1ccf7) == 0x40639cf7 && Maj(0x101fd28f, 0x886e7a22, 0x7a0508a1) == 0x180f5aa3
    ensures BigSigma0(0xf5702fdb) == 0x433ccfa2 && BigSigma1(0x9f4787c3) == 0x55cd1720
    ensures Ch(0x9f4787c3, 0x529e7d00, 0x49231c1e) == 0x52261d1c && Maj(0xf5702fdb, 0x101fd28f, 0x886e7a22) == 0x907e7a8b
    ensures BigSigma0(0x3ec45cdb) == 0x381b8def && BigSigma1(0xe50e1b4f) == 0xd1653e5c
    ensures Ch(0xe50e1b4f, 0x9f4787c3, 0x529e7d00) == 0x97966743 && Maj(0x3ec45cdb, 0xf5702fdb, 0x101fd28f) == 0x34545edb
  {
  }

  lemma Rounds52(block: bytes)
    requires |block| == 64 && Padded(block)
    ensures At(block, 56, 0x38cc9913, 0x3ec45cdb, 0xf5702fdb, 0x101fd28f, 0x54cb266b, 0xe50e1b4f, 0x9f4787c3, 0x529e7d00)
  {
    hide BigSigma0, BigSigma1, Ch, Maj, W, K, At, Padded;
    Rounds48(block);
    Functions52();
    Constants48();
    Words48(block);
    Step(block, 52, 0x886e7a22, 0x7a0508a1, 0xf11bfaa8, 0x05757ceb, 0x49231c1e, 0x52f1ccf7, 0x6e5c390c, 0xbd714038);
    Step(block, 53, 0x101fd28f, 0x886e7a22, 0x7a0508a1, 0xf11bfaa8, 0x529e7d00, 0x49231c1e, 0x52f1ccf7, 0x6e5c390c);
    Step(block, 54, 0xf5702fdb, 0x101fd28f, 0x886e7a22, 0x7a0508a1, 0x9f4787c3, 0x529e7d00, 0x49231c1e, 0x52f1ccf7);
    Step(block, 55, 0x3ec45cdb, 0xf5702fdb, 0x101fd28f, 0x886e7a22, 0xe50e1b4f, 0x9f4787c3, 0x529e7d00, 0x49231c1e);
  }

  lemma Constants56()
    ensures K(56) == 0x748f82ee && K(57) == 0x78a5636f && K(58) == 0x84c87814 && K(59) == 0x8cc70208
    ensures K(60) == 0x90befffa && K(61) == 0xa4506ceb && K(62) == 0xbef9a3f7 && K(63) == 0xc67178f2
  {
  }

  lemma Functions56()
    ensures BigSigma0(0x38cc9913) == 0x34ceacc3 && BigSigma1(0x54cb266b) == 0x05aa8057
    ensures Ch(0x54cb266b, 0xe50e1b4f, 0x9f4787c3) == 0xcf0e83cb && Maj(0x38cc9913, 0x3ec45cdb, 0xf5702fdb) == 0x3cc41ddb
    ensures BigSigma0(0xfcd1887b) == 0xfaca6b61 && BigSigma1(0x9b5e906c) == 0x10b627de
    ensures Ch(0x9b5e906c, 0x54cb266b, 0xe50e1b4f) == 0x744a0b6b && Maj(0xfcd1887b, 0x38cc9913, 0x3ec45cdb) == 0x3cc4985b
    ensures BigSigma0(0xc062d46f) == 0xd837090c && BigSigma1(0x7e44008e) == 0x0a369fbd
    ensures Ch(0x7e44008e, 0x9b5e906c, 0x54cb266b) == 0x1acf266d && Maj(0xc062d46f, 0xfcd1887b, 0x38cc9913) == 0xf8c0987b
    ensures BigSigma0(0xffb70472) == 0x406bf75a && BigSigma1(0x6d83bfc6) == 0x20a45dbe
    ensures Ch(0x6d83bfc6, 0x7e44008e, 0x9b5e906c) == 0xfe5c00ae && Maj(0xffb70472, 0xc062d46f, 0xfcd1887b) == 0xfcf3847b
  {
  }

  lemma Rounds56(block: bytes)
    requires |block| == 64 && Padded(block)
    ensures At(block, 60, 0xb6ae8fff, 0xffb70472, 0xc062d46f, 0xfcd1887b, 0xb21bad3d, 0x6d83bfc6, 0x7e44008e, 0x9b5e906c)
  {
    hide BigSigma0, BigSigma1, Ch, Maj, W, K, At, Padded;
    Rounds52(block);
    Functions56();
    Constants56();
    Words56(block);
    Step(block, 56, 0x38cc9913, 0x3ec45cdb, 0xf5702fdb, 0x101fd28f, 0x54cb266b, 0xe50e1b4f, 0x9f4787c3, 0x529e7d00);
    Step(block, 57, 0xfcd1887b, 0x38cc9913, 0x3ec45cdb, 0xf5702fdb, 0x9b5e906c, 0x54cb266b, 0xe50e1b4f, 0x9f4787c3);
    Step(block, 58, 0xc062d46f, 0xfcd1887b, 0x38cc9913, 0x3ec45cdb, 0x7e44008e, 0x9b5e906c, 0x54cb266b, 0xe50e1b4f);
    Step(block, 59, 0xffb70472, 0xc062d46f, 0xfcd1887b, 0x38cc9913, 0x6d83bfc6, 0x7e44008e, 0x9b5e906c, 0x54cb266b);
  }

  lemma Functions60()
    ensures BigSigma0(0xb6ae8fff) == 0x2869e851 && BigSigma1(0xb21bad3d) == 0x5ca8b318
    ensures Ch(0xb21bad3d, 0x6d83bfc6, 0x7e44008e) == 0x6c47ad86 && Maj(0xb6ae8fff, 0xffb70472, 0xc062d46f) == 0xf6a6847f
    ensures BigSigma0(0xb85e2ce9) == 0x71e9ef2a && BigSigma1(0x961f4894) == 0x4f6ef480
    ensures Ch(0x961f4894, 0xb21bad3d, 0x6d83bfc6) == 0xfb9bbf56 && Maj(0xb85e2ce9, 0xb6ae8fff, 0xffb70472) == 0xbebe0cfb
    ensures BigSigma0(0x04d24d6c) == 0x236105da && BigSigma1(0x948d25b6) == 0x2a127e78
    ensures Ch(0x948d25b6, 0x961f4894, 0xb21bad3d) == 0xb61f889d && Maj(0x04d24d6c, 0xb85e2ce9, 0xb6ae8fff) == 0xb4de0ded
    ensures BigSigma0(0xd39a2165) == 0x174d83c6 && BigSigma1(0xfb121210) == 0x88fa2277
    ensures Ch(0xfb121210, 0x948d25b6, 0x961f4894) == 0x940d4894 && Maj(0xd39a2165, 0x04d24d6c, 0xb85e2ce9) == 0x90da2d6d
  {
  }

  lemma Rounds60(block: bytes)
    requires |block| == 64 && Padded(block)
    ensures At(block, 64, 0x506e3058, 0xd39a2165, 0x04d24d6c, 0xb85e2ce9, 0x5ef50f24, 0xfb121210, 0x948d25b6, 0x961f4894)
  {
    hide BigSigma0, BigSigma1, Ch, Maj, W, K, At, Padded;
    Rounds56(block);
    Functions60();
    Constants56();
    Words56(block);
    Step(block, 60, 0xb6ae8fff, 0xffb70472, 0xc062d46f, 0xfcd1887b, 0xb21bad3d, 0x6d83bfc6, 0x7e44008e, 0x9b5e906c);
    Step(block, 61, 0xb85e2ce9, 0xb6ae8fff, 0xffb70472, 0xc062d46f, 0x961f4894, 0xb21bad3d, 0x6d83bfc6, 0x7e44008e);
    Step(block, 62, 0x04d24d6c, 0xb85e2ce9, 0xb6ae8fff, 0xffb70472, 0x948d25b6, 0x961f4894, 0xb21bad3d, 0x6d83bfc6);
    Step(block, 63, 0xd39a2165, 0x04d24d6c, 0xb85e2ce9, 0xb6ae8fff, 0xfb121210, 0x948d25b6, 0x961f4894, 0xb21bad3d);
  }

  lemma Start(block: bytes)
    requires |block| == 64
    ensures At(block, 0, 0x6a09e667, 0xbb67ae85, 0x3c6ef372, 0xa54ff53a, 0x510e527f, 0x9b05688c, 0x1f83d9ab, 0x5be0cd19)
  {
    assert StateAfter(block, 0, InitialHash());
  }

  // ---------------------------------------------------------------- the digest

  lemma Compressed(block: bytes)
    requires |block| == 64 && Padded(block)
    ensures Compress(InitialHash(), block) == [0xba7816bf, 0x8f01cfea, 0x414140de, 0x5dae2223, 0xb00361a3, 0x96177a9c, 0xb410ff61, 0xf20015ad]
  {
    hide Rounds, Padded;
    Rounds60(block);
  }

  lemma DigestWord(h: seq<word>, i: nat, w: word, b0: byte, b1: byte, b2: byte, b3: byte)
    requires |h| == 8 && i < 8 && h[i] == w == WordOf(b0, b1, b2, b3)
    ensures HashBytes(h)[4 * i..4 * i + 4] == [b0, b1, b2, b3]
  {
    WordBytes(b0, b1, b2, b3);
    assert forall j | 0 <= j < 4 :: HashBytes(h)[4 * i + j] == ByteOf(w, j);
  }

  lemma Quarters(b: bytes, i: nat)
    requires i + 16 <= |b|
    ensures b[i..i + 16] == b[i..i + 4] + b[i + 4..i + 8] + b[i + 8..i + 12] + b[i + 12..i + 16]
  {
  }

  lemma DigestHalf0()
    ensures HashBytes([0xba7816bf, 0x8f01cfea, 0x414140de, 0x5dae2223, 0xb00361a3, 0x96177a9c, 0xb410ff61, 0xf20015ad])[0..16]
         == [0xba, 0x78, 0x16, 0xbf, 0x8f, 0x01, 0xcf, 0xea, 0x41, 0x41, 0x40, 0xde, 0x5d, 0xae, 0x22, 0x23]
  {
    hide HashBytes;
    var h := [0xba7816bf, 0x8f01cfea, 0x414140de, 0x5dae2223, 0xb00361a3, 0x96177a9c, 0xb410ff61, 0xf20015ad];
    DigestWord(h, 0, 0xba7816bf, 0xba, 0x78, 0x16, 0xbf);
    DigestWord(h, 1, 0x8f01cfea, 0x8f, 0x01, 0xcf, 0xea);
    DigestWord(h, 2, 0x414140de, 0x41, 0x41, 0x40, 0xde);
    DigestWord(h, 3, 0x5dae2223, 0x5d, 0xae, 0x22, 0x23);
    Quarters(HashBytes(h), 0);
  }

  lemma DigestHalf1()
    ensures HashBytes([0xba7816bf, 0x8f01cfea, 0x414140de, 0x5dae2223, 0xb00361a3, 0x96177a9c, 0xb410ff61, 0xf20015ad])[16..32]
         == [0xb0, 0x03, 0x61, 0xa3, 0x96, 0x17, 0x7a, 0x9c, 0xb4, 0x10, 0xff, 0x61, 0xf2, 0x00, 0x15, 0xad]
  {
    hide HashBytes;
    var h := [0xba7816bf, 0x8f01cfea, 0x414140de, 0x5dae2223, 0xb00361a3, 0x96177a9c, 0xb410ff61, 0xf20015ad];
    DigestWord(h, 4, 0xb00361a3, 0xb0, 0x03, 0x61, 0xa3);
    DigestWord(h, 5, 0x96177a9c, 0x96, 0x17, 0x7a, 0x9c);
    DigestWord(h, 6, 0xb410ff61, 0xb4, 0x10, 0xff, 0x61);
    DigestWord(h, 7, 0xf20015ad, 0xf2, 0x00, 0x15, 0xad);
    Quarters(HashBytes(h), 16);
  }

  lemma DigestBytes()
    ensures HashBytes([0xba7816bf, 0x8f01cfea, 0x414140de, 0x5dae2223, 0xb00361a3, 0x96177a9c, 0xb410ff61, 0xf20015ad])
         == [0xba, 0x78, 0x16, 0xbf, 0x8f, 0x01, 0xcf, 0xea, 0x41, 0x41, 0x40, 0xde, 0x5d, 0xae, 0x22, 0x23,
             0xb0, 0x03, 0x61, 0xa3, 0x96, 0x17, 0x7a, 0x9c, 0xb4, 0x10, 0xff, 0x61, 0xf2, 0x00, 0x15, 0xad]
  {
    hide HashBytes;
    DigestHalf0();
    DigestHalf1();
    var b := HashBytes([0xba7816bf, 0x8f01cfea, 0x414140de, 0x5dae2223, 0xb00361a3, 0x96177a9c, 0xb410ff61, 0xf20015ad]);
    assert b == b[0..16] + b[16..32];
  }

  /** The digest of "abc" is the one that the standard's example gives. */
  lemma DigestOfAbc()
    ensures Sha256([0x61, 0x62, 0x63])
         == [0xba, 0x78, 0x16, 0xbf, 0x8f, 0x01, 0xcf, 0xea, 0x41, 0x41, 0x40, 0xde, 0x5d, 0xae, 0x22, 0x23,
             0xb0, 0x03, 0x61, 0xa3, 0x96, 0x17, 0x7a, 0x9c, 0xb4, 0x10, 0xff, 0x61, 0xf2, 0x00, 0x15, 0xad]
  {
    hide Compress, HashBytes, Padding, InitialHash, Padded;
    PaddedIs();
    var padded := [0x61, 0x62, 0x63] + Padding(3);
    assert padded[64 * 0..64 * 1] == padded;
    assert HashBlocks(padded, 1) == Compress(HashBlocks(padded, 0), padded[64 * 0..64 * 1]);
    assert HashBlocks(padded, 0) == InitialHash();
    Compressed(padded);
    DigestBytes();
  }
}
