/** base64_encode and base64_decode, with both alphabets. */
module Base64Model {
  import opened Bytes
  import opened Wrappers

  // ---------------------------------------------------------------- sections 4 and 5 of RFC 4648

  function Alphabet(url: bool): (s: string)
    ensures |s| == 64
  {
    Capitals() + Smalls() + Numerals() + (if url then "-_" else "+/")
  }

  function Capitals(): (s: string)
    ensures |s| == 26
  {
    "ABCDEFGHIJKLMNOPQRSTUVWXYZ"
  }

  function Smalls(): (s: string)
    ensures |s| == 26
  {
    "abcdefghijklmnopqrstuvwxyz"
  }

  function Numerals(): (s: string)
    ensures |s| == 10
  {
    "0123456789"
  }

  /** What the alphabet says of a digit and of a character, by ranges. */
  function CharOf(d: nat, url: bool): (c: char)
    requires d < 64
  {
    if d < 26 then ('A' as int + d) as char
    else if d < 52 then ('a' as int + d - 26) as char
    else if d < 62 then ('0' as int + d - 52) as char
    else if d == 62 then (if url then '-' else '+')
    else (if url then '_' else '/')
  }

  /** pos_of_char: the table of positions. */
  function PosOfChar(c: char, url: bool): (r: Option<nat>)
    ensures r.Some? ==> r.value < 64
  {
    if 'A' <= c <= 'Z' then Some(c as int - 'A' as int)
    else if 'a' <= c <= 'z' then Some(c as int - 'a' as int + 26)
    else if '0' <= c <= '9' then Some(c as int - '0' as int + 52)
    else if c == (if url then '-' else '+') then Some(62)
    else if c == (if url then '_' else '/') then Some(63)
    else None
  }

  lemma AlphabetIs(d: nat, url: bool)
    requires d < 64
    ensures Alphabet(url)[d] == CharOf(d, url)
  {
    hide Capitals, Smalls, Numerals;
    if d < 26 {
      CapitalIs(d);
    } else if d < 52 {
      SmallIs(d - 26);
    } else if d < 62 {
      NumeralIs(d - 52);
    }
  }

  lemma CapitalIs(d: nat)
    requires d < 26
    ensures Capitals()[d] as int == 'A' as int + d
  {
  }

  lemma SmallIs(d: nat)
    requires d < 26
    ensures Smalls()[d] as int == 'a' as int + d
  {
  }

  lemma NumeralIs(d: nat)
    requires d < 10
    ensures Numerals()[d] as int == '0' as int + d
  {
  }

  lemma PosOfCharOf(d: nat, url: bool)
    requires d < 64
    ensures PosOfChar(CharOf(d, url), url) == Some(d)
    ensures CharOf(d, url) != '=' && CharOf(d, url) != '.' && CharOf(d, url) != '\n'
  {
  }

  function Number(b0: int, b1: int, b2: int): (n: int) {
    b0 * 0x1_0000 + b1 * 0x100 + b2
  }

  lemma CharOfPos(c: char, url: bool)
    requires PosOfChar(c, url).Some?
    ensures CharOf(PosOfChar(c, url).value, url) == c
  {
  }

  /** Three bytes as a number of 24 bits, with zeros for bytes that are missing. */
  ghost function Bits(g: bytes): (n: nat)
    requires 1 <= |g| <= 3
  {
    Number(g[0], if |g| > 1 then g[1] else 0, if |g| > 2 then g[2] else 0)
  }

  /** A group of bytes as four characters; those that hold no bits of it are pads or, in the url alphabet, left out. */
  ghost function EncodeGroup(g: bytes, url: bool): (s: string)
    requires 1 <= |g| <= 3
  {
    var n := Bits(g);
    [CharOf(n / 0x4_0000 % 64, url), CharOf(n / 0x1000 % 64, url)]
    + (if |g| > 1 then [CharOf(n / 0x40 % 64, url)] else if url then "" else "=")
    + (if |g| > 2 then [CharOf(n % 64, url)] else if url then "" else "=")
  }

  ghost function Encode(bs: bytes, url: bool): (s: string) {
    if |bs| == 0 then ""
    else if |bs| <= 3 then EncodeGroup(bs, url)
    else EncodeGroup(bs[..3], url) + Encode(bs[3..], url)
  }

  // ---------------------------------------------------------------- decoding, chunk by chunk

  predicate Stops(s: string, i: nat) {
    i >= |s| || s[i] == '=' || s[i] == '.'
  }

  /** The bytes of a chunk of up to four characters. */
  function DecodeChunk(s: string, url: bool): (r: Option<bytes>) {
    if |s| < 2 || PosOfChar(s[0], url).None? || PosOfChar(s[1], url).None? then None
    else
      var p0, p1 := PosOfChar(s[0], url).value, PosOfChar(s[1], url).value;
      var b0 := p0 * 4 + p1 / 16;
      if Stops(s, 2) then Some([b0])
      else if PosOfChar(s[2], url).None? then None
      else
        var p2 := PosOfChar(s[2], url).value;
        var b1 := p1 % 16 * 16 + p2 / 4;
        if Stops(s, 3) then Some([b0, b1])
        else if PosOfChar(s[3], url).None? then None
        else Some([b0, b1, p2 % 4 * 64 + PosOfChar(s[3], url).value])
  }

  ghost function Decode(s: string, url: bool): (r: Option<bytes>) {
    if s == "" then Some([])
    else
      var first := DecodeChunk(if |s| <= 4 then s else s[..4], url);
      var rest := if |s| <= 4 then Some([]) else Decode(s[4..], url);
      if first.None? then None else Prepend(first.value, rest)
  }

  ghost function Prepend(front: bytes, rest: Option<bytes>): (r: Option<bytes>) {
    if rest.None? then None else Some(front + rest.value)
  }

  // ---------------------------------------------------------------- the round trip

  lemma DecodeOne(s: string, url: bool, p0: nat, p1: nat)
    requires |s| >= 2 && PosOfChar(s[0], url) == Some(p0) && PosOfChar(s[1], url) == Some(p1) && Stops(s, 2)
    ensures DecodeChunk(s, url) == Some([p0 * 4 + p1 / 16])
  {
  }

  lemma DecodeTwo(s: string, url: bool, p0: nat, p1: nat, p2: nat)
    requires |s| >= 3 && PosOfChar(s[0], url) == Some(p0) && PosOfChar(s[1], url) == Some(p1) && PosOfChar(s[2], url) == Some(p2)
    requires !Stops(s, 2) && Stops(s, 3)
    ensures DecodeChunk(s, url) == Some([p0 * 4 + p1 / 16, p1 % 16 * 16 + p2 / 4])
  {
  }

  lemma DecodeThree(s: string, url: bool, p0: nat, p1: nat, p2: nat, p3: nat)
    requires |s| >= 4 && PosOfChar(s[0], url) == Some(p0) && PosOfChar(s[1], url) == Some(p1)
    requires PosOfChar(s[2], url) == Some(p2) && PosOfChar(s[3], url) == Some(p3) && !Stops(s, 2) && !Stops(s, 3)
    ensures DecodeChunk(s, url) == Some([p0 * 4 + p1 / 16, p1 % 16 * 16 + p2 / 4, p2 % 4 * 64 + p3])
  {
  }

  /** The characters of a group are those of its four digits. */
  lemma GroupChars(g: bytes, url: bool, d0: nat, d1: nat, d2: nat, d3: nat)
    requires 1 <= |g| <= 3
    requires var n := Bits(g); d0 == n / 0x4_0000 % 64 && d1 == n / 0x1000 % 64 && d2 == n / 0x40 % 64 && d3 == n % 64
    ensures var s := EncodeGroup(g, url);
            && 2 <= |s| <= 4 && (|g| == 3 || !url ==> |s| == 4)
            && PosOfChar(s[0], url) == Some(d0) && PosOfChar(s[1], url) == Some(d1)
            && (if |g| > 1 then |s| >= 3 && PosOfChar(s[2], url) == Some(d2) && !Stops(s, 2) else Stops(s, 2))
            && (if |g| > 2 then |s| >= 4 && PosOfChar(s[3], url) == Some(d3) && !Stops(s, 3) else Stops(s, 3))
  {
    hide CharOf, PosOfChar, Bits;
    PosOfCharOf(d0, url);
    PosOfCharOf(d1, url);
    PosOfCharOf(d2, url);
    PosOfCharOf(d3, url);
  }

  lemma GroupRoundTrip(g: bytes, url: bool)
    requires 1 <= |g| <= 3
    ensures DecodeChunk(EncodeGroup(g, url), url) == Some(g)
    ensures |g| == 3 || !url ==> |EncodeGroup(g, url)| == 4
    ensures 2 <= |EncodeGroup(g, url)| <= 4
  {
    hide CharOf, PosOfChar, Bits, DecodeChunk, EncodeGroup, Stops;
    var b1, b2 := if |g| > 1 then g[1] else 0, if |g| > 2 then g[2] else 0;
    var d0, d1, d2, d3 := g[0] / 4, g[0] % 4 * 16 + b1 / 16, b1 % 16 * 4 + b2 / 64, b2 % 64;
    Sextets(g);
    GroupChars(g, url, d0, d1, d2, d3);
    Back(g[0], b1, b2);
    var s := EncodeGroup(g, url);
    if |g| == 1 {
      DecodeOne(s, url, d0, d1);
      assert g == [g[0]];
    } else if |g| == 2 {
      DecodeTwo(s, url, d0, d1, d2);
      assert g == [g[0], g[1]];
    } else {
      DecodeThree(s, url, d0, d1, d2, d3);
      assert g == [g[0], g[1], g[2]];
    }
  }

  /** The bytes that decoding puts together. */
  lemma Back(b0: int, b1: int, b2: int)
    requires 0 <= b0 < 256 && 0 <= b1 < 256 && 0 <= b2 < 256
    ensures b0 / 4 * 4 + (b0 % 4 * 16 + b1 / 16) / 16 == b0
    ensures (b0 % 4 * 16 + b1 / 16) % 16 * 16 + (b1 % 16 * 4 + b2 / 64) / 4 == b1
    ensures (b1 % 16 * 4 + b2 / 64) % 4 * 64 + b2 % 64 == b2
    ensures b0 % 4 * 16 / 16 == b0 % 4 && b1 % 16 * 4 / 4 == b1 % 16
  {
  }

  /** The four digits of a group are those that the code takes from the bytes. */
  lemma Sextets(g: bytes)
    requires 1 <= |g| <= 3
    ensures var n := Bits(g); var b1, b2 := if |g| > 1 then g[1] else 0, if |g| > 2 then g[2] else 0;
            && n / 0x4_0000 % 64 == g[0] / 4
            && n / 0x1000 % 64 == g[0] % 4 * 16 + b1 / 16
            && n / 0x40 % 64 == b1 % 16 * 4 + b2 / 64
            && n % 64 == b2 % 64
  {
    SextetsOf(g[0], if |g| > 1 then g[1] else 0, if |g| > 2 then g[2] else 0);
  }

  lemma SextetsOf(b0: int, b1: int, b2: int)
    requires 0 <= b0 < 256 && 0 <= b1 < 256 && 0 <= b2 < 256
    ensures var n := Number(b0, b1, b2);
            && n / 0x4_0000 % 64 == b0 / 4
            && n / 0x1000 % 64 == b0 % 4 * 16 + b1 / 16
            && n / 0x40 % 64 == b1 % 16 * 4 + b2 / 64
            && n % 64 == b2 % 64
  {
    FourDigits(b0 / 4, b0 % 4 * 16 + b1 / 16, b1 % 16 * 4 + b2 / 64, b2 % 64, Number(b0, b1, b2));
  }

  lemma FourDigits(x3: int, x2: int, x1: int, x0: int, n: int)
    requires 0 <= x3 < 64 && 0 <= x2 < 64 && 0 <= x1 < 64 && 0 <= x0 < 64
    requires n == x3 * 0x4_0000 + x2 * 0x1000 + x1 * 0x40 + x0
    ensures n / 0x4_0000 % 64 == x3 && n / 0x1000 % 64 == x2 && n / 0x40 % 64 == x1 && n % 64 == x0
  {
    var m1 := x3 * 0x1000 + x2 * 0x40 + x1;
    var m2 := x3 * 0x40 + x2;
    assert n / 0x40 == m1 && n / 0x1000 == m2 && n / 0x4_0000 == x3;
  }

  /** Decoding an encoding returns the bytes, in both alphabets. */
  lemma {:induction false} RoundTrip(bs: bytes, url: bool)
    ensures Decode(Encode(bs, url), url) == Some(bs)
    decreases |bs|
  {
    if |bs| > 0 {
      var g := if |bs| <= 3 then bs else bs[..3];
      GroupRoundTrip(g, url);
      if |bs| > 3 {
        RoundTrip(bs[3..], url);
        var s, t := EncodeGroup(g, url), Encode(bs[3..], url);
        NotEmpty(bs[3..], url);
        assert (s + t)[..4] == s && (s + t)[4..] == t;
        assert bs == g + bs[3..];
      } else {
        assert g + [] == bs;
      }
    }
  }

  lemma NotEmpty(bs: bytes, url: bool)
    requires |bs| > 0
    ensures Encode(bs, url) != ""
  {
    GroupRoundTrip(if |bs| <= 3 then bs else bs[..3], url);
  }

  lemma ThreeMore(n: nat)
    ensures (n + 3 + 2) / 3 * 4 == (n + 2) / 3 * 4 + 4
  {
  }

  /** A padded encoding has four characters for every three bytes begun. */
  lemma {:induction false} EncodedLength(bs: bytes)
    ensures |Encode(bs, false)| == (|bs| + 2) / 3 * 4
    decreases |bs|
  {
    if |bs| > 0 {
      GroupRoundTrip(if |bs| <= 3 then bs else bs[..3], false);
      if |bs| > 3 {
        EncodedLength(bs[3..]);
        ThreeMore(|bs| - 3);
      }
    }
  }

  // ---------------------------------------------------------------- the form of an encoding

  /** The characters of the two alphabets that differ. */
  lemma LastCharacters()
    ensures Alphabet(false)[62] == '+' && Alphabet(false)[63] == '/' && Alphabet(true)[62] == '-' && Alphabet(true)[63] == '_'
  {
    AlphabetIs(62, false);
    AlphabetIs(63, false);
    AlphabetIs(62, true);
    AlphabetIs(63, true);
  }

  lemma CharInAlphabet(d: nat, url: bool)
    requires d < 64
    ensures CharOf(d, url) in Alphabet(url)
  {
    hide Alphabet, CharOf;
    AlphabetIs(d, url);
  }

  /** The positions are those of the characters of the alphabet. */
  lemma HasPosition(c: char, url: bool)
    ensures PosOfChar(c, url).Some? <==> c in Alphabet(url)
  {
    hide Alphabet, CharOf, PosOfChar;
    if PosOfChar(c, url).Some? {
      CharOfPos(c, url);
      CharInAlphabet(PosOfChar(c, url).value, url);
    }
    if c in Alphabet(url) {
      var d :| 0 <= d < 64 && Alphabet(url)[d] == c;
      AlphabetIs(d, url);
      PosOfCharOf(d, url);
    }
  }

  function Repeat(c: char, n: nat): (s: string)
    ensures |s| == n
  {
    seq(n, _ => c)
  }

  ghost predicate InAlphabet(s: string, url: bool) {
    forall i | 0 <= i < |s| :: s[i] in Alphabet(url)
  }

  /** One character for six bits begun, and the pads that fill up the last group, of which the url alphabet has none. */
  ghost predicate HasForm(s: string, n: nat, url: bool) {
    var count := (8 * n + 5) / 6;
    count <= |s| && InAlphabet(s[..count], url) && s[count..] == Repeat('=', if url then 0 else (3 - n % 3) % 3)
  }

  lemma GroupForm(g: bytes, url: bool)
    requires 1 <= |g| <= 3
    ensures HasForm(EncodeGroup(g, url), |g|, url)
  {
    hide Alphabet, CharOf, Bits;
    var n := Bits(g);
    CharInAlphabet(n / 0x4_0000 % 64, url);
    CharInAlphabet(n / 0x1000 % 64, url);
    CharInAlphabet(n / 0x40 % 64, url);
    CharInAlphabet(n % 64, url);
  }

  /** An encoding is characters of the alphabet and then only pads, as many of each as the length asks for. */
  lemma {:induction false} EncodedForm(bs: bytes, url: bool)
    ensures HasForm(Encode(bs, url), |bs|, url)
    decreases |bs|
  {
    hide EncodeGroup, Alphabet;
    if 0 < |bs| <= 3 {
      GroupForm(bs, url);
    } else if |bs| > 3 {
      GroupForm(bs[..3], url);
      EncodedForm(bs[3..], url);
      FormJoined(EncodeGroup(bs[..3], url), Encode(bs[3..], url), |bs|, url);
    }
  }

  lemma FormJoined(s: string, t: string, n: nat, url: bool)
    requires n > 3 && HasForm(s, 3, url) && HasForm(t, n - 3, url)
    ensures HasForm(s + t, n, url)
  {
    hide Alphabet;
    var count := (8 * (n - 3) + 5) / 6;
    assert (8 * n + 5) / 6 == 4 + count;
    assert (3 - n % 3) % 3 == (3 - (n - 3) % 3) % 3;
    assert |s| == 4 && s[..4] == s;
    assert (s + t)[..4 + count] == s + t[..count] && (s + t)[4 + count..] == t[count..];
  }

  /** Test vectors of section 10 of RFC 4648, and bytes that need the last characters of the alphabets. */
  lemma Vectors()
    ensures Encode([0x66], false) == "Zg==" && Encode([0x66, 0x6f], false) == "Zm8="
    ensures Encode([0x66, 0x6f, 0x6f], false) == "Zm9v" && Encode([0x66, 0x6f, 0x6f, 0x62, 0x61, 0x72], false) == "Zm9vYmFy"
    ensures Encode([0], false) == "AA==" && Encode([0], true) == "AA"
    ensures Encode([0xfb, 0xf0], false) == "+/A=" && Encode([0xfb, 0xf0], true) == "-_A"
  {
    hide EncodeGroup;
    ThreeGroups();
    TwoGroups();
    ZeroGroup([0]);
    var foobar: bytes := [0x66, 0x6f, 0x6f, 0x62, 0x61, 0x72];
    assert foobar[..3] == [0x66, 0x6f, 0x6f] && foobar[3..] == [0x62, 0x61, 0x72];
    assert Encode([0x62, 0x61, 0x72], false) == "YmFy";
    assert "Zm9v" + "YmFy" == "Zm9vYmFy";
  }

  lemma ThreeGroups()
    ensures EncodeGroup([0x66, 0x6f, 0x6f], false) == "Zm9v" && EncodeGroup([0x62, 0x61, 0x72], false) == "YmFy"
  {
    assert Bits([0x66, 0x6f, 0x6f]) == 0x66_6f6f && Bits([0x62, 0x61, 0x72]) == 0x62_6172;
  }

  lemma ZeroGroup(g: bytes)
    requires |g| == 1 && g[0] == 0
    ensures EncodeGroup(g, false) == ['A', 'A'] + "=" + "=" && EncodeGroup(g, true) == ['A', 'A'] + "" + ""
  {
    hide CharOf, Bits;
    var n := Bits(g);
    NoBits(g);
    FirstCharacter(n / 0x4_0000 % 64);
    FirstCharacter(n / 0x1000 % 64);
  }

  lemma NoBits(g: bytes)
    requires |g| == 1 && g[0] == 0
    ensures Bits(g) == 0
  {
  }

  lemma FirstCharacter(d: nat)
    requires d == 0
    ensures CharOf(d, false) == 'A' && CharOf(d, true) == 'A'
  {
  }

  lemma TwoGroups()
    ensures EncodeGroup([0x66], false) == "Zg==" && EncodeGroup([0x66, 0x6f], false) == "Zm8="
    ensures EncodeGroup([0xfb, 0xf0], false) == "+/A=" && EncodeGroup([0xfb, 0xf0], true) == "-_A"
  {
    assert Bits([0x66]) == 0x66_0000 && Bits([0x66, 0x6f]) == 0x66_6f00 && Bits([0xfb, 0xf0]) == 0xfb_f000;
  }

  // ---------------------------------------------------------------- which strings are decoded

  function ChunkOf(s: string, j: nat): (c: string)
    requires 4 * j <= |s|
  {
    s[4 * j..if 4 * j + 4 <= |s| then 4 * j + 4 else |s|]
  }

  /** From two to four characters of the alphabet and then a pad or nothing. */
  ghost predicate GoodChunk(c: string, url: bool) {
    exists k :: 2 <= k <= |c| && InAlphabet(c[..k], url) && (k == |c| || c[k] == '=' || c[k] == '.')
  }

  lemma ChunkDecodes(c: string, url: bool)
    requires |c| <= 4
    ensures DecodeChunk(c, url).Some? <==> GoodChunk(c, url)
  {
    hide Alphabet, PosOfChar;
    forall i | 0 <= i < |c|
      ensures PosOfChar(c[i], url).Some? <==> c[i] in Alphabet(url)
      ensures c[i] in Alphabet(url) ==> c[i] != '=' && c[i] != '.'
    {
      HasPosition(c[i], url);
      NotPad(c[i], url);
    }
    if DecodeChunk(c, url).Some? {
      var k := if Stops(c, 2) then 2 else if Stops(c, 3) then 3 else 4;
      assert InAlphabet(c[..k], url);
    }
    if k :| 2 <= k <= |c| && InAlphabet(c[..k], url) && (k == |c| || c[k] == '=' || c[k] == '.') {
      assert forall i | 0 <= i < k :: c[i] == c[..k][i];
    }
  }

  lemma NotPad(c: char, url: bool)
    ensures PosOfChar(c, url).Some? ==> c != '=' && c != '.'
  {
  }

  /** A string is decoded exactly if each of its chunks of four characters, and what is left behind them, is good. */
  lemma {:induction false} DecodesExactly(s: string, url: bool)
    ensures Decode(s, url).Some? <==> forall j | 0 <= j && 4 * j < |s| :: GoodChunk(ChunkOf(s, j), url)
    decreases |s|
  {
    hide DecodeChunk, GoodChunk;
    if s != "" {
      var first := if |s| <= 4 then s else s[..4];
      ChunkDecodes(first, url);
      assert ChunkOf(s, 0) == first;
      if |s| > 4 {
        DecodesExactly(s[4..], url);
        forall j | 0 <= j && 4 * j < |s[4..]|
          ensures ChunkOf(s[4..], j) == ChunkOf(s, j + 1)
        {
        }
        forall j | 1 <= j && 4 * j < |s|
          ensures ChunkOf(s, j) == ChunkOf(s[4..], j - 1)
        {
        }
      }
    }
  }

  /** The bytes of a chunk are those of the number of its digits, as many as they fill. */
  lemma ChunkValue(c: string, url: bool, k: nat, d: seq<nat>)
    requires 2 <= k <= |c| <= 4 && (k == |c| || c[k] == '=' || c[k] == '.')
    requires |d| == 4 && (forall i | 0 <= i < 4 :: d[i] < 64) && (forall i | k <= i < 4 :: d[i] == 0)
    requires forall i | 0 <= i < k :: c[i] == Alphabet(url)[d[i]]
    ensures var n := d[0] * 0x4_0000 + d[1] * 0x1000 + d[2] * 0x40 + d[3];
            DecodeChunk(c, url) == Some([n / 0x1_0000, n / 0x100 % 0x100, n % 0x100][..k - 1])
  {
    hide Alphabet, PosOfChar, CharOf, DecodeChunk;
    forall i | 0 <= i < k
      ensures PosOfChar(c[i], url) == Some(d[i]) && c[i] != '=' && c[i] != '.'
    {
      AlphabetIs(d[i], url);
      PosOfCharOf(d[i], url);
    }
    BytesOfDigits(d[0], d[1], d[2], d[3]);
    if k == 2 {
      DecodeOne(c, url, d[0], d[1]);
    } else if k == 3 {
      DecodeTwo(c, url, d[0], d[1], d[2]);
    } else {
      DecodeThree(c, url, d[0], d[1], d[2], d[3]);
    }
    Firsts(d[0] * 4 + d[1] / 16, d[1] % 16 * 16 + d[2] / 4, d[2] % 4 * 64 + d[3]);
  }

  lemma Firsts(a: byte, b: byte, c: byte)
    ensures [a, b, c][..1] == [a] && [a, b, c][..2] == [a, b] && [a, b, c][..3] == [a, b, c]
  {
  }

  lemma BytesOfDigits(d0: nat, d1: nat, d2: nat, d3: nat)
    requires d0 < 64 && d1 < 64 && d2 < 64 && d3 < 64
    ensures var n := d0 * 0x4_0000 + d1 * 0x1000 + d2 * 0x40 + d3;
            n / 0x1_0000 == d0 * 4 + d1 / 16 && n / 0x100 % 0x100 == d1 % 16 * 16 + d2 / 4 && n % 0x100 == d2 % 4 * 64 + d3
  {
    var n := d0 * 0x4_0000 + d1 * 0x1000 + d2 * 0x40 + d3;
    var b0, b1, b2 := d0 * 4 + d1 / 16, d1 % 16 * 16 + d2 / 4, d2 % 4 * 64 + d3;
    assert n == b0 * 0x1_0000 + b1 * 0x100 + b2;
    assert n / 0x100 == b0 * 0x100 + b1;
  }

  // ---------------------------------------------------------------- the code

  /** The characters that one turn of base64_encode pushes for a group. */
  method EncodeTurn(b: bytes, pos: nat, url: bool) returns (s: string)
    requires pos < |b|
    ensures s == EncodeGroup(b[pos..if pos + 3 <= |b| then pos + 3 else |b|], url)
  {
    hide Alphabet, CharOf, Bits;
    var chars := Alphabet(url);
    ghost var g := b[pos..if pos + 3 <= |b| then pos + 3 else |b|];
    Sextets(g);
    ghost var n := Bits(g);
    AlphabetIs(n / 0x4_0000 % 64, url);
    AlphabetIs(n / 0x1000 % 64, url);
    AlphabetIs(n / 0x40 % 64, url);
    AlphabetIs(n % 64, url);
    s := [chars[b[pos] / 4]];
    if pos + 1 < |b| {
      s := s + [chars[b[pos] % 4 * 16 + b[pos + 1] / 16]];
      if pos + 2 < |b| {
        s := s + [chars[b[pos + 1] % 16 * 4 + b[pos + 2] / 64]];
        s := s + [chars[b[pos + 2] % 64]];
      } else {
        s := s + [chars[b[pos + 1] % 16 * 4]];
        if !url {
          s := s + "=";
        }
      }
    } else {
      s := s + [chars[b[pos] % 4 * 16]];
      if !url {
        s := s + "=";
        s := s + "=";
      }
    }
  }

  /** base64_encode. */
  method Base64Encode(b: bytes, url: bool) returns (ret: string)
    ensures ret == Encode(b, url)
  {
    hide EncodeGroup;
    ret := "";
    var pos := 0;
    assert b[0..] == b;
    while pos < |b|
      invariant 0 <= pos
      invariant Encode(b, url) == ret + Encode(if pos <= |b| then b[pos..] else [], url)
    {
      var s := EncodeTurn(b, pos, url);
      ghost var left := b[pos..];
      if pos + 3 < |b| {
        assert left[..3] == b[pos..pos + 3] && left[3..] == b[pos + 3..];
      } else {
        assert left == b[pos..|b|];
      }
      ret := ret + s;
      pos := pos + 3;
    }
  }

  /** base64_decode without line breaks; None is an aborted action. */
  method Base64Decode(s: string, url: bool) returns (ret: Option<bytes>)
    ensures ret == Decode(s, url)
  {
    hide DecodeChunk;
    var out: bytes := [];
    var pos := 0;
    assert s[0..] == s;
    PrependNothing(Decode(s, url));
    while pos < |s|
      invariant 0 <= pos
      invariant var rest := Decode(if pos <= |s| then s[pos..] else "", url);
                Decode(s, url) == Prepend(out, rest)
    {
      ghost var left := s[pos..];
      var chunk := s[pos..if pos + 4 <= |s| then pos + 4 else |s|];
      assert |left| > 4 ==> left[4..] == s[pos + 4..];
      assert chunk == if |left| <= 4 then left else left[..4];
      var d := DecodeChunk(chunk, url);
      if d.None? {
        return None;
      }
      PrependTwice(out, d.value, Decode(if |left| <= 4 then "" else left[4..], url));
      out := out + d.value;
      pos := pos + 4;
    }
    assert out + [] == out;
    ret := Some(out);
  }

  lemma PrependNothing(rest: Option<bytes>)
    ensures Prepend([], rest) == rest
  {
    if rest.Some? {
      assert [] + rest.value == rest.value;
    }
  }

  lemma PrependTwice(a: bytes, b: bytes, rest: Option<bytes>)
    ensures Prepend(a, Prepend(b, rest)) == Prepend(a + b, rest)
  {
    if rest.Some? {
      assert a + (b + rest.value) == (a + b) + rest.value;
    }
  }

  /** The characters that are left when line breaks are removed. */
  ghost function Unbroken(s: string): (r: string) {
    if s == "" then "" else (if s[0] == '\n' then "" else [s[0]]) + Unbroken(s[1..])
  }

  /** Character by character: a line feed is dropped and every other one kept. */
  lemma {:induction false} UnbrokenParts(a: string, b: string)
    ensures Unbroken(a + b) == Unbroken(a) + Unbroken(b)
  {
    if a == "" {
      assert a + b == b;
    } else {
      assert (a + b)[1..] == a[1..] + b;
      UnbrokenParts(a[1..], b);
    }
  }

  lemma UnbrokenCharacter(c: char)
    ensures Unbroken([c]) == if c as int == 10 then "" else [c]
  {
    assert [c][1..] == "";
  }

  /** base64_decode with line breaks. */
  method Base64DecodeLines(s: string, url: bool) returns (ret: Option<bytes>)
    ensures ret == Decode(Unbroken(s), url)
  {
    var copy, i := "", 0;
    assert s[0..] == s;
    while i < |s|
      invariant 0 <= i <= |s| && Unbroken(s) == copy + Unbroken(s[i..])
    {
      assert s[i..][1..] == s[i + 1..];
      if s[i] != '\n' {
        copy := copy + [s[i]];
      }
      i := i + 1;
    }
    assert copy + "" == copy;
    ret := Base64Decode(copy, url);
  }
}
