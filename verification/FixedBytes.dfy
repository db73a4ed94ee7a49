/** eosio::fixed_bytes: bytes packed into 128-bit words, the first byte at the top of the first word. */
module FixedBytesModel {
  import opened Bytes
  import opened Powers
  import opened Sequences

  const Uint128Limit: nat := 0x1_0000_0000_0000_0000_0000_0000_0000_0000

  /** Numbers of as many bytes are ordered as the bytes are. */
  lemma NumberOrder(a: bytes, b: bytes)
    requires |a| == |b| && Below(a, b)
    ensures Number(a) < Number(b)
  {
    hide Number, BigEndian, Below, LexLess, Pow256;
    NumberBytes(a);
    NumberBytes(b);
    BelowMeaning(a, b);
    if Number(b) < Number(a) {
      BigEndianOrder(|a|, Number(b), Number(a));
      BelowMeaning(b, a);
    }
  }

  lemma {:induction false} NumberShift(bs: bytes, n: nat)
    ensures Number(bs + Zeros(n)) == Number(bs) * Pow256(n)
  {
    if n == 0 {
      assert bs + Zeros(0) == bs;
    } else {
      assert (bs + Zeros(n))[..|bs| + n - 1] == bs + Zeros(n - 1);
      NumberShift(bs, n - 1);
      assert 256 * (Number(bs) * Pow256(n - 1)) == Number(bs) * (256 * Pow256(n - 1));
    }
  }

  lemma KnownPower()
    ensures Pow256(16) == Uint128Limit
  {
    assert Pow256(4) == 0x1_0000_0000;
    assert Pow256(8) == 0x1_0000_0000_0000_0000;
    assert Pow256(12) == 0x1_0000_0000_0000_0000_0000_0000;
  }

  // ---------------------------------------------------------------- packing

  /** num_words: with `r` bytes in the last word, or 16. */
  function NumWords(size: nat): (n: nat)
    ensures 16 * n >= size && (n == 0 || 16 * (n - 1) < size)
  {
    (size + 15) / 16
  }

  ghost function Padded(bs: bytes): (r: bytes)
    ensures |r| == 16 * NumWords(|bs|)
  {
    bs + Zeros(16 * NumWords(|bs|) - |bs|)
  }

  ghost function Chunk(bs: bytes, j: nat): (r: bytes)
    requires j < NumWords(|bs|)
    ensures |r| == 16
  {
    Padded(bs)[16 * j..16 * j + 16]
  }

  /** The words of some bytes. */
  ghost function Words(bs: bytes): (ws: seq<nat>)
    ensures |ws| == NumWords(|bs|)
  {
    seq(NumWords(|bs|), j requires 0 <= j < NumWords(|bs|) => Number(Chunk(bs, j)))
  }

  lemma WordsFit(bs: bytes, j: nat)
    requires j < NumWords(|bs|)
    ensures Words(bs)[j] < Uint128Limit && BigEndian(16, Words(bs)[j]) == Chunk(bs, j)
  {
    hide Number, BigEndian, Pow256, Chunk;
    KnownPower();
    NumberBytes(Chunk(bs, j));
  }

  /** A word is the number of its bytes, moved to the top of the word when the bytes end in it. */
  lemma WordOfBytes(bs: bytes, j: nat)
    requires j < NumWords(|bs|)
    ensures var k := if 16 * j + 16 <= |bs| then 16 else |bs| - 16 * j;
            0 < k <= 16 && 16 * j + k <= |bs| && Words(bs)[j] == Number(bs[16 * j..16 * j + k]) * Pow256(16 - k)
  {
    hide Number, Pow256, Zeros;
    var k := if 16 * j + 16 <= |bs| then 16 else |bs| - 16 * j;
    assert Chunk(bs, j) == bs[16 * j..16 * j + k] + Zeros(16 - k);
    NumberShift(bs[16 * j..16 * j + k], 16 - k);
  }

  /** A byte more in the current word. */
  lemma ByteMore(bs: bytes, b: byte)
    requires |bs| < 16
    ensures Number(bs + [b]) == Number(bs) * 256 + b < Uint128Limit
    ensures |bs| < 15 ==> (Number(bs) * 256 + b) * 256 < Uint128Limit
  {
    assert (bs + [b])[..|bs|] == bs;
    NumberBytes(bs + [b]);
    KnownPower();
    Fits(|bs| + 1);
  }

  lemma Fits(n: nat)
    requires n <= 16
    ensures Pow256(n) <= Uint128Limit && (n < 16 ==> Pow256(n) * 256 <= Uint128Limit)
  {
    KnownPower();
    Fewer(n, 16);
    if n < 16 {
      Fewer(n + 1, 16);
    }
  }

  lemma {:induction false} Fewer(m: nat, n: nat)
    requires m <= n
    ensures Pow256(m) <= Pow256(n)
  {
    if m < n {
      Fewer(m, n - 1);
    }
  }

  /** The bytes of the current word that have been read: those from 16 * j to p. */
  ghost predicate Reading(arr: bytes, p: nat, j: nat, left: nat, temp: nat) {
    p <= |arr| && 1 <= left <= 16 && p == 16 * j + (16 - left) && temp == Number(arr[16 * j..p]) * 256
  }

  lemma ReadStart(arr: bytes, j: nat)
    requires 16 * j <= |arr|
    ensures Reading(arr, 16 * j, j, 16, 0)
  {
  }

  lemma ReadMore(arr: bytes, p: nat, j: nat, left: nat, temp: nat)
    requires Reading(arr, p, j, left, temp) && p < |arr|
    ensures temp + arr[p] < Uint128Limit
    ensures left > 1 ==> Reading(arr, p + 1, j, left - 1, (temp + arr[p]) * 256 % Uint128Limit)
    ensures left == 1 ==> j < NumWords(|arr|) && temp + arr[p] == Words(arr)[j]
  {
    hide Number;
    assert arr[16 * j..p + 1] == arr[16 * j..p] + [arr[p]];
    ByteMore(arr[16 * j..p], arr[p]);
    if left == 1 {
      assert Chunk(arr, j) == arr[16 * j..p + 1];
    }
  }

  lemma ReadRest(arr: bytes, j: nat, left: nat, temp: nat)
    requires Reading(arr, |arr|, j, left, temp) && left < 16
    ensures j + 1 == NumWords(|arr|) && temp * Pow256(left - 1) == Words(arr)[j] < Uint128Limit
  {
    hide Number, Pow256;
    var tail := arr[16 * j..];
    assert Chunk(arr, j) == tail + Zeros(left);
    NumberShift(tail, left);
    PowerStep(left);
    WordsFit(arr, j);
    assert arr[16 * j..|arr|] == tail;
    Regroup(temp, Number(tail), Pow256(left - 1));
  }

  lemma Regroup(temp: nat, n: nat, p: nat)
    requires temp == n * 256
    ensures temp * p == n * (256 * p)
  {
  }

  lemma PowerStep(n: nat)
    requires n > 0
    ensures Pow256(n) == 256 * Pow256(n - 1)
  {
  }

  /** set_from_word_sequence for bytes. */
  method SetFromBytes(arr: bytes) returns (data: array<nat>)
    ensures data[..] == Words(arr)
  {
    hide Number, Words, Reading, Pow256;
    data := new nat[NumWords(|arr|)];
    var itr, left, temp := 0, 16, 0;
    ReadStart(arr, 0);
    var p := 0;
    while p < |arr|
      invariant 0 <= p <= |arr| && 0 <= itr <= data.Length && 0 <= left && 0 <= temp
      invariant Reading(arr, p, itr, left, temp)
      invariant forall j | 0 <= j < itr :: data[j] == Words(arr)[j]
    {
      ReadMore(arr, p, itr, left, temp);
      if left > 1 {
        temp := (temp + arr[p]) * 256 % Uint128Limit;
        left := left - 1;
      } else {
        ReadLeft(arr, p, itr, left, temp);
        temp := temp + arr[p];
        left := 16;
        data[itr] := temp;
        temp := 0;
        itr := itr + 1;
        ReadStart(arr, itr);
      }
      p := p + 1;
    }
    ReadEnd(arr, itr, left, temp);
    if left != 16 {
      ReadRest(arr, itr, left, temp);
      if left > 1 {
        temp := temp * Pow256(left - 1) % Uint128Limit;
      }
      OnePower();
      data[itr] := temp;
    }
  }

  lemma OnePower()
    ensures Pow256(0) == 1
  {
  }

  lemma ReadLeft(arr: bytes, p: nat, j: nat, left: nat, temp: nat)
    requires Reading(arr, p, j, left, temp) && left <= 1
    ensures left == 1 && p == 16 * j + 15
  {
  }

  lemma ReadEnd(arr: bytes, j: nat, left: nat, temp: nat)
    requires Reading(arr, |arr|, j, left, temp)
    ensures left <= 16 && (left == 16 ==> j == NumWords(|arr|))
  {
  }

  // ---------------------------------------------------------------- extracting

  /** The bytes of words, of which the last word gives only what is left up to `size`. */
  ghost function Unpacked(ws: seq<nat>, size: nat): (bs: bytes)
    requires |ws| == NumWords(size)
    ensures |bs| == size
  {
    seq(size, n requires 0 <= n < size => BigEndian(16, ws[n / 16])[n % 16])
  }

  /** Packing and extracting returns the same bytes, whatever their number. */
  lemma RoundTrip(bs: bytes)
    ensures Unpacked(Words(bs), |bs|) == bs
  {
    hide Words, BigEndian;
    forall n | 0 <= n < |bs|
      ensures BigEndian(16, Words(bs)[n / 16])[n % 16] == bs[n]
    {
      WordsFit(bs, n / 16);
      assert Chunk(bs, n / 16)[n % 16] == Padded(bs)[n];
    }
  }

  /** Shifting a word right leaves its first bytes. */
  lemma {:induction false} ShiftedBytes(n: nat, pad: nat, w: nat)
    requires pad <= n
    ensures BigEndian(n - pad, Quot(w, Pow256(pad))) == BigEndian(n, w)[..n - pad]
  {
    if pad == 0 {
      assert BigEndian(n, w)[..n] == BigEndian(n, w);
    } else {
      hide Quot;
      DivideTwice(w, Pow256(pad - 1));
      ShiftedBytes(n - 1, pad - 1, w / 256);
    }
  }

  lemma DivideTwice(w: nat, p: nat)
    requires p > 0
    ensures Quot(w, 256 * p) == Quot(w / 256, p)
  {
    hide Quot, Rem;
    var q, r := Quot(w / 256, p), Rem(w / 256, p);
    QuotRem(w / 256, p);
    assert w == 256 * (w / 256) + w % 256;
    assert 256 * (q * p) == q * (256 * p);
    QuotRemUnique(w, q, 256 * r + w % 256, 256 * p);
  }

  /** The inner loop: the low bytes of a number, from the last one back. */
  method WriteBytes(arr: array<byte>, at: nat, count: nat, w: nat)
    requires at + count <= arr.Length
    modifies arr
    ensures arr[..] == old(arr[..at]) + BigEndian(count, w) + old(arr[at + count..])
  {
    var left: nat, temp: nat := count, w;
    ghost var bs := BigEndian(count, w);
    while left > 0
      invariant left <= count && bs[..left] == BigEndian(left, temp)
      invariant forall i | 0 <= i < arr.Length ::
                  arr[i] == if at + left <= i < at + count then bs[i - at] else old(arr[i])
    {
      assert bs[left - 1] == bs[..left][left - 1] && bs[..left - 1] == bs[..left][..left - 1];
      arr[at + left - 1] := temp % 256;
      temp := temp / 256;
      left := left - 1;
    }
  }

  /** extract_as_byte_array. */
  method ExtractAsBytes(data: array<nat>, size: nat) returns (arr: array<byte>)
    requires data.Length == NumWords(size) && forall j | 0 <= j < data.Length :: data[j] < Uint128Limit
    ensures fresh(arr) && arr[..] == Unpacked(data[..], size)
  {
    hide BigEndian, Pow256, NumWords, Quot;
    arr := new byte[size];
    var padding := 16 * NumWords(size) - size;
    var j := 0;
    while j < data.Length
      invariant 0 <= j <= data.Length
      invariant forall n | 0 <= n < size && n / 16 < j :: arr[n] == BigEndian(16, data[n / 16])[n % 16]
    {
      var left, temp := 16, data[j];
      if j == data.Length - 1 {
        ShiftedBytes(16, padding, temp);
        left, temp := left - padding, Quot(temp, Pow256(padding));
      }
      ghost var before := arr[..];
      WriteBytes(arr, 16 * j, left, temp);
      WordWritten(before, arr[..], j, left, temp, data[j]);
      j := j + 1;
    }
  }

  lemma WordWritten(before: bytes, after: bytes, j: nat, left: nat, temp: nat, w: nat)
    requires left <= 16 && 16 * j + left <= |before|
    requires after == before[..16 * j] + BigEndian(left, temp) + before[16 * j + left..]
    requires BigEndian(left, temp) == BigEndian(16, w)[..left] && (left < 16 ==> 16 * j + left == |before|)
    ensures |after| == |before|
    ensures forall n | 0 <= n < |before| && n / 16 < j :: after[n] == before[n]
    ensures forall n | 0 <= n < |before| && n / 16 == j :: after[n] == BigEndian(16, w)[n % 16]
  {
    hide BigEndian;
    forall n | 0 <= n < |before| && n / 16 == j
      ensures after[n] == BigEndian(16, w)[n % 16]
    {
      assert n == 16 * j + n % 16;
    }
  }

  // ---------------------------------------------------------------- order

  /** The order of std::array. */
  ghost predicate WordsLess(x: seq<nat>, y: seq<nat>) {
    exists j: nat :: WordsSplitAt(x, y, j)
  }

  ghost predicate WordsSplitAt(x: seq<nat>, y: seq<nat>, j: nat) {
    j < |x| == |y| && x[..j] == y[..j] && x[j] < y[j]
  }

  lemma WordsLessAsymmetric(x: seq<nat>, y: seq<nat>)
    requires WordsLess(x, y)
    ensures !WordsLess(y, x)
  {
    var i: nat :| WordsSplitAt(x, y, i);
    assert forall j | 0 <= j < i :: x[j] == x[..i][j] == y[..i][j];
    forall j: nat
      ensures !WordsSplitAt(y, x, j)
    {
      if i < j <= |x| {
        assert x[..j][i] == x[i] && y[..j][i] == y[i];
      }
    }
  }

  lemma SplitWords(a: bytes, b: bytes, n: nat)
    requires |a| == |b| && SplitsAt(a, b, n)
    ensures WordsLess(Words(a), Words(b))
  {
    hide Number, Chunk, Words;
    var j, r := n / 16, n % 16;
    var x, y := Chunk(a, j), Chunk(b, j);
    assert n == 16 * j + r;
    SameBefore(a, b, j, r);
    ChunkAt(a, j, r);
    ChunkAt(b, j, r);
    assert SplitsAt(x, y, r);
    NumberOrder(x, y);
    forall i | 0 <= i < j
      ensures Words(a)[i] == Words(b)[i]
    {
      assert a[..16 * i + 16] == a[..n][..16 * i + 16] && b[..16 * i + 16] == b[..n][..16 * i + 16];
      SameBefore(a, b, i, 16);
      WordIs(a, i);
      WordIs(b, i);
    }
    WordIs(a, j);
    WordIs(b, j);
    assert WordsSplitAt(Words(a), Words(b), j);
  }

  lemma ChunkAt(bs: bytes, j: nat, t: nat)
    requires t < 16 && 16 * j + t < |bs|
    ensures j < NumWords(|bs|) && Chunk(bs, j)[t] == bs[16 * j + t]
  {
  }

  lemma WordIs(bs: bytes, j: nat)
    requires j < NumWords(|bs|)
    ensures Words(bs)[j] == Number(Chunk(bs, j))
  {
  }

  /** Bytes that agree up to a place in word `j` have words that agree up to it. */
  lemma SameBefore(a: bytes, b: bytes, j: nat, r: nat)
    requires |a| == |b| && r <= 16 && 16 * j + r <= |a| && j < NumWords(|a|) && a[..16 * j + r] == b[..16 * j + r]
    ensures Chunk(a, j)[..r] == Chunk(b, j)[..r]
    ensures r == 16 ==> Chunk(a, j) == Chunk(b, j)
  {
    hide Chunk;
    forall t | 0 <= t < r
      ensures Chunk(a, j)[t] == Chunk(b, j)[t]
    {
      ChunkAt(a, j, t);
      ChunkAt(b, j, t);
      assert a[16 * j + t] == a[..16 * j + r][16 * j + t] == b[..16 * j + r][16 * j + t];
    }
  }

  /** The order of the words is the lexicographic order of the bytes. */
  lemma FixedBytesOrder(a: bytes, b: bytes)
    requires |a| == |b|
    ensures WordsLess(Words(a), Words(b)) <==> LexLess(a, b)
    ensures Words(a) == Words(b) <==> a == b
  {
    hide Words, WordsLess, LexLess, Unpacked;
    RoundTrip(a);
    RoundTrip(b);
    if a == b {
      LexIrreflexive(a);
      SameWords(Words(a));
    } else {
      var k := FirstDifference(a, b, 0);
      if a[k] < b[k] {
        SplitWords(a, b, k);
        SplitIsLess(a, b, k);
      } else {
        SplitWords(b, a, k);
        SplitIsLess(b, a, k);
        WordsLessAsymmetric(Words(b), Words(a));
      }
    }
  }

  lemma SameWords(x: seq<nat>)
    ensures !WordsLess(x, x)
  {
  }
}
