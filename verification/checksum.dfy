/** The checksum path of the error detector: the data, right-padded with
    zeros to whole words of `checksumBits` bits, is summed word by word, the
    carries are folded back in (end-around carry) and the one's complement of
    the result is the checksum, as in the Internet checksum of RFC 1071,
    section 1, with a configurable width. */
module Checksums {
  import opened BitString

  /** `CHECKSUM_SIZE`, and the default word width of the four checksum
      operations (`checksum_bits=16`). */
  const ChecksumSize: nat := 16

  lemma MulMonotone(a: int, b: int, w: nat)
    requires a <= b
    ensures a * w <= b * w
  {
  }

  lemma ModUnique(x: int, m: int, d: int, r: int)
    requires m > 0 && 0 <= r < m && x == d * m + r
    ensures x / m == d && x % m == r
  {
    var q, s := x / m, x % m;
    assert x == q * m + s;
    if q > d {
      MulMonotone(d + 1, q, m);
      assert false;
    } else if q < d {
      MulMonotone(q + 1, d, m);
      assert false;
    }
  }

  lemma ModAddMultiple(a: nat, q: nat, m: nat)
    requires m > 0
    ensures (a + q * m) % m == a % m
  {
    var d, r := a / m, a % m;
    assert a == d * m + r;
    assert a + q * m == (d + q) * m + r;
    ModUnique(a + q * m, m, d + q, r);
  }

  lemma CarryShrinksBy(total: nat, p: nat)
    requires p >= 2 && total >= p
    ensures 0 < total % p + total / p < total
  {
    var q, r := total / p, total % p;
    assert total == q * p + r;
    if q == 0 { assert false; }
    MulMonotone(2, p, q);
    assert p * q == q * p;
  }

  lemma CarryCongruentBy(total: nat, p: nat)
    requires p >= 2
    ensures (total % p + total / p) % (p - 1) == total % (p - 1)
  {
    var q, r := total / p, total % p;
    assert total == q * p + r;
    assert q * p == q * (p - 1) + q;
    ModAddMultiple(q + r, q, p - 1);
  }

  lemma DivMulBounds(x: nat, w: nat)
    requires w > 0
    ensures (x / w) * w <= x < (x / w) * w + w
    ensures x % w == 0 ==> (x / w) * w == x
  {
    assert x == (x / w) * w + x % w;
  }

  lemma MulPred(c: nat, w: nat)
    requires c >= 1
    ensures (c - 1) * w == c * w - w
  {
  }

  /** Lines 83-86: right-pads the data with '0' to a multiple of the width.
      The data stays in front, and fewer than `w` bits are added (the rest
      of its shape is `PadShape`). */
  function Pad(dataBits: Bits, checksumBits: nat): (r: Bits)
    requires checksumBits > 0
    ensures |dataBits| <= |r| < |dataBits| + checksumBits && r[..|dataBits|] == dataBits
  {
    if |dataBits| % checksumBits != 0 then
      dataBits + Zeros(checksumBits - |dataBits| % checksumBits)
    else
      dataBits
  }

  /** The padded data is the data followed by fewer than `w` zeros, and a
      whole number of words. */
  lemma PadShape(d: Bits, w: nat)
    requires w > 0
    ensures |Pad(d, w)| % w == 0 && |d| <= |Pad(d, w)| < |d| + w
    ensures Pad(d, w)[..|d|] == d
    ensures forall k | |d| <= k < |Pad(d, w)| :: !Pad(d, w)[k]
  {
    var q, r := |d| / w, |d| % w;
    assert |d| == q * w + r;
    if r != 0 {
      var p := d + Zeros(w - r);
      assert Pad(d, w) == p;
      assert |p| == q * w + w;
      assert q * w + w == (q + 1) * w;
      ModUnique(|p|, w, q + 1, 0);
      assert p[..|d|] == d;
    }
  }

  /** Word number `i` of `s`: the slice `s[i * w : i * w + w]`. */
  function Word(s: Bits, w: nat, i: nat): Bits
    requires i * w + w <= |s|
  {
    s[i * w..i * w + w]
  }

  /** The sum of the values of the first `count` words of `s`. */
  function WordSum(s: Bits, w: nat, count: nat): nat
    requires count * w <= |s|
  {
    if count == 0 then 0
    else
      MulPred(count, w);
      WordSum(s, w, count - 1) + Value(Word(s, w, count - 1))
  }

  /** The end-around carry of lines 99-106: while the total does not fit in
      `w` bits, the bits above the low `w` are added back to the low `w`. */
  function Fold(total: nat, w: nat): (r: nat)
    requires w > 0
    ensures r < Pow2(w)
    ensures r == 0 <==> total == 0
    decreases total
  {
    if total <= Pow2(w) - 1 then total
    else
      CarryShrinksBy(total, Pow2(w));
      Fold(total % Pow2(w) + total / Pow2(w), w)
  }

  /** Folding the carries keeps the total modulo `2^w - 1`: the folded
      value is the one's complement sum of the words. */
  lemma {:induction false} FoldCongruent(total: nat, w: nat)
    requires w > 0
    ensures Fold(total, w) % (Pow2(w) - 1) == total % (Pow2(w) - 1)
    decreases total
  {
    if total > Pow2(w) - 1 {
      CarryShrinksBy(total, Pow2(w));
      CarryCongruentBy(total, Pow2(w));
      FoldCongruent(total % Pow2(w) + total / Pow2(w), w);
    }
  }

  /** `(~total) & max_value`, with `max_value = (1 << w) - 1`. */
  function Complement(total: nat, w: nat): (r: nat)
    ensures r < Pow2(w)
  {
    var t: int := total;
    (-t - 1) % Pow2(w)
  }

  /** For a value that fits in `w` bits the complement is `2^w - 1 - total`. */
  lemma ComplementFits(total: nat, w: nat)
    requires total < Pow2(w)
    ensures Complement(total, w) == Pow2(w) - 1 - total
  {
    var p, t: int := Pow2(w), total;
    ModUnique(-t - 1, p, -1, p - 1 - t);
  }

  /** The sum of the words of the padded data (lines 83-97). */
  function DataSum(dataBits: Bits, checksumBits: nat): nat
    requires checksumBits > 0
  {
    var data := Pad(dataBits, checksumBits);
    DivMulBounds(|data|, checksumBits);
    WordSum(data, checksumBits, |data| / checksumBits)
  }

  /** The checksum `calculate_checksum` computes: the complement of the
      folded sum of the padded data, as `checksumBits` binary digits. */
  function Checksum(dataBits: Bits, checksumBits: nat): Bits
    requires checksumBits > 0
  {
    FromNat(Complement(Fold(DataSum(dataBits, checksumBits), checksumBits), checksumBits), checksumBits)
  }

  /** The word loop shared by `calculate_checksum` (lines 89-97) and
      `verify_checksum` (lines 154-161). */
  method SumWords(bits: Bits, checksumBits: nat, numWords: nat) returns (total: nat)
    requires checksumBits > 0 && numWords * checksumBits <= |bits|
    ensures total == WordSum(bits, checksumBits, numWords)
  {
    total := 0;
    for i := 0 to numWords
      invariant i * checksumBits <= |bits|
      invariant total == WordSum(bits, checksumBits, i)
    {
      MulMonotone(i + 1, numWords, checksumBits);
      var start := i * checksumBits;
      var end := start + checksumBits;
      var word := bits[start..end];
      total := total + Value(word);
    }
  }

  /** The carry loop shared by `calculate_checksum` (lines 99-106) and
      `verify_checksum` (lines 163-166); `total >> w` is `total / 2^w` and
      `total & max_value` is `total % 2^w` on a non-negative total. */
  method EndAroundCarry(total: nat, checksumBits: nat) returns (folded: nat)
    requires checksumBits > 0
    ensures folded == Fold(total, checksumBits)
  {
    var maxValue := Pow2(checksumBits) - 1;
    folded := total;
    while folded > maxValue
      invariant Fold(folded, checksumBits) == Fold(total, checksumBits)
      decreases folded
    {
      var carry := folded / Pow2(checksumBits);
      CarryShrinksBy(folded, Pow2(checksumBits));
      folded := folded % Pow2(checksumBits) + carry;
    }
  }

  /** `calculate_checksum`: pad, sum the words, fold the carries, complement. */
  method CalculateChecksum(dataBits: Bits, checksumBits: nat := ChecksumSize) returns (checksumStr: Bits)
    requires checksumBits > 0
    ensures checksumStr == Checksum(dataBits, checksumBits)
  {
    var data := dataBits;
    if |data| % checksumBits != 0 {
      var padding := checksumBits - |data| % checksumBits;
      data := data + Zeros(padding);
    }
    var numWords := |data| / checksumBits;
    DivMulBounds(|data|, checksumBits);
    var total := SumWords(data, checksumBits, numWords);
    total := EndAroundCarry(total, checksumBits);
    var checksumValue := Complement(total, checksumBits);
    checksumStr := FromNat(checksumValue, checksumBits);
  }

  /** `add_checksum`: the data followed by its checksum, a field of exactly
      `w` bits (whose value `ChecksumComplementsSum` states). */
  function AddChecksum(dataBits: Bits, checksumBits: nat := ChecksumSize): (r: Bits)
    requires checksumBits > 0
    ensures |r| == |dataBits| + checksumBits && r[..|dataBits|] == dataBits
  {
    dataBits + Checksum(dataBits, checksumBits)
  }

  /** What `verify_checksum` really tests: every bit of every complete word
      of its input is '0'. */
  predicate CompleteWordsZero(bits: Bits, checksumBits: nat)
    requires checksumBits > 0
  {
    forall k | 0 <= k < |bits| / checksumBits * checksumBits :: !bits[k]
  }

  /** The last of `count` words ends at bit `count * w`. */
  lemma WordSumLast(s: Bits, w: nat, count: nat)
    requires count >= 1 && count * w <= |s|
    ensures (count - 1) * w + w == count * w
    ensures WordSum(s, w, count) == WordSum(s, w, count - 1) + Value(s[(count - 1) * w..count * w])
  {
    MulPred(count, w);
  }

  /** A string of one word sums to its value. */
  lemma OneWord(p: Bits, w: nat)
    requires w > 0 && |p| == w
    ensures |p| / w == 1 && WordSum(p, w, |p| / w) == Value(p)
  {
    ModUnique(|p|, w, 1, 0);
    WordSumLast(p, w, 1);
    assert p[0..w] == p;
  }

  /** The sum of some words is 0 exactly when all their bits are '0'. */
  lemma {:induction false} WordSumZero(s: Bits, w: nat, count: nat)
    requires count * w <= |s|
    ensures WordSum(s, w, count) == 0 <==> forall k | 0 <= k < count * w :: !s[k]
  {
    if count > 0 {
      var n, start := count * w, (count - 1) * w;
      WordSumLast(s, w, count);
      WordSumZero(s, w, count - 1);
      var word := s[start..n];
      ValueZero(word);
      if WordSum(s, w, count) == 0 {
        forall k | 0 <= k < n ensures !s[k] {
          if k >= start {
            assert s[k] == word[k - start];
          }
        }
      }
      if forall k | 0 <= k < n :: !s[k] {
        forall i | 0 <= i < |word| ensures !word[i] {
          assert word[i] == s[start + i];
        }
      }
    }
  }

  /** `verify_checksum`: sums every complete word of the received bits,
      folds the carries and accepts when the result is 0. */
  method VerifyChecksum(dataWithChecksum: Bits, checksumBits: nat := ChecksumSize) returns (valid: bool)
    requires checksumBits > 0
    ensures valid == CompleteWordsZero(dataWithChecksum, checksumBits)
  {
    var maxValue := Pow2(checksumBits) - 1;
    var allBits := dataWithChecksum;
    var numWords := |allBits| / checksumBits;
    DivMulBounds(|allBits|, checksumBits);
    var total := SumWords(allBits, checksumBits, numWords);
    WordSumZero(allBits, checksumBits, numWords);
    total := EndAroundCarry(total, checksumBits);
    valid := total == 0;
  }

  /** `verify_checksum_simple`: recomputes the checksum of all but the last
      `checksumBits` bits and compares it with those last bits, using
      Python's slices `[:-w]` and `[-w:]`. */
  function VerifyChecksumSimple(dataWithChecksum: Bits, checksumBits: nat := ChecksumSize): (r: (bool, Bits, Bits))
    requires checksumBits > 0
    ensures r.0 <==> (|dataWithChecksum| >= checksumBits &&
      dataWithChecksum == AddChecksum(dataWithChecksum[..|dataWithChecksum| - checksumBits], checksumBits))
  {
    var n := |dataWithChecksum|;
    var dataBits := PyDropSuffix(dataWithChecksum, checksumBits);
    var receivedChecksum := PySuffix(dataWithChecksum, checksumBits);
    assert n >= checksumBits ==>
      (dataBits == dataWithChecksum[..n - checksumBits] && dataWithChecksum == dataBits + receivedChecksum);
    var calculatedChecksum := Checksum(dataBits, checksumBits);
    (calculatedChecksum == receivedChecksum, calculatedChecksum, receivedChecksum)
  }

  /** The checksum is `w` bits long, and its value added to the folded sum of
      the data is `2^w - 1`, all ones: the one's complement relation. */
  lemma ChecksumComplementsSum(dataBits: Bits, checksumBits: nat)
    requires checksumBits > 0
    ensures |Checksum(dataBits, checksumBits)| == checksumBits
    ensures Value(Checksum(dataBits, checksumBits)) + Fold(DataSum(dataBits, checksumBits), checksumBits)
      == Pow2(checksumBits) - 1
  {
    ComplementFits(Fold(DataSum(dataBits, checksumBits), checksumBits), checksumBits);
  }

  /** Words agreeing on their bits have the same sum. */
  lemma {:induction false} WordSumPrefix(s: Bits, t: Bits, w: nat, count: nat)
    requires count * w <= |s| && count * w <= |t|
    requires s[..count * w] == t[..count * w]
    ensures WordSum(s, w, count) == WordSum(t, w, count)
  {
    if count > 0 {
      MulPred(count, w);
      var start := (count - 1) * w;
      assert s[..start] == s[..count * w][..start];
      assert t[..start] == t[..count * w][..start];
      WordSumPrefix(s, t, w, count - 1);
      assert Word(s, w, count - 1) == s[..count * w][start..];
      assert Word(t, w, count - 1) == t[..count * w][start..];
    }
  }

  /** A slice holding no '1' has value 0. */
  lemma ZeroSlice(s: Bits, lo: nat, hi: nat)
    requires lo <= hi <= |s|
    requires forall k | lo <= k < hi :: !s[k]
    ensures Value(s[lo..hi]) == 0
  {
    var slice := s[lo..hi];
    forall i | 0 <= i < |slice| ensures !slice[i] {
      assert slice[i] == s[lo + i];
    }
    ValueZero(slice);
  }

  /** Trailing all-zero words add nothing to the sum. */
  lemma {:induction false} WordSumZeroTail(s: Bits, w: nat, j: nat, count: nat)
    requires j <= count && count * w <= |s|
    requires forall k | j * w <= k < count * w :: !s[k]
    ensures WordSum(s, w, count) == WordSum(s, w, j)
  {
    if j < count {
      var lo, start, n := j * w, (count - 1) * w, count * w;
      WordSumLast(s, w, count);
      MulMonotone(j, count - 1, w);
      assert lo <= start <= n;
      ZeroSlice(s, start, n);
      WordSumZeroTail(s, w, j, count - 1);
    }
  }

  /** Appending zero bits to the data never changes its checksum: this is
      the padding rule of lines 83-86. */
  lemma ChecksumIgnoresZeroPadding(dataBits: Bits, checksumBits: nat, n: nat)
    requires checksumBits > 0
    ensures Checksum(dataBits + Zeros(n), checksumBits) == Checksum(dataBits, checksumBits)
  {
    var w := checksumBits;
    var d := dataBits;
    var p1 := Pad(d, w);
    var p2 := Pad(d + Zeros(n), w);
    PadShape(d, w);
    PadShape(d + Zeros(n), w);
    DivMulBounds(|p1|, w);
    DivMulBounds(|p2|, w);
    var c1, c2 := |p1| / w, |p2| / w;
    assert c1 <= c2 by {
      if c2 < c1 {
        MulMonotone(c2, c1 - 1, w);
        MulPred(c1, w);
      }
    }
    MulMonotone(c1, c2, w);
    assert p2[..|p1|] == p1 by {
      forall k | 0 <= k < |p1| ensures p2[k] == p1[k] {
        if k < |d| {
          assert p2[k] == (d + Zeros(n))[k];
        }
      }
    }
    assert p2[..c1 * w] == p1[..c1 * w];
    WordSumPrefix(p2, p1, w, c1);
    WordSumZeroTail(p2, w, c1, c2);
    assert DataSum(d + Zeros(n), w) == DataSum(d, w);
  }

  /** The round trip that holds: `verify_checksum_simple` accepts every frame
      `add_checksum` builds and reports the checksum on both sides. */
  lemma VerifySimpleRoundTrip(dataBits: Bits, checksumBits: nat)
    requires checksumBits > 0
    ensures var c := Checksum(dataBits, checksumBits);
      VerifyChecksumSimple(AddChecksum(dataBits, checksumBits), checksumBits) == (true, c, c)
  {
    var c := Checksum(dataBits, checksumBits);
    ChecksumComplementsSum(dataBits, checksumBits);
    var x := dataBits + c;
    assert PyDropSuffix(x, checksumBits) == dataBits;
    assert PySuffix(x, checksumBits) == c;
  }

  /** A string starts with '1' exactly when its value is at least
      `2^(n-1)`. */
  lemma {:induction false} ValueHighBit(s: Bits)
    requires |s| >= 1
    ensures s[0] <==> Value(s) >= Pow2(|s| - 1)
  {
    ValueConcat([s[0]], s[1..]);
    assert [s[0]] + s[1..] == s;
    assert Value([s[0]]) == Bit(s[0]);
  }

  /** The whole words of `n + w` bits reach beyond the first `n`. */
  lemma WholeWordsCover(n: nat, w: nat)
    requires w > 0
    ensures n < (n + w) / w * w
  {
    var q, r := n / w, n % w;
    assert n == q * w + r;
    assert n + w == (q + 1) * w + r;
    ModUnique(n + w, w, q + 1, r);
  }

  /** Data holding no '1' sums to 0. */
  lemma ZeroDataSum(dataBits: Bits, checksumBits: nat)
    requires checksumBits > 0
    requires forall k | 0 <= k < |dataBits| :: !dataBits[k]
    ensures DataSum(dataBits, checksumBits) == 0
  {
    var w := checksumBits;
    var p := Pad(dataBits, w);
    PadShape(dataBits, w);
    forall k | 0 <= k < |p| ensures !p[k] {
      if k < |dataBits| {
        assert p[k] == p[..|dataBits|][k];
      }
    }
    DivMulBounds(|p|, w);
    WordSumZero(p, w, |p| / w);
  }

  /** The checksum of data holding no '1' starts with '1': the sum is 0, so
      the checksum is all ones. */
  lemma ZeroDataChecksumHighBit(dataBits: Bits, checksumBits: nat)
    requires checksumBits > 0
    requires forall k | 0 <= k < |dataBits| :: !dataBits[k]
    ensures Checksum(dataBits, checksumBits)[0]
  {
    var w := checksumBits;
    var c := Checksum(dataBits, w);
    ChecksumComplementsSum(dataBits, w);
    ZeroDataSum(dataBits, w);
    assert Value(c) == Pow2(w) - 1;
    assert Pow2(w) == 2 * Pow2(w - 1);
    ValueHighBit(c);
  }

  /** As written, `verify_checksum` rejects every frame `add_checksum` builds:
      the complete words always reach the first checksum bit, and that bit is
      '1' whenever the data bits are all '0'. */
  lemma VerifyChecksumRejectsEveryFrame(dataBits: Bits, checksumBits: nat)
    requires checksumBits > 0
    ensures !CompleteWordsZero(AddChecksum(dataBits, checksumBits), checksumBits)
  {
    var w := checksumBits;
    var d := dataBits;
    var c := Checksum(d, w);
    ChecksumComplementsSum(d, w);
    var x := AddChecksum(d, w);
    WholeWordsCover(|d|, w);
    assert |d| < |x| / w * w;
    assert x[|d|] == c[0];
    if CompleteWordsZero(x, w) {
      assert forall k | 0 <= k < |d| :: x[k] == d[k];
      ZeroDataChecksumHighBit(d, w);
      assert false;
    }
  }

  /** The rule `verify_checksum` evidently intends, corrected: the data part
      is padded and summed exactly as `calculate_checksum` sums it, the
      received checksum is added as one more word, and a frame is valid when
      the folded total is all ones (RFC 1071, section 1). */
  function VerifyChecksumOnesSum(dataWithChecksum: Bits, checksumBits: nat): bool
    requires checksumBits > 0
  {
    var dataBits := PyDropSuffix(dataWithChecksum, checksumBits);
    var receivedChecksum := PySuffix(dataWithChecksum, checksumBits);
    Fold(DataSum(dataBits, checksumBits) + Value(receivedChecksum), checksumBits) == Pow2(checksumBits) - 1
  }

  /** Two values with the same residue modulo `m`: adding the complement
      `v = m - y` of the second to the first gives a multiple of `m`. */
  lemma SubCongruent(x: nat, y: nat, v: nat, m: nat)
    requires m > 0 && v + y == m && x % m == y % m
    ensures (x + v) % m == 0
  {
    var a, b, c := x / m, x % m, y / m;
    assert x == a * m + b;
    assert y == c * m + b;
    assert x + v == (a - c + 1) * m;
    ModUnique(x + v, m, a - c + 1, 0);
  }

  /** A folded value in `1 .. 2^w - 1` that is 0 modulo `2^w - 1` is all ones. */
  lemma FoldAllOnes(total: nat, w: nat)
    requires w > 0 && total > 0 && total % (Pow2(w) - 1) == 0
    ensures Fold(total, w) == Pow2(w) - 1
  {
    FoldCongruent(total, w);
    var f := Fold(total, w);
    var m := Pow2(w) - 1;
    if f < m {
      ModUnique(f, m, 0, f);
    }
  }

  /** Whatever `verify_checksum_simple` accepts, the corrected one's
      complement rule accepts too. */
  lemma VerifySimpleImpliesOnesSum(dataWithChecksum: Bits, checksumBits: nat)
    requires checksumBits > 0
    ensures VerifyChecksumSimple(dataWithChecksum, checksumBits).0 ==>
      VerifyChecksumOnesSum(dataWithChecksum, checksumBits)
  {
    var w := checksumBits;
    var dataBits := PyDropSuffix(dataWithChecksum, w);
    var received := PySuffix(dataWithChecksum, w);
    if VerifyChecksumSimple(dataWithChecksum, w).0 {
      ChecksumComplementsSum(dataBits, w);
      var s := DataSum(dataBits, w);
      var f := Fold(s, w);
      var m := Pow2(w) - 1;
      assert Value(received) == m - f;
      FoldCongruent(s, w);
      SubCongruent(s, f, Value(received), m);
      assert s + Value(received) > 0;
      FoldAllOnes(s + Value(received), w);
    }
  }

  /** The corrected verifier accepts every frame `add_checksum` builds. */
  lemma VerifyOnesSumRoundTrip(dataBits: Bits, checksumBits: nat)
    requires checksumBits > 0
    ensures VerifyChecksumOnesSum(AddChecksum(dataBits, checksumBits), checksumBits)
  {
    VerifySimpleRoundTrip(dataBits, checksumBits);
    VerifySimpleImpliesOnesSum(AddChecksum(dataBits, checksumBits), checksumBits);
  }
  /** Padding commutes with inverting a data bit. */
  lemma {:induction false} PadFlip(d: Bits, w: nat, k: nat)
    requires w > 0 && k < |d|
    ensures Pad(Flip(d, k), w) == Flip(Pad(d, w), k)
  {
    if |d| % w != 0 {
      var z := Zeros(w - |d| % w);
      assert Flip(d, k) + z == Flip(d + z, k);
    }
  }

  /** Inverting bit `k` inverts bit `k - lo` of a slice around it and keeps
      the bits before `lo`. */
  lemma {:induction false} FlipInside(s: Bits, lo: nat, hi: nat, k: nat)
    requires lo <= k < hi <= |s|
    ensures Flip(s, k)[lo..hi] == Flip(s[lo..hi], k - lo)
    ensures Flip(s, k)[..lo] == s[..lo]
  {
  }

  /** Inverting bit `k` keeps every slice that starts after it. */
  lemma {:induction false} FlipBefore(s: Bits, lo: nat, hi: nat, k: nat)
    requires k < lo <= hi <= |s|
    ensures Flip(s, k)[lo..hi] == s[lo..hi]
  {
  }

  /** Inverting one bit among the first `count` words moves their sum by a
      power of two below `2^w`: never by 0, by at most `2^(w-1)`. */
  lemma {:induction false} WordSumFlip(s: Bits, w: nat, count: nat, k: nat)
    requires w > 0 && k < count * w <= |s|
    ensures WordSum(Flip(s, k), w, count) != WordSum(s, w, count)
    ensures WordSum(Flip(s, k), w, count) <= WordSum(s, w, count) + Pow2(w - 1)
    ensures WordSum(s, w, count) <= WordSum(Flip(s, k), w, count) + Pow2(w - 1)
  {
    MulPred(count, w);
    if k >= (count - 1) * w {
      LastWordFlip(s, w, count, k);
    } else {
      WordSumFlip(s, w, count - 1, k);
      EarlierWordFlip(s, w, count, k);
    }
  }

  /** The step of `WordSumFlip` for a bit in the last of the words. */
  lemma {:induction false} LastWordFlip(s: Bits, w: nat, count: nat, k: nat)
    requires w > 0 && count >= 1 && (count - 1) * w <= k < count * w <= |s|
    ensures WordSum(Flip(s, k), w, count) != WordSum(s, w, count)
    ensures WordSum(Flip(s, k), w, count) <= WordSum(s, w, count) + Pow2(w - 1)
    ensures WordSum(s, w, count) <= WordSum(Flip(s, k), w, count) + Pow2(w - 1)
  {
    var f := Flip(s, k);
    WordSumLast(s, w, count);
    WordSumLast(f, w, count);
    var start, n := (count - 1) * w, count * w;
    FlipInside(s, start, n, k);
    WordSumPrefix(f, s, w, count - 1);
    SliceFlip(s, start, n, k);
    MovedTerm(WordSum(s, w, count - 1), Value(s[start..n]), Value(f[start..n]), Pow2(w - 1));
  }

  /** The step of `WordSumFlip` for a bit before the last word: the sum
      moves as the sum of the words before it does. */
  lemma {:induction false} EarlierWordFlip(s: Bits, w: nat, count: nat, k: nat)
    requires w > 0 && count >= 1 && k < (count - 1) * w && count * w <= |s|
    requires WordSum(Flip(s, k), w, count - 1) != WordSum(s, w, count - 1)
    requires WordSum(Flip(s, k), w, count - 1) <= WordSum(s, w, count - 1) + Pow2(w - 1)
    requires WordSum(s, w, count - 1) <= WordSum(Flip(s, k), w, count - 1) + Pow2(w - 1)
    ensures WordSum(Flip(s, k), w, count) != WordSum(s, w, count)
    ensures WordSum(Flip(s, k), w, count) <= WordSum(s, w, count) + Pow2(w - 1)
    ensures WordSum(s, w, count) <= WordSum(Flip(s, k), w, count) + Pow2(w - 1)
  {
    var f := Flip(s, k);
    WordSumLast(s, w, count);
    WordSumLast(f, w, count);
    var start, n := (count - 1) * w, count * w;
    FlipBefore(s, start, n, k);
    MovedTerm(Value(s[start..n]), WordSum(s, w, count - 1), WordSum(f, w, count - 1), Pow2(w - 1));
  }

  /** Inverting a bit inside a slice moves the slice's value (`ValueFlip`). */
  lemma {:induction false} SliceFlip(s: Bits, lo: nat, hi: nat, k: nat)
    requires lo <= k < hi <= |s|
    ensures Value(Flip(s, k)[lo..hi]) != Value(s[lo..hi])
    ensures Value(Flip(s, k)[lo..hi]) <= Value(s[lo..hi]) + Pow2(hi - lo - 1)
    ensures Value(s[lo..hi]) <= Value(Flip(s, k)[lo..hi]) + Pow2(hi - lo - 1)
  {
    FlipInside(s, lo, hi, k);
    ValueFlip(s[lo..hi], k - lo);
  }

  /** Moving one term of a sum moves the sum by as much. */
  lemma MovedTerm(a: int, x: int, y: int, p: int)
    requires y != x && y <= x + p && x <= y + p
    ensures a + y != a + x && a + y <= a + x + p && a + x <= a + y + p
    ensures y + a != x + a && y + a <= x + a + p && x + a <= y + a + p
  {
  }

  /** Inverting one data bit moves the data sum by a power of two below
      `2^w`. */
  lemma {:induction false} DataSumFlip(d: Bits, w: nat, k: nat)
    requires w > 0 && k < |d|
    ensures DataSum(Flip(d, k), w) != DataSum(d, w)
    ensures DataSum(Flip(d, k), w) <= DataSum(d, w) + Pow2(w - 1)
    ensures DataSum(d, w) <= DataSum(Flip(d, k), w) + Pow2(w - 1)
  {
    var p := Pad(d, w);
    PadFlip(d, w, k);
    PadShape(d, w);
    DivMulBounds(|p|, w);
    WordSumFlip(p, w, |p| / w, k);
  }

  /** Two distinct multiples of `m` are at least `m` apart. */
  lemma DistinctMultiples(a: nat, b: nat, m: nat)
    requires m > 0 && a % m == 0 && b % m == 0 && a != b
    ensures a >= b + m || b >= a + m
  {
    var qa, qb := a / m, b / m;
    assert a == qa * m && b == qb * m;
    if qa > qb {
      MulMonotone(qb + 1, qa, m);
    } else {
      MulMonotone(qa + 1, qb, m);
    }
  }

  /** A total that is 0 modulo `2^w - 1`, moved by a non-zero amount of at
      most `2^(w-1)`, no longer folds to all ones. */
  lemma OnesSumNeighbour(t0: nat, t1: nat, w: nat)
    requires w >= 2 && t0 % (Pow2(w) - 1) == 0 && t1 != t0
    requires t1 <= t0 + Pow2(w - 1) && t0 <= t1 + Pow2(w - 1)
    ensures Fold(t1, w) != Pow2(w) - 1
  {
    var m := Pow2(w) - 1;
    Pow2Monotone(1, w - 1);
    assert Pow2(1) == 2;
    assert Pow2(w) == 2 * Pow2(w - 1);
    if Fold(t1, w) == m {
      FoldCongruent(t1, w);
      ModUnique(m, m, 1, 0);
      DistinctMultiples(t0, t1, m);
      assert false;
    }
  }

  /** A frame of `n + w` bits splits into the data `[:-w]` and the checksum
      `[-w:]` at `n`. */
  lemma {:induction false} FrameParts(y: Bits, n: nat, w: nat)
    requires w > 0 && |y| == n + w
    ensures PyDropSuffix(y, w) == y[..n] && PySuffix(y, w) == y[n..]
    ensures VerifyChecksumOnesSum(y, w) <==> Fold(DataSum(y[..n], w) + Value(y[n..]), w) == Pow2(w) - 1
  {
    assert PyDropSuffix(y, w) == y[..n] && PySuffix(y, w) == y[n..];
  }

  /** The frame of `d` and its checksum totals to a multiple of `2^w - 1`. */
  lemma {:induction false} FrameTotalMultiple(d: Bits, w: nat)
    requires w > 0
    ensures (DataSum(d, w) + Value(Checksum(d, w))) % (Pow2(w) - 1) == 0
  {
    var s := DataSum(d, w);
    var f, m := Fold(s, w), Pow2(w) - 1;
    assert Pow2(w) == 2 * Pow2(w - 1);
    ChecksumComplementsSum(d, w);
    FoldCongruent(s, w);
    SubCongruent(s, f, Value(Checksum(d, w)), m);
  }

  /** Inverting one bit of a frame, in its data or in its checksum field,
      moves the frame's total (data sum plus checksum value) by a power of
      two below `2^w`. */
  lemma {:induction false} FlippedFrameTotal(d: Bits, c: Bits, w: nat, k: nat)
    requires w > 0 && |c| == w && k < |d| + w
    ensures var y, n := Flip(d + c, k), |d|;
      var t0, t1 := DataSum(d, w) + Value(c), DataSum(y[..n], w) + Value(y[n..]);
      t1 != t0 && t1 <= t0 + Pow2(w - 1) && t0 <= t1 + Pow2(w - 1)
  {
    var y, n := Flip(d + c, k), |d|;
    if k < n {
      FlipInside(d + c, 0, n, k);
      FlipBefore(d + c, n, n + w, k);
      assert y[..n] == Flip(d, k) && y[n..] == c;
      DataSumFlip(d, w, k);
    } else {
      FlipInside(d + c, n, n + w, k);
      assert y[..n] == d && y[n..] == Flip(c, k - n);
      ValueFlip(c, k - n);
    }
  }

  /** The corrected verifier detects every single-bit error: inverting any
      bit of a frame `add_checksum` builds, data or checksum, makes it fail
      (for words of at least two bits). */
  lemma {:induction false} OnesSumDetectsSingleFlip(dataBits: Bits, checksumBits: nat, k: nat)
    requires checksumBits >= 2 && k < |dataBits| + checksumBits
    ensures !VerifyChecksumOnesSum(Flip(AddChecksum(dataBits, checksumBits), k), checksumBits)
  {
    var w, d := checksumBits, dataBits;
    var n := |d|;
    var c := Checksum(d, w);
    ChecksumComplementsSum(d, w);
    var y := Flip(d + c, k);
    FrameParts(y, n, w);
    var t0 := DataSum(d, w) + Value(c);
    var t1 := DataSum(y[..n], w) + Value(y[n..]);
    assert t0 % (Pow2(w) - 1) == 0 by {
      FrameTotalMultiple(d, w);
    }
    FlippedFrameTotal(d, c, w, k);
    OnesSumNeighbour(t0, t1, w);
  }

  /** The data '1' followed by `w - 2` zeros pads to one word whose value
      is `2^(w-1)`. */
  lemma {:induction false} HighBitDataSum(w: nat)
    requires w >= 2
    ensures DataSum([true] + Zeros(w - 2), w) == Pow2(w - 1)
  {
    var d := [true] + Zeros(w - 2);
    var p := [true] + Zeros(w - 1);
    ModUnique(|d|, w, 0, w - 1);
    assert Pad(d, w) == p;
    OneWord(p, w);
    ValueConcat([true], Zeros(w - 1));
    ValueZero(Zeros(w - 1));
    assert Value([true]) == 1;
  }

  /** As written, `verify_checksum` accepts a corrupted frame: for the data
      '1' followed by `w - 2` zeros, inverting the first bit of the frame
      `add_checksum` builds leaves its only complete word all '0'. */
  lemma {:induction false} VerifyChecksumAcceptsCorruptedFrame(checksumBits: nat)
    requires checksumBits >= 2
    ensures CompleteWordsZero(Flip(AddChecksum([true] + Zeros(checksumBits - 2), checksumBits), 0), checksumBits)
  {
    var w := checksumBits;
    var d := [true] + Zeros(w - 2);
    HighBitDataSum(w);
    assert Pow2(w) == 2 * Pow2(w - 1);
    var c := Checksum(d, w);
    ChecksumComplementsSum(d, w);
    ValueHighBit(c);
    var y := Flip(d + c, 0);
    ModUnique(|y|, w, 1, w - 1);
    forall k | 0 <= k < |y| / w * w ensures !y[k] {
      if k == |d| {
        assert y[k] == c[0];
      } else if k > 0 {
        assert y[k] == d[k];
      }
    }
  }

  /** The two verifiers do not agree: one's complement has two zeros. Data
      of `w` ones has the all-zero checksum, so the frame of `w` ones twice
      passes the corrected rule but fails `verify_checksum_simple`. */
  lemma OnesSumAcceptsNegativeZero(checksumBits: nat)
    requires checksumBits > 0
    ensures VerifyChecksumOnesSum(AllSet(checksumBits) + AllSet(checksumBits), checksumBits)
    ensures !VerifyChecksumSimple(AllSet(checksumBits) + AllSet(checksumBits), checksumBits).0
  {
    var w, s := checksumBits, AllSet(checksumBits);
    var m := Pow2(w) - 1;
    assert PyDropSuffix(s + s, w) == s;
    assert PySuffix(s + s, w) == s;
    ValueAllSet(w);
    assert Pow2(w) == 2 * Pow2(w - 1);
    assert DataSum(s, w) == m by {
      ModUnique(w, w, 1, 0);
      assert Pad(s, w) == s;
      OneWord(s, w);
    }
    ChecksumComplementsSum(s, w);
    assert Value(Checksum(s, w)) != Value(s);
    ModUnique(m + m, m, 2, 0);
    FoldAllOnes(m + m, w);
  }
}
